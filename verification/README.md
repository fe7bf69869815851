# Hadith and Quran text search, modelled in Dafny

This project models the search logic of two views of a desktop reading app:

- **Hadith search** (`src/renderer/src/HadithLearn.jsx`). Typing lowercases the query and hands it to a debounced search. When the debounce timer fires, a blank query clears the results. Otherwise every one of seventeen hadith books is filtered in its declared order. Phrase mode looks for the query as one block. Word mode requires every space-separated word to be found in some field. Each match is tagged with its book's name.
- **Quran filter** (`src/renderer/src/App.jsx`). On every change of the search text or mode, the whole Quran is filtered afresh. Exact mode keeps verses containing the whole lowercased query. Contains mode keeps verses containing every non-empty word. A chapter stays when its metadata contains the query or some verse matches, and it keeps only its matching verses. The chapter and verse selection is cleared.

Modules:

| module | file | contents |
|---|---|---|
| `Options` | Options.dfy | `Option`, for the optional English part of a hadith and the selection |
| `Text` | Text.dfy | `includes`, `split(" ")` and its inverse `join`, `trim`, and what is assumed of `toLowerCase` |
| `Sequences` | Sequences.dfy | order-preserving subsequences |
| `Debounce` | Debounce.dfy | the `debounce` helper as a one-slot state machine |
| `HadithSearch` | HadithSearch.dfy | the hadith predicates, per-book filtering, aggregation, the blank-query guard, keystrokes |
| `QuranFilter` | QuranFilter.dfy | verse and chapter predicates, the chapter filter, the view state it resets |

Modelling choices:

- `toLowerCase` has no definition here. Every operation that lowercases takes it as a parameter `lower: string -> string`. Where a proof needs a property of it, the lemma says so in its `requires`: either `lower([]) == []` alone, or one or both of these predicates:
  - `Compositional(lower)`: lowering a concatenation is the concatenation of the lowered parts. This is what "applied character by character" amounts to.
  - `Idempotent(lower)`: lowering twice is lowering once.

  Neither predicate claims full Unicode case-mapping semantics. The real `toLowerCase` is not compositional: final sigma makes `"ΑΣ"` lower to `"ας"`, while its halves lower to `"α"` and `"σ"`. So a lemma that needs only the empty string to lower to itself, as `"".toLowerCase()` does, requires just `lower([]) == []`. `Text.LowerEmpty` shows that this requirement is weaker than `Compositional`: every compositional lowering meets it.
- `trim` strips the characters that ECMAScript counts as WhiteSpace or LineTerminator (`Text.IsWhitespace`).
- Strings are `seq<char>`, and Dafny's `char` is a Unicode scalar value. JavaScript compares UTF-16 code units; for `includes` and `split(" ")` the two agree except on lone surrogates.
- A hadith result `{ ...hadith, bookName }` is modelled as `Tagged(hadith, bookName)`, which keeps the record unchanged next to its tag.
- The chapter JSON field `type` is called `revelationType`, because `type` is a Dafny keyword.
- Loading a book is not modelled: each book's records are given as a `seq<Hadith>`.
- The debounce sees only two events: a call, and the pending timer running out. Real time and the 300 ms delay are not modelled.

The model follows the code as written, including where it lacks safeguards a search like this often has:
- There is no search generation counter, so nothing checks that a finished search is still the latest.
- The code keeps no cache of loaded books of its own (the module loader's cache is outside it), and it does not recover from a failed load. A failed `import()` aborts the whole search.
- Hadith word mode keeps empty words produced by consecutive spaces. Such a word is found in every record.
- Hadith phrase mode searches the Arabic text without lowercasing it. Word mode lowercases all fields.
- The Quran view tests chapter metadata against the whole query, in both modes.

## Model

| member | source | states |
|---|---|---|
| Text.Includes | src/renderer/src/HadithLearn.jsx:58 | `includes`: the query is a prefix of the string or of one of its suffixes (definition, characterised by `IncludesIffOccurs`) |
| Text.IncludesIffOccurs | src/renderer/src/HadithLearn.jsx:58 | `includes` holds exactly when the query occurs as a contiguous block at some index of the string |
| Text.IncludesEmpty | src/renderer/src/App.jsx:55 | the empty query is included in every string |
| Text.Split | src/renderer/src/HadithLearn.jsx:64 | `split(" ")` yields at least one piece, and no piece contains the separator |
| Text.JoinSplit | src/renderer/src/HadithLearn.jsx:64 | joining the pieces of a split with the separator gives back the original string |
| Text.SplitJoin | src/renderer/src/HadithLearn.jsx:64 | splitting a join of separator-free pieces gives back exactly those pieces |
| Text.SplitAroundSeparator | src/renderer/src/HadithLearn.jsx:64 | splitting `a + " " + b` gives the pieces of `a` followed by the pieces of `b` |
| Text.SplitWithoutSeparator | src/renderer/src/HadithLearn.jsx:64 | a string without a space splits into itself alone |
| Text.IsWhitespace | src/renderer/src/HadithLearn.jsx:43 | the characters `trim` removes: ECMAScript WhiteSpace and LineTerminator code points (definition) |
| Text.Trim | src/renderer/src/HadithLearn.jsx:43 | `trim` returns a contiguous block of the input with only whitespace before and after it, that neither starts nor ends with whitespace; the block is empty iff the input is all whitespace; a string without whitespace is unchanged |
| Text.LowerEmpty | src/renderer/src/HadithLearn.jsx:64 | a piecewise lowering maps the empty word to the empty word |
| Text.LowerKeepsIncludes | src/renderer/src/HadithLearn.jsx:67 | under a piecewise lowering, a block found in a string is still found, lowered, in the lowered string |
| Debounce.Fresh | src/renderer/src/HadithLearn.jsx:193 | a newly created debounced function has no pending timer (definition) |
| Debounce.Step | src/renderer/src/HadithLearn.jsx:192-202 | one event: a call replaces the pending arguments and invokes nothing; the timer running out invokes the function once on the pending arguments and clears them, or does nothing when none are pending (definition) |
| Debounce.Run | src/renderer/src/HadithLearn.jsx:192-202 | a trace of events, step by step, collecting the invocations in order (definition) |
| Debounce.CallsOnlyReplace | src/renderer/src/HadithLearn.jsx:194-200 | while calls keep arriving nothing is invoked; each call clears the previous one, so only the last call stays pending |
| Debounce.LastCallWins | src/renderer/src/HadithLearn.jsx:192-202 | a burst of calls followed by the timer running out invokes the function exactly once, with the last call's arguments, and leaves nothing pending |
| Debounce.InvocationsComeFromCalls | src/renderer/src/HadithLearn.jsx:192-202 | every invocation carries the arguments of some call in the trace, or of the call already pending when the trace began |
| Debounce.AtMostOneInvocationPerCall | src/renderer/src/HadithLearn.jsx:195-200 | a trace invokes the function at most once per call, plus once for a call pending at the start |
| HadithSearch.Library | src/renderer/src/HadithLearn.jsx:5-23 | the searched books are the seventeen named books, in declaration order, each with its own loaded records |
| HadithSearch.PhraseMatch | src/renderer/src/HadithLearn.jsx:55-61 | phrase mode: the query is in the unlowered Arabic text, or, when the English part exists, in its lowered narrator or text (definition) |
| HadithSearch.WordFound | src/renderer/src/HadithLearn.jsx:66-70 | one word is in the lowered Arabic text, or in the lowered narrator or text of an existing English part (definition) |
| HadithSearch.WordOf | src/renderer/src/HadithLearn.jsx:64 | the word made from one piece of the split query: trimmed, then lowered (definition) |
| HadithSearch.WordMatch | src/renderer/src/HadithLearn.jsx:64-71 | word mode: every piece of the query split at single spaces, empty pieces included, gives a word found in the record (definition) |
| HadithSearch.Matches | src/renderer/src/HadithLearn.jsx:54-73 | the filter callback: phrase or word mode according to the search type (definition) |
| HadithSearch.BookResults | src/renderer/src/HadithLearn.jsx:53-74 | one book's results: every result matches and is tagged with the book's name; every matching record of the book appears |
| HadithSearch.BookResultsOrder | src/renderer/src/HadithLearn.jsx:53-74 | the records of a book's results form an order-preserving subsequence of the book |
| HadithSearch.BookResultsCount | src/renderer/src/HadithLearn.jsx:53-74 | `filter` keeps each matching record, tagged, exactly as many times as the book holds it, and no other record |
| HadithSearch.AllResults | src/renderer/src/HadithLearn.jsx:51-76 | the results of the books in order, each book's results appended after those of the books before it (definition) |
| HadithSearch.AllResultsSound | src/renderer/src/HadithLearn.jsx:51-76 | every result is a matching record of some book, tagged with that book's name |
| HadithSearch.AllResultsComplete | src/renderer/src/HadithLearn.jsx:51-76 | every matching record of every book appears among the results, tagged with its book's name |
| HadithSearch.AllResultsSnoc | src/renderer/src/HadithLearn.jsx:51-76 | handling one more book appends exactly that book's tagged results to what was already collected |
| HadithSearch.AllResultsAppend | src/renderer/src/HadithLearn.jsx:51-76 | results follow book order: the results for a list of books are the first books' results followed by the remaining books' results |
| HadithSearch.SingleBook | src/renderer/src/HadithLearn.jsx:53-75 | searching one book alone gives exactly that book's filtered, tagged records |
| HadithSearch.SearchResults | src/renderer/src/HadithLearn.jsx:43-46 | a query that is empty or all whitespace yields no results and filters no book; any other query yields the results of all books |
| HadithSearch.Search | src/renderer/src/HadithLearn.jsx:42-80 | the search loop, which appends each book's results in turn, computes exactly the guarded all-books result |
| HadithSearch.LibraryProvenance | src/renderer/src/HadithLearn.jsx:74 | every result of a library search is tagged with one of the seventeen book names |
| HadithSearch.PhraseMatchOccurs | src/renderer/src/HadithLearn.jsx:55-61 | phrase mode matches iff the query occurs at some index of the unlowered Arabic text, or of the lowered narrator or text when the English part is present |
| HadithSearch.ArabicOnlyRecord | src/renderer/src/HadithLearn.jsx:57-70 | a record without an English part matches only through its Arabic text, in both modes |
| HadithSearch.WordMatchConjunctive | src/renderer/src/HadithLearn.jsx:64-71 | word mode is a conjunction over words: `q1 + " " + q2` matches iff both `q1` and `q2` match |
| HadithSearch.WordMatchMonotone | src/renderer/src/HadithLearn.jsx:64-71 | adding a word to a word-mode query never adds matches |
| HadithSearch.WordMatchOrderInsensitive | src/renderer/src/HadithLearn.jsx:64-71 | any rearrangement of the query's pieces, joined with single spaces, gives the same word-mode verdict |
| HadithSearch.EmptyWordFoundEverywhere | src/renderer/src/HadithLearn.jsx:64-70 | when lowering maps the empty string to itself, as `"".toLowerCase()` does, the empty word is found in every record |
| HadithSearch.DoubleSpaceHarmless | src/renderer/src/HadithLearn.jsx:64 | when lowering maps the empty string to itself, replacing a single space by two leaves the word-mode verdict unchanged |
| HadithSearch.PhraseImpliesWordForOneWord | src/renderer/src/HadithLearn.jsx:55-85 | for a one-word query already lowercased by the keystroke handler, a phrase match is also a word match, assuming the lowering is piecewise and idempotent and the word has no whitespace |
| HadithSearch.Keystrokes | src/renderer/src/HadithLearn.jsx:84-88 | each keystroke's input value, lowercased, becomes one call to the debounced search (definition) |
| HadithSearch.KeystrokeBurstSearchesOnce | src/renderer/src/HadithLearn.jsx:84-88 | a burst of keystrokes followed by quiet runs the search exactly once, on the lowercased last input value |
| QuranFilter.NonEmpty | src/renderer/src/App.jsx:48 | `filter(Boolean)` keeps the non-empty strings and only those, as an order-preserving subsequence |
| QuranFilter.NonEmptyCount | src/renderer/src/App.jsx:48 | `filter(Boolean)` keeps each non-empty string exactly as many times as it occurs, and drops every empty one |
| QuranFilter.QueryWords | src/renderer/src/App.jsx:47-48 | contains-mode words are non-empty and contain no space |
| QuranFilter.QueryWordsNoneOnlyForSpaces | src/renderer/src/App.jsx:48 | the query has no words exactly when it is empty or all spaces |
| QuranFilter.InVerse | src/renderer/src/App.jsx:55-56 | a string is in the lowered text or the lowered translation of a verse (definition) |
| QuranFilter.VerseMatches | src/renderer/src/App.jsx:51-65 | exact mode: the whole lowercased query is in the verse; contains mode: every query word is (definition) |
| QuranFilter.MetaMatches | src/renderer/src/App.jsx:68-71 | the whole lowercased query is in the lowered name, transliteration, translation or revelation type of the chapter (definition) |
| QuranFilter.Retained | src/renderer/src/App.jsx:67-73 | a chapter stays when its metadata matches or at least one verse matches (definition) |
| QuranFilter.Narrowed | src/renderer/src/App.jsx:74 | the chapter with every field unchanged except its verses, which become the matching verses (definition) |
| QuranFilter.MatchingVerses | src/renderer/src/App.jsx:51-65 | the kept verses all match and form an order-preserving subsequence of the chapter's verses |
| QuranFilter.MatchingVersesComplete | src/renderer/src/App.jsx:51-65 | every matching verse of the chapter is kept |
| QuranFilter.MatchingVersesCount | src/renderer/src/App.jsx:51-65 | `filter` keeps each matching verse exactly as many times as the chapter holds it, and no other verse |
| QuranFilter.ExactModeOccurs | src/renderer/src/App.jsx:52-57 | exact mode matches iff the lowercased query occurs at some index of the lowered verse text or of the lowered translation |
| QuranFilter.NoWordsMatchEveryVerse | src/renderer/src/App.jsx:58-63 | contains mode with an empty or all-space query matches every verse |
| QuranFilter.ModesAgreeOnVerse | src/renderer/src/App.jsx:52-63 | for a lowercased query without a space, exact and contains modes accept the same verses; this includes the empty query |
| QuranFilter.ModesAgreeWithoutSpace | src/renderer/src/App.jsx:47-63 | when the lowercased query has no space, both modes produce the same chapter list |
| QuranFilter.FilterChapters | src/renderer/src/App.jsx:50-79 | each chapter mapped to its narrowing when retained and to nothing otherwise, the gaps then removed (definition) |
| QuranFilter.RetainedIndices | src/renderer/src/App.jsx:67-79 | the positions of the retained chapters: each one retained, strictly increasing, and every retained position listed |
| QuranFilter.FilterChaptersByIndex | src/renderer/src/App.jsx:50-79 | the output's `j`-th chapter is the narrowing of the `j`-th retained input chapter, and there are as many outputs as retained chapters, repeats included |
| QuranFilter.FilterQuran | src/renderer/src/App.jsx:46-79 | the effect's list: the whole Quran filtered by the lowercased query (definition) |
| QuranFilter.FilterChaptersSound | src/renderer/src/App.jsx:50-79 | each output chapter is a retained input chapter that differs only in having its verses narrowed to the matching ones |
| QuranFilter.FilterChaptersComplete | src/renderer/src/App.jsx:50-79 | every retained input chapter appears, narrowed, in the output |
| QuranFilter.FilterChaptersOrder | src/renderer/src/App.jsx:50-79 | the output's chapter headings are an order-preserving subsequence of the input's |
| QuranFilter.AllMatchKeepsVerses | src/renderer/src/App.jsx:51-65 | when every verse matches, narrowing changes nothing |
| QuranFilter.EmptyQueryKeepsAll | src/renderer/src/App.jsx:46-79 | when lowering maps the empty string to itself, the empty query keeps every chapter with all its verses, in both modes |
| QuranFilter.MatchingVersesIdempotent | src/renderer/src/App.jsx:51-65 | narrowing an already narrowed verse list changes nothing |
| QuranFilter.RefilterUnchanged | src/renderer/src/App.jsx:50-79 | filtering the filtered chapter list again with the same query and mode returns it unchanged |
| QuranFilter.InitialView | src/renderer/src/App.jsx:6-12 | the state before any input: empty query, exact mode, the whole Quran shown, nothing selected (definition) |
| QuranFilter.FilterEffect | src/renderer/src/App.jsx:46-83 | the effect keeps the query and mode and always clears the selected chapter and verse |
| QuranFilter.SetQuery | src/renderer/src/App.jsx:80-83 | changing the text clears the selection; setting the same text changes nothing |
| QuranFilter.SetMode | src/renderer/src/App.jsx:80-83 | changing the mode clears the selection; choosing the current mode changes nothing |
| QuranFilter.MountEffectUnchanged | src/renderer/src/App.jsx:6-12 | when lowering maps the empty string to itself, the initial state (whole Quran, empty query, nothing selected) is what the first filter run produces |
| QuranFilter.ChangesKeepConsistent | src/renderer/src/App.jsx:46-83 | after any change of text or mode, the shown list is the whole Quran filtered by the current text and mode, never a refiltering of the previous list |

## Left out

- React state, effects, memoisation, JSX, the introduction text, the virtualised list, scrolling to a verse, the verse-ref map, the chapter and verse select handlers and the `loading` flag: these are presentation, not search logic.
- Dynamic `import()` of the book JSON files and the bundler's module cache: each book's records are given.
- Real timers and the 300 ms delay: the debounce is modelled as call and timer-runs-out events.
- Concurrency: overlapping asynchronous searches can publish out of order, and the debounced function is recreated whenever the search type changes. The model has one search per timer event.
- Exact Unicode behaviour of `toLowerCase`, including locale and multi-unit mappings: it is a parameter, with the two stated assumptions.
- A hadith whose English part is present but lacks `narrator` or `text`: the `||` chains short-circuit, so the filter throws (HadithLearn.jsx:59-60, 68-69) only when no earlier field matched, and then the whole search is aborted: `setResults` is never reached and `loading` stays true. The model requires both fields whenever the English part exists, so it has no such aborted search.
