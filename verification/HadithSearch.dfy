/**
 * The hadith search view: the two match predicates, the loop that runs the
 * chosen one over every book in declaration order and tags each match with
 * its book's name, the blank-query guard, and the keystroke handler that
 * lowercases the query before handing it to the debounced search.
 *
 * Loading a book's JSON is left out: each book arrives with its records.
 */
module HadithSearch {

  import opened Options
  import opened Text
  import opened Sequences
  import Debounce

  /** The English part of a record; when present, both fields are present. */
  datatype English = English(narrator: string, text: string)

  datatype Hadith = Hadith(
    id: int,
    chapterId: int,
    idInBook: int,
    arabic: string,
    english: Option<English>)

  /** A record `{ ...hadith, bookName }`: the record unchanged, plus the name of its book. */
  datatype Tagged = Tagged(hadith: Hadith, bookName: string)

  datatype Book = Book(name: string, records: seq<Hadith>)

  datatype SearchType = Phrase | Word

  /** The books searched, in the order their results are listed. */
  const BookNames: seq<string> := [
    "Abu Dawud", "Ahmed", "Bukhari", "Darimi", "Malik", "Muslim", "Nasai",
    "Tirmidhi", "Ibn Majah", "Aladab Almufrad", "Bulugh Almaram",
    "Mishkat Almasabih", "Riyad Assalihin", "Shamail Muhammadiyah",
    "Nawawi 40", "Qudsi 40", "Shah Waliullah 40"
  ]

  /** The books with their loaded records, `data[k]` being the records of `BookNames[k]`. */
  function Library(data: seq<seq<Hadith>>): (books: seq<Book>)
    requires |data| == |BookNames|
    ensures |books| == |BookNames|
    ensures forall k :: 0 <= k < |books| ==> books[k].name == BookNames[k] && books[k].records == data[k]
  {
    seq(|data|, k requires 0 <= k < |data| => Book(BookNames[k], data[k]))
  }

  // ---------------------------------------------------------------------
  // The match predicates
  // ---------------------------------------------------------------------

  /**
   * Phrase mode: the query as one block, in the Arabic text as it stands,
   * or in the lowered narrator or text when the record has an English part.
   */
  predicate PhraseMatch(lower: string -> string, h: Hadith, q: string) {
    Includes(h.arabic, q)
    || (h.english.Some? &&
        (Includes(lower(h.english.value.narrator), q) || Includes(lower(h.english.value.text), q)))
  }

  /** One word of a word-mode query is found in some lowered field of the record. */
  predicate WordFound(lower: string -> string, h: Hadith, w: string) {
    Includes(lower(h.arabic), w)
    || (h.english.Some? &&
        (Includes(lower(h.english.value.narrator), w) || Includes(lower(h.english.value.text), w)))
  }

  /** The word-mode word made from one piece of the query split at single spaces. */
  function WordOf(lower: string -> string, piece: string): string {
    lower(Trim(piece))
  }

  /**
   * Word mode: every piece of the query split at single spaces (empty pieces
   * included), trimmed and lowered, is found in some field; different
   * pieces may be found in different fields.
   */
  predicate WordMatch(lower: string -> string, h: Hadith, q: string) {
    forall w :: w in Split(q, ' ') ==> WordFound(lower, h, WordOf(lower, w))
  }

  predicate Matches(lower: string -> string, st: SearchType, h: Hadith, q: string) {
    match st
    case Phrase => PhraseMatch(lower, h, q)
    case Word => WordMatch(lower, h, q)
  }

  // ---------------------------------------------------------------------
  // Filtering one book, and all books in order
  // ---------------------------------------------------------------------

  /** The records of a result list, tags removed. */
  function Untagged(rs: seq<Tagged>): (hs: seq<Hadith>)
    ensures |hs| == |rs|
    ensures forall j :: 0 <= j < |rs| ==> hs[j] == rs[j].hadith
  {
    seq(|rs|, j requires 0 <= j < |rs| => rs[j].hadith)
  }

  /**
   * One book's results: its matching records, each tagged with the book's
   * name; every matching record is there.
   */
  function BookResults(lower: string -> string, st: SearchType, q: string, name: string, hs: seq<Hadith>)
    : (r: seq<Tagged>)
    ensures forall j :: 0 <= j < |r| ==> r[j].bookName == name && Matches(lower, st, r[j].hadith, q)
    ensures forall h :: h in hs && Matches(lower, st, h, q) ==> Tagged(h, name) in r
    decreases |hs|
  {
    if |hs| == 0 then []
    else
      var rest := BookResults(lower, st, q, name, hs[1..]);
      assert hs == [hs[0]] + hs[1..];
      if Matches(lower, st, hs[0], q) then [Tagged(hs[0], name)] + rest else rest
  }

  /** The records of a book's results keep their order in the book. */
  lemma {:induction false} BookResultsOrder(lower: string -> string, st: SearchType, q: string, name: string,
                                            hs: seq<Hadith>)
    ensures IsSubseq(Untagged(BookResults(lower, st, q, name, hs)), hs)
    decreases |hs|
  {
    if |hs| > 0 {
      var rest := BookResults(lower, st, q, name, hs[1..]);
      BookResultsOrder(lower, st, q, name, hs[1..]);
      if Matches(lower, st, hs[0], q) {
        var r := [Tagged(hs[0], name)] + rest;
        assert BookResults(lower, st, q, name, hs) == r;
        assert Untagged(r)[0] == hs[0];
        assert Untagged(r)[1..] == Untagged(rest);
      } else {
        assert BookResults(lower, st, q, name, hs) == rest;
      }
    }
  }

  /** A matching record is kept, tagged, as often as the book holds it, and any other record not at all. */
  lemma BookResultsCount(lower: string -> string, st: SearchType, q: string, name: string, hs: seq<Hadith>)
    ensures forall h :: multiset(BookResults(lower, st, q, name, hs))[Tagged(h, name)]
                        == if Matches(lower, st, h, q) then multiset(hs)[h] else 0
  {
    forall h ensures multiset(BookResults(lower, st, q, name, hs))[Tagged(h, name)]
                     == if Matches(lower, st, h, q) then multiset(hs)[h] else 0
    {
      BookResultsCountOf(lower, st, q, name, hs, h);
    }
  }

  lemma {:induction false} BookResultsCountOf(lower: string -> string, st: SearchType, q: string, name: string,
                                              hs: seq<Hadith>, h: Hadith)
    ensures multiset(BookResults(lower, st, q, name, hs))[Tagged(h, name)]
         == if Matches(lower, st, h, q) then multiset(hs)[h] else 0
    decreases |hs|
  {
    if |hs| > 0 {
      BookResultsCountOf(lower, st, q, name, hs[1..], h);
      BookResultsCons(lower, st, q, name, hs);
      CountStep(hs[0], hs[1..], Tagged(hs[0], name), Matches(lower, st, hs[0], q),
                BookResults(lower, st, q, name, hs[1..]), BookResults(lower, st, q, name, hs),
                h, Tagged(h, name), Matches(lower, st, h, q));
      assert [hs[0]] + hs[1..] == hs;
    }
  }

  /** A book's results: the first record's result, if it matches, then the results for the rest. */
  lemma BookResultsCons(lower: string -> string, st: SearchType, q: string, name: string, hs: seq<Hadith>)
    requires |hs| > 0
    ensures BookResults(lower, st, q, name, hs)
         == (if Matches(lower, st, hs[0], q) then [Tagged(hs[0], name)] else [])
            + BookResults(lower, st, q, name, hs[1..])
  {
  }

  /** The results of all books: each book's results, books in the given order. */
  function AllResults(lower: string -> string, st: SearchType, q: string, books: seq<Book>): seq<Tagged>
    decreases |books|
  {
    if |books| == 0 then []
    else
      var n := |books| - 1;
      AllResults(lower, st, q, books[..n]) + BookResults(lower, st, q, books[n].name, books[n].records)
  }

  /** `t` is a matching record of one of `books`, tagged with that book's name. */
  ghost predicate FoundIn(lower: string -> string, st: SearchType, q: string, books: seq<Book>, t: Tagged)
  {
    exists k :: 0 <= k < |books| && t.bookName == books[k].name
      && t.hadith in books[k].records && Matches(lower, st, t.hadith, q)
  }

  /** Every result is a matching record of some book, tagged with that book's name. */
  lemma {:induction false} AllResultsSound(lower: string -> string, st: SearchType, q: string, books: seq<Book>)
    ensures forall t :: t in AllResults(lower, st, q, books) ==> FoundIn(lower, st, q, books, t)
    decreases |books|
  {
    if |books| > 0 {
      var n := |books| - 1;
      var front := AllResults(lower, st, q, books[..n]);
      var last := BookResults(lower, st, q, books[n].name, books[n].records);
      var r := front + last;
      assert AllResults(lower, st, q, books) == r;
      AllResultsSound(lower, st, q, books[..n]);
      BookResultsOrder(lower, st, q, books[n].name, books[n].records);
      SubseqMembers(Untagged(last), books[n].records);
      forall t | t in r ensures FoundIn(lower, st, q, books, t) {
        var j :| 0 <= j < |r| && r[j] == t;
        if j < |front| {
          assert front[j] in front;
          assert FoundIn(lower, st, q, books[..n], front[j]);
          var k :| 0 <= k < n && front[j].bookName == books[..n][k].name
                   && front[j].hadith in books[..n][k].records && Matches(lower, st, front[j].hadith, q);
          assert books[..n][k] == books[k];
          assert r[j] == front[j];
          assert r[j].bookName == books[k].name && r[j].hadith in books[k].records;
        } else {
          assert r[j] == last[j - |front|];
          assert Untagged(last)[j - |front|] == r[j].hadith;
          assert r[j].bookName == books[n].name && r[j].hadith in books[n].records;
          assert Matches(lower, st, r[j].hadith, q);
        }
      }
    }
  }

  /** Every matching record of every book is among the results, tagged with its book's name. */
  lemma {:induction false} AllResultsComplete(lower: string -> string, st: SearchType, q: string, books: seq<Book>)
    ensures forall k, h :: 0 <= k < |books| && h in books[k].records && Matches(lower, st, h, q)
                           ==> Tagged(h, books[k].name) in AllResults(lower, st, q, books)
    decreases |books|
  {
    if |books| > 0 {
      var n := |books| - 1;
      var front := AllResults(lower, st, q, books[..n]);
      var last := BookResults(lower, st, q, books[n].name, books[n].records);
      assert AllResults(lower, st, q, books) == front + last;
      AllResultsComplete(lower, st, q, books[..n]);
      forall k, h | 0 <= k < |books| && h in books[k].records && Matches(lower, st, h, q)
        ensures Tagged(h, books[k].name) in front + last
      {
        if k < n {
          assert books[..n][k] == books[k];
          assert Tagged(h, books[k].name) in front;
        } else {
          assert Tagged(h, books[k].name) in last;
        }
      }
    }
  }

  /** One more book appends that book's results. */
  lemma AllResultsSnoc(lower: string -> string, st: SearchType, q: string, books: seq<Book>, b: Book)
    ensures AllResults(lower, st, q, books + [b])
         == AllResults(lower, st, q, books) + BookResults(lower, st, q, b.name, b.records)
  {
    assert (books + [b])[..|books|] == books;
  }

  /** Listing more books appends their results after the results of the books already listed. */
  lemma {:induction false} AllResultsAppend(lower: string -> string, st: SearchType, q: string,
                                           books1: seq<Book>, books2: seq<Book>)
    ensures AllResults(lower, st, q, books1 + books2)
         == AllResults(lower, st, q, books1) + AllResults(lower, st, q, books2)
    decreases |books2|
  {
    if |books2| == 0 {
      assert books1 + books2 == books1;
      assert AllResults(lower, st, q, books2) == [];
    } else {
      var n := |books2| - 1;
      var init, b := books2[..n], books2[n];
      assert books2 == init + [b];
      assert books1 + books2 == (books1 + init) + [b];
      AllResultsSnoc(lower, st, q, books1 + init, b);
      AllResultsSnoc(lower, st, q, init, b);
      AllResultsAppend(lower, st, q, books1, init);
      var x := AllResults(lower, st, q, books1);
      var y := AllResults(lower, st, q, init);
      var z := BookResults(lower, st, q, b.name, b.records);
      ConcatAssociative(x, y, z);
    }
  }

  /** The results of one book alone are exactly that book's results. */
  lemma SingleBook(lower: string -> string, st: SearchType, q: string, b: Book)
    ensures AllResults(lower, st, q, [b]) == BookResults(lower, st, q, b.name, b.records)
  {
    assert [b][..0] == [];
  }

  /**
   * The search run when the debounce timer fires: nothing for a blank query
   * (no book is filtered), otherwise every book's results in order.
   */
  function SearchResults(lower: string -> string, st: SearchType, books: seq<Book>, q: string)
    : (r: seq<Tagged>)
    ensures Blank(q) ==> r == []
    ensures !Blank(q) ==> r == AllResults(lower, st, q, books)
  {
    if Trim(q) == [] then [] else AllResults(lower, st, q, books)
  }

  /** The search loop: books in order, each book's results appended to what is already there. */
  method Search(lower: string -> string, st: SearchType, books: seq<Book>, searchQuery: string)
    returns (results: seq<Tagged>)
    ensures results == SearchResults(lower, st, books, searchQuery)
  {
    if Trim(searchQuery) == [] {
      return [];
    }
    results := [];
    for i := 0 to |books|
      invariant results == AllResults(lower, st, searchQuery, books[..i])
    {
      var bookResults := BookResults(lower, st, searchQuery, books[i].name, books[i].records);
      assert books[..i + 1][..i] == books[..i];
      results := results + bookResults;
    }
    assert books[..|books|] == books;
  }

  /** Every result of a search of the library carries one of the library's book names. */
  lemma LibraryProvenance(lower: string -> string, st: SearchType, data: seq<seq<Hadith>>, q: string)
    requires |data| == |BookNames|
    ensures forall t :: t in SearchResults(lower, st, Library(data), q) ==> t.bookName in BookNames
  {
    var books := Library(data);
    var r := SearchResults(lower, st, books, q);
    AllResultsSound(lower, st, q, books);
    assert r == [] || r == AllResults(lower, st, q, books);
    forall t | t in r ensures t.bookName in BookNames {
      var j :| 0 <= j < |r| && r[j] == t;
      assert FoundIn(lower, st, q, books, t);
      var k :| 0 <= k < |books| && t.bookName == books[k].name;
      assert books[k].name == BookNames[k];
    }
  }

  // ---------------------------------------------------------------------
  // Properties of the match predicates
  // ---------------------------------------------------------------------

  /** Phrase mode in terms of occurrences: the query occurs at some index of one of the three fields. */
  lemma PhraseMatchOccurs(lower: string -> string, h: Hadith, q: string)
    ensures PhraseMatch(lower, h, q) <==>
      (exists i :: OccursAt(h.arabic, q, i))
      || (h.english.Some? &&
          ((exists i :: OccursAt(lower(h.english.value.narrator), q, i))
           || (exists i :: OccursAt(lower(h.english.value.text), q, i))))
  {
    IncludesIffOccurs(h.arabic, q);
    if h.english.Some? {
      IncludesIffOccurs(lower(h.english.value.narrator), q);
      IncludesIffOccurs(lower(h.english.value.text), q);
    }
  }

  /** A record without an English part matches only through its Arabic text, in either mode. */
  lemma ArabicOnlyRecord(lower: string -> string, h: Hadith, q: string)
    requires h.english.None?
    ensures PhraseMatch(lower, h, q) <==> Includes(h.arabic, q)
    ensures WordMatch(lower, h, q) <==>
      forall w :: w in Split(q, ' ') ==> Includes(lower(h.arabic), WordOf(lower, w))
  {
  }

  /** Word mode is conjunctive over the query's words: joining two queries with a space joins their conditions. */
  lemma WordMatchConjunctive(lower: string -> string, h: Hadith, q1: string, q2: string)
    ensures WordMatch(lower, h, q1 + [' '] + q2) <==> WordMatch(lower, h, q1) && WordMatch(lower, h, q2)
  {
    SplitAroundSeparator(q1, q2, ' ');
  }

  /** Adding a word to a word-mode query never adds matches. */
  lemma WordMatchMonotone(lower: string -> string, h: Hadith, q: string, w: string)
    ensures WordMatch(lower, h, q + [' '] + w) ==> WordMatch(lower, h, q)
  {
    WordMatchConjunctive(lower, h, q, w);
  }

  /**
   * Word mode ignores word order: rearranging the query's pieces (any
   * permutation, joined back with single spaces) gives the same verdict.
   */
  lemma WordMatchOrderInsensitive(lower: string -> string, h: Hadith, q: string, pieces: seq<string>)
    requires multiset(pieces) == multiset(Split(q, ' '))
    ensures |pieces| >= 1
    ensures WordMatch(lower, h, Join(pieces, ' ')) == WordMatch(lower, h, q)
  {
    var ps := Split(q, ' ');
    assert |pieces| == |ps| by {
      assert |multiset(pieces)| == |pieces| && |multiset(ps)| == |ps|;
    }
    forall k | 0 <= k < |pieces| ensures ' ' !in pieces[k] {
      assert pieces[k] in multiset(pieces);
      assert pieces[k] in ps;
    }
    SplitJoin(pieces, ' ');
    assert forall w :: w in pieces <==> w in ps by {
      forall w ensures w in pieces <==> w in ps {
        assert w in pieces <==> w in multiset(pieces);
        assert w in ps <==> w in multiset(ps);
      }
    }
  }

  /** The empty word (the query "", or a piece between two consecutive spaces) is found in every record. */
  lemma EmptyWordFoundEverywhere(lower: string -> string, h: Hadith)
    requires lower([]) == []
    ensures WordMatch(lower, h, [])
  {
    assert Split([], ' ') == [[]];
    assert Trim([]) == [];
    IncludesEmpty(lower(h.arabic));
  }

  /** A doubled space in a word-mode query changes nothing: the empty piece it makes is always satisfied. */
  lemma DoubleSpaceHarmless(lower: string -> string, h: Hadith, q1: string, q2: string)
    requires lower([]) == []
    ensures WordMatch(lower, h, q1 + [' ', ' '] + q2) == WordMatch(lower, h, q1 + [' '] + q2)
  {
    var e: string := [];
    assert q1 + [' ', ' '] + q2 == q1 + [' '] + (e + [' '] + q2);
    WordMatchConjunctive(lower, h, q1, e + [' '] + q2);
    WordMatchConjunctive(lower, h, e, q2);
    WordMatchConjunctive(lower, h, q1, q2);
    EmptyWordFoundEverywhere(lower, h);
  }

  /**
   * For a one-word query, typed and lowercased by the keystroke handler, a
   * phrase-mode match is also a word-mode match, provided lowering is
   * piecewise and idempotent and the word holds no whitespace.
   */
  lemma PhraseImpliesWordForOneWord(lower: string -> string, h: Hadith, typed: string)
    requires Compositional(lower) && Idempotent(lower)
    requires Solid(lower(typed))
    ensures PhraseMatch(lower, h, lower(typed)) ==> WordMatch(lower, h, lower(typed))
  {
    var q := lower(typed);
    assert lower(q) == q;
    assert IsWhitespace(' ');
    assert ' ' !in q;
    SplitWithoutSeparator(q, ' ');
    assert Trim(q) == q;
    assert WordOf(lower, q) == q;
    if PhraseMatch(lower, h, q) {
      if Includes(h.arabic, q) {
        LowerKeepsIncludes(lower, h.arabic, q);
      }
      assert WordFound(lower, h, WordOf(lower, q));
    }
  }

  // ---------------------------------------------------------------------
  // Keystrokes through the debounce
  // ---------------------------------------------------------------------

  /** Each keystroke's input value is lowercased, then passed to the debounced search. */
  function Keystrokes(lower: string -> string, typed: seq<string>): seq<Debounce.Event<string>> {
    Debounce.Calls(seq(|typed|, k requires 0 <= k < |typed| => lower(typed[k])))
  }

  /**
   * A burst of keystrokes followed by a quiet period runs the search exactly
   * once, on the lowercased last input value; nothing is left pending.
   */
  lemma KeystrokeBurstSearchesOnce(lower: string -> string, d: Debounce.Debouncer<string>, typed: seq<string>)
    requires |typed| >= 1
    ensures Debounce.Run(d, Keystrokes(lower, typed) + [Debounce.Fire]).1 == [lower(typed[|typed| - 1])]
    ensures Debounce.Run(d, Keystrokes(lower, typed) + [Debounce.Fire]).0 == Debounce.Fresh()
  {
    var argss := seq(|typed|, k requires 0 <= k < |typed| => lower(typed[k]));
    Debounce.LastCallWins(d, argss);
  }

}
