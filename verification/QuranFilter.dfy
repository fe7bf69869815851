/**
 * The Quran view's filter: on every change of the search text or mode, the
 * whole Quran is filtered afresh. A chapter stays when its name,
 * transliteration, translation or revelation type contains the query, or
 * when some verse matches; a chapter that stays keeps only its matching
 * verses. The selected chapter and verse are cleared.
 */
module QuranFilter {

  import opened Options
  import opened Text
  import opened Sequences

  datatype Verse = Verse(id: int, text: string, translation: string)

  /** A chapter; `revelationType` is the JSON field `type`. */
  datatype Chapter = Chapter(
    id: int,
    name: string,
    transliteration: string,
    translation: string,
    revelationType: string,
    totalVerses: int,
    verses: seq<Verse>)

  datatype SearchMode = Exact | Contains

  // ---------------------------------------------------------------------
  // The query's words
  // ---------------------------------------------------------------------

  /** The non-empty strings of `pieces`, in order (`filter(Boolean)`). */
  function NonEmpty(pieces: seq<string>): (r: seq<string>)
    ensures forall w :: w in r <==> w in pieces && w != []
    ensures IsSubseq(r, pieces)
    decreases |pieces|
  {
    if |pieces| == 0 then []
    else
      var rest := NonEmpty(pieces[1..]);
      assert pieces == [pieces[0]] + pieces[1..];
      if pieces[0] == [] then rest
      else
        assert ([pieces[0]] + rest)[1..] == rest;
        [pieces[0]] + rest
  }

  /** A non-empty string is kept as often as it occurs, and the empty string not at all. */
  lemma {:induction false} NonEmptyCount(pieces: seq<string>)
    ensures forall w :: multiset(NonEmpty(pieces))[w] == if w != [] then multiset(pieces)[w] else 0
    decreases |pieces|
  {
    if |pieces| > 0 {
      var rest := NonEmpty(pieces[1..]);
      NonEmptyCount(pieces[1..]);
      assert pieces == [pieces[0]] + pieces[1..];
      assert multiset(pieces) == multiset{pieces[0]} + multiset(pieces[1..]);
      if pieces[0] != [] {
        assert multiset([pieces[0]] + rest) == multiset{pieces[0]} + multiset(rest);
      }
    }
  }

  /** The words of the lowercased query: its pieces between single spaces, empty pieces dropped. */
  function QueryWords(lq: string): (ws: seq<string>)
    ensures forall w :: w in ws ==> w != [] && ' ' !in w
  {
    NonEmpty(Split(lq, ' '))
  }

  /** The query has no words exactly when it is empty or all spaces. */
  lemma QueryWordsNoneOnlyForSpaces(lq: string)
    ensures QueryWords(lq) == [] <==> forall k :: 0 <= k < |lq| ==> lq[k] == ' '
  {
    var ps := Split(lq, ' ');
    JoinSplit(lq, ' ');
    if QueryWords(lq) == [] {
      assert forall w :: w in ps ==> w == [];
      AllEmptyJoin(ps);
    } else {
      var w := QueryWords(lq)[0];
      assert w in ps && w != [];
      var j :| 0 <= j < |ps| && ps[j] == w;
      JoinHasPiece(ps, j);
    }
  }

  /** A join of empty pieces is all separators. */
  lemma {:induction false} AllEmptyJoin(ps: seq<string>)
    requires |ps| >= 1
    requires forall w :: w in ps ==> w == []
    ensures forall k :: 0 <= k < |Join(ps, ' ')| ==> Join(ps, ' ')[k] == ' '
    decreases |ps|
  {
    assert ps[0] in ps;
    if |ps| > 1 {
      assert forall w :: w in ps[1..] ==> w in ps;
      AllEmptyJoin(ps[1..]);
    }
  }

  /** A join with a non-empty piece holds a character that is not the separator. */
  lemma {:induction false} JoinHasPiece(ps: seq<string>, j: int)
    requires |ps| >= 1 && 0 <= j < |ps| && ps[j] != []
    requires forall k :: 0 <= k < |ps| ==> ' ' !in ps[k]
    ensures exists k :: 0 <= k < |Join(ps, ' ')| && Join(ps, ' ')[k] != ' '
    decreases |ps|
  {
    var s := Join(ps, ' ');
    if j == 0 {
      assert s[0] == ps[0][0];
    } else {
      JoinHasPiece(ps[1..], j - 1);
      var rest := Join(ps[1..], ' ');
      var k :| 0 <= k < |rest| && rest[k] != ' ';
      assert s == ps[0] + [' '] + rest;
      assert s[|ps[0]| + 1 + k] == rest[k];
    }
  }

  // ---------------------------------------------------------------------
  // Verse and chapter predicates
  // ---------------------------------------------------------------------

  /** `w` is in the lowered verse text or the lowered translation. */
  predicate InVerse(lower: string -> string, v: Verse, w: string) {
    Includes(lower(v.text), w) || Includes(lower(v.translation), w)
  }

  /** Exact mode: the whole lowercased query is in the verse; contains mode: every word is. */
  predicate VerseMatches(lower: string -> string, mode: SearchMode, lq: string, v: Verse) {
    match mode
    case Exact => InVerse(lower, v, lq)
    case Contains => forall w :: w in QueryWords(lq) ==> InVerse(lower, v, w)
  }

  /** The lowered chapter metadata contains the whole lowercased query (in either mode). */
  predicate MetaMatches(lower: string -> string, c: Chapter, lq: string) {
    Includes(lower(c.name), lq) || Includes(lower(c.transliteration), lq)
    || Includes(lower(c.translation), lq) || Includes(lower(c.revelationType), lq)
  }

  /** The matching verses, in order; every matching verse is there. */
  function MatchingVerses(lower: string -> string, mode: SearchMode, lq: string, vs: seq<Verse>)
    : (r: seq<Verse>)
    ensures forall j :: 0 <= j < |r| ==> VerseMatches(lower, mode, lq, r[j])
    ensures IsSubseq(r, vs)
    decreases |vs|
  {
    if |vs| == 0 then []
    else
      var rest := MatchingVerses(lower, mode, lq, vs[1..]);
      assert vs == [vs[0]] + vs[1..];
      if VerseMatches(lower, mode, lq, vs[0]) then
        assert ([vs[0]] + rest)[1..] == rest;
        [vs[0]] + rest
      else
        rest
  }

  /** A matching verse is kept as often as the chapter holds it, and any other verse not at all. */
  lemma {:induction false} MatchingVersesCount(lower: string -> string, mode: SearchMode, lq: string, vs: seq<Verse>)
    ensures forall v :: multiset(MatchingVerses(lower, mode, lq, vs))[v]
                        == if VerseMatches(lower, mode, lq, v) then multiset(vs)[v] else 0
    decreases |vs|
  {
    if |vs| > 0 {
      var rest := MatchingVerses(lower, mode, lq, vs[1..]);
      MatchingVersesCount(lower, mode, lq, vs[1..]);
      assert vs == [vs[0]] + vs[1..];
      assert multiset(vs) == multiset{vs[0]} + multiset(vs[1..]);
      if VerseMatches(lower, mode, lq, vs[0]) {
        assert multiset([vs[0]] + rest) == multiset{vs[0]} + multiset(rest);
      }
    }
  }

  /** Every matching verse is kept. */
  lemma {:induction false} MatchingVersesComplete(lower: string -> string, mode: SearchMode, lq: string, vs: seq<Verse>)
    ensures forall v :: v in vs && VerseMatches(lower, mode, lq, v) ==> v in MatchingVerses(lower, mode, lq, vs)
    decreases |vs|
  {
    if |vs| > 0 {
      MatchingVersesComplete(lower, mode, lq, vs[1..]);
      assert vs == [vs[0]] + vs[1..];
    }
  }

  /** A chapter stays when its metadata matches or at least one of its verses does. */
  predicate Retained(lower: string -> string, mode: SearchMode, lq: string, c: Chapter) {
    MetaMatches(lower, c, lq) || |MatchingVerses(lower, mode, lq, c.verses)| > 0
  }

  /** A chapter as kept: every field unchanged but the verses, narrowed to the matching ones. */
  function Narrowed(lower: string -> string, mode: SearchMode, lq: string, c: Chapter): Chapter {
    c.(verses := MatchingVerses(lower, mode, lq, c.verses))
  }

  /** `out` is what the filter makes of the input chapter `c`: `c` is retained and narrowed to `out`. */
  predicate KeptAs(lower: string -> string, mode: SearchMode, lq: string, c: Chapter, out: Chapter) {
    Retained(lower, mode, lq, c) && out == Narrowed(lower, mode, lq, c)
  }

  /** `out` is what the filter makes of some chapter of `cs`. */
  ghost predicate KeptFrom(lower: string -> string, mode: SearchMode, lq: string, cs: seq<Chapter>, out: Chapter) {
    exists i :: 0 <= i < |cs| && KeptAs(lower, mode, lq, cs[i], out)
  }

  /** A chapter with its verses removed: what identifies it in the chapter list. */
  function Heading(c: Chapter): Chapter {
    c.(verses := [])
  }

  function Headings(cs: seq<Chapter>): (hs: seq<Chapter>)
    ensures |hs| == |cs|
    ensures forall j :: 0 <= j < |cs| ==> hs[j] == Heading(cs[j])
  {
    seq(|cs|, j requires 0 <= j < |cs| => Heading(cs[j]))
  }

  /** The filtered chapter list: the retained chapters, narrowed, in their original order. */
  function FilterChapters(lower: string -> string, mode: SearchMode, lq: string, cs: seq<Chapter>)
    : seq<Chapter>
    decreases |cs|
  {
    if |cs| == 0 then []
    else
      var rest := FilterChapters(lower, mode, lq, cs[1..]);
      if Retained(lower, mode, lq, cs[0]) then [Narrowed(lower, mode, lq, cs[0])] + rest else rest
  }

  /** Each output chapter is the narrowing of a retained input chapter. */
  lemma {:induction false} FilterChaptersSound(lower: string -> string, mode: SearchMode, lq: string, cs: seq<Chapter>)
    ensures forall out :: out in FilterChapters(lower, mode, lq, cs) ==> KeptFrom(lower, mode, lq, cs, out)
    decreases |cs|
  {
    if |cs| > 0 {
      var rest := FilterChapters(lower, mode, lq, cs[1..]);
      FilterChaptersSound(lower, mode, lq, cs[1..]);
      forall out | out in FilterChapters(lower, mode, lq, cs) ensures KeptFrom(lower, mode, lq, cs, out) {
        if Retained(lower, mode, lq, cs[0]) && out == Narrowed(lower, mode, lq, cs[0]) {
          assert KeptAs(lower, mode, lq, cs[0], out);
        } else {
          assert out in rest;
          assert KeptFrom(lower, mode, lq, cs[1..], out);
          var i :| 0 <= i < |cs[1..]| && KeptAs(lower, mode, lq, cs[1..][i], out);
          assert cs[1..][i] == cs[i + 1];
          assert KeptAs(lower, mode, lq, cs[i + 1], out);
        }
      }
    }
  }

  /** Every retained input chapter appears, narrowed, in the output. */
  lemma {:induction false} FilterChaptersComplete(lower: string -> string, mode: SearchMode, lq: string, cs: seq<Chapter>)
    ensures forall i :: 0 <= i < |cs| && Retained(lower, mode, lq, cs[i])
                        ==> Narrowed(lower, mode, lq, cs[i]) in FilterChapters(lower, mode, lq, cs)
    decreases |cs|
  {
    if |cs| > 0 {
      var rest := FilterChapters(lower, mode, lq, cs[1..]);
      FilterChaptersComplete(lower, mode, lq, cs[1..]);
      forall i | 0 <= i < |cs| && Retained(lower, mode, lq, cs[i])
        ensures Narrowed(lower, mode, lq, cs[i]) in FilterChapters(lower, mode, lq, cs)
      {
        if i > 0 {
          assert cs[1..][i - 1] == cs[i];
          assert Narrowed(lower, mode, lq, cs[i]) in rest;
        }
      }
    }
  }

  /** The chapter headings of the output form an order-preserving subsequence of the input's. */
  lemma {:induction false} FilterChaptersOrder(lower: string -> string, mode: SearchMode, lq: string, cs: seq<Chapter>)
    ensures IsSubseq(Headings(FilterChapters(lower, mode, lq, cs)), Headings(cs))
    decreases |cs|
  {
    if |cs| > 0 {
      var rest := FilterChapters(lower, mode, lq, cs[1..]);
      FilterChaptersOrder(lower, mode, lq, cs[1..]);
      assert Headings(cs)[1..] == Headings(cs[1..]);
      if Retained(lower, mode, lq, cs[0]) {
        var r := [Narrowed(lower, mode, lq, cs[0])] + rest;
        assert Headings(r)[0] == Heading(cs[0]);
        assert Headings(r)[1..] == Headings(rest);
      }
    }
  }

  /** The indices, from `i` on, of the chapters the filter retains, in increasing order. */
  function RetainedIndices(lower: string -> string, mode: SearchMode, lq: string, cs: seq<Chapter>, i: nat)
    : (idx: seq<nat>)
    requires i <= |cs|
    ensures forall j :: 0 <= j < |idx| ==> i <= idx[j] < |cs| && Retained(lower, mode, lq, cs[idx[j]])
    ensures forall j, k :: 0 <= j < k < |idx| ==> idx[j] < idx[k]
    ensures forall k :: i <= k < |cs| && Retained(lower, mode, lq, cs[k]) ==> k in idx
    decreases |cs| - i
  {
    if i == |cs| then []
    else
      var rest := RetainedIndices(lower, mode, lq, cs, i + 1);
      if Retained(lower, mode, lq, cs[i]) then [i] + rest else rest
  }

  /** Every chapter narrowed, position by position. */
  function NarrowedAll(lower: string -> string, mode: SearchMode, lq: string, cs: seq<Chapter>): (ns: seq<Chapter>)
    ensures |ns| == |cs|
    ensures forall k :: 0 <= k < |cs| ==> ns[k] == Narrowed(lower, mode, lq, cs[k])
  {
    seq(|cs|, k requires 0 <= k < |cs| => Narrowed(lower, mode, lq, cs[k]))
  }

  /**
   * The output, position by position: its `j`-th chapter is the narrowing of
   * the `j`-th retained input chapter. With `RetainedIndices` increasing and
   * listing every retained index once, this fixes the output completely,
   * repeated chapters included.
   */
  lemma FilterChaptersByIndex(lower: string -> string, mode: SearchMode, lq: string, cs: seq<Chapter>)
    ensures var r := FilterChapters(lower, mode, lq, cs);
      var idx := RetainedIndices(lower, mode, lq, cs, 0);
      |r| == |idx| && forall j :: 0 <= j < |r| ==> r[j] == Narrowed(lower, mode, lq, cs[idx[j]])
  {
    var ns := NarrowedAll(lower, mode, lq, cs);
    FilterSuffixPicks(lower, mode, lq, cs, ns, 0);
    assert cs[0..] == cs;
  }

  lemma {:induction false} FilterSuffixPicks(lower: string -> string, mode: SearchMode, lq: string,
                                             cs: seq<Chapter>, ns: seq<Chapter>, i: nat)
    requires i <= |cs| && ns == NarrowedAll(lower, mode, lq, cs)
    ensures Picks(FilterChapters(lower, mode, lq, cs[i..]), ns, RetainedIndices(lower, mode, lq, cs, i))
    decreases |cs| - i
  {
    if i < |cs| {
      var keep := Retained(lower, mode, lq, cs[i]);
      var rest := FilterChapters(lower, mode, lq, cs[i + 1..]);
      var idx := RetainedIndices(lower, mode, lq, cs, i + 1);
      FilterSuffixPicks(lower, mode, lq, cs, ns, i + 1);
      PicksPrepend(rest, ns, idx, i, keep);
      assert RetainedIndices(lower, mode, lq, cs, i) == (if keep then [i] else []) + idx;
      assert FilterChapters(lower, mode, lq, cs[i..]) == (if keep then [ns[i]] else []) + rest by {
        assert cs[i..][0] == cs[i];
        assert cs[i..][1..] == cs[i + 1..];
      }
    }
  }

  /** The effect's result: the whole Quran filtered by the lowercased query. */
  function FilterQuran(lower: string -> string, mode: SearchMode, query: string, quran: seq<Chapter>)
    : seq<Chapter>
  {
    FilterChapters(lower, mode, lower(query), quran)
  }

  // ---------------------------------------------------------------------
  // Properties of the filter
  // ---------------------------------------------------------------------

  /** Exact mode in terms of occurrences: the lowercased query occurs at some index of the lowered text or translation. */
  lemma ExactModeOccurs(lower: string -> string, lq: string, v: Verse)
    ensures VerseMatches(lower, Exact, lq, v) <==>
      (exists i :: OccursAt(lower(v.text), lq, i)) || (exists i :: OccursAt(lower(v.translation), lq, i))
  {
    IncludesIffOccurs(lower(v.text), lq);
    IncludesIffOccurs(lower(v.translation), lq);
  }

  /** Contains mode with no words (a blank or all-space query) matches every verse. */
  lemma NoWordsMatchEveryVerse(lower: string -> string, lq: string, v: Verse)
    requires forall k :: 0 <= k < |lq| ==> lq[k] == ' '
    ensures VerseMatches(lower, Contains, lq, v)
  {
    QueryWordsNoneOnlyForSpaces(lq);
  }

  /** For a lowercased query without a space, the two modes select the same verses. */
  lemma ModesAgreeOnVerse(lower: string -> string, lq: string, v: Verse)
    requires ' ' !in lq
    ensures VerseMatches(lower, Exact, lq, v) == VerseMatches(lower, Contains, lq, v)
  {
    SplitWithoutSeparator(lq, ' ');
    assert QueryWords(lq) == NonEmpty([lq]);
    assert NonEmpty([lq]) == (if lq == [] then [] else [lq]) by {
      assert [lq][1..] == [];
    }
    if lq == [] {
      IncludesEmpty(lower(v.text));
    }
  }

  lemma {:induction false} ModesAgreeOnVerses(lower: string -> string, lq: string, vs: seq<Verse>)
    requires ' ' !in lq
    ensures MatchingVerses(lower, Exact, lq, vs) == MatchingVerses(lower, Contains, lq, vs)
    decreases |vs|
  {
    if |vs| > 0 {
      ModesAgreeOnVerse(lower, lq, vs[0]);
      ModesAgreeOnVerses(lower, lq, vs[1..]);
    }
  }

  lemma {:induction false} ModesAgreeOnChapters(lower: string -> string, lq: string, cs: seq<Chapter>)
    requires ' ' !in lq
    ensures FilterChapters(lower, Exact, lq, cs) == FilterChapters(lower, Contains, lq, cs)
    decreases |cs|
  {
    if |cs| > 0 {
      ModesAgreeOnVerses(lower, lq, cs[0].verses);
      ModesAgreeOnChapters(lower, lq, cs[1..]);
    }
  }

  /** When the lowercased query has no space, exact and contains modes give the same chapter list. */
  lemma ModesAgreeWithoutSpace(lower: string -> string, query: string, quran: seq<Chapter>)
    requires ' ' !in lower(query)
    ensures FilterQuran(lower, Exact, query, quran) == FilterQuran(lower, Contains, query, quran)
  {
    ModesAgreeOnChapters(lower, lower(query), quran);
  }

  /** When every verse matches, narrowing keeps them all. */
  lemma {:induction false} AllMatchKeepsVerses(lower: string -> string, mode: SearchMode, lq: string, vs: seq<Verse>)
    requires forall v :: v in vs ==> VerseMatches(lower, mode, lq, v)
    ensures MatchingVerses(lower, mode, lq, vs) == vs
    decreases |vs|
  {
    if |vs| > 0 {
      assert vs[0] in vs;
      assert forall v :: v in vs[1..] ==> v in vs;
      AllMatchKeepsVerses(lower, mode, lq, vs[1..]);
      assert vs == [vs[0]] + vs[1..];
    }
  }

  /** The empty lowercased query matches every verse in both modes. */
  lemma EmptyQueryMatchesVerse(lower: string -> string, mode: SearchMode, v: Verse)
    ensures VerseMatches(lower, mode, [], v)
  {
    IncludesEmpty(lower(v.text));
    NoWordsMatchEveryVerse(lower, [], v);
  }

  lemma {:induction false} EmptyQueryKeepsChapters(lower: string -> string, mode: SearchMode, cs: seq<Chapter>)
    ensures FilterChapters(lower, mode, [], cs) == cs
    decreases |cs|
  {
    if |cs| > 0 {
      forall v | v in cs[0].verses ensures VerseMatches(lower, mode, [], v) {
        EmptyQueryMatchesVerse(lower, mode, v);
      }
      AllMatchKeepsVerses(lower, mode, [], cs[0].verses);
      IncludesEmpty(lower(cs[0].name));
      EmptyQueryKeepsChapters(lower, mode, cs[1..]);
      assert cs == [cs[0]] + cs[1..];
    }
  }

  /** The empty query keeps every chapter with all its verses, in either mode. */
  lemma EmptyQueryKeepsAll(lower: string -> string, mode: SearchMode, quran: seq<Chapter>)
    requires lower([]) == []
    ensures FilterQuran(lower, mode, [], quran) == quran
  {
    EmptyQueryKeepsChapters(lower, mode, quran);
  }

  /** Narrowing twice is narrowing once: the kept verses all match. */
  lemma MatchingVersesIdempotent(lower: string -> string, mode: SearchMode, lq: string, vs: seq<Verse>)
    ensures MatchingVerses(lower, mode, lq, MatchingVerses(lower, mode, lq, vs))
         == MatchingVerses(lower, mode, lq, vs)
  {
    AllMatchKeepsVerses(lower, mode, lq, MatchingVerses(lower, mode, lq, vs));
  }

  lemma {:induction false} FilterChaptersIdempotent(lower: string -> string, mode: SearchMode, lq: string, cs: seq<Chapter>)
    ensures FilterChapters(lower, mode, lq, FilterChapters(lower, mode, lq, cs))
         == FilterChapters(lower, mode, lq, cs)
    decreases |cs|
  {
    if |cs| > 0 {
      var c := cs[0];
      var n := Narrowed(lower, mode, lq, c);
      MatchingVersesIdempotent(lower, mode, lq, c.verses);
      assert Narrowed(lower, mode, lq, n) == n;
      FilterChaptersIdempotent(lower, mode, lq, cs[1..]);
      if Retained(lower, mode, lq, c) {
        var r := FilterChapters(lower, mode, lq, cs);
        assert r[0] == n && r[1..] == FilterChapters(lower, mode, lq, cs[1..]);
        assert Retained(lower, mode, lq, n);
      }
    }
  }

  /** Filtering the filtered list again with the same query and mode changes nothing. */
  lemma RefilterUnchanged(lower: string -> string, mode: SearchMode, query: string, quran: seq<Chapter>)
    ensures FilterQuran(lower, mode, query, FilterQuran(lower, mode, query, quran))
         == FilterQuran(lower, mode, query, quran)
  {
    FilterChaptersIdempotent(lower, mode, lower(query), quran);
  }

  // ---------------------------------------------------------------------
  // The view state around the filter
  // ---------------------------------------------------------------------

  /** The state the filter effect reads and writes. */
  datatype View = View(
    query: string,
    mode: SearchMode,
    filtered: seq<Chapter>,
    selectedChapter: Option<int>,
    selectedVerse: Option<int>)

  /** Before any input: empty query, exact mode, the whole Quran shown, nothing selected. */
  function InitialView(quran: seq<Chapter>): View {
    View([], Exact, quran, None, None)
  }

  /** The filter effect: refilter the whole Quran by the current query and mode, and clear the selection. */
  function FilterEffect(lower: string -> string, quran: seq<Chapter>, v: View): (v': View)
    ensures v'.query == v.query && v'.mode == v.mode
    ensures v'.selectedChapter == None && v'.selectedVerse == None
  {
    v.(filtered := FilterQuran(lower, v.mode, v.query, quran), selectedChapter := None, selectedVerse := None)
  }

  /** The shown list is the whole Quran filtered by the view's own query and mode. */
  ghost predicate Consistent(lower: string -> string, quran: seq<Chapter>, v: View) {
    v.filtered == FilterQuran(lower, v.mode, v.query, quran)
  }

  /** Typing: the effect runs only when the text actually changed. */
  function SetQuery(lower: string -> string, quran: seq<Chapter>, v: View, q: string): (v': View)
    ensures v'.query == q && v'.mode == v.mode
    ensures q != v.query ==> v'.selectedChapter == None && v'.selectedVerse == None
    ensures q == v.query ==> v' == v
  {
    if q == v.query then v else FilterEffect(lower, quran, v.(query := q))
  }

  /** Choosing a mode: the effect runs only when the mode actually changed. */
  function SetMode(lower: string -> string, quran: seq<Chapter>, v: View, m: SearchMode): (v': View)
    ensures v'.mode == m && v'.query == v.query
    ensures m != v.mode ==> v'.selectedChapter == None && v'.selectedVerse == None
    ensures m == v.mode ==> v' == v
  {
    if m == v.mode then v else FilterEffect(lower, quran, v.(mode := m))
  }

  /** The effect run at mount leaves the initial view as it is. */
  lemma MountEffectUnchanged(lower: string -> string, quran: seq<Chapter>)
    requires lower([]) == []
    ensures FilterEffect(lower, quran, InitialView(quran)) == InitialView(quran)
    ensures Consistent(lower, quran, InitialView(quran))
  {
    EmptyQueryKeepsAll(lower, Exact, quran);
  }

  /** Changing the text or the mode keeps the shown list consistent with the view's query and mode. */
  lemma ChangesKeepConsistent(lower: string -> string, quran: seq<Chapter>, v: View, q: string, m: SearchMode)
    requires Consistent(lower, quran, v)
    ensures Consistent(lower, quran, SetQuery(lower, quran, v, q))
    ensures Consistent(lower, quran, SetMode(lower, quran, v, m))
  {
  }

}
