/**
 * The string operations both search views are built from: JavaScript's
 * `includes`, `split(" ")`, `trim` and `toLowerCase`, on `seq<char>`.
 *
 * `toLowerCase` is not given a definition: every operation that lowercases
 * takes it as a parameter `lower`, and a proof that needs to know something
 * about it says so with `Compositional(lower)` or `Idempotent(lower)`.
 */
module Text {

  // ---------------------------------------------------------------------
  // Substring search: `s.includes(q)`
  // ---------------------------------------------------------------------

  /** `p` is a prefix of `s`. */
  predicate IsPrefix(p: string, s: string) {
    |p| <= |s| && s[..|p|] == p
  }

  /** `q` occurs in `s` as a contiguous block starting at index `i`. */
  ghost predicate OccursAt(s: string, q: string, i: int) {
    0 <= i && i + |q| <= |s| && s[i..i + |q|] == q
  }

  /** `s.includes(q)`: try `q` as a prefix of every suffix of `s`, left to right. */
  predicate Includes(s: string, q: string)
    decreases |s|
  {
    IsPrefix(q, s) || (|s| > 0 && Includes(s[1..], q))
  }

  lemma {:induction false} IncludesFromOccurrence(s: string, q: string, i: int)
    requires OccursAt(s, q, i)
    ensures Includes(s, q)
    decreases i
  {
    if i > 0 {
      assert s[1..][i - 1..i - 1 + |q|] == s[i..i + |q|];
      IncludesFromOccurrence(s[1..], q, i - 1);
    }
  }

  lemma {:induction false} OccurrenceFromIncludes(s: string, q: string)
    requires Includes(s, q)
    ensures exists i :: OccursAt(s, q, i)
    decreases |s|
  {
    if IsPrefix(q, s) {
      assert OccursAt(s, q, 0);
    } else {
      OccurrenceFromIncludes(s[1..], q);
      var i :| OccursAt(s[1..], q, i);
      assert s[1..][i..i + |q|] == s[i + 1..i + 1 + |q|];
      assert OccursAt(s, q, i + 1);
    }
  }

  /** The scanning definition of `includes` agrees with "occurs at some index". */
  lemma IncludesIffOccurs(s: string, q: string)
    ensures Includes(s, q) <==> exists i :: OccursAt(s, q, i)
  {
    if Includes(s, q) {
      OccurrenceFromIncludes(s, q);
    }
    if exists i :: OccursAt(s, q, i) {
      var i :| OccursAt(s, q, i);
      IncludesFromOccurrence(s, q, i);
    }
  }

  /** The empty string is included in every string. */
  lemma IncludesEmpty(s: string)
    ensures Includes(s, [])
  {
    assert IsPrefix([], s);
  }

  // ---------------------------------------------------------------------
  // `s.split(sep)` for a one-character separator, and its inverse `join`
  // ---------------------------------------------------------------------

  /**
   * `s.split(sep)`: the pieces between separators, empty pieces included;
   * the empty string splits into one empty piece.
   */
  function Split(s: string, sep: char): (parts: seq<string>)
    ensures |parts| >= 1
    ensures forall k :: 0 <= k < |parts| ==> sep !in parts[k]
    decreases |s|
  {
    if |s| == 0 then [[]]
    else
      var rest := Split(s[1..], sep);
      if s[0] == sep then [[]] + rest
      else [[s[0]] + rest[0]] + rest[1..]
  }

  /** `parts.join(sep)`. */
  function Join(parts: seq<string>, sep: char): string
    requires |parts| >= 1
    decreases |parts|
  {
    if |parts| == 1 then parts[0] else parts[0] + [sep] + Join(parts[1..], sep)
  }

  /** Joining the pieces of a split with the same separator gives back the string. */
  lemma {:induction false} JoinSplit(s: string, sep: char)
    ensures Join(Split(s, sep), sep) == s
    decreases |s|
  {
    if |s| > 0 {
      var rest := Split(s[1..], sep);
      JoinSplit(s[1..], sep);
      if s[0] == sep {
        assert ([[]] + rest)[1..] == rest;
      } else if |rest| > 1 {
        assert ([[s[0]] + rest[0]] + rest[1..])[1..] == rest[1..];
        assert Join(rest, sep) == rest[0] + [sep] + Join(rest[1..], sep);
      }
    }
  }

  /** A string without the separator is a single piece. */
  lemma {:induction false} SplitWithoutSeparator(s: string, sep: char)
    requires sep !in s
    ensures Split(s, sep) == [s]
    decreases |s|
  {
    if |s| > 0 {
      assert sep !in s[1..] by {
        forall k | 0 <= k < |s[1..]| ensures s[1..][k] != sep {
          assert s[1..][k] == s[k + 1];
        }
      }
      SplitWithoutSeparator(s[1..], sep);
      assert [s[0]] + s[1..] == s;
    }
  }

  /** Splitting at one separator occurrence splits the two sides independently. */
  lemma {:induction false} SplitAroundSeparator(a: string, b: string, sep: char)
    ensures Split(a + [sep] + b, sep) == Split(a, sep) + Split(b, sep)
    decreases |a|
  {
    var s := a + [sep] + b;
    if |a| == 0 {
      assert s[0] == sep && s[1..] == b;
    } else {
      assert s[0] == a[0] && s[1..] == a[1..] + [sep] + b;
      SplitAroundSeparator(a[1..], b, sep);
      var ra := Split(a[1..], sep);
      if a[0] == sep {
        assert Split(s, sep) == [[]] + (ra + Split(b, sep));
      } else {
        var r := ra + Split(b, sep);
        assert r[0] == ra[0];
        assert r[1..] == ra[1..] + Split(b, sep);
      }
    }
  }

  /** Splitting a join of separator-free pieces gives back the pieces. */
  lemma {:induction false} SplitJoin(parts: seq<string>, sep: char)
    requires |parts| >= 1
    requires forall k :: 0 <= k < |parts| ==> sep !in parts[k]
    ensures Split(Join(parts, sep), sep) == parts
    decreases |parts|
  {
    SplitWithoutSeparator(parts[0], sep);
    if |parts| > 1 {
      SplitJoin(parts[1..], sep);
      SplitAroundSeparator(parts[0], Join(parts[1..], sep), sep);
      assert parts == [parts[0]] + parts[1..];
    }
  }

  // ---------------------------------------------------------------------
  // `s.trim()`
  // ---------------------------------------------------------------------

  /**
   * The characters `trim` strips: ECMAScript's WhiteSpace (tab, vertical tab,
   * form feed, zero-width no-break space and the space separators) and
   * LineTerminator (line feed, carriage return, line and paragraph separator).
   */
  predicate IsWhitespace(c: char) {
    var n := c as int;
    n == 0x09 || n == 0x0A || n == 0x0B || n == 0x0C || n == 0x0D || n == 0x20
    || n == 0xA0 || n == 0x1680 || (0x2000 <= n <= 0x200A) || n == 0x2028
    || n == 0x2029 || n == 0x202F || n == 0x205F || n == 0x3000 || n == 0xFEFF
  }

  /** Every character of `s` is whitespace (the empty string included). */
  predicate Blank(s: string) {
    forall k :: 0 <= k < |s| ==> IsWhitespace(s[k])
  }

  /** No character of `s` is whitespace. */
  predicate Solid(s: string) {
    forall k :: 0 <= k < |s| ==> !IsWhitespace(s[k])
  }

  /** The index of the first non-whitespace character of `s` at or after `i`; `|s|` when there is none. */
  function SkipBlanks(s: string, i: nat): (n: nat)
    requires i <= |s|
    ensures i <= n <= |s|
    ensures forall k :: i <= k < n ==> IsWhitespace(s[k])
    ensures n == |s| || !IsWhitespace(s[n])
    decreases |s| - i
  {
    if i < |s| && IsWhitespace(s[i]) then SkipBlanks(s, i + 1) else i
  }

  /** The end of `s[lo..j]` once its trailing whitespace is dropped. */
  function DropTrailing(s: string, lo: nat, j: nat): (m: nat)
    requires lo <= j <= |s|
    ensures lo <= m <= j
    ensures forall k :: m <= k < j ==> IsWhitespace(s[k])
    ensures m == lo || !IsWhitespace(s[m - 1])
    decreases j
  {
    if j > lo && IsWhitespace(s[j - 1]) then DropTrailing(s, lo, j - 1) else j
  }

  /**
   * `s.trim()`: the block of `s` left after removing whitespace at both ends.
   * It is empty exactly when `s` is blank, and leaves a string without
   * whitespace unchanged.
   */
  function Trim(s: string): (r: string)
    ensures OccursAt(s, r, SkipBlanks(s, 0))
    ensures Blank(s[..SkipBlanks(s, 0)]) && Blank(s[SkipBlanks(s, 0) + |r|..])
    ensures r == [] || (!IsWhitespace(r[0]) && !IsWhitespace(r[|r| - 1]))
    ensures r == [] <==> Blank(s)
    ensures Solid(s) ==> r == s
  {
    var a := SkipBlanks(s, 0);
    var b := DropTrailing(s, a, |s|);
    assert s[a..b] == [] ==> Blank(s) by {
      if a == b {
        forall k | 0 <= k < |s| ensures IsWhitespace(s[k]) {
          if k < a { } else { }
        }
      }
    }
    assert Solid(s) && |s| > 0 ==> a == 0 && b == |s|;
    assert Solid(s) ==> s[a..b] == s;
    s[a..b]
  }

  // ---------------------------------------------------------------------
  // What is assumed of `toLowerCase`
  // ---------------------------------------------------------------------

  /**
   * `lower` works piece by piece: lowering a concatenation is the
   * concatenation of the lowered pieces (true when each character is mapped
   * on its own, as `toLowerCase` does outside a few context-sensitive
   * letters).
   */
  ghost predicate Compositional(lower: string -> string) {
    forall a: string, b: string :: lower(a + b) == lower(a) + lower(b)
  }

  /** Lowering an already lowered string changes nothing. */
  ghost predicate Idempotent(lower: string -> string) {
    forall s: string :: lower(lower(s)) == lower(s)
  }

  /** A piecewise lowering maps the empty string to itself. */
  lemma LowerEmpty(lower: string -> string)
    requires Compositional(lower)
    ensures lower([]) == []
  {
    var e: string := [];
    assert e + e == e;
    assert lower(e + e) == lower(e) + lower(e);
  }

  /** A piecewise lowering keeps every occurrence: if `q` is in `s`, `lower(q)` is in `lower(s)`. */
  lemma LowerKeepsIncludes(lower: string -> string, s: string, q: string)
    requires Compositional(lower)
    requires Includes(s, q)
    ensures Includes(lower(s), lower(q))
  {
    OccurrenceFromIncludes(s, q);
    var i :| OccursAt(s, q, i);
    var pre, post := s[..i], s[i + |q|..];
    assert s == pre + q + post;
    assert lower(s) == lower(pre) + lower(q) + lower(post) by {
      assert lower(pre + q + post) == lower(pre + q) + lower(post);
      assert lower(pre + q) == lower(pre) + lower(q);
    }
    assert OccursAt(lower(s), lower(q), |lower(pre)|);
    IncludesFromOccurrence(lower(s), lower(q), |lower(pre)|);
  }

}
