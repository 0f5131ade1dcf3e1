/** The java.lang.String operations the core relies on, with the JDK's
    behaviour written out. Case conversion and whitespace classes are
    restricted to ASCII, where the JDK would consult locale and Unicode tables. */
module JavaText {

  /** A Java reference that may be null. */
  datatype Option<+T> = None | Some(value: T)

  // ---------------------------------------------------------------- case

  function LowerChar(c: char): char {
    if 'A' <= c <= 'Z' then (c as int + 32) as char else c
  }

  /** String.toLowerCase, on ASCII letters. */
  function Lower(s: string): (r: string)
    ensures |r| == |s|
    ensures forall i :: 0 <= i < |s| ==> r[i] == LowerChar(s[i])
  {
    seq(|s|, i requires 0 <= i < |s| => LowerChar(s[i]))
  }

  predicate IsLower(s: string) {
    forall i :: 0 <= i < |s| ==> !('A' <= s[i] <= 'Z')
  }

  lemma LowerIsLower(s: string)
    ensures IsLower(Lower(s))
    ensures Lower(Lower(s)) == Lower(s)
  {
  }

  lemma LowerOfLower(s: string)
    requires IsLower(s)
    ensures Lower(s) == s
  {
  }

  lemma LowerAppend(a: string, b: string)
    ensures Lower(a + b) == Lower(a) + Lower(b)
  {
  }

  // ---------------------------------------------------------- whitespace

  /** Character.isWhitespace, ASCII part. */
  predicate IsWhitespace(c: char) {
    c == ' ' || '\t' <= c <= '\r' || '\U{1C}' <= c <= '\U{1F}'
  }

  /** String.isBlank: empty or whitespace only. */
  predicate IsBlank(s: string) {
    forall i :: 0 <= i < |s| ==> IsWhitespace(s[i])
  }

  /** The characters String.trim removes: every code point up to U+0020. */
  predicate IsTrimmable(c: char) {
    c <= ' '
  }

  function TrimStart(s: string): (r: string)
    ensures |r| <= |s| && r == s[|s| - |r|..]
    ensures r != [] ==> !IsTrimmable(r[0])
    ensures forall i :: 0 <= i < |s| - |r| ==> IsTrimmable(s[i])
  {
    if s != [] && IsTrimmable(s[0]) then TrimStart(s[1..]) else s
  }

  function TrimEnd(s: string): (r: string)
    ensures |r| <= |s| && r == s[..|r|]
    ensures r != [] ==> !IsTrimmable(r[|r| - 1])
    ensures forall i :: |r| <= i < |s| ==> IsTrimmable(s[i])
  {
    if s != [] && IsTrimmable(s[|s| - 1]) then TrimEnd(s[..|s| - 1]) else s
  }

  /** String.trim. */
  function Trim(s: string): string {
    TrimEnd(TrimStart(s))
  }

  // -------------------------------------------------------------- search

  /** String.contains. */
  predicate Contains(s: string, p: string) {
    (|p| <= |s| && s[..|p|] == p) || (s != [] && Contains(s[1..], p))
  }

  /** p occurs in s starting at position i. */
  predicate OccursAt(s: string, p: string, i: int) {
    0 <= i && i + |p| <= |s| && s[i..i + |p|] == p
  }

  /** An occurrence in the tail is one position further in the whole. */
  lemma OccursInTail(s: string, p: string, i: int)
    requires s != [] && 0 <= i
    ensures OccursAt(s[1..], p, i) <==> OccursAt(s, p, i + 1)
  {
    if 0 <= i && i + 1 + |p| <= |s| {
      assert s[1..][i..i + |p|] == s[i + 1..i + 1 + |p|];
    }
  }

  /** contains means an occurrence at some position. */
  lemma {:induction false} ContainsIff(s: string, p: string)
    ensures Contains(s, p) <==> exists i :: OccursAt(s, p, i)
    decreases |s|
  {
    if s == [] {
      if p == [] {
        assert OccursAt(s, p, 0);
      }
    } else {
      ContainsIff(s[1..], p);
      if |p| <= |s| && s[..|p|] == p {
        assert OccursAt(s, p, 0);
      }
      if Contains(s[1..], p) {
        var i :| OccursAt(s[1..], p, i);
        OccursInTail(s, p, i);
      }
      if exists i :: OccursAt(s, p, i) {
        var i :| OccursAt(s, p, i);
        if i > 0 {
          OccursInTail(s, p, i - 1);
        }
      }
    }
  }

  /** String.endsWith. */
  predicate EndsWith(s: string, suffix: string) {
    |suffix| <= |s| && s[|s| - |suffix|..] == suffix
  }

  /** String.lastIndexOf(char): the last position holding c, or -1. */
  function LastIndexOf(s: string, c: char): (r: int)
    ensures -1 <= r < |s|
    ensures r >= 0 ==> s[r] == c
    ensures forall i :: r < i < |s| ==> s[i] != c
  {
    if s == [] then -1
    else if s[|s| - 1] == c then |s| - 1
    else LastIndexOf(s[..|s| - 1], c)
  }

  /** String.replace(char, char). */
  function ReplaceChar(s: string, from: char, to: char): (r: string)
    ensures |r| == |s|
    ensures forall i :: 0 <= i < |s| ==> r[i] == if s[i] == from then to else s[i]
  {
    seq(|s|, i requires 0 <= i < |s| => if s[i] == from then to else s[i])
  }

  /** String.replace(".", "") and the like: every occurrence of c removed. */
  function RemoveChar(s: string, c: char): (r: string)
    ensures c !in r
    ensures forall x :: x in r <==> x in s && x != c
  {
    if s == [] then []
    else RemoveChar(s[..|s| - 1], c) + (if s[|s| - 1] == c then [] else [s[|s| - 1]])
  }

  // --------------------------------------------------------------- split

  /** The characters of the regular-expression class \s. */
  predicate IsRegexSpace(c: char) {
    c == ' ' || '\t' <= c <= '\r'
  }

  function StripLeadingSpace(s: string): string {
    if s != [] && IsRegexSpace(s[0]) then StripLeadingSpace(s[1..]) else s
  }

  function StripTrailingSpace(s: string): string {
    if s != [] && IsRegexSpace(s[|s| - 1]) then StripTrailingSpace(s[..|s| - 1]) else s
  }

  /** The pieces of s between its commas, commas removed. */
  function CommaPieces(s: string): (r: seq<string>)
    ensures |r| >= 1
  {
    if ',' !in s then [s]
    else
      var i := FirstIndex(s, ',');
      [s[..i]] + CommaPieces(s[i + 1..])
  }

  function FirstIndex(s: string, c: char): (i: nat)
    requires c in s
    ensures i < |s| && s[i] == c && c !in s[..i]
  {
    if s[0] == c then 0 else 1 + FirstIndex(s[1..], c)
  }

  /** The pieces between separators of the form \s*,\s*: the whitespace
      the separator swallows is removed from the pieces it borders. */
  function SeparatedPieces(s: string): (r: seq<string>)
    ensures |r| == |CommaPieces(s)|
  {
    var p := CommaPieces(s);
    seq(|p|, i requires 0 <= i < |p| =>
      var a := if i > 0 then StripLeadingSpace(p[i]) else p[i];
      if i < |p| - 1 then StripTrailingSpace(a) else a)
  }

  function DropTrailingEmpty(xs: seq<string>): (r: seq<string>)
    ensures |r| <= |xs| && r == xs[..|r|]
    ensures r != [] ==> r[|r| - 1] != ""
    ensures forall i :: |r| <= i < |xs| ==> xs[i] == ""
  {
    if xs != [] && xs[|xs| - 1] == "" then DropTrailingEmpty(xs[..|xs| - 1]) else xs
  }

  /** String.split("\\s*,\\s*"): with no separator the whole string is the
      only element; otherwise the pieces, trailing empty ones removed. */
  function SplitOnCommas(s: string): (r: seq<string>)
    ensures ',' !in s ==> r == [s]
  {
    if ',' !in s then [s] else DropTrailingEmpty(SeparatedPieces(s))
  }

  // ------------------------------------------------------------ distinct

  /** Stream.distinct(): the first occurrence of each element, in order. */
  function Distinct<T(==,!new)>(xs: seq<T>): (r: seq<T>)
    ensures forall i, j :: 0 <= i < j < |r| ==> r[i] != r[j]
    ensures forall x :: x in r <==> x in xs
  {
    if xs == [] then []
    else
      var d := Distinct(xs[..|xs| - 1]);
      var x := xs[|xs| - 1];
      assert xs == xs[..|xs| - 1] + [x];
      if x in d then d else d + [x]
  }

  /** The position of the first occurrence of x in xs. */
  function FirstPosition<T(==)>(xs: seq<T>, x: T): (i: nat)
    requires x in xs
    ensures i < |xs| && xs[i] == x && x !in xs[..i]
  {
    if xs[0] == x then 0
    else
      var i := 1 + FirstPosition(xs[1..], x);
      assert xs[..i] == [xs[0]] + xs[1..][..i - 1];
      i
  }

  /** Appending an element leaves the first occurrences of the others where
      they were, and a new element first occurs at the end. */
  lemma FirstPositionAppend<T>(xs: seq<T>, x: T, y: T)
    requires y in xs + [x]
    ensures y in xs ==> FirstPosition(xs + [x], y) == FirstPosition(xs, y)
    ensures y !in xs ==> FirstPosition(xs + [x], y) == |xs|
  {
    var ys := xs + [x];
    var q := FirstPosition(ys, y);
    forall k | 0 <= k < q
      ensures ys[k] != y
    {
      assert ys[..q][k] == ys[k];
    }
    if y in xs {
      var p := FirstPosition(xs, y);
      forall k | 0 <= k < p
        ensures xs[k] != y
      {
        assert xs[..p][k] == xs[k];
      }
      assert ys[p] == y;
    }
  }

  /** distinct() keeps the first occurrences in their order. */
  lemma {:induction false} DistinctKeepsOrder<T(!new)>(xs: seq<T>)
    ensures forall i, j :: 0 <= i < j < |Distinct(xs)| ==>
              FirstPosition(xs, Distinct(xs)[i]) < FirstPosition(xs, Distinct(xs)[j])
  {
    if xs != [] {
      var init, x := xs[..|xs| - 1], xs[|xs| - 1];
      assert xs == init + [x];
      DistinctKeepsOrder(init);
      var d, r := Distinct(init), Distinct(xs);
      forall i, j | 0 <= i < j < |r|
        ensures FirstPosition(xs, r[i]) < FirstPosition(xs, r[j])
      {
        assert r[i] in d;
        FirstPositionAppend(init, x, r[i]);
        FirstPositionAppend(init, x, r[j]);
        if j < |d| {
          assert FirstPosition(init, d[i]) < FirstPosition(init, d[j]);
        }
      }
    }
  }

  // ------------------------------------------------------------- numbers

  function DigitChar(d: nat): char
    requires d < 10
  {
    "0123456789"[d]
  }

  /** The decimal rendering of a natural number, as Long.toString. */
  function NatToString(n: nat): (r: string)
    ensures |r| >= 1
    ensures forall i :: 0 <= i < |r| ==> '0' <= r[i] <= '9'
  {
    if n < 10 then [DigitChar(n)] else NatToString(n / 10) + [DigitChar(n % 10)]
  }

  /** Boolean.toString. */
  function BoolToString(b: bool): string {
    if b then "true" else "false"
  }

  /** String.valueOf on a possibly null string. */
  function OrNull(s: Option<string>): string {
    match s
    case None => "null"
    case Some(v) => v
  }
}
