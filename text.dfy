// The .NET string and list operations the converter relies on, with ordinal
// (exact character) comparison: List.IndexOf, String.IndexOf, String.Split
// with one separator and no options, Char.IsWhiteSpace and String.Trim.
module Text {

  /** The first position of x in s, or -1 when x does not occur. */
  function IndexOf<T(==)>(s: seq<T>, x: T): (i: int)
    ensures i == -1 <==> x !in s
    ensures i != -1 ==> 0 <= i < |s| && s[i] == x && x !in s[..i]
  {
    if |s| == 0 then -1
    else if s[0] == x then 0
    else
      var j := IndexOf(s[1..], x);
      if j == -1 then -1
      else
        assert s[..j + 1] == [s[0]] + s[1..][..j];
        j + 1
  }

  /** The last position of x in s, or -1 when x does not occur. */
  function LastIndexOf<T(==)>(s: seq<T>, x: T): (i: int)
    ensures i == -1 <==> x !in s
    ensures i != -1 ==> 0 <= i < |s| && s[i] == x && x !in s[i + 1..]
  {
    if |s| == 0 then -1
    else
      var j := LastIndexOf(s[1..], x);
      if j != -1 then
        assert s[j + 2..] == s[1..][j + 1..];
        j + 1
      else if s[0] == x then
        assert s[1..] == s[0 + 1..];
        0
      else
        assert s == [s[0]] + s[1..];
        -1
  }

  /** String.Split(sep): the pieces between separators, empty pieces included. */
  function Split(s: string, sep: char): (parts: seq<string>)
    ensures |parts| >= 1
  {
    if |s| == 0 then [[]]
    else
      var rest := Split(s[1..], sep);
      if s[0] == sep then [[]] + rest
      else [[s[0]] + rest[0]] + rest[1..]
  }

  /** The number of times x occurs in s. */
  function Occurrences<T(==)>(s: seq<T>, x: T): nat {
    if |s| == 0 then 0 else (if s[0] == x then 1 else 0) + Occurrences(s[1..], x)
  }

  /** A split has one piece more than s has separators. */
  lemma {:induction false} SplitCount(s: string, sep: char)
    ensures |Split(s, sep)| == Occurrences(s, sep) + 1
  {
    if |s| > 0 {
      SplitCount(s[1..], sep);
    }
  }

  /** String.Join(sep, parts): the inverse of Split. */
  function Join(parts: seq<string>, sep: char): string
    requires |parts| >= 1
  {
    if |parts| == 1 then parts[0] else parts[0] + [sep] + Join(parts[1..], sep)
  }

  /** A split has more than one piece exactly when s holds the separator, and
      no piece holds it. */
  lemma {:induction false} SplitPieces(s: string, sep: char)
    ensures var parts := Split(s, sep);
      (|parts| == 1 <==> sep !in s)
      && forall k :: 0 <= k < |parts| ==> sep !in parts[k]
  {
    if |s| > 0 {
      SplitPieces(s[1..], sep);
      assert s == [s[0]] + s[1..];
    }
  }

  /** Joining the pieces of a split gives back the original string. */
  lemma {:induction false} JoinSplit(s: string, sep: char)
    ensures Join(Split(s, sep), sep) == s
  {
    if |s| > 0 {
      var rest := Split(s[1..], sep);
      var parts := Split(s, sep);
      JoinSplit(s[1..], sep);
      if s[0] == sep {
        assert parts[1..] == rest;
      } else if |rest| == 1 {
        assert parts == [[s[0]] + rest[0]];
      } else {
        assert parts[1..] == rest[1..];
        assert Join(rest, sep) == rest[0] + [sep] + Join(rest[1..], sep);
      }
    }
  }

  /** A separator-free prefix extends the first piece of a split. */
  lemma {:induction false} SplitPrefix(a: string, sep: char, r: string)
    requires sep !in a
    ensures var pr := Split(r, sep);
      Split(a + r, sep) == [a + pr[0]] + pr[1..]
  {
    var pr := Split(r, sep);
    if |a| == 0 {
      assert a + r == r;
      assert a + pr[0] == pr[0];
      assert pr == [pr[0]] + pr[1..];
    } else {
      var s, t := a + r, a[1..] + r;
      assert s[0] == a[0] && s[1..] == t;
      SplitPrefix(a[1..], sep, r);
      var st := Split(t, sep);
      assert Split(s, sep) == [[a[0]] + st[0]] + st[1..];
      assert st[1..] == pr[1..];
      assert [a[0]] + (a[1..] + pr[0]) == a + pr[0];
    }
  }

  /** Splitting at the first separator: a separator-free head, then the rest. */
  lemma SplitAtSeparator(a: string, sep: char, b: string)
    requires sep !in a
    ensures Split(a + [sep] + b, sep) == [a] + Split(b, sep)
  {
    var r := [sep] + b;
    assert r[0] == sep && r[1..] == b;
    var pr := Split(r, sep);
    assert pr == [[]] + Split(b, sep);
    SplitPrefix(a, sep, r);
    assert pr[1..] == Split(b, sep);
    assert a + pr[0] == a;
    assert a + [sep] + b == a + r;
  }

  /** Splitting a join of separator-free pieces gives back the pieces. */
  lemma {:induction false} SplitJoin(parts: seq<string>, sep: char)
    requires |parts| >= 1
    requires forall k :: 0 <= k < |parts| ==> sep !in parts[k]
    ensures Split(Join(parts, sep), sep) == parts
  {
    if |parts| == 1 {
      SplitPrefix(parts[0], sep, []);
      assert parts[0] + [] == parts[0];
    } else {
      SplitJoin(parts[1..], sep);
      SplitAtSeparator(parts[0], sep, Join(parts[1..], sep));
      assert [parts[0]] + parts[1..] == parts;
    }
  }

  /** The last piece of a split is the text after the last separator. */
  lemma {:induction false} LastPieceOfSplit(s: string, sep: char)
    ensures var parts := Split(s, sep);
      parts[|parts| - 1] == s[LastIndexOf(s, sep) + 1..]
  {
    if sep !in s {
      LastPieceWithoutSeparator(s, sep);
    } else {
      var t := s[1..];
      LastPieceOfSplit(t, sep);
      var rest := Split(t, sep);
      assert rest[|rest| - 1] == t[LastIndexOf(t, sep) + 1..];
      LastPieceStep(s, sep);
    }
  }

  lemma LastPieceWithoutSeparator(s: string, sep: char)
    requires sep !in s
    ensures var parts := Split(s, sep);
      parts[|parts| - 1] == s[LastIndexOf(s, sep) + 1..]
  {
    SplitPieces(s, sep);
    JoinSplit(s, sep);
  }

  lemma LastPieceStep(s: string, sep: char)
    requires sep in s
    requires var rest := Split(s[1..], sep);
      rest[|rest| - 1] == s[1..][LastIndexOf(s[1..], sep) + 1..]
    ensures var parts := Split(s, sep);
      parts[|parts| - 1] == s[LastIndexOf(s, sep) + 1..]
  {
    LastPieceOfSplitTail(s, sep);
    LastIndexOfTail(s, sep);
  }

  lemma LastPieceOfSplitTail(s: string, sep: char)
    requires sep in s
    ensures var parts, rest := Split(s, sep), Split(s[1..], sep);
      parts[|parts| - 1] == rest[|rest| - 1]
  {
    var rest := Split(s[1..], sep);
    if s[0] == sep {
      assert Split(s, sep) == [[]] + rest;
    } else {
      assert sep in s[1..] by {
        assert s == [s[0]] + s[1..];
      }
      SplitPieces(s[1..], sep);
      assert Split(s, sep) == [[s[0]] + rest[0]] + rest[1..];
    }
  }

  lemma LastIndexOfTail(s: string, sep: char)
    requires sep in s
    ensures s[LastIndexOf(s, sep) + 1..] == s[1..][LastIndexOf(s[1..], sep) + 1..]
  {
    var j := LastIndexOf(s[1..], sep);
    assert s[1..][j + 1..] == s[j + 2..];
  }

  /** Char.IsWhiteSpace: the Unicode separators and the ASCII controls
      TAB, LF, VT, FF, CR, plus NEL. */
  predicate IsWhiteSpace(c: char) {
    c in WhiteSpace
  }

  const WhiteSpace: set<char> := {
    '\U{9}', '\U{A}', '\U{B}', '\U{C}', '\U{D}', '\U{20}', '\U{85}', '\U{A0}',
    '\U{1680}', '\U{2000}', '\U{2001}', '\U{2002}', '\U{2003}', '\U{2004}', '\U{2005}', '\U{2006}',
    '\U{2007}', '\U{2008}', '\U{2009}', '\U{200A}', '\U{2028}', '\U{2029}', '\U{202F}', '\U{205F}',
    '\U{3000}'}

  /** String.IsNullOrWhiteSpace for a non-null string. */
  predicate IsNullOrWhiteSpace(s: string) {
    forall i :: 0 <= i < |s| ==> IsWhiteSpace(s[i])
  }

  /** The first index from i on whose character is not white space, or |s|. */
  function SkipWhiteSpace(s: string, i: nat): (j: nat)
    requires i <= |s|
    ensures i <= j <= |s|
    ensures j == |s| || !IsWhiteSpace(s[j])
    ensures forall k :: i <= k < j ==> IsWhiteSpace(s[k])
    decreases |s| - i
  {
    if i < |s| && IsWhiteSpace(s[i]) then SkipWhiteSpace(s, i + 1) else i
  }

  /** The end of s[lo..hi] once its trailing white space is dropped. */
  function SkipWhiteSpaceBack(s: string, lo: nat, hi: nat): (j: nat)
    requires lo <= hi <= |s|
    ensures lo <= j <= hi
    ensures j == lo || !IsWhiteSpace(s[j - 1])
    ensures forall k :: j <= k < hi ==> IsWhiteSpace(s[k])
    decreases hi - lo
  {
    if lo < hi && IsWhiteSpace(s[hi - 1]) then SkipWhiteSpaceBack(s, lo, hi - 1) else hi
  }

  /** String.Trim(): drop the white space at both ends, scanning from the
      front and then from the back. What is left is the middle of s, neither
      starting nor ending with white space, with only white space cut away
      around it. */
  function Trim(s: string): (r: string)
    ensures var lo := SkipWhiteSpace(s, 0);
      lo + |r| <= |s| && r == s[lo..lo + |r|]
      && (r == [] || (!IsWhiteSpace(r[0]) && !IsWhiteSpace(r[|r| - 1])))
      && (forall i :: 0 <= i < lo ==> IsWhiteSpace(s[i]))
      && (forall i :: lo + |r| <= i < |s| ==> IsWhiteSpace(s[i]))
  {
    var lo := SkipWhiteSpace(s, 0);
    s[lo..SkipWhiteSpaceBack(s, lo, |s|)]
  }

  /** Trimming twice is trimming once. */
  lemma TrimIdempotent(s: string)
    ensures Trim(Trim(s)) == Trim(s)
  {
    var r := Trim(s);
    if r != [] {
      assert SkipWhiteSpace(r, 0) == 0;
      assert SkipWhiteSpaceBack(r, 0, |r|) == |r|;
    }
  }

  /** A string is blank exactly when trimming leaves nothing. */
  lemma BlankIffTrimEmpty(s: string)
    ensures IsNullOrWhiteSpace(s) <==> Trim(s) == []
  {
    var lo := SkipWhiteSpace(s, 0);
    if Trim(s) != [] {
      assert !IsWhiteSpace(s[lo]);
    }
  }
}
