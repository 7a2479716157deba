/**
 * The java.lang.String operations the catalog's schema parser relies on:
 * trim, indexOf of a character, split on a one-character separator (with
 * Java's removal of trailing empty strings) and equalsIgnoreCase against a
 * lower-case ASCII keyword.
 */
module JavaStrings {

  /** String.trim removes every character up to and including U+0020 from both ends. */
  predicate IsBlank(c: char) {
    c <= ' '
  }

  /** The number of blanks at the start of s. */
  function LeadingBlanks(s: string): (n: nat)
    ensures n <= |s|
    ensures forall k :: 0 <= k < n ==> IsBlank(s[k])
    ensures n < |s| ==> !IsBlank(s[n])
  {
    if s != [] && IsBlank(s[0]) then
      var n := LeadingBlanks(s[1..]);
      assert forall k :: 1 <= k < 1 + n ==> s[k] == s[1..][k - 1];
      1 + n
    else 0
  }

  /** The number of blanks at the end of s. */
  function TrailingBlanks(s: string): (n: nat)
    ensures n <= |s|
    ensures forall k :: |s| - n <= k < |s| ==> IsBlank(s[k])
    ensures n < |s| ==> !IsBlank(s[|s| - n - 1])
  {
    if s != [] && IsBlank(s[|s| - 1]) then 1 + TrailingBlanks(s[..|s| - 1]) else 0
  }

  /** String.trim: the blanks at both ends removed. */
  function Trim(s: string): string {
    var rest := s[LeadingBlanks(s)..];
    rest[..|rest| - TrailingBlanks(rest)]
  }

  /**
   * trim keeps a contiguous part of the string, removes only blanks around it,
   * and leaves no blank at either end.
   */
  lemma TrimKeepsTheMiddle(s: string)
    ensures var t := Trim(s);
            var i := LeadingBlanks(s);
            && i + |t| <= |s| && t == s[i..i + |t|]
            && (forall k :: 0 <= k < i ==> IsBlank(s[k]))
            && (forall k :: i + |t| <= k < |s| ==> IsBlank(s[k]))
            && (t != [] ==> !IsBlank(t[0]) && !IsBlank(t[|t| - 1]))
  {
    TrimIsSlice(s);
    TrimDropsTrailingBlanks(s);
  }

  lemma TrimIsSlice(s: string)
    ensures var t := Trim(s);
            var i := LeadingBlanks(s);
            && i + |t| <= |s| && t == s[i..i + |t|]
            && (t != [] ==> !IsBlank(t[0]) && !IsBlank(t[|t| - 1]))
  {
    var i := LeadingBlanks(s);
    var rest := s[i..];
    var j := TrailingBlanks(rest);
    SliceEnds(s, i, j);
  }

  /** Cutting i characters from the front of s and j from the back of the rest keeps s[i..i + |t|]. */
  lemma SliceEnds(s: string, i: nat, j: nat)
    requires i <= |s| && j <= |s| - i
    requires i < |s| ==> !IsBlank(s[i])
    requires j < |s| - i ==> !IsBlank(s[i..][|s| - i - j - 1])
    ensures var t := s[i..][..|s| - i - j];
            && i + |t| <= |s| && t == s[i..i + |t|]
            && (t != [] ==> !IsBlank(t[0]) && !IsBlank(t[|t| - 1]))
  {
    var t := s[i..][..|s| - i - j];
    if t != [] {
      assert t[0] == s[i];
      assert t[|t| - 1] == s[i..][|s| - i - j - 1];
    }
  }

  lemma TrimDropsTrailingBlanks(s: string)
    ensures LeadingBlanks(s) + |Trim(s)| <= |s|
    ensures forall k :: LeadingBlanks(s) + |Trim(s)| <= k < |s| ==> IsBlank(s[k])
  {
    var i := LeadingBlanks(s);
    var rest := s[i..];
    var j := TrailingBlanks(rest);
    assert |Trim(s)| == |rest| - j;
    forall k | i + |rest| - j <= k < |s| ensures IsBlank(s[k]) {
      assert s[k] == rest[k - i];
    }
  }

  /** Trimming twice is trimming once. */
  lemma {:induction false} TrimIdempotent(s: string)
    ensures Trim(Trim(s)) == Trim(s)
  {
    var t := Trim(s);
    TrimKeepsTheMiddle(s);
    NothingToTrim(t);
  }

  lemma NothingToTrim(t: string)
    requires t != [] ==> !IsBlank(t[0]) && !IsBlank(t[|t| - 1])
    ensures Trim(t) == t
  {
  }

  /** String.indexOf(c): the first position holding c, or -1. */
  function IndexOf(s: string, c: char): (r: int)
    ensures -1 <= r < |s|
    ensures r == -1 <==> c !in s
    ensures r >= 0 ==> s[r] == c && c !in s[..r]
  {
    if s == [] then -1
    else if s[0] == c then 0
    else
      var r := IndexOf(s[1..], c);
      assert s[1..][..if r < 0 then 0 else r] == s[1..1 + if r < 0 then 0 else r];
      if r < 0 then -1 else r + 1
  }

  /** The pieces between the occurrences of c: one more piece than there are occurrences. */
  function Pieces(s: string, c: char): (parts: seq<string>)
    ensures |parts| >= 1
    ensures forall k :: 0 <= k < |parts| ==> c !in parts[k]
    decreases |s|
  {
    var i := IndexOf(s, c);
    if i < 0 then [s] else [s[..i]] + Pieces(s[i + 1..], c)
  }

  /** The inverse of Pieces: the parts glued back with c between them. */
  function Join(parts: seq<string>, c: char): string
    requires |parts| >= 1
  {
    if |parts| == 1 then parts[0] else parts[0] + [c] + Join(parts[1..], c)
  }

  /** Cutting at every c and gluing back gives the string again. */
  lemma {:induction false} JoinPieces(s: string, c: char)
    ensures Join(Pieces(s, c), c) == s
    decreases |s|
  {
    var i := IndexOf(s, c);
    if i >= 0 {
      var rest := Pieces(s[i + 1..], c);
      var parts := Pieces(s, c);
      assert parts == [s[..i]] + rest;
      assert parts[1..] == rest;
      JoinPieces(s[i + 1..], c);
      assert Join(parts, c) == s[..i] + [c] + Join(rest, c);
      Reassemble(s, i);
    }
  }

  lemma Reassemble(s: string, i: nat)
    requires i < |s|
    ensures s[..i] + [s[i]] + s[i + 1..] == s
  {
  }

  /** Gluing parts free of c and cutting at every c gives the parts again. */
  lemma {:induction false} PiecesOfJoin(parts: seq<string>, c: char)
    requires |parts| >= 1 && forall k :: 0 <= k < |parts| ==> c !in parts[k]
    ensures Pieces(Join(parts, c), c) == parts
  {
    if |parts| > 1 {
      var rest := parts[1..];
      assert forall k :: 0 <= k < |rest| ==> rest[k] == parts[k + 1];
      PiecesOfJoin(rest, c);
      PiecesAfter(parts[0], c, Join(rest, c));
      assert parts == [parts[0]] + rest;
    }
  }

  /** The first c in a + [c] + b is the one after a, when a holds none. */
  lemma {:induction false} IndexOfAfter(a: string, c: char, b: string)
    requires c !in a
    ensures IndexOf(a + [c] + b, c) == |a|
  {
    if a != [] {
      assert (a + [c] + b)[1..] == a[1..] + [c] + b;
      IndexOfAfter(a[1..], c, b);
    }
  }

  /** Cutting a + [c] + b at c, when a holds no c, gives a and then the pieces of b. */
  lemma PiecesAfter(a: string, c: char, b: string)
    requires c !in a
    ensures Pieces(a + [c] + b, c) == [a] + Pieces(b, c)
  {
    var s := a + [c] + b;
    IndexOfAfter(a, c, b);
    assert s[..|a|] == a && s[|a| + 1..] == b;
  }

  function DropTrailingEmpty(parts: seq<string>): (r: seq<string>)
    ensures |r| <= |parts| && r == parts[..|r|]
    ensures forall k :: |r| <= k < |parts| ==> parts[k] == []
    ensures r != [] ==> r[|r| - 1] != []
  {
    if parts != [] && parts[|parts| - 1] == [] then DropTrailingEmpty(parts[..|parts| - 1]) else parts
  }

  /**
   * String.split on a one-character separator: the pieces with trailing empty
   * pieces removed, except that a string without the separator is its own
   * single piece, even when it is empty.
   */
  function Split(s: string, c: char): (r: seq<string>)
    ensures forall k :: 0 <= k < |r| ==> c !in r[k]
    ensures c !in s ==> r == [s]
  {
    if c !in s then [s] else DropTrailingEmpty(Pieces(s, c))
  }

  /** split keeps the leading pieces in order and drops only empty trailing ones. */
  lemma SplitDropsOnlyTrailingEmpty(s: string, c: char)
    ensures var r := Split(s, c);
            var all := Pieces(s, c);
            && |r| <= |all| && r == all[..|r|]
            && (forall k :: |r| <= k < |all| ==> all[k] == [])
            && (c in s && r != [] ==> r[|r| - 1] != [])
  {
    if c !in s {
      assert IndexOf(s, c) == -1;
    }
  }

  /** An ASCII lower-case letter. */
  predicate IsLowerAscii(c: char) {
    'a' <= c <= 'z'
  }

  function UpperAscii(c: char): char
    requires IsLowerAscii(c)
  {
    (c as int - 32) as char
  }

  /**
   * Whether equalsIgnoreCase equates ch with the lower-case ASCII letter l:
   * both cases of l, and for 'i' and 's' also the non-ASCII letters whose
   * upper case is 'I' or 'S' or whose lower case is 'i' (dotless i, dotted
   * capital I, long s).
   */
  predicate SameIgnoringCase(ch: char, l: char)
    requires IsLowerAscii(l)
  {
    || ch == l
    || ch == UpperAscii(l)
    || (l == 'i' && (ch == 'ı' || ch == 'İ'))
    || (l == 's' && ch == 'ſ')
  }

  /** String.equalsIgnoreCase against a lower-case ASCII keyword. */
  predicate EqualsIgnoreCase(s: string, keyword: string)
    requires forall k :: 0 <= k < |keyword| ==> IsLowerAscii(keyword[k])
  {
    |s| == |keyword| && forall k :: 0 <= k < |s| ==> SameIgnoringCase(s[k], keyword[k])
  }
}
