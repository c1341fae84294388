/** String helpers the dashboard relies on: Python's ordering of `str` values,
    `str.split(":")` with its inverse, and fixed-width decimal rendering. */
module Text {

  /** Python's `a <= b` on `str`: lexicographic by code point, a proper prefix first. */
  predicate StrLe(a: string, b: string)
    decreases |a|
  {
    a == [] || (b != [] && (a[0] < b[0] || (a[0] == b[0] && StrLe(a[1..], b[1..]))))
  }

  lemma {:induction false} StrLeReflexive(a: string)
    ensures StrLe(a, a)
    decreases |a|
  {
    if a != [] {
      StrLeReflexive(a[1..]);
    }
  }

  lemma {:induction false} StrLeTotal(a: string, b: string)
    ensures StrLe(a, b) || StrLe(b, a)
    decreases |a|
  {
    if a != [] && b != [] && a[0] == b[0] {
      StrLeTotal(a[1..], b[1..]);
    }
  }

  lemma {:induction false} StrLeAntisymmetric(a: string, b: string)
    requires StrLe(a, b) && StrLe(b, a)
    ensures a == b
    decreases |a|
  {
    if a != [] && b != [] {
      StrLeAntisymmetric(a[1..], b[1..]);
      assert a == [a[0]] + a[1..];
      assert b == [b[0]] + b[1..];
    }
  }

  lemma {:induction false} StrLeTransitive(a: string, b: string, c: string)
    requires StrLe(a, b) && StrLe(b, c)
    ensures StrLe(a, c)
    decreases |a|
  {
    if a != [] && b != [] && c != [] && a[0] == b[0] && b[0] == c[0] {
      StrLeTransitive(a[1..], b[1..], c[1..]);
    }
  }

  /** Comparing two strings that start with blocks of equal length compares the
      blocks first and the remainders only when the blocks are equal. */
  lemma {:induction false} StrLeBlocks(x1: string, x2: string, y1: string, y2: string)
    requires |x1| == |y1|
    ensures StrLe(x1 + x2, y1 + y2) <==> (x1 != y1 && StrLe(x1, y1)) || (x1 == y1 && StrLe(x2, y2))
    decreases |x1|
  {
    if x1 != [] {
      assert (x1 + x2)[0] == x1[0] && (y1 + y2)[0] == y1[0];
      assert (x1 + x2)[1..] == x1[1..] + x2;
      assert (y1 + y2)[1..] == y1[1..] + y2;
      if x1[0] == y1[0] {
        StrLeBlocks(x1[1..], x2, y1[1..], y2);
        assert x1 == [x1[0]] + x1[1..];
        assert y1 == [y1[0]] + y1[1..];
        assert x1 == y1 <==> x1[1..] == y1[1..];
      } else {
        assert x1 != y1;
        assert StrLe(x1 + x2, y1 + y2) <==> x1[0] < y1[0];
        assert StrLe(x1, y1) <==> x1[0] < y1[0];
      }
    } else {
      assert x1 + x2 == x2 && y1 + y2 == y2;
    }
  }

  /** Index of the first ':' in `s`, or `|s|` when there is none. */
  function IndexOfColon(s: string): (i: nat)
    ensures i <= |s|
    ensures forall j :: 0 <= j < i ==> s[j] != ':'
    ensures i < |s| ==> s[i] == ':'
  {
    if s == [] || s[0] == ':' then 0 else 1 + IndexOfColon(s[1..])
  }

  /** Python's `s.split(":")`. */
  function Split(s: string): (parts: seq<string>)
    ensures |parts| >= 1
    decreases |s|
  {
    var i := IndexOfColon(s);
    if i == |s| then [s] else [s[..i]] + Split(s[i + 1..])
  }

  /** No part holds a colon, and there is a single part exactly when the text has no colon. */
  lemma {:induction false} SplitParts(s: string)
    ensures forall k :: 0 <= k < |Split(s)| ==> ':' !in Split(s)[k]
    ensures |Split(s)| == 1 <==> ':' !in s
    decreases |s|
  {
    var i := IndexOfColon(s);
    if i < |s| {
      SplitParts(s[i + 1..]);
      assert s[i] == ':';
    }
  }

  /** The first part ends at the first colon; the others are the split of what follows it. */
  lemma SplitUnfold(s: string)
    ensures Split(s)[0] == s[..IndexOfColon(s)]
    ensures IndexOfColon(s) < |s| ==> Split(s)[1..] == Split(s[IndexOfColon(s) + 1..])
  {
    var i := IndexOfColon(s);
    if i < |s| {
      var parts := [s[..i]] + Split(s[i + 1..]);
      assert Split(s) == parts;
      assert parts[1..] == Split(s[i + 1..]);
    }
  }

  /** Python's `":".join(parts)`. */
  function Join(parts: seq<string>): string
    requires |parts| >= 1
    decreases |parts|
  {
    if |parts| == 1 then parts[0] else parts[0] + ":" + Join(parts[1..])
  }

  lemma {:induction false} JoinSplit(s: string)
    ensures Join(Split(s)) == s
    decreases |s|
  {
    var i := IndexOfColon(s);
    SplitUnfold(s);
    if i < |s| {
      var rest := s[i + 1..];
      JoinSplit(rest);
      assert Join(Split(s)) == s[..i] + ":" + Join(Split(rest));
      CutAtColon(s, i);
    }
  }

  lemma CutAtColon(s: string, i: nat)
    requires i < |s| && s[i] == ':'
    ensures s == s[..i] + ":" + s[i + 1..]
  {
  }

  lemma {:induction false} SplitJoin(parts: seq<string>)
    requires |parts| >= 1
    requires forall k :: 0 <= k < |parts| ==> ':' !in parts[k]
    ensures Split(Join(parts)) == parts
    decreases |parts|
  {
    if |parts| > 1 {
      var s := Join(parts);
      var p := parts[0];
      assert s == p + ":" + Join(parts[1..]);
      assert s[|p|] == ':';
      assert forall j :: 0 <= j < |p| ==> s[j] == p[j];
      assert IndexOfColon(s) == |p|;
      assert s[..|p|] == p;
      assert s[|p| + 1..] == Join(parts[1..]);
      SplitJoin(parts[1..]);
    }
  }

  function Pow10(n: nat): (r: nat)
    ensures r >= 1
  {
    if n == 0 then 1 else 10 * Pow10(n - 1)
  }

  function DigitChar(d: int): char
    requires 0 <= d < 10
  {
    (48 + d) as char
  }

  /** `n` in decimal, zero-padded to `width` digits (Python's `f"{n:0{width}d}"`). */
  function Digits(n: nat, width: nat): (s: string)
    requires n < Pow10(width)
    ensures |s| == width
  {
    if width == 0 then [] else Digits(n / 10, width - 1) + [DigitChar(n % 10)]
  }

  /** Zero-padded decimal text orders like the numbers it spells, and spells each number once. */
  lemma {:induction false} DigitsOrder(n: nat, m: nat, width: nat)
    requires n < Pow10(width) && m < Pow10(width)
    ensures StrLe(Digits(n, width), Digits(m, width)) <==> n <= m
    ensures Digits(n, width) == Digits(m, width) <==> n == m
  {
    if width > 0 {
      var a, b := Digits(n / 10, width - 1), Digits(m / 10, width - 1);
      DigitsOrder(n / 10, m / 10, width - 1);
      var c, d := [DigitChar(n % 10)], [DigitChar(m % 10)];
      StrLeBlocks(a, c, b, d);
      assert StrLe(c, d) <==> n % 10 <= m % 10;
      if Digits(n, width) == Digits(m, width) {
        assert a == Digits(n, width)[..width - 1] == Digits(m, width)[..width - 1] == b;
        assert Digits(n, width)[width - 1] == Digits(m, width)[width - 1];
      }
    }
  }
}
