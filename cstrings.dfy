/**
 * The C library's string comparisons on NUL-terminated strings. A string
 * is the sequence of its bytes before the terminator; reading past the end
 * of the sequence reads the terminator.
 */
module CStrings {
  import opened Support
  import opened Compare

  /** '\n', where getline and fgets end a line. */
  const Newline: Byte := 10

  /** A C string holds no NUL before its terminator. */
  predicate IsCString(s: seq<Byte>)
  {
    forall i :: 0 <= i < |s| ==> s[i] != 0
  }

  /** The byte at the head of a terminated string: the terminator once it ends. */
  function Head(s: seq<Byte>): Byte
  {
    if |s| == 0 then 0 else s[0]
  }

  /**
   * strcmp, by its sign: the first differing byte decides, compared as an
   * unsigned char; equal up to a common terminator gives 0.
   */
  function StrCmp(a: seq<Byte>, b: seq<Byte>): (r: int)
    decreases |a|
    ensures -1 <= r <= 1
  {
    if Head(a) != Head(b) then CompareChar(Head(a), Head(b))
    else if Head(a) == 0 then 0
    else StrCmp(a[1..], b[1..])
  }

  /** strncmp, by its sign: as strcmp, but looking at no more than n bytes. */
  function StrNCmp(a: seq<Byte>, b: seq<Byte>, n: nat): (r: int)
    ensures -1 <= r <= 1
  {
    if n == 0 then 0
    else if Head(a) != Head(b) then CompareChar(Head(a), Head(b))
    else if Head(a) == 0 then 0
    else StrNCmp(a[1..], b[1..], n - 1)
  }

  /** Two C strings compare equal under strcmp exactly when they are equal. */
  lemma {:induction false} StrCmpZeroIffEqual(a: seq<Byte>, b: seq<Byte>)
    requires IsCString(a) && IsCString(b)
    decreases |a|
    ensures StrCmp(a, b) == 0 <==> a == b
  {
    if Head(a) == Head(b) && Head(a) != 0 {
      StrCmpZeroIffEqual(a[1..], b[1..]);
      assert a == [a[0]] + a[1..] && b == [b[0]] + b[1..];
    }
  }

  /** Swapping the operands of strcmp negates it. */
  lemma {:induction false} StrCmpAntisymmetric(a: seq<Byte>, b: seq<Byte>)
    decreases |a|
    ensures StrCmp(a, b) == -StrCmp(b, a)
  {
    if Head(a) == Head(b) && Head(a) != 0 {
      StrCmpAntisymmetric(a[1..], b[1..]);
    }
  }

  /** strcmp orders strings transitively. */
  lemma {:induction false} StrCmpTransitive(a: seq<Byte>, b: seq<Byte>, c: seq<Byte>)
    requires StrCmp(a, b) <= 0 && StrCmp(b, c) <= 0
    decreases |a|
    ensures StrCmp(a, c) <= 0
  {
    if Head(a) == Head(b) && Head(b) == Head(c) && Head(a) != 0 {
      StrCmpTransitive(a[1..], b[1..], c[1..]);
    }
  }

  /**
   * Two C strings compare equal under strncmp with bound n exactly when their
   * first n bytes (or all of them, when shorter) agree.
   */
  lemma {:induction false} StrNCmpZeroIffPrefixesEqual(a: seq<Byte>, b: seq<Byte>, n: nat)
    requires IsCString(a) && IsCString(b)
    ensures StrNCmp(a, b, n) == 0 <==> a[..Min(n, |a|)] == b[..Min(n, |b|)]
  {
    if n > 0 && Head(a) == Head(b) && Head(a) != 0 {
      StrNCmpZeroIffPrefixesEqual(a[1..], b[1..], n - 1);
      assert a[..Min(n, |a|)] == [a[0]] + a[1..][..Min(n - 1, |a| - 1)];
      assert b[..Min(n, |b|)] == [b[0]] + b[1..][..Min(n - 1, |b| - 1)];
    } else if n > 0 && Head(a) != Head(b) {
      if |a| > 0 && |b| > 0 {
        assert a[..Min(n, |a|)][0] != b[..Min(n, |b|)][0];
      }
    }
  }

  /** A bound that reaches past the end of both C strings makes strncmp strcmp. */
  lemma {:induction false} StrNCmpWideIsStrCmp(a: seq<Byte>, b: seq<Byte>, n: nat)
    requires |a| <= n && |b| <= n
    ensures StrNCmp(a, b, n) == StrCmp(a, b)
  {
    if n > 0 && Head(a) == Head(b) && Head(a) != 0 {
      StrNCmpWideIsStrCmp(a[1..], b[1..], n - 1);
    }
  }

  /** Every string compares equal to itself. */
  lemma {:induction false} StrCmpReflexive(a: seq<Byte>)
    decreases |a|
    ensures StrCmp(a, a) == 0
  {
    if Head(a) != 0 {
      StrCmpReflexive(a[1..]);
    }
  }

  /** Comparing equal under strcmp is transitive. */
  lemma StrCmpEqualTransitive(a: seq<Byte>, b: seq<Byte>, c: seq<Byte>)
    requires StrCmp(a, b) == 0 && StrCmp(b, c) == 0
    ensures StrCmp(a, c) == 0
  {
    StrCmpAntisymmetric(a, b);
    StrCmpAntisymmetric(b, c);
    StrCmpTransitive(a, b, c);
    StrCmpTransitive(c, b, a);
    StrCmpAntisymmetric(a, c);
  }

  /** Below then at most: strictly below. */
  lemma StrCmpLessThenAtMost(a: seq<Byte>, b: seq<Byte>, c: seq<Byte>)
    requires StrCmp(a, b) < 0 && StrCmp(b, c) <= 0
    ensures StrCmp(a, c) < 0
  {
    StrCmpTransitive(a, b, c);
    if StrCmp(a, c) == 0 {
      StrCmpAntisymmetric(a, c);
      StrCmpTransitive(b, c, a);
      StrCmpAntisymmetric(a, b);
    }
  }

  /** At most then below: strictly below. */
  lemma StrCmpAtMostThenLess(a: seq<Byte>, b: seq<Byte>, c: seq<Byte>)
    requires StrCmp(a, b) <= 0 && StrCmp(b, c) < 0
    ensures StrCmp(a, c) < 0
  {
    StrCmpTransitive(a, b, c);
    if StrCmp(a, c) == 0 {
      StrCmpAntisymmetric(a, c);
      StrCmpTransitive(c, a, b);
      StrCmpAntisymmetric(b, c);
    }
  }

  /** The string a buffer holds: its bytes before the first NUL (what strlen counts). */
  function CPrefix(s: seq<Byte>): (r: seq<Byte>)
    ensures IsCString(r) && r <= s
    ensures IsCString(s) ==> r == s
  {
    if |s| == 0 || s[0] == 0 then []
    else
      assert s == [s[0]] + s[1..];
      [s[0]] + CPrefix(s[1..])
  }

  function Min(x: nat, y: nat): nat
  {
    if x < y then x else y
  }
}
