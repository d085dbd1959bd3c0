/**
 * String signatures: a word's characters sorted ascending by compare_char.
 * Two words are anagrams exactly when their signatures are equal. The
 * common library builds a signature into a fresh copy (ss_init) and tests
 * a word against it (ss_matches); column 2 writes one into a caller's
 * buffer (ss_calculate).
 */
module StringSig {
  import opened Support
  import opened Compare
  import opened CStrings
  import opened Sorting

  /** compare_char as an order: x may precede y. */
  function CharLe(x: Byte, y: Byte): bool
  {
    CompareChar(x, y) <= 0
  }

  lemma CharLeOrders()
    ensures TotalPreorder(CharLe) && Antisymmetric(CharLe)
  {
  }

  /** The signature of s: its characters in ascending order. */
  function Signature(s: seq<Byte>): (r: seq<Byte>)
    ensures multiset(r) == multiset(s) && |r| == |s|
  {
    Sort(s, CharLe)
  }

  /** The signature is sorted ascending under compare_char. */
  lemma SignatureSorted(s: seq<Byte>)
    ensures SortedBy(Signature(s), CharLe)
  {
    CharLeOrders();
    SortSorts(s, CharLe);
  }

  /**
   * Every ascending arrangement of the characters of s is its signature:
   * whatever order qsort leaves among equal characters, the result is the same.
   */
  lemma SignatureUnique(s: seq<Byte>, t: seq<Byte>)
    requires SortedBy(t, CharLe) && multiset(t) == multiset(s)
    ensures t == Signature(s)
  {
    CharLeOrders();
    SignatureSorted(s);
    SortedArrangementUnique(t, Signature(s), CharLe);
  }

  /** Two strings have the same signature exactly when they are anagrams. */
  lemma SignatureIffAnagram(s: seq<Byte>, t: seq<Byte>)
    ensures Signature(s) == Signature(t) <==> multiset(s) == multiset(t)
  {
    if multiset(s) == multiset(t) {
      SignatureSorted(t);
      SignatureUnique(s, Signature(t));
    }
  }

  /** Sorting a signature again leaves it unchanged. */
  lemma SignatureIdempotent(s: seq<Byte>)
    ensures Signature(Signature(s)) == Signature(s)
  {
    SignatureSorted(s);
    SignatureUnique(Signature(s), Signature(s));
  }

  /** The signature of a C string holds no NUL either. */
  lemma SignatureKeepsCString(s: seq<Byte>)
    requires IsCString(s)
    ensures IsCString(Signature(s))
  {
    var r := Signature(s);
    forall i | 0 <= i < |r|
      ensures r[i] != 0
    {
      assert r[i] in multiset(s);
    }
  }

  /**
   * qsort(a, count, sizeof(char), compare_char): the first count characters
   * end up as their signature and the rest of the array is untouched.
   */
  method QsortChars(a: array<Byte>, count: nat)
    requires count <= a.Length
    modifies a
    ensures a[..count] == Signature(old(a[..count]))
    ensures a[count..] == old(a[count..])
  {
    var sorted := Signature(a[..count]);
    forall i | 0 <= i < count {
      a[i] := sorted[i];
    }
  }

  /** A string signature: a sorted copy of a string, and the string's length. */
  class StringSignature {
    var signature: array<Byte>
    var n: nat
    /** The string the signature was built from. */
    ghost var source: seq<Byte>

    ghost predicate Valid()
      reads this, signature
    {
      && IsCString(source)
      && |source| == n
      && signature.Length == n + 1
      && signature[n] == 0
      && signature[..n] == Signature(source)
    }

    /**
     * ss_init: duplicate the string, sort the copy's characters and record
     * the string's length.
     */
    constructor Init(s: seq<Byte>)
      requires IsCString(s)
      ensures Valid() && source == s
      ensures n == |s|
      ensures SortedBy(signature[..n], CharLe) && multiset(signature[..n]) == multiset(s)
      ensures fresh(signature)
    {
      var copy := new Byte[|s| + 1];
      forall i | 0 <= i < |s| {
        copy[i] := s[i];
      }
      copy[|s|] := 0;
      assert copy[..|s|] == s;
      QsortChars(copy, |s|);
      assert copy[|s|..] == [0];
      signature := copy;
      n := |s|;
      source := s;
      SignatureSorted(s);
    }

    /**
     * ss_matches(s, this): a word matches exactly when it is an anagram of
     * the string the signature was built from.
     */
    method Matches(s: seq<Byte>) returns (r: bool)
      requires Valid() && IsCString(s)
      ensures r <==> multiset(s) == multiset(source)
    {
      var target := new StringSignature.Init(s);
      r := false;
      if target.n == n {
        r := StrCmp(target.signature[..target.n], signature[..n]) == 0;
        SignatureKeepsCString(s);
        SignatureKeepsCString(source);
        StrCmpZeroIffEqual(Signature(s), Signature(source));
        SignatureIffAnagram(s, source);
      } else {
        assert |multiset(s)| != |multiset(source)|;
      }
    }
  }

  /**
   * strncpy(dst, src, length): the first length bytes of the string src,
   * padded with NULs once src ends.
   */
  function StrNCpy(src: seq<Byte>, length: nat): (r: seq<Byte>)
    ensures |r| == length
  {
    if length == 0 then []
    else if Head(src) == 0 then [0] + StrNCpy(src, length - 1)
    else [src[0]] + StrNCpy(src[1..], length - 1)
  }

  /** From a C string at least length long, strncpy copies its first length bytes. */
  lemma {:induction false} StrNCpyOfString(src: seq<Byte>, length: nat)
    requires IsCString(src) && length <= |src|
    ensures StrNCpy(src, length) == src[..length]
  {
    if length > 0 {
      StrNCpyOfString(src[1..], length - 1);
      assert src[..length] == [src[0]] + src[1..][..length - 1];
    }
  }

  /** The characters ss_calculate leaves before the terminator it writes. */
  function Calculated(s: seq<Byte>, length: nat): (r: seq<Byte>)
    ensures |r| == length
  {
    Signature(StrNCpy(s, length))
  }

  /**
   * ss_calculate(s, length, signature): copy length bytes of s, terminate
   * them and sort them; nothing past signature[length] is written.
   */
  method Calculate(s: seq<Byte>, length: nat, signature: array<Byte>)
    requires length + 1 <= signature.Length
    modifies signature
    ensures signature[..length] == Calculated(s, length)
    ensures signature[length] == 0
    ensures signature[length + 1..] == old(signature[length + 1..])
  {
    var copied := StrNCpy(s, length);
    ghost var tail := signature[length + 1..];
    forall i | 0 <= i < length {
      signature[i] := copied[i];
    }
    assert signature[..length] == copied;
    signature[length] := 0;
    assert signature[length + 1..] == tail;
    QsortChars(signature, length);
  }

  /**
   * On a word of at least length characters, ss_calculate yields the sorted
   * permutation of its first length characters, a C string itself.
   */
  lemma CalculatedIsSignature(s: seq<Byte>, length: nat)
    requires IsCString(s) && length <= |s|
    ensures Calculated(s, length) == Signature(s[..length])
    ensures SortedBy(Calculated(s, length), CharLe)
    ensures multiset(Calculated(s, length)) == multiset(s[..length])
    ensures IsCString(Calculated(s, length))
  {
    StrNCpyOfString(s, length);
    SignatureSorted(s[..length]);
    SignatureKeepsCString(s[..length]);
  }

  /** ss_calculate applied to its own output leaves it unchanged. */
  lemma CalculateIdempotent(s: seq<Byte>, length: nat)
    requires IsCString(s) && length <= |s|
    ensures Calculated(Calculated(s, length), length) == Calculated(s, length)
  {
    var c := Calculated(s, length);
    CalculatedIsSignature(s, length);
    CalculatedIsSignature(c, length);
    assert c[..length] == c;
    SignatureIdempotent(s[..length]);
  }

  /** Two words get the same signature of length characters exactly when those characters are anagrams. */
  lemma CalculatedIffAnagram(s: seq<Byte>, t: seq<Byte>, length: nat)
    requires IsCString(s) && IsCString(t) && length <= |s| && length <= |t|
    ensures Calculated(s, length) == Calculated(t, length)
        <==> multiset(s[..length]) == multiset(t[..length])
  {
    CalculatedIsSignature(s, length);
    CalculatedIsSignature(t, length);
    SignatureIffAnagram(s[..length], t[..length]);
  }
}
