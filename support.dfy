/**
 * Vocabulary shared by the programs of columns 1 and 2: optional values,
 * powers of two, and what the C library's number parsers report for a line.
 */
module Support {

  datatype Option<T> = None | Some(value: T)

  /** A byte of a file or a C string; characters are compared by this value. */
  type Byte = x: int | 0 <= x < 0x100

  /** A `u_int32_t` value. */
  type U32 = x: int | 0 <= x < 0x1_0000_0000

  /**
   * What `strtoul`/`strtoll` report for one input line. The programs only
   * look at two things: whether any digit was consumed with `errno` left at
   * zero (then `Parsed` carries the returned value), or not (`Unparsable`).
   * Text after the digits is ignored by every caller, so "12abc" parses as 12.
   */
  datatype Parse = Parsed(value: int) | Unparsable

  /**
   * Storing strtoul's `unsigned long` result in a `u_int32_t` keeps its low
   * 32 bits; strtoul negates a leading minus sign in unsigned arithmetic, so
   * this holds for negative values too.
   */
  function AsU32(v: int): (r: U32)
    ensures 0 <= v < 0x1_0000_0000 ==> r == v
  {
    v % 0x1_0000_0000
  }

  /** 2^k */
  function Pow2(k: nat): (p: nat)
    ensures p >= 1
  {
    if k == 0 then 1 else 2 * Pow2(k - 1)
  }

  lemma {:induction false} Pow2Monotone(j: nat, k: nat)
    requires j <= k
    ensures Pow2(j) <= Pow2(k)
  {
    if j < k {
      Pow2Monotone(j, k - 1);
    }
  }

  /** n slots make a whole number of chunks of the given size. */
  predicate WholeChunks(n: nat, chunk: nat)
    requires chunk > 0
    decreases n
  {
    n == 0 || (n >= chunk && WholeChunks(n - chunk, chunk))
  }

  /** The distinct values of a sequence. */
  function Elements(s: seq<nat>): set<nat>
  {
    set x | x in s
  }

  /** A sequence holds at least as many items as it has distinct values. */
  lemma {:induction false} ElementsBound(s: seq<nat>)
    ensures |Elements(s)| <= |s|
  {
    if s != [] {
      ElementsBound(s[..|s| - 1]);
      assert Elements(s) == Elements(s[..|s| - 1]) + {s[|s| - 1]};
    }
  }

  /** The integers 0 .. m-1. */
  function Below(m: nat): (r: set<nat>)
    ensures forall v: nat :: v in r <==> v < m
  {
    if m == 0 then {} else Below(m - 1) + {m - 1}
  }

  lemma {:induction false} BelowSize(m: nat)
    ensures |Below(m)| == m
  {
    if m > 0 {
      BelowSize(m - 1);
    }
  }

  /**
   * Pigeonhole: when at most m values contain every number below m, the
   * number m itself is not among them.
   */
  lemma AllBelowPresentExcludesBound(s: seq<nat>, m: nat)
    requires |s| <= m
    requires forall v: nat :: v < m ==> v in s
    ensures m !in s
  {
    if m in s {
      assert Below(m + 1) <= Elements(s);
      BelowSize(m + 1);
      ElementsBound(s);
      SubsetSize(Below(m + 1), Elements(s));
    }
  }

  lemma {:induction false} SubsetSize(a: set<nat>, b: set<nat>)
    requires a <= b
    ensures |a| <= |b|
  {
    if a != {} {
      var x :| x in a;
      SubsetSize(a - {x}, b - {x});
    }
  }

  /** A prefix one element longer is the shorter prefix and that element. */
  lemma PrefixGrows<T>(s: seq<T>, i: nat)
    requires i < |s|
    ensures s[..i + 1] == s[..i] + [s[i]]
  {
  }

  /** realloc: a larger array that starts with the old contents; filler stands for the new slots. */
  method Grow<T>(a: array<T>, size: nat, filler: T) returns (b: array<T>)
    requires a.Length <= size
    ensures fresh(b)
    ensures b.Length == size && b[..a.Length] == a[..]
  {
    b := new T[size](_ => filler);
    forall i | 0 <= i < a.Length {
      b[i] := a[i];
    }
  }

  /**
   * Storing x in the first free slot and, when that fills the array,
   * growing it by one chunk with realloc: the result holds the old
   * elements and x, still has a free slot, and is a whole number of chunks.
   */
  method Append<T>(a: array<T>, count: nat, x: T, chunk: nat, filler: T) returns (b: array<T>)
    requires chunk > 0 && count < a.Length && WholeChunks(a.Length, chunk)
    modifies a
    ensures b == a || fresh(b)
    ensures count + 1 < b.Length && WholeChunks(b.Length, chunk)
    ensures b[..count + 1] == old(a[..count]) + [x]
  {
    a[count] := x;
    assert a[..count + 1] == old(a[..count]) + [x];
    b := a;
    if count + 1 == a.Length {
      b := Grow(a, a.Length + chunk, filler);
      assert b[..count + 1] == a[..count + 1];
      assert b.Length - chunk == a.Length;
    }
  }
}
