/**
 * The bit set of column 1: a fixed number `n` of bits packed into 32-bit
 * storage words (`BS_UNIT` is `uint32_t`). Bit `i` lives in word `i / 32`,
 * at position `i % 32` of that word.
 */
module BitSets {

  /** BS_NUM_BYTES(n) / sizeof(BS_UNIT): the number of words allocated for n bits. */
  function NumUnits(n: nat): nat
    requires n > 0
  {
    (n - 1) / 32 + 1
  }

  /** BS_UNIT_POS(i): the word that holds bit i. */
  function UnitPos(i: nat): nat
  {
    i / 32
  }

  /** BS_BIT_POS(i): the position of bit i inside its word. */
  function BitPos(i: nat): (b: bv32)
    ensures b < 32
  {
    (i % 32) as bv32
  }

  /** Position b of word w is set: `w & (1 << b)` is non-zero. */
  predicate HasBit(w: bv32, b: bv32)
    requires b < 32
  {
    (w >> b) & 1 == 1
  }

  /** NumUnits(n) is the ceiling of n / 32: just enough words for n bits. */
  lemma NumUnitsIsCeiling(n: nat)
    requires n > 0
    ensures (NumUnits(n) - 1) * 32 < n <= NumUnits(n) * 32
  {
  }

  /** Every index below n addresses an allocated word. */
  lemma UnitPosInRange(i: nat, n: nat)
    requires i < n
    ensures UnitPos(i) < NumUnits(n)
  {
  }

  /** A position below 32 survives the conversion to a 32-bit word. */
  lemma SmallToBv32RoundTrip(x: nat)
    requires x < 32
    ensures (x as bv32) as int == x
  {
    var y := x as bv8;
    assert y as int == x;
    assert x as bv32 == y as bv32;
  }

  /** Distinct indices never share a (word, position) pair. */
  lemma IndexMappingInjective(i: nat, j: nat)
    requires i != j
    ensures UnitPos(i) != UnitPos(j) || BitPos(i) != BitPos(j)
  {
    SmallToBv32RoundTrip(i % 32);
    SmallToBv32RoundTrip(j % 32);
  }

  /** `w | (1 << b)` sets position b and keeps the others. */
  lemma OrBit(w: bv32, b: bv32, c: bv32)
    requires b < 32 && c < 32
    ensures HasBit(w | (1 << b), c) <==> c == b || HasBit(w, c)
  {
  }

  /** `w & ~(1 << b)` clears position b and keeps the others. */
  lemma AndNotBit(w: bv32, b: bv32, c: bv32)
    requires b < 32 && c < 32
    ensures HasBit(w & !(1 << b), c) <==> c != b && HasBit(w, c)
  {
  }

  /** `w ^ (1 << b)` flips position b and keeps the others. */
  lemma XorBit(w: bv32, b: bv32, c: bv32)
    requires b < 32 && c < 32
    ensures HasBit(w ^ (1 << b), c) <==> (c == b) != HasBit(w, c)
  {
  }

  lemma ZeroWord(b: bv32)
    requires b < 32
    ensures !HasBit(0, b)
  {
  }

  /**
   * The guard as written in bs_is_set/bs_set/bs_clear/bs_toggle is
   * `index > n`, which lets `index == n` through. When n is a multiple of 32
   * that index addresses the word just past the allocation.
   */
  predicate GuardPassesAsWritten(index: nat, n: nat)
  {
    !(index > n)
  }

  lemma GuardAsWrittenOverruns(n: nat)
    requires n > 0 && n % 32 == 0
    ensures GuardPassesAsWritten(n, n)
    ensures UnitPos(n) == NumUnits(n)
  {
  }

  /** The corrected guard `index < n` only ever admits allocated words. */
  predicate GuardPasses(index: nat, n: nat)
  {
    index < n
  }

  lemma GuardInBounds(index: nat, n: nat)
    requires GuardPasses(index, n)
    ensures UnitPos(index) < NumUnits(n)
  {
  }

  /**
   * The indices below n whose bit is set in the storage words, gathered one
   * index at a time.
   */
  ghost function MembersOf(words: seq<bv32>, n: nat): (r: set<nat>)
    requires n <= 32 * |words|
    ensures forall i :: i in r ==> i < n
  {
    if n == 0 then {}
    else MembersOf(words, n - 1) + (if HasBit(words[UnitPos(n - 1)], BitPos(n - 1)) then {n - 1} else {})
  }

  /** i is a member exactly when it is below n and its bit is set in its word. */
  lemma {:induction false} InMembersOf(words: seq<bv32>, n: nat, i: nat)
    requires n <= 32 * |words|
    ensures i in MembersOf(words, n) <==> i < n && HasBit(words[UnitPos(i)], BitPos(i))
  {
    if n > 0 {
      InMembersOf(words, n - 1, i);
    }
  }

  /** Or-ing `1 << b` into word u: position c of word j is set iff it is (u, b) or was set. */
  lemma OrAt(words: seq<bv32>, u: nat, b: bv32, j: nat, c: bv32)
    requires u < |words| && j < |words| && b < 32 && c < 32
    ensures HasBit(words[u := words[u] | (1 << b)][j], c) <==> (j == u && c == b) || HasBit(words[j], c)
  {
    if j == u {
      OrBit(words[u], b, c);
    }
  }

  /** And-ing `~(1 << b)` into word u: position c of word j is set iff it is not (u, b) and was set. */
  lemma AndNotAt(words: seq<bv32>, u: nat, b: bv32, j: nat, c: bv32)
    requires u < |words| && j < |words| && b < 32 && c < 32
    ensures HasBit(words[u := words[u] & !(1 << b)][j], c) <==> !(j == u && c == b) && HasBit(words[j], c)
  {
    if j == u {
      AndNotBit(words[u], b, c);
    }
  }

  /** Xor-ing `1 << b` into word u flips position b of word u and nothing else. */
  lemma XorAt(words: seq<bv32>, u: nat, b: bv32, j: nat, c: bv32)
    requires u < |words| && j < |words| && b < 32 && c < 32
    ensures HasBit(words[u := words[u] ^ (1 << b)][j], c) <==> (j == u && c == b) != HasBit(words[j], c)
  {
    if j == u {
      XorBit(words[u], b, c);
    }
  }

  /** After or-ing the mask of `index` into its word, i is set iff it is index or was set. */
  lemma SetAt(words: seq<bv32>, index: nat, i: nat)
    requires UnitPos(index) < |words| && UnitPos(i) < |words|
    ensures var after := words[UnitPos(index) := words[UnitPos(index)] | (1 << BitPos(index))];
            HasBit(after[UnitPos(i)], BitPos(i)) <==> i == index || HasBit(words[UnitPos(i)], BitPos(i))
  {
    OrAt(words, UnitPos(index), BitPos(index), UnitPos(i), BitPos(i));
    if i != index {
      IndexMappingInjective(i, index);
    }
  }

  /** After and-ing the complement of the mask of `index`, i is set iff it is not index and was set. */
  lemma ClearAt(words: seq<bv32>, index: nat, i: nat)
    requires UnitPos(index) < |words| && UnitPos(i) < |words|
    ensures var after := words[UnitPos(index) := words[UnitPos(index)] & !(1 << BitPos(index))];
            HasBit(after[UnitPos(i)], BitPos(i)) <==> i != index && HasBit(words[UnitPos(i)], BitPos(i))
  {
    AndNotAt(words, UnitPos(index), BitPos(index), UnitPos(i), BitPos(i));
    if i != index {
      IndexMappingInjective(i, index);
    }
  }

  /** After xor-ing the mask of `index` into its word, i is set iff it was set, except that index flips. */
  lemma ToggleAt(words: seq<bv32>, index: nat, i: nat)
    requires UnitPos(index) < |words| && UnitPos(i) < |words|
    ensures var after := words[UnitPos(index) := words[UnitPos(index)] ^ (1 << BitPos(index))];
            HasBit(after[UnitPos(i)], BitPos(i)) <==> (i == index) != HasBit(words[UnitPos(i)], BitPos(i))
  {
    XorAt(words, UnitPos(index), BitPos(index), UnitPos(i), BitPos(i));
    if i != index {
      IndexMappingInjective(i, index);
    }
  }

  /** Or-ing the mask of `index` into its word adds exactly `index`. */
  lemma SetInWords(words: seq<bv32>, n: nat, index: nat, w: bv32)
    requires n <= 32 * |words| && index < n
    requires UnitPos(index) < |words| && w == words[UnitPos(index)] | (1 << BitPos(index))
    ensures MembersOf(words[UnitPos(index) := w], n) == MembersOf(words, n) + {index}
  {
    forall i: nat
      ensures i in MembersOf(words[UnitPos(index) := w], n) <==> i in MembersOf(words, n) + {index}
    {
      InMembersOf(words[UnitPos(index) := w], n, i);
      InMembersOf(words, n, i);
      if i < n {
        SetAt(words, index, i);
      }
    }
  }

  /** And-ing the complement of the mask of `index` into its word removes exactly `index`. */
  lemma ClearInWords(words: seq<bv32>, n: nat, index: nat, w: bv32)
    requires n <= 32 * |words| && index < n
    requires UnitPos(index) < |words| && w == words[UnitPos(index)] & ! (1 << BitPos(index))
    ensures MembersOf(words[UnitPos(index) := w], n) == MembersOf(words, n) - {index}
  {
    forall i: nat
      ensures i in MembersOf(words[UnitPos(index) := w], n) <==> i in MembersOf(words, n) - {index}
    {
      InMembersOf(words[UnitPos(index) := w], n, i);
      InMembersOf(words, n, i);
      if i < n {
        ClearAt(words, index, i);
      }
    }
  }

  /** Xor-ing the mask of `index` into its word flips exactly `index`. */
  lemma ToggleInWords(words: seq<bv32>, n: nat, index: nat, w: bv32)
    requires n <= 32 * |words| && index < n
    requires UnitPos(index) < |words| && w == words[UnitPos(index)] ^ (1 << BitPos(index))
    ensures MembersOf(words[UnitPos(index) := w], n) == Flip(MembersOf(words, n), index)
  {
    forall i: nat
      ensures i in MembersOf(words[UnitPos(index) := w], n) <==> i in Flip(MembersOf(words, n), index)
    {
      InMembersOf(words[UnitPos(index) := w], n, i);
      InMembersOf(words, n, i);
      if i < n {
        ToggleAt(words, index, i);
      }
    }
  }

  /** The set s with x removed when present and added when absent. */
  function Flip(s: set<nat>, x: nat): (r: set<nat>)
    ensures x in r <==> x !in s
    ensures forall y :: y != x ==> (y in r <==> y in s)
  {
    if x in s then s - {x} else s + {x}
  }

  /** All-zero words hold no member. */
  lemma ZeroWords(words: seq<bv32>, n: nat)
    requires n <= 32 * |words|
    requires forall k :: 0 <= k < |words| ==> words[k] == 0
    ensures MembersOf(words, n) == {}
  {
    forall i: nat
      ensures i !in MembersOf(words, n)
    {
      InMembersOf(words, n, i);
      if i < n {
        ZeroWord(BitPos(i));
      }
    }
  }

  /** A `BitSet` struct: the storage words and the number of bits they hold. */
  class BitSet {
    var bits: array<bv32>
    var n: nat

    ghost predicate Valid()
      reads this
    {
      n > 0 && bits.Length == NumUnits(n) && n <= 32 * bits.Length
    }

    /** The set of indices whose bit is set: the abstract value of the bit set. */
    ghost function Members(): set<nat>
      reads this, bits
      requires Valid()
    {
      MembersOf(bits[..], n)
    }

    /** `BitSet bs;` — declared, not yet initialised. */
    constructor ()
      ensures n == 0 && bits.Length == 0
    {
      n := 0;
      bits := new bv32[0];
    }

    /** bs_init: refuses a zero size, otherwise allocates zeroed storage. */
    method Init(size: nat) returns (ok: bool)
      modifies this
      ensures ok <==> size > 0
      ensures ok ==> Valid() && fresh(bits) && n == size && Members() == {}
      ensures !ok ==> unchanged(this)
    {
      if size == 0 {
        return false;
      }
      NumUnitsIsCeiling(size);
      bits := new bv32[NumUnits(size)](_ => 0);
      n := size;
      ZeroWords(bits[..], n);
      return true;
    }

    /** bs_is_set */
    method IsSet(index: nat) returns (r: bool)
      requires Valid()
      ensures r <==> index in Members()
    {
      InMembersOf(bits[..], n, index);
      if !GuardPasses(index, n) {
        return false;
      }
      UnitPosInRange(index, n);
      r := HasBit(bits[UnitPos(index)], BitPos(index));
    }

    /** bs_set */
    method Set(index: nat) returns (ok: bool)
      requires Valid()
      modifies bits
      ensures ok <==> index < n
      ensures Members() == if ok then old(Members()) + {index} else old(Members())
    {
      if !GuardPasses(index, n) {
        return false;
      }
      UnitPosInRange(index, n);
      var u := UnitPos(index);
      var w := bits[u] | (1 << BitPos(index));
      SetInWords(bits[..], n, index, w);
      bits[u] := w;
      return true;
    }

    /** bs_clear */
    method Clear(index: nat) returns (ok: bool)
      requires Valid()
      modifies bits
      ensures ok <==> index < n
      ensures Members() == if ok then old(Members()) - {index} else old(Members())
    {
      if !GuardPasses(index, n) {
        return false;
      }
      UnitPosInRange(index, n);
      var u := UnitPos(index);
      var w := bits[u] & ! (1 << BitPos(index));
      ClearInWords(bits[..], n, index, w);
      bits[u] := w;
      return true;
    }

    /** bs_toggle */
    method Toggle(index: nat) returns (ok: bool)
      requires Valid()
      modifies bits
      ensures ok <==> index < n
      ensures Members() == if ok then Flip(old(Members()), index) else old(Members())
    {
      if !GuardPasses(index, n) {
        return false;
      }
      UnitPosInRange(index, n);
      var u := UnitPos(index);
      var w := bits[u] ^ (1 << BitPos(index));
      ToggleInWords(bits[..], n, index, w);
      bits[u] := w;
      return true;
    }

    /** bs_reset: memset of the whole storage; memset's result is never null. */
    method Reset() returns (ok: bool)
      requires Valid()
      modifies bits
      ensures ok && Members() == {}
    {
      forall k | 0 <= k < bits.Length {
        bits[k] := 0;
      }
      ZeroWords(bits[..], n);
      return true;
    }
  }

  /** Toggling a bit twice restores the set. */
  method ToggleTwiceRestores(bs: BitSet, index: nat)
    requires bs.Valid()
    modifies bs.bits
    ensures bs.Members() == old(bs.Members())
  {
    var ok1 := bs.Toggle(index);
    var ok2 := bs.Toggle(index);
  }

  /** Clearing a bit a second time changes nothing. */
  method ClearIsIdempotent(bs: BitSet, index: nat)
    requires bs.Valid()
    modifies bs.bits
    ensures index < bs.n ==> index !in bs.Members()
    ensures bs.Members() == old(bs.Members()) - {index}
  {
    var ok1 := bs.Clear(index);
    ghost var once := bs.Members();
    var ok2 := bs.Clear(index);
    assert bs.Members() == once;
  }
}
