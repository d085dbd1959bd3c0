/**
 * The bit-vector sort of column 1: every number read sets its bit in a bit
 * set of MAX_VALUE bits, then the set bits are printed in ascending order.
 */
module BitsetSort {
  import opened Support
  import opened BitSets

  /** MAX_VALUE: the bit set holds the values 0 .. MaxValue - 1. */
  const MaxValue: nat := 10_000_000

  /** What the program prints: the sorted numbers, or nothing after a parse error. */
  datatype SortOutcome = Printed(values: seq<nat>) | ParseFailure

  /** The value `bs_set` records for one line, if any: it drops values outside the set. */
  function Recorded(p: Parse): Option<nat>
  {
    match p
    case Parsed(v) => if AsU32(v) < MaxValue then Some(AsU32(v)) else None
    case Unparsable => None
  }

  /** The members of the bit set after the lines have been read one after the other. */
  function Stored(lines: seq<Parse>): set<nat>
  {
    if lines == [] then {}
    else
      var last := lines[|lines| - 1];
      Stored(lines[..|lines| - 1]) + (if Recorded(last).Some? then {Recorded(last).value} else {})
  }

  /** x is stored exactly when some line records it. */
  lemma {:induction false} StoredIsRecordedValues(lines: seq<Parse>, x: nat)
    ensures x in Stored(lines) <==> exists p :: p in lines && Recorded(p) == Some(x)
  {
    if lines != [] {
      var init := lines[..|lines| - 1];
      StoredIsRecordedValues(init, x);
      assert lines == init + [lines[|lines| - 1]];
      if exists p :: p in lines && Recorded(p) == Some(x) {
        var p :| p in lines && Recorded(p) == Some(x);
        if p != lines[|lines| - 1] {
          assert p in init;
        }
      }
    }
  }

  /** The printed numbers depend only on which lines occur, not on their order or repetition. */
  lemma StoredOrderIndependent(a: seq<Parse>, b: seq<Parse>)
    requires forall p :: p in a <==> p in b
    ensures Stored(a) == Stored(b)
  {
    forall x: nat
      ensures x in Stored(a) <==> x in Stored(b)
    {
      StoredIsRecordedValues(a, x);
      StoredIsRecordedValues(b, x);
    }
  }

  /** The members of s below m in ascending order: what the output loop prints. */
  function Listing(s: set<nat>, m: nat): (r: seq<nat>)
    ensures forall x :: x in r <==> x in s && x < m
    ensures forall i, j :: 0 <= i < j < |r| ==> r[i] < r[j]
  {
    if m == 0 then []
    else
      var init := Listing(s, m - 1);
      assert forall i :: 0 <= i < |init| ==> init[i] < m - 1 by {
        forall i | 0 <= i < |init|
          ensures init[i] < m - 1
        {
          assert init[i] in init;
        }
      }
      init + (if m - 1 in s then [m - 1] else [])
  }

  /** The read loop (lines 31-43): stops at the first unparsable line, otherwise sets every value's bit. */
  method ReadNumbers(bs: BitSet, lines: seq<Parse>) returns (ok: bool)
    requires bs.Valid() && bs.n == MaxValue && bs.Members() == {}
    modifies bs.bits
    ensures bs.Valid() && bs.n == MaxValue
    ensures ok <==> Unparsable !in lines
    ensures ok ==> bs.Members() == Stored(lines)
  {
    var k := 0;
    while k < |lines|
      invariant k <= |lines|
      invariant bs.Valid() && bs.n == MaxValue
      invariant Unparsable !in lines[..k]
      invariant bs.Members() == Stored(lines[..k])
    {
      assert lines[..k + 1][..k] == lines[..k];
      match lines[k]
      case Unparsable =>
        return false;
      case Parsed(v) =>
        var stored := bs.Set(AsU32(v));
      k := k + 1;
    }
    assert lines[..k] == lines;
    return true;
  }

  /** The output loop (lines 46-50): the members of the bit set, in ascending order. */
  method ListMembers(bs: BitSet) returns (printed: seq<nat>)
    requires bs.Valid()
    ensures printed == Listing(bs.Members(), bs.n)
  {
    printed := [];
    var i := 0;
    while i < bs.n
      invariant i <= bs.n
      invariant printed == Listing(bs.Members(), i)
    {
      var isSet := bs.IsSet(i);
      if isSet {
        printed := printed + [i];
      }
      i := i + 1;
    }
  }

  /** The whole program on a sequence of lines (the parse oracle's verdicts). */
  method SortNumbers(lines: seq<Parse>) returns (r: SortOutcome)
    ensures r == if Unparsable in lines then ParseFailure else Printed(Listing(Stored(lines), MaxValue))
  {
    var bs := new BitSet();
    var initialised := bs.Init(MaxValue);
    var ok := ReadNumbers(bs, lines);
    if !ok {
      return ParseFailure;
    }
    var printed := ListMembers(bs);
    return Printed(printed);
  }

  /**
   * A successful run prints, in strictly ascending order and each once, exactly
   * the numbers below MaxValue that some line holds (modulo 2^32).
   */
  lemma PrintedAreSortedInputs(lines: seq<Parse>, x: nat)
    requires Unparsable !in lines
    ensures var out := Listing(Stored(lines), MaxValue);
            (x in out <==> x < MaxValue && exists p :: p in lines && p.Parsed? && AsU32(p.value) == x)
            && (forall i, j :: 0 <= i < j < |out| ==> out[i] < out[j])
  {
    StoredIsRecordedValues(lines, x);
    if x < MaxValue && exists p :: p in lines && p.Parsed? && AsU32(p.value) == x {
      var p :| p in lines && p.Parsed? && AsU32(p.value) == x;
      assert Recorded(p) == Some(x);
    }
  }

  /**
   * MAX_VALUE is a multiple of 32, so the guard as written in bs_set lets the
   * input 10000000 through to the word just past the allocation.
   */
  lemma MaxValueOverrunsAsWritten()
    ensures GuardPassesAsWritten(MaxValue, MaxValue)
    ensures UnitPos(MaxValue) == NumUnits(MaxValue)
  {
    GuardAsWrittenOverruns(MaxValue);
  }
}
