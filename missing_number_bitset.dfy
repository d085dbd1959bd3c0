/**
 * Column 2, problem A with ample memory: read at most MAX_VALUE numbers of
 * [0, MAX_VALUE] into a bit set and print the least value of [0, MAX_VALUE]
 * whose bit is not set.
 */
module MissingNumberBitset {
  import opened Support
  import opened BitSets

  /** MAX_VALUE = UINT32_MAX; it is also the number of bits of the set. */
  const MaxValue: nat := 0xFFFF_FFFF

  /** What a run ends with: the number printed, or the error reported. */
  datatype Outcome =
    | Missing(value: nat)
    | NothingPrinted
    | TooManyLines
    | InvalidInput(line: nat)
    | OutOfRange(line: nat)

  /**
   * The error the read loop stops at, starting from line k, or None when it
   * reads every line. The line count is checked before the line is parsed.
   */
  function FirstError(lines: seq<Parse>, k: nat): Option<Outcome>
    requires k <= |lines|
    decreases |lines| - k
  {
    if k == |lines| then None
    else if k == MaxValue then Some(TooManyLines)
    else
      match lines[k]
      case Unparsable => Some(InvalidInput(k))
      case Parsed(v) => if v < 0 || v > MaxValue then Some(OutOfRange(k)) else FirstError(lines, k + 1)
  }

  /** A run without error reads at most MaxValue lines, each a number of [0, MaxValue]. */
  lemma {:induction false} NoErrorMeansAccepted(lines: seq<Parse>, k: nat)
    requires k <= |lines| && k <= MaxValue && FirstError(lines, k) == None
    decreases |lines| - k
    ensures |lines| <= MaxValue
    ensures forall j :: k <= j < |lines| ==> lines[j].Parsed? && 0 <= lines[j].value <= MaxValue
  {
    if k < |lines| {
      NoErrorMeansAccepted(lines, k + 1);
    }
  }

  /** The value bs_set stores for an accepted line: the bit set has no bit MaxValue. */
  function Recorded(p: Parse): set<nat>
  {
    match p
    case Parsed(v) => if 0 <= v < MaxValue then {v} else {}
    case Unparsable => {}
  }

  /** The members of the bit set after the lines have been read one after the other. */
  function Stored(lines: seq<Parse>): set<nat>
  {
    if lines == [] then {} else Stored(lines[..|lines| - 1]) + Recorded(lines[|lines| - 1])
  }

  lemma {:induction false} StoredIsInputsBelowMax(lines: seq<Parse>, x: nat)
    ensures x in Stored(lines) <==> x < MaxValue && Parsed(x) in lines
  {
    if lines != [] {
      var init := lines[..|lines| - 1];
      StoredIsInputsBelowMax(init, x);
      assert lines == init + [lines[|lines| - 1]];
    }
  }

  /**
   * The least value of [i, MaxValue] that is not in s, or None when s holds
   * all of them: the scan of lines 77-81 from i on.
   */
  function FirstAbsent(s: set<nat>, i: nat): (r: Option<nat>)
    decreases MaxValue + 1 - i
    ensures r.Some? ==> i <= r.value <= MaxValue && r.value !in s
    ensures r.Some? ==> forall w :: i <= w < r.value ==> w in s
    ensures r.None? ==> forall w :: i <= w <= MaxValue ==> w in s
  {
    if i > MaxValue then None
    else if i !in s then Some(i)
    else FirstAbsent(s, i + 1)
  }

  /** The printed line, as a function of what the bit set holds. */
  function ScanResult(s: set<nat>): Outcome
  {
    match FirstAbsent(s, 0)
    case Some(v) => Missing(v)
    case None => NothingPrinted
  }

  /** The whole program: the first error if any, otherwise the scan. */
  function Run(lines: seq<Parse>): Outcome
  {
    match FirstError(lines, 0)
    case Some(e) => e
    case None => ScanResult(Stored(lines))
  }

  /** The read loop (lines 49-74): the line cap, the two validity checks, then bs_set. */
  method ReadValues(bs: BitSet, lines: seq<Parse>) returns (error: Option<Outcome>)
    requires bs.Valid() && bs.n == MaxValue && bs.Members() == {}
    modifies bs.bits
    ensures bs.Valid() && bs.n == MaxValue
    ensures error == FirstError(lines, 0)
    ensures error.None? ==> bs.Members() == Stored(lines)
  {
    var lineCount := 0;
    while lineCount < |lines|
      invariant lineCount <= |lines|
      invariant bs.Valid() && bs.n == MaxValue
      invariant FirstError(lines, 0) == FirstError(lines, lineCount)
      invariant bs.Members() == Stored(lines[..lineCount])
    {
      if lineCount == MaxValue {
        return Some(TooManyLines);
      }
      assert lines[..lineCount + 1][..lineCount] == lines[..lineCount];
      match lines[lineCount]
      case Unparsable =>
        return Some(InvalidInput(lineCount));
      case Parsed(v) =>
        if v < 0 || v > MaxValue {
          return Some(OutOfRange(lineCount));
        }
        var stored := bs.Set(v);
      lineCount := lineCount + 1;
    }
    assert lines[..lineCount] == lines;
    return None;
  }

  /** The output loop (lines 77-81): print the first index whose bit is unset. */
  method ScanFirstUnset(bs: BitSet) returns (r: Outcome)
    requires bs.Valid()
    ensures r == ScanResult(bs.Members())
  {
    var i := 0;
    while i <= MaxValue
      invariant FirstAbsent(bs.Members(), 0) == FirstAbsent(bs.Members(), i)
    {
      var isSet := bs.IsSet(i);
      if !isSet {
        return Missing(i);
      }
      i := i + 1;
    }
    return NothingPrinted;
  }

  method FindMissing(lines: seq<Parse>) returns (r: Outcome)
    ensures r == Run(lines)
  {
    var bs := new BitSet();
    var initialised := bs.Init(MaxValue);
    var error := ReadValues(bs, lines);
    if error.Some? {
      return error.value;
    }
    r := ScanFirstUnset(bs);
  }

  /** The accepted numbers of a run without error, in input order. */
  function Values(lines: seq<Parse>): (r: seq<nat>)
    ensures |r| == |lines|
    ensures forall j :: 0 <= j < |lines| && lines[j].Parsed? && lines[j].value >= 0 ==> r[j] == lines[j].value
  {
    seq(|lines|, j requires 0 <= j < |lines| => if lines[j].Parsed? && lines[j].value >= 0 then lines[j].value else 0)
  }

  /**
   * Whenever the input is accepted, exactly one number is printed, and it is
   * the least number of [0, MaxValue] that the input does not hold.
   */
  lemma PrintsLeastAbsent(lines: seq<Parse>)
    requires FirstError(lines, 0) == None
    ensures Run(lines).Missing?
    ensures Run(lines).value <= MaxValue
    ensures Parsed(Run(lines).value) !in lines
    ensures forall w: nat :: w < Run(lines).value ==> Parsed(w) in lines
  {
    NoErrorMeansAccepted(lines, 0);
    var s := Stored(lines);
    StoredIsInputsBelowMax(lines, MaxValue);
    var v := FirstAbsent(s, 0).value;
    forall w: nat | w < v
      ensures Parsed(w) in lines
    {
      StoredIsInputsBelowMax(lines, w);
    }
    StoredIsInputsBelowMax(lines, v);
    if v == MaxValue {
      var vals := Values(lines);
      forall w: nat | w < MaxValue
        ensures w in vals
      {
        var j :| 0 <= j < |lines| && lines[j] == Parsed(w);
        assert vals[j] == w;
      }
      AllBelowPresentExcludesBound(vals, MaxValue);
      assert forall j :: 0 <= j < |lines| ==> vals[j] != MaxValue;
    }
  }
}
