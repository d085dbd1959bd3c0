/**
 * Column 2, problem A with little memory: find a number of N bits that is
 * not among at most 2^N - 1 input numbers by splitting the candidates bit by
 * bit into two temporary files and carrying on with the smaller one.
 *
 * Files are sequences of lines as the parse oracle sees them; a temporary
 * file is the sequence of numbers written to it. The number of bits N is a
 * parameter (the program fixes it at 32).
 */
module MissingNumberFile {
  import opened Support

  /** MAX_VALUE for N-bit numbers. */
  function MaxValue(N: nat): nat
  {
    Pow2(N) - 1
  }

  /** What a run ends with: the number printed, or the error it stops at. */
  datatype Outcome =
    | Missing(value: nat)
    | TooManyLines
    | Unreadable(line: nat)

  /** A line read_number accepts: a decimal value of [0, MAX_VALUE]. */
  predicate Readable(p: Parse, N: nat)
  {
    p.Parsed? && 0 <= p.value <= MaxValue(N)
  }

  /**
   * read_number: whether the line holds a number of [0, MAX_VALUE], and the
   * value left in `*number`, which is not written when the line is rejected.
   */
  function ReadNumber(p: Parse, number: nat, N: nat): (r: (bool, nat))
    ensures r.0 <==> Readable(p, N)
    ensures r.0 ==> r.1 == p.value
    ensures !r.0 ==> r.1 == number
  {
    match p
    case Unparsable => (false, number)
    case Parsed(v) => if v < 0 || v > MaxValue(N) then (false, number) else (true, v)
  }

  /** `(x >> b) & 1`: bit b of x. */
  function Bit(x: nat, b: nat): (r: nat)
    ensures r <= 1
  {
    if b == 0 then x % 2 else Bit(x / 2, b - 1)
  }

  /** The low b bits of x. */
  function Low(x: nat, b: nat): (r: nat)
    ensures r < Pow2(b)
  {
    if b == 0 then 0 else x % 2 + 2 * Low(x / 2, b - 1)
  }

  /** Adding bit b to the low b bits gives the low b + 1 bits. */
  lemma {:induction false} LowStep(x: nat, b: nat)
    ensures Low(x, b + 1) == Low(x, b) + (if Bit(x, b) == 1 then Pow2(b) else 0)
  {
    if b > 0 {
      LowStep(x / 2, b - 1);
      assert Bit(x, b) == Bit(x / 2, b - 1);
    }
  }

  /** A number of fewer than b bits is its own low b bits. */
  lemma {:induction false} LowOfSmall(x: nat, b: nat)
    requires x < Pow2(b)
    ensures Low(x, b) == x
  {
    if b > 0 {
      LowOfSmall(x / 2, b - 1);
    }
  }

  /**
   * The low b + 1 bits of x are m with bit b equal to c exactly when the low
   * b bits of x are m and bit b of x is c.
   */
  lemma ExtendLow(x: nat, b: nat, m: nat, c: nat)
    requires m < Pow2(b) && c <= 1
    ensures Low(x, b + 1) == m + c * Pow2(b) <==> Low(x, b) == m && Bit(x, b) == c
  {
    LowStep(x, b);
    assert c * Pow2(b) == if c == 1 then Pow2(b) else 0;
    if c == 0 {
      if Bit(x, b) == 1 {
        assert Low(x, b + 1) >= Pow2(b);
      }
    } else {
      if Bit(x, b) == 0 {
        assert Low(x, b + 1) < Pow2(b);
      }
    }
  }

  /** The values whose bit b is c, in order: what one pass writes to one temporary file. */
  function Side(values: seq<nat>, b: nat, c: nat): seq<nat>
  {
    if values == [] then []
    else
      var last := values[|values| - 1];
      Side(values[..|values| - 1], b, c) + (if Bit(last, b) == c then [last] else [])
  }

  /** A value is written to the file for c exactly when it is read and its bit b is c. */
  lemma {:induction false} InSide(values: seq<nat>, b: nat, c: nat)
    ensures forall x :: x in Side(values, b, c) <==> x in values && Bit(x, b) == c
  {
    if values != [] {
      var init := values[..|values| - 1];
      InSide(init, b, c);
      assert values == init + [values[|values| - 1]];
    }
  }

  lemma SideAppend(values: seq<nat>, x: nat, b: nat, c: nat)
    ensures Side(values + [x], b, c) == Side(values, b, c) + (if Bit(x, b) == c then [x] else [])
  {
    assert (values + [x])[..|values|] == values;
  }

  /** Each value of a pass goes to exactly one of the two temporary files. */
  lemma {:induction false} SplitIsPartition(values: seq<nat>, b: nat)
    ensures multiset(Side(values, b, 1)) + multiset(Side(values, b, 0)) == multiset(values)
  {
    if values != [] {
      var init := values[..|values| - 1];
      var x := values[|values| - 1];
      SplitIsPartition(init, b);
      assert multiset(values) == multiset(init) + multiset{x} by {
        assert values == init + [x];
      }
      if Bit(x, b) == 1 {
        assert multiset(Side(values, b, 1)) == multiset(Side(init, b, 1)) + multiset{x};
        assert Side(values, b, 0) == Side(init, b, 0);
      } else {
        assert Side(values, b, 1) == Side(init, b, 1);
        assert multiset(Side(values, b, 0)) == multiset(Side(init, b, 0)) + multiset{x};
      }
    }
  }

  /** The two temporary files of a pass hold as many lines as the pass read. */
  lemma SplitCounts(values: seq<nat>, b: nat)
    ensures |Side(values, b, 1)| + |Side(values, b, 0)| == |values|
  {
    SplitIsPartition(values, b);
    assert |multiset(Side(values, b, 1)) + multiset(Side(values, b, 0))| == |multiset(values)|;
  }

  /**
   * A temporary file as it is read back: one line per number written. The
   * numbers are written as unsigned values (see the findings for `%d`).
   */
  function Written(values: seq<nat>): (r: seq<Parse>)
  {
    seq(|values|, i requires 0 <= i < |values| => Parsed(values[i]))
  }

  /**
   * The error the read loop of a pass stops at, from line k on: the line
   * count is checked before the line is read.
   */
  function FirstError(lines: seq<Parse>, k: nat, N: nat): (r: Option<Outcome>)
    requires k <= |lines|
    decreases |lines| - k
    ensures r.Some? ==> !r.value.Missing?
  {
    if k == |lines| then None
    else if k == MaxValue(N) then Some(TooManyLines)
    else if !ReadNumber(lines[k], 0, N).0 then Some(Unreadable(k))
    else FirstError(lines, k + 1, N)
  }

  /** A pass reads its file to the end exactly when the file has at most MAX_VALUE lines, all readable. */
  lemma {:induction false} NoErrorIffReadable(lines: seq<Parse>, k: nat, N: nat)
    requires k <= |lines| && k <= MaxValue(N)
    decreases |lines| - k
    ensures FirstError(lines, k, N) == None
        <==> |lines| <= MaxValue(N) && forall j :: k <= j < |lines| ==> Readable(lines[j], N)
  {
    if k < |lines| && k < MaxValue(N) {
      NoErrorIffReadable(lines, k + 1, N);
    }
  }

  /** The number read from each line of a file that has no error. */
  function Values(lines: seq<Parse>, N: nat): (r: seq<nat>)
    ensures |r| == |lines|
  {
    seq(|lines|, i requires 0 <= i < |lines| => ReadNumber(lines[i], 0, N).1)
  }

  /** Every number written to a temporary file is read back unchanged and without error. */
  lemma TempFileRoundTrip(values: seq<nat>, N: nat)
    requires |values| <= MaxValue(N)
    requires forall x :: x in values ==> x <= MaxValue(N)
    ensures FirstError(Written(values), 0, N) == None
    ensures Values(Written(values), N) == values
  {
    var file := Written(values);
    assert forall j :: 0 <= j < |file| ==> file[j] == Parsed(values[j]) && values[j] in values;
    NoErrorIffReadable(file, 0, N);
  }

  /** How one pass over a file ends: with the number found, with the file to search next, or with an error. */
  datatype Step = Stop(value: nat) | Next(file: seq<nat>, missing: nat) | Fail(error: Outcome)

  /**
   * One pass at bit b over the file `current`, with the low b bits of the
   * missing number already chosen (lines 99-139).
   */
  function Pass(current: seq<Parse>, b: nat, missing: nat, N: nat): Step
  {
    match FirstError(current, 0, N)
    case Some(e) => Fail(e)
    case None =>
      var values := Values(current, N);
      var bitSet := Side(values, b, 1);
      var bitUnset := Side(values, b, 0);
      if |bitSet| == 0 then Stop(missing + Pow2(b))
      else if |bitUnset| == 0 then Stop(missing)
      else if |bitSet| < |bitUnset| then Next(bitSet, missing + Pow2(b))
      else Next(bitUnset, missing)
  }

  /** The passes from bit b on: the outer loop (lines 78-142). */
  function Search(current: seq<Parse>, b: nat, missing: nat, N: nat): Outcome
    decreases N - b
  {
    if b >= N then Missing(missing)
    else
      match Pass(current, b, missing, N)
      case Fail(e) => e
      case Stop(v) => Missing(v)
      case Next(file, m) => Search(Written(file), b + 1, m, N)
  }

  /** The whole program on the input file. */
  function Run(input: seq<Parse>, N: nat): Outcome
  {
    Search(input, 0, 0, N)
  }

  /**
   * The outer loop over current_bit with its read loop (lines 78-142). A
   * temporary file is the sequence of numbers written to it; "rewind" makes
   * it the file the next pass reads. `missing | (1 << b)` is written as an
   * addition, as bit b of `missing` is still clear.
   */
  method FindMissing(input: seq<Parse>, N: nat) returns (r: Outcome)
    ensures r == Run(input, N)
  {
    var currentBit: nat := 0;
    var current := input;
    var missing: nat := 0;
    while currentBit < N
      invariant Search(current, currentBit, missing, N) == Run(input, N)
      decreases N - currentBit
    {
      var error, bitSet, bitUnset, countBitSet, countBitUnset := ReadPass(current, currentBit, N);
      ghost var step := Pass(current, currentBit, missing, N);
      if error.Some? {
        assert step == Fail(error.value);
        return error.value;
      }
      if countBitSet == 0 {
        assert step == Stop(missing + Pow2(currentBit));
        return Missing(missing + Pow2(currentBit));
      } else if countBitUnset == 0 {
        assert step == Stop(missing);
        return Missing(missing);
      } else if countBitSet < countBitUnset {
        assert step == Next(bitSet, missing + Pow2(currentBit));
        missing := missing + Pow2(currentBit);
        current := Written(bitSet);
      } else {
        assert step == Next(bitUnset, missing);
        current := Written(bitUnset);
      }
      currentBit := currentBit + 1;
    }
    return Missing(missing);
  }

  /**
   * The read loop of one pass (lines 100-122): stops at the first error,
   * otherwise writes each number to the temporary file of its bit and counts it.
   */
  method ReadPass(current: seq<Parse>, currentBit: nat, N: nat)
    returns (error: Option<Outcome>, bitSet: seq<nat>, bitUnset: seq<nat>, countBitSet: nat, countBitUnset: nat)
    ensures error == FirstError(current, 0, N)
    ensures error.None? ==> (bitSet == Side(Values(current, N), currentBit, 1)
                             && bitUnset == Side(Values(current, N), currentBit, 0))
    ensures countBitSet == |bitSet| && countBitUnset == |bitUnset|
  {
    var lineCount := 0;
    countBitSet, countBitUnset := 0, 0;
    bitSet, bitUnset := [], [];
    ghost var values := Values(current, N);
    while lineCount < |current|
      invariant lineCount <= |current|
      invariant FirstError(current, 0, N) == FirstError(current, lineCount, N)
      invariant bitSet == Side(values[..lineCount], currentBit, 1)
      invariant bitUnset == Side(values[..lineCount], currentBit, 0)
      invariant countBitSet == |bitSet| && countBitUnset == |bitUnset|
    {
      if lineCount == MaxValue(N) {
        return Some(TooManyLines), bitSet, bitUnset, countBitSet, countBitUnset;
      }
      var read := ReadNumber(current[lineCount], 0, N);
      if !read.0 {
        return Some(Unreadable(lineCount)), bitSet, bitUnset, countBitSet, countBitUnset;
      }
      var number := read.1;
      assert values[..lineCount + 1] == values[..lineCount] + [number];
      SideAppend(values[..lineCount], number, currentBit, 1);
      SideAppend(values[..lineCount], number, currentBit, 0);
      if Bit(number, currentBit) == 1 {
        bitSet := bitSet + [number];
        countBitSet := countBitSet + 1;
      } else {
        bitUnset := bitUnset + [number];
        countBitUnset := countBitUnset + 1;
      }
      lineCount := lineCount + 1;
    }
    assert values[..lineCount] == values;
    error := None;
  }

  /**
   * Stopping at bit b because no value of the file has bit b equal to c:
   * the result, which has bit b equal to c and nothing above, is no input.
   */
  lemma StopAvoids(inputs: seq<nat>, values: seq<nat>, b: nat, missing: nat, c: nat)
    requires missing < Pow2(b) && c <= 1
    requires forall x :: x in values <==> x in inputs && Low(x, b) == missing
    requires |Side(values, b, c)| == 0
    ensures missing + c * Pow2(b) < Pow2(b + 1)
    ensures missing + c * Pow2(b) !in inputs
  {
    var m := missing + c * Pow2(b);
    InSide(values, b, c);
    LowOfSmall(m, b + 1);
    ExtendLow(m, b, missing, c);
  }

  /**
   * Carrying on with the values whose bit b is c, written to a temporary
   * file and read back: the file has no error, fewer than 2^(N-b-1) lines,
   * and holds exactly the inputs whose low b + 1 bits are those of the
   * result so far.
   */
  lemma NextFile(inputs: seq<nat>, values: seq<nat>, b: nat, missing: nat, c: nat, N: nat)
    requires b < N && missing < Pow2(b) && c <= 1
    requires forall x :: x in inputs ==> x <= MaxValue(N)
    requires forall x :: x in values <==> x in inputs && Low(x, b) == missing
    requires |values| < Pow2(N - b)
    requires |Side(values, b, c)| <= |Side(values, b, 1 - c)|
    ensures missing + c * Pow2(b) < Pow2(b + 1)
    ensures FirstError(Written(Side(values, b, c)), 0, N) == None
    ensures |Written(Side(values, b, c))| < Pow2(N - (b + 1))
    ensures forall x :: x in Values(Written(Side(values, b, c)), N)
                    <==> x in inputs && Low(x, b + 1) == missing + c * Pow2(b)
  {
    var side := Side(values, b, c);
    SmallerSideHalves(values, b, c, N);
    InSide(values, b, c);
    Pow2Monotone(N - (b + 1), N);
    TempFileRoundTrip(side, N);
    SideKeepsInvariant(inputs, values, b, missing, c);
  }

  /** The smaller temporary file holds fewer than half of the 2^(N-b) lines allowed. */
  lemma SmallerSideHalves(values: seq<nat>, b: nat, c: nat, N: nat)
    requires b < N && c <= 1
    requires |values| < Pow2(N - b)
    requires |Side(values, b, c)| <= |Side(values, b, 1 - c)|
    ensures |Side(values, b, c)| < Pow2(N - (b + 1))
  {
    SplitCounts(values, b);
    assert Pow2(N - b) == 2 * Pow2(N - (b + 1));
  }

  /** The values whose bit b is c are the inputs that agree with the result on b + 1 bits. */
  lemma SideKeepsInvariant(inputs: seq<nat>, values: seq<nat>, b: nat, missing: nat, c: nat)
    requires missing < Pow2(b) && c <= 1
    requires forall x :: x in values <==> x in inputs && Low(x, b) == missing
    ensures forall x :: x in Side(values, b, c) <==> x in inputs && Low(x, b + 1) == missing + c * Pow2(b)
  {
    InSide(values, b, c);
    forall x
      ensures x in Side(values, b, c) <==> x in inputs && Low(x, b + 1) == missing + c * Pow2(b)
    {
      ExtendLow(x, b, missing, c);
    }
  }

  /**
   * One pass keeps the invariant of the search: when the current file holds
   * exactly the inputs that agree with the result on its low b bits, and
   * fewer than 2^(N-b) of them, the pass either stops with a number that is
   * no input, or continues with a file that holds exactly the inputs that
   * agree with the result on b + 1 bits, and fewer than 2^(N-b-1) of them.
   */
  lemma PassKeepsInvariant(inputs: seq<nat>, current: seq<Parse>, b: nat, missing: nat, N: nat)
    requires b < N && missing < Pow2(b)
    requires forall x :: x in inputs ==> x <= MaxValue(N)
    requires FirstError(current, 0, N) == None
    requires |current| < Pow2(N - b)
    requires forall x :: x in Values(current, N) <==> x in inputs && Low(x, b) == missing
    ensures !Pass(current, b, missing, N).Fail?
    ensures Pass(current, b, missing, N).Stop? ==>
              Pass(current, b, missing, N).value < Pow2(b + 1) && Pass(current, b, missing, N).value !in inputs
    ensures Pass(current, b, missing, N).Next? ==>
              var file := Written(Pass(current, b, missing, N).file);
              var m := Pass(current, b, missing, N).missing;
              && m < Pow2(b + 1)
              && FirstError(file, 0, N) == None
              && |file| < Pow2(N - (b + 1))
              && forall x :: x in Values(file, N) <==> x in inputs && Low(x, b + 1) == m
  {
    var values := Values(current, N);
    var bitSet := Side(values, b, 1);
    var bitUnset := Side(values, b, 0);
    if |bitSet| == 0 {
      StopAvoids(inputs, values, b, missing, 1);
    } else if |bitUnset| == 0 {
      StopAvoids(inputs, values, b, missing, 0);
    } else if |bitSet| < |bitUnset| {
      NextFile(inputs, values, b, missing, 1, N);
    } else {
      NextFile(inputs, values, b, missing, 0, N);
    }
  }

  /**
   * The loop invariant carried to the end: the search ends with a number of
   * N bits that is no input.
   */
  lemma {:induction false} SearchAvoids(inputs: seq<nat>, current: seq<Parse>, b: nat, missing: nat, N: nat)
    requires b <= N && missing < Pow2(b)
    requires forall x :: x in inputs ==> x <= MaxValue(N)
    requires FirstError(current, 0, N) == None
    requires |current| < Pow2(N - b)
    requires forall x :: x in Values(current, N) <==> x in inputs && Low(x, b) == missing
    decreases N - b
    ensures Search(current, b, missing, N).Missing?
    ensures Search(current, b, missing, N).value < Pow2(N)
    ensures Search(current, b, missing, N).value !in inputs
  {
    if b == N {
      LowOfSmall(missing, b);
    } else {
      Pow2Monotone(b + 1, N);
      PassKeepsInvariant(inputs, current, b, missing, N);
      var step := Pass(current, b, missing, N);
      if step.Next? {
        SearchAvoids(inputs, Written(step.file), b + 1, step.missing, N);
      }
    }
  }

  /**
   * With at most 2^N - 1 lines, each an N-bit number, the program prints a
   * number of N bits that is not in the input.
   */
  lemma ResultIsAbsent(input: seq<Parse>, N: nat)
    requires |input| <= MaxValue(N)
    requires forall p :: p in input ==> Readable(p, N)
    ensures Run(input, N).Missing?
    ensures Run(input, N).value <= MaxValue(N)
    ensures Parsed(Run(input, N).value) !in input
  {
    NoErrorIffReadable(input, 0, N);
    var inputs := Values(input, N);
    assert forall j :: 0 <= j < |input| ==> input[j] in input;
    forall x
      ensures x in inputs <==> x in inputs && Low(x, 0) == 0
    {
    }
    SearchAvoids(inputs, input, 0, 0, N);
    assert forall j :: 0 <= j < |input| ==> inputs[j] == input[j].value;
  }

  /** A file of 2^N or more lines, readable up to line MAX_VALUE, stops the first pass with "Too many input lines". */
  lemma TooManyLinesRejected(input: seq<Parse>, N: nat)
    requires N >= 1 && |input| > MaxValue(N)
    requires forall j :: 0 <= j < MaxValue(N) ==> Readable(input[j], N)
    ensures Run(input, N) == TooManyLines
  {
    TooManyLinesFrom(input, 0, N);
  }

  lemma {:induction false} TooManyLinesFrom(lines: seq<Parse>, k: nat, N: nat)
    requires k <= MaxValue(N) < |lines|
    requires forall j :: k <= j < MaxValue(N) ==> Readable(lines[j], N)
    decreases MaxValue(N) - k
    ensures FirstError(lines, k, N) == Some(TooManyLines)
  {
    if k < MaxValue(N) {
      TooManyLinesFrom(lines, k + 1, N);
    }
  }

  /** A run over an input with a line read_number rejects prints no number. */
  lemma RejectsUnreadableInput(input: seq<Parse>, N: nat, j: nat)
    requires N >= 1 && j < |input| && !Readable(input[j], N)
    ensures !Run(input, N).Missing?
  {
    NoErrorIffReadable(input, 0, N);
    assert Pass(input, 0, 0, N).Fail?;
  }

  // ---------------------------------------------------------------------
  // The program as written, with N = 32.

  /** What `printf("%d", x)` shows for a uint32_t x: its bits read as a 32-bit int. */
  function AsInt32(x: nat): (r: int)
    ensures -0x8000_0000 <= r < 0x8000_0000
    ensures r % 0x1_0000_0000 == x % 0x1_0000_0000
  {
    var w := x % 0x1_0000_0000;
    if w >= 0x8000_0000 then w - 0x1_0000_0000 else w
  }

  /** A temporary file as written with `%d` (lines 116 and 119). */
  function WrittenAsSigned(values: seq<nat>): (r: seq<Parse>)
  {
    seq(|values|, i requires 0 <= i < |values| => Parsed(AsInt32(values[i])))
  }

  /**
   * The numbers a pass uses when read_number's result is ignored (line 113):
   * a rejected line leaves `number` uninitialised; its content is `garbage`.
   */
  function ValuesAsWritten(lines: seq<Parse>, garbage: nat): (r: seq<nat>)
    ensures |r| == |lines|
  {
    seq(|lines|, i requires 0 <= i < |lines| => ReadNumber(lines[i], garbage, 32).1)
  }

  /** The search as written: rejected lines are still split, temporary files use `%d`. */
  function SearchAsWritten(current: seq<Parse>, b: nat, missing: nat, garbage: nat): Outcome
    decreases 32 - b
  {
    if b >= 32 then Missing(missing)
    else if |current| > MaxValue(32) then TooManyLines
    else
      var values := ValuesAsWritten(current, garbage);
      var bitSet := Side(values, b, 1);
      var bitUnset := Side(values, b, 0);
      if |bitSet| == 0 then Missing(missing + Pow2(b))
      else if |bitUnset| == 0 then Missing(missing)
      else if |bitSet| < |bitUnset| then SearchAsWritten(WrittenAsSigned(bitSet), b + 1, missing + Pow2(b), garbage)
      else SearchAsWritten(WrittenAsSigned(bitUnset), b + 1, missing, garbage)
  }

  lemma Pow2Of32()
    ensures Pow2(32) == 0x1_0000_0000
  {
    assert Pow2(8) == 0x100;
    assert Pow2(16) == 0x1_0000;
    assert Pow2(24) == 0x100_0000;
  }

  /**
   * A line with no number is split as whatever `number` held: the program
   * prints 1 or 0 depending on uninitialised memory and succeeds, where the
   * corrected read loop rejects the line.
   */
  lemma UnreadableLineSplitAsWritten()
    ensures SearchAsWritten([Unparsable], 0, 0, 0) == Missing(1)
    ensures SearchAsWritten([Unparsable], 0, 0, 1) == Missing(0)
    ensures Run([Unparsable], 32) == Unreadable(0)
  {
    Pow2Of32();
    assert ValuesAsWritten([Unparsable], 0) == [0];
    assert ValuesAsWritten([Unparsable], 1) == [1];
  }

  /**
   * 2147483648 written with `%d` reads back as -2147483648, which read_number
   * rejects, so the second pass over "2147483648 1" splits the uninitialised
   * `number` instead: the program prints 0 when its bit 1 is set, and 2
   * otherwise.
   */
  lemma SignedTempFileAsWritten(garbage: nat)
    ensures !ReadNumber(Parsed(AsInt32(0x8000_0000)), 0, 32).0
    ensures SearchAsWritten([Parsed(0x8000_0000), Parsed(1)], 0, 0, garbage)
            == if Bit(garbage, 1) == 1 then Missing(0) else Missing(2)
  {
    Pow2Of32();
    var values := ValuesAsWritten([Parsed(0x8000_0000), Parsed(1)], garbage);
    assert values == [0x8000_0000] + [1];
    assert Bit(0x8000_0000, 0) == 0 && Bit(1, 0) == 1;
    SideAppend([], 0x8000_0000, 0, 0);
    SideAppend([], 0x8000_0000, 0, 1);
    assert [] + [0x8000_0000] == [0x8000_0000];
    SideAppend([0x8000_0000], 1, 0, 0);
    SideAppend([0x8000_0000], 1, 0, 1);
    assert Side(values, 0, 1) == [1];
    assert Side(values, 0, 0) == [0x8000_0000];
    var file := WrittenAsSigned([0x8000_0000]);
    assert file == [Parsed(-0x8000_0000)];
    assert ValuesAsWritten(file, garbage) == [garbage];
    SideAppend([], garbage, 1, 0);
    SideAppend([], garbage, 1, 1);
    assert [] + [garbage] == [garbage];
    if Bit(garbage, 1) == 1 {
      assert Side([garbage], 1, 0) == [];
    } else {
      assert Side([garbage], 1, 1) == [];
    }
  }

  /** The corrected program on the same input reads 2147483648 back and prints 2. */
  lemma UnsignedTempFileOnSameInput()
    ensures Run([Parsed(0x8000_0000), Parsed(1)], 32) == Missing(2)
  {
    Pow2Of32();
    var input := [Parsed(0x8000_0000), Parsed(1)];
    NoErrorIffReadable(input, 0, 32);
    assert Values(input, 32) == [0x8000_0000, 1];
    assert Side([0x8000_0000, 1], 0, 1) == [1];
    assert Side([0x8000_0000, 1], 0, 0) == [0x8000_0000];
    TempFileRoundTrip([0x8000_0000], 32);
    assert Bit(0x8000_0000, 1) == 0;
    assert Side([0x8000_0000], 1, 1) == [];
  }

  /**
   * Line 143 prints the result with `%d`: a result of 2^31 or more, which
   * needs at least 2^31 input lines, is shown as a negative number; a
   * smaller one is shown as it is.
   */
  lemma PrintedResultAsWritten(v: nat)
    requires v <= 0xFFFF_FFFF
    ensures AsInt32(v) < 0 <==> v >= 0x8000_0000
    ensures AsInt32(v) == if v >= 0x8000_0000 then v - 0x1_0000_0000 else v
  {
  }

  /** The `int` expression `1 << b`: defined only while 2^b fits in a 32-bit int. */
  function IntShift(b: nat): Option<int>
  {
    if Pow2(b) <= 0x7FFF_FFFF then Some(Pow2(b)) else None
  }

  /** Lines 127 and 134 shift an int: the result for bit 31 is undefined. */
  lemma IntShiftOverflowsAtBit31()
    ensures IntShift(30) == Some(0x4000_0000)
    ensures IntShift(31) == None
  {
    Pow2Of32();
    assert Pow2(32) == 2 * Pow2(31);
    assert Pow2(31) == 2 * Pow2(30);
  }

  /** The unsigned shift of the corrected program is an N-bit number for every bit the loop visits. */
  lemma {:induction false} BitValueFits(b: nat, N: nat)
    requires b < N
    ensures Pow2(b) <= MaxValue(N)
  {
    Pow2Monotone(b + 1, N);
  }
}
