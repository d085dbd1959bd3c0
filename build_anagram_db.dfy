/**
 * Column 2, problem 1: build an anagram database from a dictionary. Every
 * word is paired with its signature, the pairs are sorted by signature,
 * and each maximal run of two or more words with one signature becomes a
 * database entry: a length byte, the signature, a count byte and the words.
 * The dictionary is the sequence of lines getline returns; the database
 * file is the sequence of bytes written to it.
 */
module BuildAnagramDb {
  import opened Support
  import opened CStrings
  import opened Sorting
  import opened StringSig

  /** The number of pairs by which the pair array grows when it is full. */
  const ChunkSize: nat := 1000

  /** SignaturePair: a word, its signature and the length of its line. */
  datatype SignaturePair = SignaturePair(original: seq<Byte>, signature: seq<Byte>, length: nat)

  /** The pairs the program builds: the word is a C string, the signature holds one byte per character. */
  type Pair = p: SignaturePair | IsCString(p.original) && |p.signature| == p.length
    witness SignaturePair([], [], 0)

  /**
   * compare_signature_pairs: strncmp of the two signatures, bounded by the
   * longer length; since each signature spans its length, this is strcmp.
   */
  function ComparePairs(x: Pair, y: Pair): (r: int)
    ensures r == StrCmp(x.signature, y.signature)
  {
    var maxLength := if x.length < y.length then y.length else x.length;
    StrNCmpWideIsStrCmp(x.signature, y.signature, maxLength);
    StrNCmp(x.signature, y.signature, maxLength)
  }

  /** compare_signature_pairs as an order: x may precede y. */
  function PairLe(x: Pair, y: Pair): bool
  {
    ComparePairs(x, y) <= 0
  }

  /** compare_signature_pairs is total and transitive, so qsort can sort by it. */
  lemma PairLeOrders()
    ensures TotalPreorder(PairLe)
  {
    forall x: Pair, y: Pair
      ensures PairLe(x, y) || PairLe(y, x)
    {
      StrCmpAntisymmetric(x.signature, y.signature);
    }
    forall x: Pair, y: Pair, z: Pair | PairLe(x, y) && PairLe(y, z)
      ensures PairLe(x, z)
    {
      StrCmpTransitive(x.signature, y.signature, z.signature);
    }
  }

  /** A line as getline returns it: at least one byte, and a newline only at its end. */
  predicate IsLine(line: seq<Byte>)
  {
    |line| > 0 && forall i :: 0 <= i < |line| - 1 ==> line[i] != Newline
  }

  /** The line without its trailing newline, when it has one (lines 93-96). */
  function Strip(line: seq<Byte>): (word: seq<Byte>)
    requires |line| > 0
    ensures word <= line && |line| - 1 <= |word|
    ensures Newline !in word <== IsLine(line)
  {
    if line[|line| - 1] == Newline then line[..|line| - 1] else line
  }

  /**
   * The pair built from one line (lines 98-102): strndup copies the word
   * up to a NUL, ss_calculate signs the line's length of it.
   */
  function MakePair(line: seq<Byte>): Pair
    requires |line| > 0
  {
    var word := Strip(line);
    var original := CPrefix(word);
    SignaturePair(original, Calculated(original, |word|), |word|)
  }

  /**
   * On a line without NUL bytes the pair holds the word without its
   * newline, the word's signature and the word's length.
   */
  lemma PairOfWord(line: seq<Byte>)
    requires IsLine(line) && IsCString(line)
    ensures MakePair(line).original == Strip(line)
    ensures MakePair(line).signature == Signature(Strip(line))
    ensures MakePair(line).length == |Strip(line)|
  {
    var word := Strip(line);
    assert IsCString(word) by {
      forall i | 0 <= i < |word|
        ensures word[i] != 0
      {
        assert word[i] == line[i];
      }
    }
    CalculatedIsSignature(word, |word|);
    assert word[..|word|] == word;
  }

  /** The pairs of the dictionary's lines, in reading order. */
  function Pairs(lines: seq<seq<Byte>>): (r: seq<Pair>)
    requires forall k :: 0 <= k < |lines| ==> |lines[k]| > 0
    ensures |r| == |lines|
  {
    seq(|lines|, k requires 0 <= k < |lines| => MakePair(lines[k]))
  }

  /**
   * The reading loop (lines 84-110): one pair per line, stored in an array
   * that grows by ChunkSize whenever it fills up, so that it always has a
   * free slot.
   */
  method ReadDictionary(lines: seq<seq<Byte>>) returns (pairs: array<Pair>, wordCount: nat)
    requires forall k :: 0 <= k < |lines| ==> |lines[k]| > 0
    ensures fresh(pairs)
    ensures wordCount == |lines| < pairs.Length
    ensures WholeChunks(pairs.Length, ChunkSize)
    ensures pairs[..wordCount] == Pairs(lines)
  {
    pairs := new Pair[ChunkSize](_ => SignaturePair([], [], 0));
    wordCount := 0;
    ghost var all := Pairs(lines);
    while wordCount < |lines|
      invariant fresh(pairs)
      invariant wordCount <= |lines|
      invariant wordCount < pairs.Length && WholeChunks(pairs.Length, ChunkSize)
      invariant pairs[..wordCount] == all[..wordCount]
    {
      var pair := MakePair(lines[wordCount]);
      assert pair == all[wordCount];
      PrefixGrows(all, wordCount);
      pairs := Append(pairs, wordCount, pair, ChunkSize, SignaturePair([], [], 0));
      wordCount := wordCount + 1;
    }
    assert all[..wordCount] == all;
  }

  /**
   * qsort(pairs, count, sizeof(SignaturePair), compare_signature_pairs): the
   * first count pairs end up as a permutation of themselves sorted by
   * signature; the order among equal signatures is left open.
   */
  method QsortPairs(a: array<Pair>, count: nat)
    requires count <= a.Length
    modifies a
    ensures SortedBy(a[..count], PairLe)
    ensures multiset(a[..count]) == multiset(old(a[..count]))
    ensures a[count..] == old(a[count..])
  {
    var sorted := Sort(a[..count], PairLe);
    PairLeOrders();
    SortSorts(a[..count], PairLe);
    forall i | 0 <= i < count {
      a[i] := sorted[i];
    }
    assert a[..count] == sorted;
  }

  /** (char) x as fputc writes it: the low byte. */
  function AsByte(x: int): (r: Byte)
    ensures 0 <= x < 0x100 ==> r == x
  {
    x % 0x100
  }

  /** The words of the pairs first..end-1, one after the other. */
  function Words(s: seq<Pair>, first: nat, end: nat): seq<Byte>
    requires first <= end <= |s|
    decreases end - first
  {
    if first == end then [] else Words(s, first, end - 1) + s[end - 1].original
  }

  /**
   * An entry of the database for the run first..last: the length byte, the
   * signature, the number of words as a byte, and the words.
   */
  function EntryBytes(s: seq<Pair>, first: nat, last: nat): seq<Byte>
    requires first <= last < |s|
  {
    [AsByte(s[first].length)] + CPrefix(s[first].signature) + [AsByte(last - first + 1)]
      + Words(s, first, last + 1)
  }

  /** write_db_entry: the bytes of the entry for pairs first..last, written in that order. */
  method WriteDbEntry(pairs: seq<Pair>, first: nat, last: nat) returns (bytes: seq<Byte>)
    requires first <= last < |pairs|
    ensures bytes == EntryBytes(pairs, first, last)
  {
    bytes := [AsByte(pairs[first].length)] + CPrefix(pairs[first].signature) + [AsByte(last - first + 1)];
    var j := first;
    while j <= last
      invariant first <= j <= last + 1
      invariant bytes == [AsByte(pairs[first].length)] + CPrefix(pairs[first].signature)
        + [AsByte(last - first + 1)] + Words(pairs, first, j)
    {
      bytes := bytes + pairs[j].original;
      j := j + 1;
    }
  }

  /** A run of consecutive pairs, from index first to index last inclusive. */
  datatype Run = Run(first: nat, last: nat)

  /** The test of lines 131-132: y has x's length and x's signature over that length. */
  function SameSignature(y: Pair, x: Pair): bool
  {
    y.length == x.length && StrNCmp(y.signature, x.signature, x.length) == 0
  }

  /** Two pairs share a signature exactly when their lengths agree and strcmp finds their signatures equal. */
  lemma SameSignatureIff(y: Pair, x: Pair)
    ensures SameSignature(y, x) <==> y.length == x.length && StrCmp(y.signature, x.signature) == 0
  {
    if y.length == x.length {
      StrNCmpWideIsStrCmp(y.signature, x.signature, x.length);
    }
  }

  lemma SameSignatureReflexive(x: Pair)
    ensures SameSignature(x, x)
  {
    SameSignatureIff(x, x);
    StrCmpReflexive(x.signature);
  }

  /**
   * The runs the grouping loop forms from the state where pair i is next
   * and the current run starts at first: a pair joins the current run when
   * it has the signature of the run's first pair, and starts the next run
   * otherwise.
   */
  function RunsFrom(s: seq<Pair>, i: nat, first: nat): (r: seq<Run>)
    requires first < i <= |s|
    decreases |s| - i
    ensures |r| > 0 && r[0].first == first
  {
    if i == |s| then [Run(first, i - 1)]
    else if SameSignature(s[i], s[first]) then RunsFrom(s, i + 1, first)
    else [Run(first, i - 1)] + RunsFrom(s, i + 1, i)
  }

  /** The runs the grouping loop forms over all the pairs. */
  function Runs(s: seq<Pair>): seq<Run>
    requires |s| > 0
  {
    RunsFrom(s, 1, 0)
  }

  /**
   * r partitions s[start..] into maximal runs: the first run starts at start
   * and every pair in it shares its first pair's signature; either it ends
   * at the last pair, or the pair after it has another signature and the
   * remaining runs partition the rest from there.
   */
  ghost predicate IsGrouping(s: seq<Pair>, r: seq<Run>, start: nat)
    decreases |r|
  {
    && r != []
    && r[0].first == start <= r[0].last < |s|
    && (forall j :: start <= j <= r[0].last ==> SameSignature(s[j], s[start]))
    && (if |r| == 1 then r[0].last == |s| - 1
        else
          && r[0].last + 1 < |s|
          && !SameSignature(s[r[0].last + 1], s[start])
          && IsGrouping(s, r[1..], r[0].last + 1))
  }

  /** The grouping loop partitions the pairs into maximal runs of one signature. */
  lemma RunsPartition(s: seq<Pair>)
    requires |s| > 0
    ensures IsGrouping(s, Runs(s), 0)
  {
    SameSignatureReflexive(s[0]);
    RunsFromPartition(s, 1, 0);
  }

  /** From a state whose current run so far shares one signature, the runs formed partition the rest. */
  lemma {:induction false} RunsFromPartition(s: seq<Pair>, i: nat, first: nat)
    requires first < i <= |s|
    requires forall j :: first <= j < i ==> SameSignature(s[j], s[first])
    decreases |s| - i
    ensures IsGrouping(s, RunsFrom(s, i, first), first)
  {
    if i < |s| {
      if SameSignature(s[i], s[first]) {
        RunsFromPartition(s, i + 1, first);
      } else {
        SameSignatureReflexive(s[i]);
        RunsFromPartition(s, i + 1, i);
        var r := RunsFrom(s, i, first);
        assert r == [Run(first, i - 1)] + RunsFrom(s, i + 1, i);
        assert r[1..] == RunsFrom(s, i + 1, i);
      }
    }
  }

  /**
   * The bytes a run contributes: an entry when it holds two or more pairs,
   * nothing otherwise (and nothing for a run that does not lie within s,
   * which the grouping never forms).
   */
  function RunBytes(s: seq<Pair>, run: Run): seq<Byte>
  {
    if run.first < run.last < |s| then EntryBytes(s, run.first, run.last) else []
  }

  /** The bytes of the runs of two or more pairs, each as write_db_entry writes it. */
  function Written(s: seq<Pair>, r: seq<Run>): seq<Byte>
  {
    if r == [] then [] else RunBytes(s, r[0]) + Written(s, r[1..])
  }

  lemma AppendAssociative(a: seq<Byte>, b: seq<Byte>, c: seq<Byte>)
    ensures a + (b + c) == (a + b) + c
  {
  }

  /**
   * The grouping loop (lines 127-147): the runs of two or more pairs of the
   * sorted pairs, written in order.
   */
  method WriteGroups(pairs: seq<Pair>) returns (out: seq<Byte>)
    requires |pairs| > 0
    ensures Database(pairs) == Some(out)
  {
    var first := 0;
    var last := 0;
    out := [];
    var i := 1;
    ghost var done: seq<Run> := [];
    while i < |pairs|
      invariant first <= last == i - 1 < |pairs|
      invariant done + RunsFrom(pairs, i, first) == Runs(pairs)
      invariant out == Written(pairs, done)
    {
      if pairs[i].length == pairs[first].length
        && StrNCmp(pairs[i].signature, pairs[first].signature, pairs[first].length) == 0
      {
        ExtendRun(pairs, i, first);
        last := i;
      } else {
        CloseRun(pairs, i, first, last, done);
        WrittenSnoc(pairs, done, Run(first, last));
        done := done + [Run(first, last)];
        out := CloseGroup(pairs, first, last, out);
        first := i;
        last := i;
      }
      i := i + 1;
    }
    assert RunsFrom(pairs, i, first) == [Run(first, last)];
    WrittenSnoc(pairs, done, Run(first, last));
    out := CloseGroup(pairs, first, last, out);
  }

  /**
   * Lines 134-136 and 144-146: a run closes; it is written when it holds
   * two or more pairs.
   */
  method CloseGroup(pairs: seq<Pair>, first: nat, last: nat, out: seq<Byte>) returns (out': seq<Byte>)
    requires first <= last < |pairs|
    ensures out' == out + RunBytes(pairs, Run(first, last))
  {
    out' := out;
    if first != last {
      var bytes := WriteDbEntry(pairs, first, last);
      out' := out + bytes;
    } else {
      assert out + [] == out;
    }
  }

  /** The step of the grouping loop where pair i joins the current run. */
  lemma ExtendRun(s: seq<Pair>, i: nat, first: nat)
    requires first < i < |s|
    requires s[i].length == s[first].length
    requires StrNCmp(s[i].signature, s[first].signature, s[first].length) == 0
    ensures RunsFrom(s, i, first) == RunsFrom(s, i + 1, first)
  {
  }

  /** The step of the grouping loop where pair i closes the current run. */
  lemma CloseRun(s: seq<Pair>, i: nat, first: nat, last: nat, done: seq<Run>)
    requires first <= last == i - 1 && i < |s| && !SameSignature(s[i], s[first])
    ensures done + RunsFrom(s, i, first) == (done + [Run(first, last)]) + RunsFrom(s, i + 1, i)
  {
    assert RunsFrom(s, i, first) == [Run(first, last)] + RunsFrom(s, i + 1, i);
  }

  /** Writing one more run appends its bytes. */
  lemma {:induction false} WrittenSnoc(s: seq<Pair>, r: seq<Run>, run: Run)
    ensures Written(s, r + [run]) == Written(s, r) + RunBytes(s, run)
  {
    if r == [] {
      assert [] + [run] == [run];
      assert ([run])[1..] == [];
    } else {
      assert (r + [run])[1..] == r[1..] + [run];
      WrittenSnoc(s, r[1..], run);
      AppendAssociative(RunBytes(s, r[0]), Written(s, r[1..]), RunBytes(s, run));
    }
  }

  /** The database file for the sorted pairs: none at all for an empty dictionary. */
  function Database(s: seq<Pair>): Option<seq<Byte>>
  {
    if s == [] then None else Some(Written(s, Runs(s)))
  }

  /**
   * The program on a dictionary: read the pairs, sort them and write the
   * runs. `sorted` is the order qsort leaves the pairs in.
   */
  method Build(lines: seq<seq<Byte>>) returns (output: Option<seq<Byte>>, ghost sorted: seq<Pair>)
    requires forall k :: 0 <= k < |lines| ==> |lines[k]| > 0
    ensures SortedBy(sorted, PairLe) && multiset(sorted) == multiset(Pairs(lines))
    ensures output == Database(sorted)
    ensures output.None? <==> |lines| == 0
  {
    var pairs, wordCount := ReadDictionary(lines);
    QsortPairs(pairs, wordCount);
    sorted := pairs[..wordCount];
    if wordCount > 0 {
      var bytes := WriteGroups(pairs[..wordCount]);
      output := Some(bytes);
    } else {
      output := None;
    }
  }
}
