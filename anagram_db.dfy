/**
 * The database file as the two programs of column 2 share it: what
 * search_anagram_db reads back from the bytes build_anagram_db writes for
 * its sorted pairs. Every run of two or more anagrams comes back as one
 * entry holding exactly those words, and the entries come back in strictly
 * ascending signature order, which is the order bsearch needs.
 */
module AnagramDb {
  import opened Support
  import opened CStrings
  import opened Sorting
  import opened StringSig
  import opened BuildAnagramDb
  import opened SearchAnagramDb

  /**
   * A pair the database holds faithfully: the word fills the pair's length,
   * which fits the length byte, and neither the word nor the signature holds
   * a newline or a NUL, so fgets reads each back whole.
   */
  predicate Storable(p: Pair)
  {
    && |p.original| == p.length < 0x100
    && Newline !in p.original
    && IsCString(p.signature) && Newline !in p.signature
  }

  /**
   * A dictionary line without NUL bytes whose word is shorter than 256 bytes
   * makes a storable pair, whose signature is its word's.
   */
  lemma StorableOfLine(line: seq<Byte>)
    requires IsLine(line) && IsCString(line) && |Strip(line)| < 0x100
    ensures Storable(MakePair(line)) && MakePair(line).signature == Signature(MakePair(line).original)
  {
    PairOfWord(line);
    var word := Strip(line);
    SignatureKeepsCString(word);
    assert multiset(Signature(word)) == multiset(word);
    assert Newline !in multiset(word);
  }

  /** The words of the pairs first..end-1, as a sequence of strings. */
  function Originals(s: seq<Pair>, first: nat, end: nat): seq<seq<Byte>>
    requires first <= end <= |s|
  {
    seq(end - first, k requires 0 <= k < end - first => s[first + k].original)
  }

  /** The entry the search program reads back for a run of pairs. */
  function EntryOf(s: seq<Pair>, run: Run): Entry
    requires run.first <= run.last < |s|
  {
    Entry(AsByte(s[run.first].length), s[run.first].signature,
      AsByte(run.last - run.first + 1), Originals(s, run.first, run.last + 1))
  }

  /** The entries of the runs of two or more pairs, in order. */
  function Entries(s: seq<Pair>, r: seq<Run>): seq<Entry>
  {
    if r == [] then []
    else (if r[0].first < r[0].last < |s| then [EntryOf(s, r[0])] else []) + Entries(s, r[1..])
  }

  /** fgets with room for exactly the bytes of a word without a newline reads that word. */
  lemma {:induction false} GetSReadsWord(w: seq<Byte>, rest: seq<Byte>)
    requires Newline !in w
    ensures GetS(w + rest, |w| + 1) == w
  {
    if w != [] {
      assert (w + rest)[1..] == w[1..] + rest;
      assert (w + rest)[0] == w[0];
      GetSReadsWord(w[1..], rest);
      assert w == [w[0]] + w[1..];
    }
  }

  /** One more word read by the loop of read_db_entry, when it fills the buffer exactly. */
  lemma ReadWordsStep(before: seq<Byte>, w: seq<Byte>, rest: seq<Byte>, count: nat, words: seq<seq<Byte>>,
                      all: seq<Byte>, allWords: seq<seq<Byte>>)
    requires Newline !in w && IsCString(w)
    requires ReadWords(before + (w + rest), |w| + 1, count) == WordsRead(words, w + rest)
    requires all == before + w && allWords == words + [w]
    ensures ReadWords(all + rest, |w| + 1, count + 1) == WordsRead(allWords, rest)
  {
    AppendAssociative(before, w, rest);
    GetSReadsWord(w, rest);
    assert (w + rest)[|w|..] == rest;
  }

  /** The words of pairs first..end-1 are n bytes long and hold no newline. */
  predicate WordsOfLength(s: seq<Pair>, first: nat, end: nat, n: nat)
    requires first <= end <= |s|
  {
    forall j :: first <= j < end ==> |s[j].original| == n && Newline !in s[j].original
  }

  /** The word loop of read_db_entry reads back the words write_db_entry wrote, when all have the entry's length. */
  lemma {:induction false} ReadWordsOfWords(s: seq<Pair>, first: nat, end: nat, rest: seq<Byte>, n: nat)
    requires first <= end <= |s|
    requires WordsOfLength(s, first, end, n)
    decreases end
    ensures ReadWords(Words(s, first, end) + rest, n + 1, end - first) == WordsRead(Originals(s, first, end), rest)
  {
    if first < end {
      var w := s[end - 1].original;
      ReadWordsOfWords(s, first, end - 1, w + rest, n);
      assert Originals(s, first, end) == Originals(s, first, end - 1) + [w];
      ReadWordsStep(Words(s, first, end - 1), w, rest, end - 1 - first, Originals(s, first, end - 1),
        Words(s, first, end), Originals(s, first, end));
    } else {
      assert Words(s, first, end) + rest == rest;
      assert Originals(s, first, end) == [];
    }
  }

  /**
   * read_db_entry on a length byte, a signature of that length without a
   * newline, a count byte and what follows: the entry holds the words the
   * loop reads from what follows.
   */
  lemma ReadEntryOfParts(length: Byte, sig: seq<Byte>, count: Byte, after: seq<Byte>,
    input: seq<Byte>, words: seq<seq<Byte>>, rest: seq<Byte>)
    requires |sig| == length as int && Newline !in sig && IsCString(sig)
    requires input == sig + ([count] + after)
    requires ReadWords(after, length as int + 1, count) == WordsRead(words, rest)
    ensures ReadAfterLength(length, input) == EntryRead(Entry(length, sig, count, words), rest)
  {
    GetSReadsWord(sig, [count] + after);
    assert input[|sig|..] == [count] + after;
  }

  /**
   * read_db_entry applied to the bytes write_db_entry writes for a run of
   * storable pairs of one length, at most 255 of them, returns the run's
   * entry and leaves the bytes after it.
   */
  lemma ReadEntryOfRun(s: seq<Pair>, first: nat, last: nat, rest: seq<Byte>)
    requires first <= last < |s| && last - first < 0xff
    requires Storable(s[first]) && WordsOfLength(s, first, last + 1, s[first].length)
    ensures ReadEntry(EntryBytes(s, first, last) + rest) == EntryRead(EntryOf(s, Run(first, last)), rest)
  {
    var p := s[first];
    var words := Words(s, first, last + 1);
    var length, count := AsByte(p.length), AsByte(last - first + 1);
    var body := p.signature + ([count] + (words + rest));
    EntryBytesLayout(s, first, last, rest, body);
    ReadWordsOfWords(s, first, last + 1, rest, p.length);
    ReadEntryOfParts(length, p.signature, count, words + rest, body, Originals(s, first, last + 1), rest);
  }

  /** The bytes of an entry followed by the rest: the length byte, then the signature, the count, the words and the rest. */
  lemma EntryBytesLayout(s: seq<Pair>, first: nat, last: nat, rest: seq<Byte>, body: seq<Byte>)
    requires first <= last < |s| && last - first < 0xff && Storable(s[first])
    requires body == s[first].signature + ([AsByte(last - first + 1)] + (Words(s, first, last + 1) + rest))
    ensures var input := EntryBytes(s, first, last) + rest;
      input != [] && input[0] == AsByte(s[first].length) && input[1..] == body
  {
    var input := EntryBytes(s, first, last) + rest;
    assert input == [AsByte(s[first].length)] + body;
  }

  /**
   * Reading the bytes of one run and then the rest: the run's entry, when
   * it holds two or more pairs, followed by the entries of the rest.
   */
  lemma ReadDbOfRun(s: seq<Pair>, run: Run, rest: seq<Byte>)
    requires run.first <= run.last < |s| && run.last - run.first < 0xff
    requires Storable(s[run.first]) && WordsOfLength(s, run.first, run.last + 1, s[run.first].length)
    ensures ReadDb(RunBytes(s, run) + rest)
         == (if run.first < run.last then [EntryOf(s, run)] else []) + ReadDb(rest)
  {
    if run.first < run.last {
      ReadEntryOfRun(s, run.first, run.last, rest);
      assert ReadDb(RunBytes(s, run) + rest) == [EntryOf(s, run)] + ReadDb(rest);
    } else {
      assert RunBytes(s, run) + rest == rest;
    }
  }

  /**
   * Reading the database back: the bytes written for a grouping of storable
   * pairs whose runs hold at most 255 pairs each are read as the entries of
   * its runs of two or more pairs, in order.
   */
  lemma {:induction false} ReadDbOfGrouping(s: seq<Pair>, r: seq<Run>, start: nat)
    requires IsGrouping(s, r, start)
    requires forall j :: start <= j < |s| ==> Storable(s[j])
    requires forall k :: 0 <= k < |r| ==> r[k].last - r[k].first < 0xff
    decreases |r|
    ensures ReadDb(Written(s, r)) == Entries(s, r)
  {
    var run := r[0];
    var tail := r[1..];
    if |r| > 1 {
      ReadDbOfGrouping(s, tail, run.last + 1);
    }
    forall j | run.first <= j <= run.last
      ensures |s[j].original| == s[run.first].length && Newline !in s[j].original
    {
      assert SameSignature(s[j], s[start]);
    }
    ReadDbOfRun(s, run, Written(s, tail));
  }

  /** Two storable pairs share a signature in the grouping's sense exactly when their signatures are equal. */
  lemma SameSignatureIsEqual(y: Pair, x: Pair)
    requires Storable(y) && Storable(x)
    ensures SameSignature(y, x) <==> y.signature == x.signature
  {
    SameSignatureIff(y, x);
    StrCmpZeroIffEqual(y.signature, x.signature);
  }

  /** Signatures in ascending order under strcmp, as qsort leaves the pairs. */
  predicate SignaturesAscending(s: seq<Pair>)
  {
    forall i, j :: 0 <= i < j < |s| ==> StrCmp(s[i].signature, s[j].signature) <= 0
  }

  /** Pairs sorted by compare_signature_pairs have ascending signatures. */
  lemma SortedSignaturesAscending(s: seq<Pair>)
    requires SortedBy(s, PairLe)
    ensures SignaturesAscending(s)
  {
    forall i, j | 0 <= i < j < |s|
      ensures StrCmp(s[i].signature, s[j].signature) <= 0
    {
      assert PairLe(s[i], s[j]);
    }
  }

  /** In a grouping of storable pairs, the pairs of the first run have its first pair's signature. */
  lemma FirstRunShares(s: seq<Pair>, r: seq<Run>, start: nat)
    requires IsGrouping(s, r, start)
    requires forall j :: start <= j < |s| ==> Storable(s[j])
    ensures forall j :: start <= j <= r[0].last ==> s[j].signature == s[start].signature
  {
    forall j | start <= j <= r[0].last
      ensures s[j].signature == s[start].signature
    {
      SameSignatureIsEqual(s[j], s[start]);
    }
  }

  /**
   * In a grouping of sorted storable pairs, the pairs of the first run have
   * its first pair's signature and every later pair has a greater one.
   */
  lemma FirstRunBelowRest(s: seq<Pair>, r: seq<Run>, start: nat)
    requires IsGrouping(s, r, start) && SignaturesAscending(s)
    requires forall j :: start <= j < |s| ==> Storable(s[j])
    ensures forall j :: start <= j <= r[0].last ==> s[j].signature == s[start].signature
    ensures forall j :: r[0].last < j < |s| ==> StrCmp(s[start].signature, s[j].signature) < 0
  {
    FirstRunShares(s, r, start);
    if |r| > 1 {
      var next := r[0].last + 1;
      SameSignatureIsEqual(s[next], s[start]);
      StrCmpZeroIffEqual(s[start].signature, s[next].signature);
      forall j | next < j < |s|
        ensures StrCmp(s[start].signature, s[j].signature) < 0
      {
        StrCmpLessThenAtMost(s[start].signature, s[next].signature, s[j].signature);
      }
    }
  }

  /** In a grouping of sorted storable pairs, the second run's signature is above the first's. */
  lemma NextRunAbove(s: seq<Pair>, r: seq<Run>, start: nat)
    requires IsGrouping(s, r, start) && SignaturesAscending(s) && |r| > 1
    requires Storable(s[start]) && Storable(s[r[0].last + 1])
    ensures StrCmp(s[start].signature, s[r[0].last + 1].signature) < 0
  {
    var next := r[0].last + 1;
    SameSignatureIsEqual(s[next], s[start]);
    StrCmpZeroIffEqual(s[start].signature, s[next].signature);
  }

  /** Signatures strictly ascending under strcmp. */
  predicate StrictlyAscending(es: seq<Entry>)
  {
    forall k, k' :: 0 <= k < k' < |es| ==> StrCmp(es[k].signature, es[k'].signature) < 0
  }

  /** Every signature at least sig under strcmp. */
  predicate AllAtLeast(sig: seq<Byte>, es: seq<Entry>)
  {
    forall k :: 0 <= k < |es| ==> StrCmp(sig, es[k].signature) <= 0
  }

  /** An entry of signature sig before entries above a greater signature keeps the order strict. */
  lemma AscendingCons(sig: seq<Byte>, head: seq<Entry>, next: seq<Byte>, rest: seq<Entry>)
    requires |head| <= 1 && forall k :: 0 <= k < |head| ==> head[k].signature == sig
    requires rest == [] || StrCmp(sig, next) < 0
    requires AllAtLeast(next, rest) && StrictlyAscending(rest)
    ensures AllAtLeast(sig, head + rest) && StrictlyAscending(head + rest)
  {
    StrCmpReflexive(sig);
    forall k | 0 <= k < |rest|
      ensures StrCmp(sig, rest[k].signature) < 0
    {
      StrCmpLessThenAtMost(sig, next, rest[k].signature);
    }
  }

  /** The entries before the tail of a grouping: one for its first run when that holds two or more pairs. */
  lemma EntriesCons(s: seq<Pair>, r: seq<Run>)
    requires r != [] && r[0].first <= r[0].last < |s|
    ensures Entries(s, r)
         == (if r[0].first < r[0].last then [EntryOf(s, r[0])] else []) + Entries(s, r[1..])
  {
  }

  /** Every run lies within s, and each run's signature is below the next run's. */
  predicate RunsAscend(s: seq<Pair>, r: seq<Run>)
    decreases |r|
  {
    r != [] ==>
      && r[0].first <= r[0].last < |s|
      && (|r| > 1 ==> r[1].first < |s| && StrCmp(s[r[0].first].signature, s[r[1].first].signature) < 0)
      && RunsAscend(s, r[1..])
  }

  /** The runs of a grouping of sorted storable pairs ascend. */
  lemma {:induction false} GroupingRunsAscend(s: seq<Pair>, r: seq<Run>, start: nat)
    requires IsGrouping(s, r, start) && SignaturesAscending(s)
    requires forall j :: start <= j < |s| ==> Storable(s[j])
    decreases |r|
    ensures RunsAscend(s, r)
  {
    if |r| > 1 {
      GroupingRunsAscend(s, r[1..], r[0].last + 1);
      NextRunAbove(s, r, start);
    }
  }

  /**
   * The entries of ascending runs have signatures no smaller than the first
   * run's, in strictly ascending order.
   */
  lemma {:induction false} EntriesAscending(s: seq<Pair>, r: seq<Run>)
    requires r != [] && RunsAscend(s, r)
    decreases |r|
    ensures AllAtLeast(s[r[0].first].signature, Entries(s, r)) && StrictlyAscending(Entries(s, r))
  {
    var run := r[0];
    var head := if run.first < run.last then [EntryOf(s, run)] else [];
    EntriesCons(s, r);
    if |r| > 1 {
      EntriesAscending(s, r[1..]);
      AscendingCons(s[run.first].signature, head, s[r[1].first].signature, Entries(s, r[1..]));
    } else {
      AscendingCons(s[run.first].signature, head, [], Entries(s, r[1..]));
    }
  }

  /** The words of the pairs at or after i whose signature is sig, in order. */
  function Anagrams(s: seq<Pair>, i: nat, sig: seq<Byte>): seq<seq<Byte>>
    decreases |s| - i
  {
    if i >= |s| then []
    else (if s[i].signature == sig then [s[i].original] else []) + Anagrams(s, i + 1, sig)
  }

  /** A word is among the anagrams exactly when some pair at or after i has it and the signature. */
  lemma {:induction false} AnagramsMembers(s: seq<Pair>, i: nat, sig: seq<Byte>, w: seq<Byte>)
    decreases |s| - i
    ensures w in Anagrams(s, i, sig) <==> exists j :: i <= j < |s| && s[j].signature == sig && s[j].original == w
  {
    if i < |s| {
      var head := if s[i].signature == sig then [s[i].original] else [];
      AnagramsMembers(s, i + 1, sig, w);
      assert w in Anagrams(s, i, sig) <==> w in head || w in Anagrams(s, i + 1, sig);
      if w in head {
        assert s[i].signature == sig && s[i].original == w;
      }
      if exists j :: i <= j < |s| && s[j].signature == sig && s[j].original == w {
        var j :| i <= j < |s| && s[j].signature == sig && s[j].original == w;
        if j == i {
          assert w in head;
        }
      }
    }
  }

  /** Pairs of another signature contribute nothing. */
  lemma {:induction false} AnagramsSkip(s: seq<Pair>, i: nat, j: nat, sig: seq<Byte>)
    requires i <= j <= |s|
    requires forall k :: i <= k < j ==> s[k].signature != sig
    decreases j - i
    ensures Anagrams(s, i, sig) == Anagrams(s, j, sig)
  {
    if i < j {
      AnagramsSkip(s, i + 1, j, sig);
    }
  }

  /** A block of pairs of signature sig, with none after it, contributes its words. */
  lemma {:induction false} AnagramsTake(s: seq<Pair>, i: nat, j: nat, sig: seq<Byte>)
    requires i <= j <= |s|
    requires forall k :: i <= k < j ==> s[k].signature == sig
    requires Anagrams(s, j, sig) == []
    decreases j - i
    ensures Anagrams(s, i, sig) == Originals(s, i, j)
  {
    if i < j {
      AnagramsTake(s, i + 1, j, sig);
      assert Originals(s, i, j) == [s[i].original] + Originals(s, i + 1, j);
    } else {
      assert Originals(s, i, j) == [];
    }
  }

  /** Every entry of signature sig holds exactly the given words, at least two. */
  predicate EntryHolds(es: seq<Entry>, sig: seq<Byte>, words: seq<seq<Byte>>)
  {
    forall k :: 0 <= k < |es| && es[k].signature == sig ==> es[k].words == words && |words| >= 2
  }

  /** No entry has signature sig. */
  predicate NoEntry(es: seq<Entry>, sig: seq<Byte>)
  {
    forall k :: 0 <= k < |es| ==> es[k].signature != sig
  }

  /**
   * In a grouping of sorted storable pairs, no pair after the first run and
   * no entry of a later run has the first run's signature.
   */
  lemma RestAbove(s: seq<Pair>, r: seq<Run>, start: nat)
    requires IsGrouping(s, r, start) && SignaturesAscending(s)
    requires forall j :: start <= j < |s| ==> Storable(s[j])
    ensures forall j :: r[0].last < j < |s| ==> s[j].signature != s[start].signature
    ensures NoEntry(Entries(s, r[1..]), s[start].signature)
  {
    var sig0 := s[start].signature;
    StrCmpReflexive(sig0);
    FirstRunBelowRest(s, r, start);
    if |r| > 1 {
      var next := r[0].last + 1;
      var rest := Entries(s, r[1..]);
      GroupingRunsAscend(s, r[1..], next);
      EntriesAscending(s, r[1..]);
      forall k | 0 <= k < |rest|
        ensures rest[k].signature != sig0
      {
        StrCmpLessThenAtMost(sig0, s[next].signature, rest[k].signature);
      }
    }
  }

  /** The first run's own signature: its entry, if any, holds the words; later entries have other signatures. */
  lemma SignatureCons(head: seq<Entry>, rest: seq<Entry>, sig: seq<Byte>, words: seq<seq<Byte>>)
    requires |head| <= 1
    requires forall k :: 0 <= k < |head| ==> head[k].signature == sig && head[k].words == words && |words| >= 2
    requires head == [] ==> |words| <= 1
    requires NoEntry(rest, sig)
    ensures EntryHolds(head + rest, sig, words)
    ensures NoEntry(head + rest, sig) ==> |words| <= 1
  {
    forall k | |head| <= k < |head + rest|
      ensures (head + rest)[k].signature != sig
    {
      assert (head + rest)[k] == rest[k - |head|];
    }
    if head != [] {
      assert (head + rest)[0] == head[0];
    }
  }

  /** Another signature than the first run's: the first run's entry, if any, changes nothing about it. */
  lemma OtherSignatureCons(head: seq<Entry>, rest: seq<Entry>, sig: seq<Byte>, sig0: seq<Byte>, words: seq<seq<Byte>>)
    requires |head| <= 1 && sig != sig0
    requires forall k :: 0 <= k < |head| ==> head[k].signature == sig0
    requires EntryHolds(rest, sig, words)
    requires NoEntry(rest, sig) ==> |words| <= 1
    ensures EntryHolds(head + rest, sig, words)
    ensures NoEntry(head + rest, sig) ==> |words| <= 1
  {
    if NoEntry(head + rest, sig) {
      assert NoEntry(rest, sig) by {
        forall k | 0 <= k < |rest|
          ensures rest[k].signature != sig
        {
          assert (head + rest)[|head| + k] == rest[k];
        }
      }
    }
  }

  /**
   * The first run's own signature: its entry, when the run holds two or
   * more pairs, holds exactly their words, and no other entry has it.
   */
  lemma EntriesOfFirstSignature(s: seq<Pair>, r: seq<Run>, start: nat)
    requires IsGrouping(s, r, start) && SignaturesAscending(s)
    requires forall j :: start <= j < |s| ==> Storable(s[j])
    ensures EntryHolds(Entries(s, r), s[start].signature, Anagrams(s, start, s[start].signature))
    ensures NoEntry(Entries(s, r), s[start].signature) ==> |Anagrams(s, start, s[start].signature)| <= 1
  {
    var run := r[0];
    var next := run.last + 1;
    var sig := s[start].signature;
    EntriesCons(s, r);
    FirstRunBelowRest(s, r, start);
    RestAbove(s, r, start);
    AnagramsSkip(s, next, |s|, sig);
    AnagramsTake(s, start, next, sig);
    SignatureCons(if run.first < run.last then [EntryOf(s, run)] else [], Entries(s, r[1..]),
      sig, Anagrams(s, start, sig));
  }

  /**
   * In a grouping of sorted storable pairs, the entry of a signature holds
   * exactly the words of the pairs with that signature, at least two of
   * them; a signature without an entry belongs to at most one pair.
   */
  lemma {:induction false} EntriesOfSignature(s: seq<Pair>, r: seq<Run>, start: nat, sig: seq<Byte>)
    requires IsGrouping(s, r, start) && SignaturesAscending(s)
    requires forall j :: start <= j < |s| ==> Storable(s[j])
    decreases |r|
    ensures EntryHolds(Entries(s, r), sig, Anagrams(s, start, sig))
    ensures NoEntry(Entries(s, r), sig) ==> |Anagrams(s, start, sig)| <= 1
  {
    if sig == s[start].signature {
      EntriesOfFirstSignature(s, r, start);
    } else {
      if |r| > 1 {
        EntriesOfSignature(s, r[1..], r[0].last + 1, sig);
      }
      FirstRunShares(s, r, start);
      EntriesOfOtherSignature(s, r, start, sig);
    }
  }

  /**
   * A signature other than the first run's: the entries and the pairs with
   * that signature are those of the later runs.
   */
  lemma EntriesOfOtherSignature(s: seq<Pair>, r: seq<Run>, start: nat, sig: seq<Byte>)
    requires IsGrouping(s, r, start) && sig != s[start].signature
    requires forall j :: start <= j <= r[0].last ==> s[j].signature == s[start].signature
    requires |r| > 1 ==> EntryHolds(Entries(s, r[1..]), sig, Anagrams(s, r[0].last + 1, sig))
    requires |r| > 1 ==> NoEntry(Entries(s, r[1..]), sig) ==> |Anagrams(s, r[0].last + 1, sig)| <= 1
    ensures EntryHolds(Entries(s, r), sig, Anagrams(s, start, sig))
    ensures NoEntry(Entries(s, r), sig) ==> |Anagrams(s, start, sig)| <= 1
  {
    var run := r[0];
    var next := run.last + 1;
    EntriesCons(s, r);
    AnagramsSkip(s, start, next, sig);
    if |r| == 1 {
      assert Entries(s, r[1..]) == [];
    }
    OtherSignatureCons(if run.first < run.last then [EntryOf(s, run)] else [], Entries(s, r[1..]),
      sig, s[start].signature, Anagrams(s, start, sig));
  }

  /** A pair as the reading loop makes it from a clean line: a C string word and its signature. */
  predicate Signed(p: Pair)
  {
    IsCString(p.original) && p.signature == Signature(p.original)
  }

  /** Every run holds at most 255 pairs, so that its count fits the count byte. */
  predicate RunsFit(s: seq<Pair>)
    requires |s| > 0
  {
    forall k :: 0 <= k < |Runs(s)| ==> Runs(s)[k].last - Runs(s)[k].first < 0xff
  }

  /**
   * Dictionary lines the two programs handle faithfully: no NUL byte, a
   * newline only at a line's end, and words shorter than 256 bytes.
   */
  predicate CleanLines(lines: seq<seq<Byte>>)
  {
    forall k :: 0 <= k < |lines| ==>
      |lines[k]| > 0 && IsLine(lines[k]) && IsCString(lines[k]) && |Strip(lines[k])| < 0x100
  }

  /** Clean lines make storable, signed pairs holding the lines' words. */
  lemma PairsOfCleanLines(lines: seq<seq<Byte>>)
    requires CleanLines(lines)
    ensures forall k :: 0 <= k < |lines| ==>
      Storable(Pairs(lines)[k]) && Signed(Pairs(lines)[k]) && Pairs(lines)[k].original == Strip(lines[k])
  {
    forall k | 0 <= k < |lines|
      ensures Storable(MakePair(lines[k])) && Signed(MakePair(lines[k]))
      ensures MakePair(lines[k]).original == Strip(lines[k])
    {
      StorableOfLine(lines[k]);
      PairOfWord(lines[k]);
    }
  }

  /** A rearrangement of storable, signed pairs is storable and signed, and holds the same words. */
  lemma RearrangedPairs(sorted: seq<Pair>, pairs: seq<Pair>, w: seq<Byte>)
    requires multiset(sorted) == multiset(pairs)
    requires forall k :: 0 <= k < |pairs| ==> Storable(pairs[k]) && Signed(pairs[k])
    ensures forall j :: 0 <= j < |sorted| ==> Storable(sorted[j]) && Signed(sorted[j])
    ensures (exists j :: 0 <= j < |sorted| && sorted[j].original == w)
        <==> (exists k :: 0 <= k < |pairs| && pairs[k].original == w)
  {
    forall j | 0 <= j < |sorted|
      ensures Storable(sorted[j]) && Signed(sorted[j])
    {
      assert sorted[j] in multiset(pairs);
    }
    if j :| 0 <= j < |sorted| && sorted[j].original == w {
      assert sorted[j] in multiset(pairs);
      var k :| 0 <= k < |pairs| && pairs[k] == sorted[j];
    }
    if k :| 0 <= k < |pairs| && pairs[k].original == w {
      assert pairs[k] in multiset(sorted);
      var j :| 0 <= j < |sorted| && sorted[j] == pairs[k];
    }
  }

  /**
   * Sorted into any order, the pairs of clean lines are storable and
   * signed, and hold the same words as the lines.
   */
  lemma SortedPairsOfLines(lines: seq<seq<Byte>>, sorted: seq<Pair>, w: seq<Byte>)
    requires CleanLines(lines)
    requires multiset(sorted) == multiset(Pairs(lines))
    ensures forall j :: 0 <= j < |sorted| ==> Storable(sorted[j]) && Signed(sorted[j])
    ensures (exists j :: 0 <= j < |sorted| && sorted[j].original == w)
        <==> (exists k :: 0 <= k < |lines| && Strip(lines[k]) == w)
  {
    PairsOfCleanLines(lines);
    RearrangedPairs(sorted, Pairs(lines), w);
  }

  /**
   * The database written for sorted storable pairs reads back as the
   * entries of their runs of two or more, in strictly ascending signature
   * order: the order bsearch needs, with no signature twice.
   */
  lemma DatabaseReadsBack(s: seq<Pair>)
    requires |s| > 0 && SortedBy(s, PairLe) && RunsFit(s)
    requires forall j :: 0 <= j < |s| ==> Storable(s[j])
    ensures ReadDb(Database(s).value) == Entries(s, Runs(s))
    ensures StrictlyAscending(ReadDb(Database(s).value))
    ensures SortedBySignature(ReadDb(Database(s).value))
  {
    RunsPartition(s);
    SortedSignaturesAscending(s);
    ReadDbOfGrouping(s, Runs(s), 0);
    GroupingRunsAscend(s, Runs(s), 0);
    EntriesAscending(s, Runs(s));
  }

  /** Every entry's length byte is the length of its signature. */
  lemma {:induction false} EntriesLengths(s: seq<Pair>, r: seq<Run>)
    requires forall j :: 0 <= j < |s| ==> Storable(s[j]) && Signed(s[j])
    decreases |r|
    ensures forall k :: 0 <= k < |Entries(s, r)| ==> Entries(s, r)[k].length as int == |Entries(s, r)[k].signature|
  {
    if r != [] {
      EntriesLengths(s, r[1..]);
    }
  }

  /** The anagrams of signature sig are signed words of sig's length, exactly the words whose signature is sig. */
  lemma AnagramsOfSignature(s: seq<Pair>, sig: seq<Byte>, w: seq<Byte>)
    requires forall j :: 0 <= j < |s| ==> Signed(s[j])
    ensures forall k :: 0 <= k < |Anagrams(s, 0, sig)| ==>
      IsCString(Anagrams(s, 0, sig)[k]) && |Anagrams(s, 0, sig)[k]| == |sig|
    ensures w in Anagrams(s, 0, sig) <==> Signature(w) == sig && exists j :: 0 <= j < |s| && s[j].original == w
  {
    var a := Anagrams(s, 0, sig);
    forall k | 0 <= k < |a|
      ensures IsCString(a[k]) && |a[k]| == |sig|
    {
      AnagramsMembers(s, 0, sig, a[k]);
    }
    AnagramsMembers(s, 0, sig, w);
  }

  /**
   * What search_anagram_db prints for a query word against the database
   * build_anagram_db wrote for a sorted dictionary: an entry is found
   * exactly when the dictionary holds two or more anagrams of the word,
   * and a word is printed exactly when it is one of the dictionary's
   * anagrams of the query other than the query itself.
   */
  lemma SearchPrintsOtherAnagrams(s: seq<Pair>, word: seq<Byte>, found: Option<Entry>,
    printed: seq<seq<Byte>>, w: seq<Byte>)
    requires |s| > 0 && SortedBy(s, PairLe) && RunsFit(s)
    requires forall j :: 0 <= j < |s| ==> Storable(s[j]) && Signed(s[j])
    requires IsCString(word)
    requires found.Some? ==> (&& found.value in ReadDb(Database(s).value)
                              && found.value.signature == Signature(word)
                              && printed == Others(found.value.words, word, found.value.length))
    requires found.None? ==> printed == []
    requires found.None? && SortedBySignature(ReadDb(Database(s).value))
      ==> NoEntry(ReadDb(Database(s).value), Signature(word))
    ensures found.Some? <==> |Anagrams(s, 0, Signature(word))| >= 2
    ensures w in printed
        <==> (&& w != word
              && |Anagrams(s, 0, Signature(word))| >= 2
              && multiset(w) == multiset(word)
              && exists j :: 0 <= j < |s| && s[j].original == w)
  {
    var sig := Signature(word);
    var es := ReadDb(Database(s).value);
    var a := Anagrams(s, 0, sig);
    DatabaseReadsBack(s);
    RunsPartition(s);
    SortedSignaturesAscending(s);
    EntriesOfSignature(s, Runs(s), 0, sig);
    AnagramsOfSignature(s, sig, w);
    SignatureIffAnagram(w, word);
    if found.Some? {
      var e := found.value;
      var k :| 0 <= k < |es| && es[k] == e;
      assert e.words == a && |a| >= 2;
      EntriesLengths(s, Runs(s));
      assert e.length as int == |word|;
      OthersAreOtherAnagrams(a, word, e.length, w);
    }
  }

  /**
   * The two programs together, on a dictionary of clean lines whose groups
   * of anagrams hold at most 255 words: querying the database that
   * build_anagram_db writes for the sorted pairs prints a word exactly when
   * it is a dictionary word, an anagram of the query other than the query
   * itself, and the dictionary holds two or more anagrams of the query.
   */
  lemma DictionaryQuery(lines: seq<seq<Byte>>, sorted: seq<Pair>, word: seq<Byte>, found: Option<Entry>,
    printed: seq<seq<Byte>>, w: seq<Byte>)
    requires CleanLines(lines) && |lines| > 0
    requires SortedBy(sorted, PairLe) && multiset(sorted) == multiset(Pairs(lines))
    requires |sorted| > 0 && RunsFit(sorted)
    requires IsCString(word)
    requires found.Some? ==> (&& found.value in ReadDb(Database(sorted).value)
                              && found.value.signature == Signature(word)
                              && printed == Others(found.value.words, word, found.value.length))
    requires found.None? ==> printed == []
    requires found.None? && SortedBySignature(ReadDb(Database(sorted).value))
      ==> NoEntry(ReadDb(Database(sorted).value), Signature(word))
    ensures found.Some? <==> |Anagrams(sorted, 0, Signature(word))| >= 2
    ensures w in printed
        <==> (&& w != word
              && |Anagrams(sorted, 0, Signature(word))| >= 2
              && multiset(w) == multiset(word)
              && exists k :: 0 <= k < |lines| && Strip(lines[k]) == w)
  {
    SortedPairsOfLines(lines, sorted, w);
    SearchPrintsOtherAnagrams(sorted, word, found, printed, w);
  }
}
