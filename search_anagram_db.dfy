/**
 * Column 2, problem 1: search the anagram database for the anagrams of a
 * word. The database file is read entry by entry into an array, the word's
 * signature is looked up with bsearch, and every word of the matching entry
 * other than the query itself is printed. The file is the sequence of its
 * bytes; reading it consumes a prefix and leaves the rest.
 */
module SearchAnagramDb {
  import opened Support
  import opened CStrings
  import opened StringSig

  /** The number of entries by which the entry array grows when it is full. */
  const EntryChunk: nat := 1000

  /** Entry: the length of the words, the signature, the number of words and the words. */
  datatype Entry = Entry(length: Byte, signature: seq<Byte>, wordCount: Byte, words: seq<seq<Byte>>)

  /**
   * The bytes fgets(buffer, size, file) consumes for size >= 1: at most
   * size - 1 of them, up to and including a newline, and fewer when the
   * file ends first.
   */
  function GetS(input: seq<Byte>, size: nat): (got: seq<Byte>)
    requires size >= 1
    decreases size
    ensures got <= input && |got| < size
  {
    if size == 1 || input == [] then []
    else if input[0] == Newline then [input[0]]
    else
      var tail := GetS(input[1..], size - 1);
      assert input == [input[0]] + input[1..];
      [input[0]] + tail
  }

  /**
   * fgets stops at the first newline: a newline can only be the last byte
   * read, and it reads fewer than size - 1 bytes only when it read a
   * newline or the file ended.
   */
  lemma {:induction false} GetSStopsAtNewline(input: seq<Byte>, size: nat)
    requires size >= 1
    decreases size
    ensures var got := GetS(input, size);
      got != [] ==> Newline !in got[..|got| - 1]
    ensures var got := GetS(input, size);
      |got| < size - 1 ==> got == input || got[|got| - 1] == Newline
  {
    if size > 1 && input != [] && input[0] != Newline {
      var tail := GetS(input[1..], size - 1);
      GetSStopsAtNewline(input[1..], size - 1);
      assert tail != [] ==> ([input[0]] + tail)[..|tail|] == [input[0]] + tail[..|tail| - 1];
      assert tail == input[1..] ==> [input[0]] + tail == input;
    }
  }

  /**
   * The words the loop of lines 48-51 reads: count calls of fgets with the
   * given size, each buffer holding the string it received. When fgets
   * finds the file already at its end the buffer keeps no string.
   */
  function ReadWords(input: seq<Byte>, size: nat, count: nat): (r: WordsRead)
    requires size >= 1
    ensures |r.words| == count && |r.rest| <= |input|
  {
    if count == 0 then WordsRead([], input)
    else
      var before := ReadWords(input, size, count - 1);
      var next := ReadWord(before.rest, size);
      WordsRead(before.words + [next.word], next.rest)
  }

  /** The words read and the rest of the file. */
  datatype WordsRead = WordsRead(words: seq<seq<Byte>>, rest: seq<Byte>)

  /** The string one fgets leaves in its buffer and the rest of the file. */
  datatype WordRead = WordRead(word: seq<Byte>, rest: seq<Byte>)

  /** One fgets into a buffer of the given size: the string the buffer holds and the rest of the file. */
  function ReadWord(input: seq<Byte>, size: nat): (r: WordRead)
    requires size >= 1
    ensures IsCString(r.word) && |r.rest| <= |input|
  {
    var got := GetS(input, size);
    WordRead(CPrefix(got), input[|got|..])
  }

  /**
   * The fgetc that reads the count byte: the next byte and what follows it;
   * at the end of the file EOF, which the uint8_t field holds as 255, with
   * nothing consumed.
   */
  function ReadCount(input: seq<Byte>): (r: CountRead)
    ensures input != [] ==> r.count == input[0] && r.rest == input[1..] && |r.rest| < |input|
  {
    if input == [] then CountRead(255, input) else CountRead(input[0], input[1..])
  }

  /** The count byte read and the rest of the file. */
  datatype CountRead = CountRead(count: Byte, rest: seq<Byte>)

  /** What read_db_entry returns: false at the end of the file, or the entry read and the rest of the file. */
  datatype EntryRead = EndOfFile | EntryRead(entry: Entry, rest: seq<Byte>)

  /**
   * read_db_entry (lines 38-54): EndOfFile at the end of the file;
   * otherwise the entry read and the rest of the file. The length byte
   * bounds every string read after it.
   */
  function ReadEntry(input: seq<Byte>): (r: EntryRead)
    ensures r.EntryRead? <==> input != []
    ensures r.EntryRead? ==> |r.rest| < |input|
  {
    if input == [] then EndOfFile else ReadAfterLength(input[0], input[1..])
  }

  /**
   * What read_db_entry reads after the length byte (lines 45-51): the
   * signature with one fgets, the count with fgetc, then count words.
   */
  function ReadAfterLength(length: Byte, input: seq<Byte>): (r: EntryRead)
    ensures r.EntryRead? && |r.rest| <= |input|
  {
    var got := GetS(input, length as int + 1);
    var counted := ReadCount(input[|got|..]);
    var read := ReadWords(counted.rest, length as int + 1, counted.count);
    EntryRead(Entry(length, CPrefix(got), counted.count, read.words), read.rest)
  }

  /** The entries of the database, read one after the other until the file ends. */
  function ReadDb(input: seq<Byte>): seq<Entry>
    decreases |input|
  {
    match ReadEntry(input)
    case EndOfFile => []
    case EntryRead(entry, rest) => [entry] + ReadDb(rest)
  }

  /** An entry as read_db_entry builds it: its signature is a C string and it holds word_count words. */
  predicate WellFormed(e: Entry)
  {
    IsCString(e.signature) && |e.words| == e.wordCount
  }

  /** Every entry read from a file is well formed. */
  lemma {:induction false} ReadDbWellFormed(input: seq<Byte>)
    decreases |input|
    ensures forall k :: 0 <= k < |ReadDb(input)| ==> WellFormed(ReadDb(input)[k])
  {
    match ReadEntry(input)
    case EndOfFile =>
    case EntryRead(entry, rest) =>
      ReadDbWellFormed(rest);
      assert ReadDb(input) == [entry] + ReadDb(rest);
  }

  /** read_db_entry: one entry read from the file, and the rest of the file. */
  method ReadDbEntry(input: seq<Byte>) returns (r: EntryRead)
    ensures r == ReadEntry(input)
  {
    if input == [] {
      return EndOfFile;
    }
    var length := input[0];
    var got := GetS(input[1..], length as int + 1);
    var signature := CPrefix(got);
    var cur := input[1 + |got|..];
    var count: Byte;
    if cur == [] {
      count := 255;
    } else {
      count := cur[0];
      cur := cur[1..];
    }
    assert input[1..][|got|..] == input[1 + |got|..];
    assert ReadCount(input[1..][|got|..]) == CountRead(count, cur);
    ghost var start := cur;
    var words: seq<seq<Byte>> := [];
    var i := 0;
    while i < count
      invariant i <= count
      invariant words == ReadWords(start, length as int + 1, i).words
      invariant cur == ReadWords(start, length as int + 1, i).rest
    {
      var next := ReadWord(cur, length as int + 1);
      words := words + [next.word];
      cur := next.rest;
      i := i + 1;
    }
    r := EntryRead(Entry(length, signature, count, words), cur);
    assert r == ReadAfterLength(length, input[1..]);
  }

  /** One more entry read: the entries so far gain it and the rest of the file loses it. */
  lemma ReadDbStep(done: seq<Entry>, input: seq<Byte>, entry: Entry, rest: seq<Byte>)
    requires ReadEntry(input) == EntryRead(entry, rest)
    ensures done + ReadDb(input) == (done + [entry]) + ReadDb(rest)
  {
    assert ReadDb(input) == [entry] + ReadDb(rest);
  }

  /** The end of the file: the entries so far are all of them. */
  lemma ReadDbEnd(done: seq<Entry>, input: seq<Byte>, db: seq<Byte>)
    requires ReadEntry(input) == EndOfFile
    requires done + ReadDb(input) == ReadDb(db)
    ensures ReadDb(db) == done
  {
    assert ReadDb(input) == [];
    assert done + [] == done;
  }

  /**
   * The loading loop (lines 95-106): every entry of the file, stored in an
   * array that grows by EntryChunk whenever it fills up.
   */
  method LoadDb(db: seq<Byte>) returns (entries: array<Entry>, count: nat)
    ensures fresh(entries)
    ensures count < entries.Length && WholeChunks(entries.Length, EntryChunk)
    ensures entries[..count] == ReadDb(db)
  {
    entries := new Entry[EntryChunk](_ => Entry(0, [], 0, []));
    count := 0;
    ghost var done: seq<Entry> := [];
    var input := db;
    while true
      invariant fresh(entries)
      invariant count < entries.Length && WholeChunks(entries.Length, EntryChunk)
      invariant entries[..count] == done
      invariant done + ReadDb(input) == ReadDb(db)
      decreases |input|
    {
      var read := ReadDbEntry(input);
      if read.EndOfFile? {
        ReadDbEnd(done, input, db);
        return;
      }
      ReadDbStep(done, input, read.entry, read.rest);
      entries := Append(entries, count, read.entry, EntryChunk, Entry(0, [], 0, []));
      count := count + 1;
      done := done + [read.entry];
      input := read.rest;
    }
  }

  /** compare_entries: strcmp of the key and the entry's signature. */
  function CompareEntries(key: seq<Byte>, e: Entry): (r: int)
    ensures -1 <= r <= 1
    ensures IsCString(key) && IsCString(e.signature) ==> (r == 0 <==> key == e.signature)
  {
    var r := StrCmp(key, e.signature);
    assert IsCString(key) && IsCString(e.signature) ==> (r == 0 <==> key == e.signature) by {
      if IsCString(key) && IsCString(e.signature) {
        StrCmpZeroIffEqual(key, e.signature);
      }
    }
    r
  }

  /** The order bsearch requires of the array: signatures ascending under strcmp. */
  predicate SortedBySignature(es: seq<Entry>)
  {
    forall i, j :: 0 <= i < j < |es| ==> StrCmp(es[i].signature, es[j].signature) <= 0
  }

  /**
   * bsearch(key, entries, count, sizeof(Entry), compare_entries), halving the
   * range [lo, hi) as the C library does. What it finds always matches the
   * key; on an array in the order it requires, it finds a match whenever
   * one exists.
   */
  method BSearch(key: seq<Byte>, entries: array<Entry>, count: nat) returns (r: Option<nat>)
    requires count <= entries.Length
    ensures r.Some? ==> r.value < count && StrCmp(key, entries[r.value].signature) == 0
    ensures r.None? && SortedBySignature(entries[..count])
      ==> forall k :: 0 <= k < count ==> StrCmp(key, entries[k].signature) != 0
  {
    ghost var es := entries[..count];
    ghost var sorted := SortedBySignature(es);
    var lo, hi := 0, count;
    while lo < hi
      invariant 0 <= lo <= hi <= count
      invariant sorted ==> forall k :: 0 <= k < lo ==> StrCmp(key, es[k].signature) > 0
      invariant sorted ==> forall k :: hi <= k < count ==> StrCmp(key, es[k].signature) < 0
    {
      var mid := (lo + hi) / 2;
      var c := CompareEntries(key, entries[mid]);
      if c < 0 {
        if sorted {
          forall k | mid < k < hi
            ensures StrCmp(key, es[k].signature) < 0
          {
            StrCmpLessThenAtMost(key, es[mid].signature, es[k].signature);
          }
        }
        hi := mid;
      } else if c > 0 {
        if sorted {
          StrCmpAntisymmetric(key, es[mid].signature);
          forall k | lo <= k < mid
            ensures StrCmp(key, es[k].signature) > 0
          {
            StrCmpAtMostThenLess(es[k].signature, es[mid].signature, key);
            StrCmpAntisymmetric(es[k].signature, key);
          }
        }
        lo := mid + 1;
      } else {
        return Some(mid);
      }
    }
    r := None;
  }

  /** The words of the entry puts prints: those strncmp finds different from the query over n bytes. */
  function Others(words: seq<seq<Byte>>, query: seq<Byte>, n: nat): (r: seq<seq<Byte>>)
    ensures |r| <= |words|
  {
    if words == [] then []
    else
      var before := Others(words[..|words| - 1], query, n);
      var w := words[|words| - 1];
      if StrNCmp(w, query, n) != 0 then before + [w] else before
  }

  /** A word is printed exactly when it is one of the entry's words that differs from the query over n bytes. */
  lemma {:induction false} OthersMembers(words: seq<seq<Byte>>, query: seq<Byte>, n: nat, w: seq<Byte>)
    ensures w in Others(words, query, n) <==> w in words && StrNCmp(w, query, n) != 0
  {
    if words != [] {
      var init := words[..|words| - 1];
      OthersMembers(init, query, n, w);
      assert words == init + [words[|words| - 1]];
    }
  }

  /**
   * On an entry whose words are C strings of the query's length n, the
   * words printed are its words other than the query itself.
   */
  lemma OthersAreOtherAnagrams(words: seq<seq<Byte>>, query: seq<Byte>, n: nat, w: seq<Byte>)
    requires IsCString(query) && |query| == n
    requires forall k :: 0 <= k < |words| ==> IsCString(words[k]) && |words[k]| == n
    ensures w in Others(words, query, n) <==> w in words && w != query
  {
    OthersMembers(words, query, n, w);
    if w in words {
      StrNCmpZeroIffPrefixesEqual(w, query, n);
      assert w[..n] == w && query[..n] == query;
    }
  }

  /** The printing loop (lines 115-121): the entry's words that are not the query, in order. */
  method PrintOthers(e: Entry, query: seq<Byte>) returns (printed: seq<seq<Byte>>)
    requires |e.words| == e.wordCount
    ensures printed == Others(e.words, query, e.length)
  {
    printed := [];
    var i := 0;
    while i < e.wordCount
      invariant i <= e.wordCount
      invariant printed == Others(e.words[..i], query, e.length)
    {
      assert e.words[..i + 1][..i] == e.words[..i];
      if StrNCmp(e.words[i], query, e.length) != 0 {
        printed := printed + [e.words[i]];
      }
      i := i + 1;
    }
    assert e.words[..i] == e.words;
  }

  /**
   * The program on a database file and a word: the entry bsearch finds for
   * the word's signature, if any, and the words printed. A found entry has
   * the word's signature; on a database in signature order, none is found
   * only when no entry has that signature.
   */
  method Search(db: seq<Byte>, word: seq<Byte>) returns (found: Option<Entry>, printed: seq<seq<Byte>>)
    requires IsCString(word)
    ensures found.Some? ==> found.value in ReadDb(db) && found.value.signature == Signature(word)
    ensures found.Some? ==> printed == Others(found.value.words, word, found.value.length)
    ensures found.None? ==> printed == []
    ensures found.None? && SortedBySignature(ReadDb(db))
      ==> forall k :: 0 <= k < |ReadDb(db)| ==> ReadDb(db)[k].signature != Signature(word)
  {
    var entries, count := LoadDb(db);
    ghost var es := ReadDb(db);
    ReadDbWellFormed(db);
    var length := |word|;
    var buffer := new Byte[length + 1];
    Calculate(word, length, buffer);
    var key := buffer[..length];
    CalculatedIsSignature(word, length);
    assert word[..length] == word;
    assert key == Signature(word) && IsCString(key);
    var m := BSearch(key, entries, count);
    if m.Some? {
      var e := entries[m.value];
      assert e == es[m.value];
      assert WellFormed(e);
      StrCmpZeroIffEqual(key, e.signature);
      found := Some(e);
      printed := PrintOthers(e, word);
    } else {
      found := None;
      printed := [];
      if SortedBySignature(es) {
        assert entries[..count] == es;
        forall k | 0 <= k < |es|
          ensures es[k].signature != key
        {
          assert es[k] == entries[k];
          assert WellFormed(es[k]);
          StrCmpZeroIffEqual(key, es[k].signature);
        }
      }
    }
  }
}
