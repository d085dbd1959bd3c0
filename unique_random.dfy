/**
 * Column 1, problem 4: print k distinct random integers of [0, n) by
 * shuffling the first k places of the array 0, 1, ..., n-1 (a partial
 * Fisher-Yates shuffle). `rand()` is an oracle: the i-th call returns
 * `rand(i)`, a value of [0, RAND_MAX].
 */
module UniqueRandom {
  import opened Support

  /** RAND_MAX of the C library the program is built against (glibc). */
  const RandMax: nat := 0x7FFF_FFFF

  /** What the program ends with: the numbers printed, or the argument it rejects. */
  datatype Outcome =
    | Printed(values: seq<nat>)
    | InvalidCount
    | InvalidMax
    | TooManyIntegers

  /** The array as initialised: 0, 1, ..., n-1. */
  function Range(n: nat): (r: seq<nat>)
    ensures |r| == n
    ensures forall i :: 0 <= i < n ==> r[i] == i
  {
    seq(n, i requires 0 <= i < n => i)
  }

  predicate Distinct(s: seq<nat>)
  {
    forall p, q :: 0 <= p < q < |s| ==> s[p] != s[q]
  }

  /** The index drawn at step i from the random value r (line 59). */
  function Chosen(i: nat, n: nat, r: nat): nat
    requires i < n
  {
    i + r / (RandMax / (n - i) + 1)
  }

  /** Whatever rand() returns, the drawn index lies in [i, n-1]. */
  lemma ChosenInRange(i: nat, n: nat, r: nat)
    requires i < n && r <= RandMax
    ensures i <= Chosen(i, n, r) < n
  {
    var m := n - i;
    var d := RandMax / m + 1;
    assert RandMax < d * m;
    assert (r / d) * d <= r;
    assert r / d < m;
  }

  function Swap(s: seq<nat>, i: nat, j: nat): (r: seq<nat>)
    requires i < |s| && j < |s|
  {
    s[i := s[j]][j := s[i]]
  }

  /** A swap permutes the sequence and keeps it free of repetitions. */
  lemma SwapPermutes(s: seq<nat>, i: nat, j: nat)
    requires i < |s| && j < |s|
    ensures multiset(Swap(s, i, j)) == multiset(s)
    ensures forall x :: x in Swap(s, i, j) <==> x in s
    ensures Distinct(s) ==> Distinct(Swap(s, i, j))
  {
    var r := Swap(s, i, j);
    assert multiset(r) == multiset(s);
    forall x | x in s
      ensures x in r
    {
      var p :| 0 <= p < |s| && s[p] == x;
      if p == i {
        assert r[j] == x;
      } else if p == j {
        assert r[i] == x;
      } else {
        assert r[p] == x;
      }
    }
    assert multiset(r)[0] == multiset(s)[0];
  }

  /**
   * The swaps of steps i, i+1, ..., |rolls|-1 applied to s, each with the
   * index drawn from the step's random value.
   */
  function Shuffle(s: seq<nat>, rolls: seq<nat>, i: nat): (r: seq<nat>)
    requires i <= |rolls| <= |s|
    requires forall m :: 0 <= m < |rolls| ==> rolls[m] <= RandMax
    decreases |rolls| - i
    ensures |r| == |s|
  {
    if i == |rolls| then s
    else
      ChosenInRange(i, |s|, rolls[i]);
      Shuffle(Swap(s, i, Chosen(i, |s|, rolls[i])), rolls, i + 1)
  }

  /** Shuffling permutes the sequence and keeps it free of repetitions. */
  lemma {:induction false} ShufflePermutes(s: seq<nat>, rolls: seq<nat>, i: nat)
    requires i <= |rolls| <= |s|
    requires forall m :: 0 <= m < |rolls| ==> rolls[m] <= RandMax
    decreases |rolls| - i
    ensures multiset(Shuffle(s, rolls, i)) == multiset(s)
    ensures forall x :: x in Shuffle(s, rolls, i) <==> x in s
    ensures Distinct(s) ==> Distinct(Shuffle(s, rolls, i))
  {
    if i < |rolls| {
      ChosenInRange(i, |s|, rolls[i]);
      var j := Chosen(i, |s|, rolls[i]);
      SwapPermutes(s, i, j);
      ShufflePermutes(Swap(s, i, j), rolls, i + 1);
    }
  }

  /** The first k values rand() returns. */
  function Rolls(rand: nat -> nat, k: nat): (r: seq<nat>)
    ensures |r| == k
  {
    seq(k, i requires 0 <= i < k => rand(i))
  }

  /** The whole program: argument checks (lines 29-48), then the first k values of the shuffled array. */
  function Run(countArg: Parse, maxArg: Parse, rand: nat -> nat): Outcome
    requires forall i :: rand(i) <= RandMax
  {
    if countArg.Unparsable? then InvalidCount
    else if maxArg.Unparsable? then InvalidMax
    else
      var k := AsU32(countArg.value);
      var n := AsU32(maxArg.value);
      if k >= n then TooManyIntegers
      else Printed(Shuffle(Range(n), Rolls(rand, k), 0)[..k])
  }

  /** The first loop (lines 51-54): a fresh array holding 0, 1, ..., n-1. */
  method NewRange(n: nat) returns (a: array<nat>)
    ensures fresh(a)
    ensures a[..] == Range(n)
  {
    a := new nat[n];
    var i := 0;
    while i < n
      invariant i <= n
      invariant forall m :: 0 <= m < i ==> a[m] == m
    {
      a[i] := i;
      i := i + 1;
    }
  }

  /**
   * The second loop (lines 57-65): for each i < k swap a[i] with a[j] for a
   * drawn j of [i, n-1] and print a[i].
   */
  method ShufflePrefix(a: array<nat>, k: nat, rand: nat -> nat) returns (printed: seq<nat>)
    requires k <= a.Length
    requires forall i :: rand(i) <= RandMax
    modifies a
    ensures a[..] == Shuffle(old(a[..]), Rolls(rand, k), 0)
    ensures printed == a[..k]
  {
    ghost var rolls := Rolls(rand, k);
    printed := [];
    var i := 0;
    while i < k
      invariant i <= k
      invariant Shuffle(a[..], rolls, i) == Shuffle(old(a[..]), rolls, 0)
      invariant printed == a[..i]
    {
      var j := i + rand(i) / (RandMax / (a.Length - i) + 1);
      ChosenInRange(i, a.Length, rand(i));
      ghost var before := a[..];
      var temp := a[j];
      a[j] := a[i];
      a[i] := temp;
      assert a[..] == Swap(before, i, j);
      assert a[..i] == before[..i];
      printed := printed + [a[i]];
      i := i + 1;
    }
  }

  /** The program on its two arguments, with rand() as the oracle. */
  method Generate(countArg: Parse, maxArg: Parse, rand: nat -> nat) returns (r: Outcome)
    requires forall i :: rand(i) <= RandMax
    ensures r == Run(countArg, maxArg, rand)
  {
    if countArg.Unparsable? {
      return InvalidCount;
    }
    if maxArg.Unparsable? {
      return InvalidMax;
    }
    var k := AsU32(countArg.value);
    var n := AsU32(maxArg.value);
    if k >= n {
      return TooManyIntegers;
    }
    var a := NewRange(n);
    var printed := ShufflePrefix(a, k, rand);
    return Printed(printed);
  }

  /** A count that is not below the maximum is rejected before anything is printed. */
  lemma TooManyRejected(countArg: Parse, maxArg: Parse, rand: nat -> nat)
    requires forall i :: rand(i) <= RandMax
    requires countArg.Parsed? && maxArg.Parsed?
    ensures Run(countArg, maxArg, rand) == TooManyIntegers
        <==> AsU32(countArg.value) >= AsU32(maxArg.value)
  {
  }

  /** Whatever rand() returns, exactly k pairwise distinct integers of [0, n) are printed. */
  lemma PrintsDistinctBelowMax(countArg: Parse, maxArg: Parse, rand: nat -> nat)
    requires forall i :: rand(i) <= RandMax
    requires Run(countArg, maxArg, rand).Printed?
    ensures |Run(countArg, maxArg, rand).values| == AsU32(countArg.value)
    ensures Distinct(Run(countArg, maxArg, rand).values)
    ensures forall x :: x in Run(countArg, maxArg, rand).values ==> x < AsU32(maxArg.value)
  {
    var k := AsU32(countArg.value);
    var n := AsU32(maxArg.value);
    var shuffled := Shuffle(Range(n), Rolls(rand, k), 0);
    ShufflePermutes(Range(n), Rolls(rand, k), 0);
    var out := shuffled[..k];
    assert forall x :: x in out ==> x in shuffled;
  }
}
