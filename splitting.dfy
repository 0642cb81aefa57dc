/** The train/validation split and the token estimate, which prepare_data.py
    and ui/shared.py both define with the same code: a seeded shuffle of a
    copy of the examples, a validation prefix of `int(total * ratio)` items,
    and a token count of a quarter of every message's length. */
module Splitting {
  import opened TrainingFormat
  import Config

  // ===========================================================================
  // random.shuffle
  // ===========================================================================

  /** The draws `random.shuffle` makes on a list of `n` items: for `i` from
      `n - 1` down to 1 it draws `j` in `[0, i]`; draw `k` is the one for
      `i == n - 1 - k`. The seeded generator itself is not modelled. */
  predicate ValidDraws(draws: seq<nat>, n: nat)
  {
    && |draws| == (if n == 0 then 0 else n - 1)
    && forall k :: 0 <= k < |draws| ==> draws[k] <= n - 1 - k
  }

  /** `x[i], x[j] = x[j], x[i]` */
  function Swap<T>(s: seq<T>, i: nat, j: nat): (r: seq<T>)
    requires i < |s| && j < |s|
    ensures |r| == |s| && r[i] == s[j] && r[j] == s[i]
    ensures forall p :: 0 <= p < |s| && p != i && p != j ==> r[p] == s[p]
  {
    s[i := s[j]][j := s[i]]
  }

  /** A swap keeps every item, as many times as before. */
  lemma SwapPermutes<T>(s: seq<T>, i: nat, j: nat)
    requires i < |s| && j < |s|
    ensures multiset(Swap(s, i, j)) == multiset(s)
  {
  }

  /** The list after the swaps of draws `k..`, starting from `s`. */
  function ShuffleFrom<T>(s: seq<T>, draws: seq<nat>, k: nat): (r: seq<T>)
    requires ValidDraws(draws, |s|) && k <= |draws|
    ensures |r| == |s|
    decreases |draws| - k
  {
    if k == |draws| then s
    else ShuffleFrom(Swap(s, |s| - 1 - k, draws[k]), draws, k + 1)
  }

  /** `random.shuffle(x)` with the given draws. */
  function Shuffled<T>(s: seq<T>, draws: seq<nat>): (r: seq<T>)
    requires ValidDraws(draws, |s|)
  {
    ShuffleFrom(s, draws, 0)
  }

  /** The shuffle loop, in place on the array. */
  method Shuffle<T>(a: array<T>, draws: seq<nat>)
    requires ValidDraws(draws, a.Length)
    modifies a
    ensures a[..] == Shuffled(old(a[..]), draws)
  {
    var k := 0;
    while k < |draws|
      invariant 0 <= k <= |draws|
      invariant ShuffleFrom(a[..], draws, k) == Shuffled(old(a[..]), draws)
      decreases |draws| - k
    {
      var i := a.Length - 1 - k;
      var j := draws[k];
      ghost var before := a[..];
      a[i], a[j] := a[j], a[i];
      assert a[..] == Swap(before, i, j);
      k := k + 1;
    }
  }

  /** The shuffle only reorders: the result is a permutation of the input. */
  lemma {:induction false} ShuffleFromPermutes<T>(s: seq<T>, draws: seq<nat>, k: nat)
    requires ValidDraws(draws, |s|) && k <= |draws|
    ensures multiset(ShuffleFrom(s, draws, k)) == multiset(s)
    decreases |draws| - k
  {
    if k < |draws| {
      SwapPermutes(s, |s| - 1 - k, draws[k]);
      ShuffleFromPermutes(Swap(s, |s| - 1 - k, draws[k]), draws, k + 1);
    }
  }

  /** Positions from `|s| - k` on are settled once `k` draws are made, and
      no later draw touches them. */
  lemma {:induction false} ShuffleFromKeepsTail<T>(s: seq<T>, draws: seq<nat>, k: nat, p: nat)
    requires ValidDraws(draws, |s|) && k <= |draws|
    requires |s| - k <= p < |s|
    ensures ShuffleFrom(s, draws, k)[p] == s[p]
    decreases |draws| - k
  {
    if k < |draws| {
      var s1 := Swap(s, |s| - 1 - k, draws[k]);
      assert draws[k] <= |s| - 1 - k < p;
      assert s1[p] == s[p];
      assert ShuffleFrom(s, draws, k) == ShuffleFrom(s1, draws, k + 1);
      ShuffleFromKeepsTail(s1, draws, k + 1, p);
    }
  }

  /** The last slot of the shuffled list holds the item the first draw picked. */
  lemma FirstDrawFillsLastSlot<T>(s: seq<T>, draws: seq<nat>)
    requires ValidDraws(draws, |s|) && |s| >= 2
    ensures Shuffled(s, draws)[|s| - 1] == s[draws[0]]
  {
    var s1 := Swap(s, |s| - 1, draws[0]);
    ShuffleFromKeepsTail(s1, draws, 1, |s| - 1);
  }

  // ===========================================================================
  // split_dataset
  // ===========================================================================

  /** `int(total * ratio)` for the ratio `num / den`: the product, truncated
      toward zero. */
  function ValidationCount(total: nat, num: int, den: nat): (v: int)
    requires den > 0
    ensures num >= 0 ==> v * den <= total * num < (v + 1) * den
    ensures num < 0 ==> v <= 0 && -v * den <= total * -num < (-v + 1) * den
  {
    if num >= 0 then total * num / den else -(total * -num / den)
  }

  /** Where the slice `x[:v]` ends on a list of `n` items: a negative bound
      counts from the end, and either is clamped to the list. */
  function SliceEnd(v: int, n: nat): (e: nat)
    ensures e <= n
    ensures 0 <= v <= n ==> e == v
    ensures v > n ==> e == n
    ensures v < 0 ==> e == if n + v < 0 then 0 else n + v
  {
    if v < 0 then (if n + v < 0 then 0 else n + v)
    else if v > n then n
    else v
  }

  /** A ratio between 0 and 1 takes `floor(total * ratio)` items for
      validation, so none when `total * ratio < 1`, and never more than all. */
  lemma ValidationCountBounds(total: nat, num: int, den: nat)
    requires den > 0 && 0 <= num <= den
    ensures 0 <= ValidationCount(total, num, den) <= total
    ensures SliceEnd(ValidationCount(total, num, den), total) == ValidationCount(total, num, den)
    ensures total * num < den <==> ValidationCount(total, num, den) == 0
  {
    ValidationCountAtMostTotal(total, num, den);
    ValidationCountZero(total, num, den);
  }

  lemma ValidationCountAtMostTotal(total: nat, num: int, den: nat)
    requires den > 0 && 0 <= num <= den
    ensures ValidationCount(total, num, den) <= total
  {
    var v := ValidationCount(total, num, den);
    MulMono(num, den, total);
    if v > total {
      MulMono(total + 1, v, den);
    }
  }

  lemma ValidationCountZero(total: nat, num: int, den: nat)
    requires den > 0 && 0 <= num
    ensures total * num < den <==> ValidationCount(total, num, den) == 0
  {
    var v := ValidationCount(total, num, den);
    if total * num < den && v > 0 {
      MulMono(1, v, den);
    }
  }

  lemma MulMono(a: int, b: int, c: nat)
    requires a <= b
    ensures a * c <= b * c
  {
  }

  /** With the configured ratio of 1/10, fewer than ten examples leave the
      validation set empty. */
  lemma ConfiguredRatio(total: nat)
    ensures ValidationCount(total, Config.ValidationNum, Config.ValidationDen) == total / 10
    ensures total < 10 <==> ValidationCount(total, Config.ValidationNum, Config.ValidationDen) == 0
  {
  }

  /** `split_dataset`: shuffle a copy of the examples, then take the first
      `int(total * ratio)` as validation and the rest as training. The input
      array is only read. */
  method SplitDataset(examples: array<Example>, draws: seq<nat>, num: int, den: nat)
    returns (train: seq<Example>, val: seq<Example>)
    requires ValidDraws(draws, examples.Length) && den > 0
    ensures val + train == Shuffled(examples[..], draws)
    ensures multiset(val + train) == multiset(examples[..])
    ensures |val| == SliceEnd(ValidationCount(examples.Length, num, den), examples.Length)
    ensures 0 <= num <= den ==> |val| == ValidationCount(examples.Length, num, den)
    ensures |train| == examples.Length - |val|
  {
    ghost var original := examples[..];
    var shuffled := new Example[examples.Length];
    forall i | 0 <= i < examples.Length {
      shuffled[i] := examples[i];
    }
    assert shuffled[..] == original;
    Shuffle(shuffled, draws);
    assert examples[..] == original;
    ShuffleFromPermutes(original, draws, 0);
    var total := shuffled.Length;
    var valCount := ValidationCount(total, num, den);
    var end := SliceEnd(valCount, total);
    val := shuffled[..end];
    train := shuffled[end..];
    assert val + train == shuffled[..];
    if 0 <= num <= den {
      ValidationCountBounds(total, num, den);
    }
  }

  // ===========================================================================
  // estimate_tokens and the total_tokens part of estimate_cost
  // ===========================================================================

  /** `len(text) // 4`: a quarter of the length, rounded down. */
  function EstimateTokens(text: string): (r: nat)
    ensures 4 * r <= |text| < 4 * r + 4
  {
    |text| / 4
  }

  /** `example.get("messages", [])` */
  function MessagesOf(e: Example): seq<Message>
  {
    if e.Chat? then e.messages else []
  }

  /** The estimate summed over a list of messages. */
  function MessageTokens(msgs: seq<Message>): nat
  {
    if msgs == [] then 0
    else MessageTokens(msgs[..|msgs| - 1]) + EstimateTokens(msgs[|msgs| - 1].content)
  }

  /** The estimate summed over every message of every example. */
  function TotalTokens(es: seq<Example>): nat
  {
    if es == [] then 0
    else TotalTokens(es[..|es| - 1]) + MessageTokens(MessagesOf(es[|es| - 1]))
  }

  /** The nested accumulation loop of `estimate_cost`. */
  method EstimateTotalTokens(examples: seq<Example>) returns (total: nat)
    ensures total == TotalTokens(examples)
  {
    total := 0;
    for i := 0 to |examples|
      invariant total == TotalTokens(examples[..i])
    {
      assert examples[..i + 1][..i] == examples[..i];
      var msgs := MessagesOf(examples[i]);
      ghost var before := total;
      for j := 0 to |msgs|
        invariant total == before + MessageTokens(msgs[..j])
      {
        assert msgs[..j + 1][..j] == msgs[..j];
        total := total + EstimateTokens(msgs[j].content);
      }
      assert msgs[..|msgs|] == msgs;
    }
    assert examples[..|examples|] == examples;
  }

  /** The total over a concatenation is the sum of the totals. */
  lemma {:induction false} TotalTokensAppend(a: seq<Example>, b: seq<Example>)
    ensures TotalTokens(a + b) == TotalTokens(a) + TotalTokens(b)
    decreases |b|
  {
    if b == [] {
      assert a + b == a;
    } else {
      var b' := b[..|b| - 1];
      assert (a + b)[..|a + b| - 1] == a + b';
      TotalTokensAppend(a, b');
    }
  }

  /** The total does not depend on the order of the examples. */
  lemma {:induction false} TotalTokensPermutation(a: seq<Example>, b: seq<Example>)
    requires multiset(a) == multiset(b)
    ensures TotalTokens(a) == TotalTokens(b)
    decreases |a|
  {
    hide *;
    if a != [] {
      var x := a[|a| - 1];
      assert x in multiset(b) by {
        assert x in a;
      }
      var i :| 0 <= i < |b| && b[i] == x;
      MultisetRemove(a, b, i);
      TotalTokensPermutation(a[..|a| - 1], b[..i] + b[i + 1..]);
      TotalTokensRemove(a, |a| - 1);
      assert a[..|a| - 1] + a[|a|..] == a[..|a| - 1];
      TotalTokensRemove(b, i);
    } else {
      assert |b| == |multiset(b)|;
    }
  }

  /** Taking out the last element of one side and a matching element of the
      other keeps two multisets equal. */
  lemma MultisetRemove(a: seq<Example>, b: seq<Example>, i: nat)
    requires multiset(a) == multiset(b) && a != [] && i < |b| && b[i] == a[|a| - 1]
    ensures multiset(a[..|a| - 1]) == multiset(b[..i] + b[i + 1..])
  {
    var x := b[i];
    var a' := a[..|a| - 1];
    var b' := b[..i] + b[i + 1..];
    assert a == a' + [x];
    assert b == b[..i] + [x] + b[i + 1..];
    assert multiset(a) == multiset(a') + multiset{x};
    assert multiset(b) == multiset(b[..i]) + multiset{x} + multiset(b[i + 1..]);
    assert multiset(b') == multiset(b[..i]) + multiset(b[i + 1..]);
    forall y ensures multiset(a')[y] == multiset(b')[y] {
      assert multiset(a)[y] == multiset(b)[y];
    }
  }

  /** Removing one example removes its messages' tokens from the total. */
  lemma TotalTokensRemove(b: seq<Example>, i: nat)
    requires i < |b|
    ensures TotalTokens(b) == TotalTokens(b[..i] + b[i + 1..]) + MessageTokens(MessagesOf(b[i]))
  {
    hide *;
    var x := b[i];
    assert b == b[..i] + [x] + b[i + 1..];
    TotalTokensAppend(b[..i] + [x], b[i + 1..]);
    TotalTokensAppend(b[..i], [x]);
    TotalTokensAppend(b[..i], b[i + 1..]);
    TotalTokensSingle(x);
  }

  lemma TotalTokensSingle(x: Example)
    ensures TotalTokens([x]) == MessageTokens(MessagesOf(x))
  {
    assert [x][..0] == [];
  }

  /** Any split of a reordering of the examples, such as the training and
      validation sets, carries the same token estimate as the whole dataset. */
  lemma SplitKeepsTokens(examples: seq<Example>, val: seq<Example>, train: seq<Example>)
    requires multiset(val + train) == multiset(examples)
    ensures TotalTokens(val) + TotalTokens(train) == TotalTokens(examples)
  {
    TotalTokensAppend(val, train);
    TotalTokensPermutation(val + train, examples);
  }

  /** Examples without a message list count nothing, and a two-message pair
      counts a quarter of each half. */
  lemma PairTokens(user: string, assistant: string)
    ensures TotalTokens([Unstructured]) == 0
    ensures TotalTokens([Pair(user, assistant)]) == |user| / 4 + |assistant| / 4
  {
    assert [Unstructured][..0] == [];
    assert [Pair(user, assistant)][..0] == [];
    var msgs := Pair(user, assistant).messages;
    assert msgs[..1][..0] == [];
    assert msgs[..|msgs| - 1] == msgs[..1];
    assert MessageTokens(msgs[..1]) == EstimateTokens(user);
  }
}
