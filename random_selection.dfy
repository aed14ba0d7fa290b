/** `shuffle`, `pickRandomMoves` and `getRandomPokemonIds`, with `Math.random` replaced by
    a supplied stream of draws that are already in range. */
module RandomSelection {
  import opened Common

  /** A Fisher–Yates draw stream for a sequence of length n: the loop visits index n-1 down
      to 1 and swaps index i with draws[i - 1], a uniform pick from [0, i]. */
  predicate ValidDraws(n: nat, draws: seq<nat>)
  {
    && |draws| == (if n == 0 then 0 else n - 1)
    && forall k :: 0 <= k < |draws| ==> draws[k] <= k + 1
  }

  function Swap<T>(s: seq<T>, i: nat, j: nat): (r: seq<T>)
    requires i < |s| && j < |s|
    ensures |r| == |s|
  {
    s[i := s[j]][j := s[i]]
  }

  lemma SwapPermutes<T>(s: seq<T>, i: nat, j: nat)
    requires i < |s| && j < |s|
    ensures multiset(Swap(s, i, j)) == multiset(s)
  {
  }

  /** The outcome of the Fisher–Yates loop: swap the last element with its draw, then
      shuffle what precedes it with the draws that are left. */
  function Shuffled<T>(s: seq<T>, draws: seq<nat>): (r: seq<T>)
    requires ValidDraws(|s|, draws)
    ensures |r| == |s|
    decreases |s|
  {
    if |s| <= 1 then s
    else
      var last := |s| - 1;
      var t := Swap(s, last, draws[last - 1]);
      Shuffled(t[..last], draws[..last - 1]) + [t[last]]
  }

  /** Whatever the draws, the shuffle is a permutation of its input. */
  lemma {:induction false} ShuffledPermutes<T>(s: seq<T>, draws: seq<nat>)
    requires ValidDraws(|s|, draws)
    ensures multiset(Shuffled(s, draws)) == multiset(s)
    decreases |s|
  {
    if |s| > 1 {
      var last := |s| - 1;
      ShuffledUnfold(s, draws);
      ValidDrawsPrefix(|s|, draws, last);
      var t := Swap(s, last, draws[last - 1]);
      ShuffledPermutes(t[..last], draws[..last - 1]);
      SwapPermutes(s, last, draws[last - 1]);
      JoinLast(t);
      assert multiset(Shuffled(s, draws)) == multiset(t[..last]) + multiset{t[last]};
    }
  }

  lemma MultisetDropLast<T>(a: seq<T>, b: seq<T>)
    requires |a| == |b| >= 1 && a[|a| - 1] == b[|b| - 1] && multiset(a) == multiset(b)
    ensures multiset(a[..|a| - 1]) == multiset(b[..|b| - 1])
  {
    var n := |a| - 1;
    assert a == a[..n] + [a[n]] && b == b[..n] + [b[n]];
    forall y ensures multiset(a[..n])[y] == multiset(b[..n])[y] {
      assert multiset(a)[y] == multiset(a[..n])[y] + multiset{a[n]}[y];
      assert multiset(b)[y] == multiset(b[..n])[y] + multiset{b[n]}[y];
    }
    assert multiset(a[..n]) == multiset(b[..n]);
  }

  /** Conversely, every rearrangement of the input is the outcome of some valid draw stream,
      so no order is out of the shuffle's reach. */
  lemma {:induction false} EveryPermutationReachable<T>(s: seq<T>, p: seq<T>) returns (draws: seq<nat>)
    requires multiset(p) == multiset(s)
    ensures ValidDraws(|s|, draws) && Shuffled(s, draws) == p
    decreases |s|
  {
    if |s| <= 1 {
      ShortPermutation(s, p);
      draws := [];
    } else {
      var last := |s| - 1;
      var j := SwapInLast(s, p);
      var rest := EveryPermutationReachable(Swap(s, last, j)[..last], p[..last]);
      ExtendDraws(s, p, rest, j);
      draws := rest + [j];
    }
  }

  /** Some position of s holds the last element of p; swapping it to the end leaves a prefix
      that is a permutation of p's prefix. */
  lemma SwapInLast<T>(s: seq<T>, p: seq<T>) returns (j: nat)
    requires |s| >= 2 && multiset(p) == multiset(s)
    ensures |p| == |s| && j < |s|
    ensures Swap(s, |s| - 1, j)[|s| - 1] == p[|s| - 1]
    ensures multiset(Swap(s, |s| - 1, j)[..|s| - 1]) == multiset(p[..|s| - 1])
  {
    SameLength(s, p);
    j := IndexOf(s, p[|s| - 1]);
    SwapToEnd(s, j);
    SwapPermutes(s, |s| - 1, j);
    MultisetDropLast(Swap(s, |s| - 1, j), p);
  }

  lemma SameLength<T>(s: seq<T>, p: seq<T>)
    requires multiset(p) == multiset(s)
    ensures |p| == |s|
  {
    assert |multiset(p)| == |multiset(s)|;
  }

  lemma IndexOf<T>(s: seq<T>, x: T) returns (j: nat)
    requires x in multiset(s)
    ensures j < |s| && s[j] == x
  {
    assert x in s;
    j :| 0 <= j < |s| && s[j] == x;
  }

  // A fact Dafny knows; stated on its own so the proofs that call it stay small.
  lemma SwapToEnd<T>(s: seq<T>, j: nat)
    requires j < |s|
    ensures Swap(s, |s| - 1, j)[|s| - 1] == s[j]
  {
  }

  lemma ShortPermutation<T>(s: seq<T>, p: seq<T>)
    requires |s| <= 1 && multiset(p) == multiset(s)
    ensures p == s
  {
    assert |p| == |multiset(p)| == |multiset(s)| == |s|;
    if |s| == 1 {
      assert p[0] in multiset(s);
      assert p == [p[0]] == s;
    }
  }

  // A fact Dafny knows; stated on its own so the proofs that call it stay small.
  lemma JoinLast<T>(p: seq<T>)
    requires |p| >= 1
    ensures p[..|p| - 1] + [p[|p| - 1]] == p
  {
  }

  /** Appending the draw for the top index to a stream that shuffles the rest. */
  lemma ExtendDraws<T>(s: seq<T>, p: seq<T>, rest: seq<nat>, j: nat)
    requires |s| == |p| >= 2 && j < |s| && ValidDraws(|s| - 1, rest)
    requires Swap(s, |s| - 1, j)[|s| - 1] == p[|s| - 1]
    requires Shuffled(Swap(s, |s| - 1, j)[..|s| - 1], rest) == p[..|s| - 1]
    ensures ValidDraws(|s|, rest + [j]) && Shuffled(s, rest + [j]) == p
  {
    AppendDraw(|s|, rest, j);
    ShuffledUnfold(s, rest + [j]);
    JoinLast(p);
  }

  lemma AppendDraw(n: nat, rest: seq<nat>, j: nat)
    requires n >= 2 && j < n && ValidDraws(n - 1, rest)
    ensures var draws := rest + [j];
            ValidDraws(n, draws) && draws[n - 2] == j && draws[..n - 2] == rest
  {
    var draws := rest + [j];
    forall k | 0 <= k < |draws| ensures draws[k] <= k + 1 {
      if k < |rest| {
        assert draws[k] == rest[k];
      }
    }
    assert draws[..n - 2] == rest;
  }

  /** The state of the copy once the Fisher–Yates loop has walked indices u-1 down to 1 over
      c, one swap per turn, exactly as the loop performs them. */
  function Settled<T>(c: seq<T>, draws: seq<nat>, u: nat): (r: seq<T>)
    requires u <= |c| && ValidDraws(|c|, draws)
    ensures |r| == |c|
    decreases u
  {
    if u <= 1 then c else Settled(Swap(c, u - 1, draws[u - 2]), draws, u - 1)
  }

  /** `shuffle(array)`: swaps run on a fresh copy only; the argument is not in any frame the
      method may modify. */
  method Shuffle<T>(items: array<T>, draws: seq<nat>) returns (copy: array<T>)
    requires ValidDraws(items.Length, draws)
    ensures fresh(copy)
    ensures copy[..] == Shuffled(items[..], draws)
  {
    var n := items.Length;
    copy := new T[n](i requires 0 <= i < n reads items => items[i]);
    ghost var original := items[..];
    assert copy[..] == original;
    // copy[..unsettled] is still to be shuffled; copy[unsettled..] holds its final values
    var unsettled := n;
    while unsettled > 1
      invariant unsettled <= n
      invariant Settled(copy[..], draws, unsettled) == Settled(original, draws, n)
    {
      var index := unsettled - 1;
      var randomIndex := draws[index - 1];
      ghost var before := copy[..];
      var temp := copy[index];
      copy[index] := copy[randomIndex];
      copy[randomIndex] := temp;
      assert copy[..] == Swap(before, index, randomIndex);
      unsettled := index;
    }
    SettledIsShuffled(original, draws);
  }

  /** Running the loop to the end computes `Shuffled`. */
  lemma SettledIsShuffled<T>(s: seq<T>, draws: seq<nat>)
    requires ValidDraws(|s|, draws)
    ensures Settled(s, draws, |s|) == Shuffled(s, draws)
  {
    if |s| >= 1 {
      SettledPrefix(s, draws, |s|);
      assert s[..|s|] == s && s[|s|..] == [] && draws[..|s| - 1] == draws;
    }
  }

  /** After the turns for indices u-1 down to 1, the prefix c[..u] is shuffled and the
      suffix c[u..] is untouched. */
  lemma {:induction false} SettledPrefix<T>(c: seq<T>, draws: seq<nat>, u: nat)
    requires 1 <= u <= |c| && ValidDraws(|c|, draws)
    ensures ValidDraws(u, draws[..u - 1])
    ensures Settled(c, draws, u) == Shuffled(c[..u], draws[..u - 1]) + c[u..]
    decreases u
  {
    ValidDrawsPrefix(|c|, draws, u);
    if u == 1 {
      assert c[..1] + c[1..] == c;
    } else {
      var swapped := Swap(c, u - 1, draws[u - 2]);
      SettledPrefix(swapped, draws, u - 1);
      ShuffleStep(c, draws, u);
    }
  }

  lemma ValidDrawsPrefix(n: nat, draws: seq<nat>, u: nat)
    requires ValidDraws(n, draws) && 1 <= u <= n
    ensures ValidDraws(u, draws[..u - 1])
  {
  }

  lemma ShuffledUnfold<T>(s: seq<T>, draws: seq<nat>)
    requires |s| >= 2 && ValidDraws(|s|, draws)
    ensures draws[|s| - 2] < |s|
    ensures var t := Swap(s, |s| - 1, draws[|s| - 2]);
            Shuffled(s, draws) == Shuffled(t[..|s| - 1], draws[..|s| - 2]) + [t[|s| - 1]]
  {
  }

  /** One turn of the Fisher–Yates loop on the whole copy agrees with one unfolding of
      `Shuffled` on its unsettled prefix. */
  lemma ShuffleStep<T>(c: seq<T>, draws: seq<nat>, u: nat)
    requires 2 <= u <= |c| && ValidDraws(|c|, draws)
    ensures draws[u - 2] < u
    ensures ValidDraws(u - 1, draws[..u - 2])
    ensures Shuffled(c[..u], draws[..u - 1]) + c[u..]
            == Shuffled(Swap(c, u - 1, draws[u - 2])[..u - 1], draws[..u - 2])
               + Swap(c, u - 1, draws[u - 2])[u - 1..]
  {
    ValidDrawsPrefix(|c|, draws, u);
    ValidDrawsPrefix(|c|, draws, u - 1);
    var d := draws[..u - 1];
    var j := draws[u - 2];
    assert d[u - 2] == j && d[..u - 2] == draws[..u - 2];
    var swapped := Swap(c, u - 1, j);
    var local := Swap(c[..u], u - 1, j);
    SwapPrefix(c, u, j);
    ShuffledUnfold(c[..u], d);
    var head := Shuffled(swapped[..u - 1], draws[..u - 2]);
    assert Shuffled(c[..u], d) == head + [local[u - 1]];
    AppendAssoc(head, [local[u - 1]], c[u..]);
  }

  /** Swapping inside the prefix c[..u] is swapping inside c, restricted to the prefix. */
  lemma SwapPrefix<T>(c: seq<T>, u: nat, j: nat)
    requires 1 <= u <= |c| && j < u
    ensures Swap(c[..u], u - 1, j)[..u - 1] == Swap(c, u - 1, j)[..u - 1]
    ensures Swap(c, u - 1, j)[u - 1..] == [Swap(c[..u], u - 1, j)[u - 1]] + c[u..]
  {
    var local := Swap(c[..u], u - 1, j);
    var swapped := Swap(c, u - 1, j);
    assert local == swapped[..u];
    assert local[..u - 1] == swapped[..u - 1];
  }

  // A fact Dafny knows; stated on its own so the proofs that call it stay small.
  lemma AppendAssoc<T>(a: seq<T>, b: seq<T>, c: seq<T>)
    ensures (a + b) + c == a + (b + c)
  {
  }

  /** `shuffle(catalog).slice(0, count)`. */
  function Picked<T>(catalog: seq<T>, count: nat, draws: seq<nat>): (r: seq<T>)
    requires ValidDraws(|catalog|, draws)
    ensures |r| == if count < |catalog| then count else |catalog|
    ensures multiset(r) <= multiset(catalog)
  {
    var shuffled := Shuffled(catalog, draws);
    ShuffledPermutes(catalog, draws);
    var end := if count < |shuffled| then count else |shuffled|;
    assert shuffled == shuffled[..end] + shuffled[end..];
    shuffled[..end]
  }

  /** `pickRandomMoves(movesCatalog, count)`. */
  method PickRandomMoves<T>(movesCatalog: array<T>, count: nat, draws: seq<nat>) returns (picked: seq<T>)
    requires ValidDraws(movesCatalog.Length, draws)
    ensures picked == Picked(movesCatalog[..], count, draws)
  {
    var shuffled := Shuffle(movesCatalog, draws);
    picked := shuffled[..if count < shuffled.Length then count else shuffled.Length];
  }

  lemma {:induction false} NoDuplicatesCount<T>(s: seq<T>, x: T)
    requires NoDuplicates(s)
    ensures multiset(s)[x] <= 1
  {
    if s != [] {
      assert s == [s[0]] + s[1..];
      assert NoDuplicates(s[1..]);
      NoDuplicatesCount(s[1..], x);
      if s[0] == x {
        assert x !in s[1..];
      }
    }
  }

  /** Whatever the draws, a pick never repeats an entry more often than the catalog holds it:
      with a duplicate-free catalog, the picked moves are pairwise distinct. */
  lemma PickedDistinct<T>(catalog: seq<T>, count: nat, draws: seq<nat>)
    requires ValidDraws(|catalog|, draws) && NoDuplicates(catalog)
    ensures NoDuplicates(Picked(catalog, count, draws))
  {
    var r := Picked(catalog, count, draws);
    forall i, j | 0 <= i < j < |r| ensures r[i] != r[j] {
      if r[i] == r[j] {
        var x := r[i];
        assert r == r[..j] + r[j..];
        assert x in r[..j] && x == r[j..][0];
        assert multiset(r)[x] >= 2;
        NoDuplicatesCount(catalog, x);
        assert false;
      }
    }
  }

  /** The distinct values of a draw stream in first-draw order: what `Array.from(ids)` yields
      for a `Set` grown by `add` over those draws. */
  function FirstDraws(draws: seq<int>): (ids: seq<int>)
    ensures NoDuplicates(ids)
    ensures forall x :: x in ids <==> x in draws
  {
    if draws == [] then []
    else
      var earlier := FirstDraws(draws[..|draws| - 1]);
      var d := draws[|draws| - 1];
      assert forall x :: x in draws <==> x in draws[..|draws| - 1] || x == d by {
        assert draws == draws[..|draws| - 1] + [d];
      }
      if d in earlier then earlier else earlier + [d]
  }

  /** Drawing more never reorders or drops the ids already collected. */
  lemma {:induction false} FirstDrawsPrefix(draws: seq<int>, m: nat)
    requires m <= |draws|
    ensures |FirstDraws(draws[..m])| <= |FirstDraws(draws)|
    ensures FirstDraws(draws[..m]) == FirstDraws(draws)[..|FirstDraws(draws[..m])|]
    decreases |draws| - m
  {
    if m == |draws| {
      assert draws[..m] == draws;
    } else {
      FirstDrawsPrefix(draws, m + 1);
      assert draws[..m + 1][..m] == draws[..m];
    }
  }

  /** `getRandomPokemonIds(count, maxPokemonId)`, drawing from the stream until the set has
      `count` members. The stream must hold `count` distinct ids, which in-range draws can
      only do when count <= maxPokemonId (see `StreamCannotExceedRange`). */
  method RandomPokemonIds(count: nat, maxPokemonId: int, draws: seq<int>) returns (ids: seq<int>, used: nat)
    requires forall k :: 0 <= k < |draws| ==> 1 <= draws[k] <= maxPokemonId
    requires count <= |FirstDraws(draws)|
    ensures used <= |draws| && ids == FirstDraws(draws[..used])
    ensures ids == FirstDraws(draws)[..count]
    ensures |ids| == count && NoDuplicates(ids)
    ensures forall i :: 0 <= i < |ids| ==> 1 <= ids[i] <= maxPokemonId
    ensures used > 0 ==> |FirstDraws(draws[..used - 1])| < count
  {
    ids, used := [], 0;
    while |ids| < count
      invariant used <= |draws| && ids == FirstDraws(draws[..used])
      invariant |ids| <= count
      invariant used > 0 ==> |FirstDraws(draws[..used - 1])| < count
      decreases |draws| - used
    {
      assert draws[..|draws|] == draws;
      var randomId := draws[used];
      if randomId !in ids {
        ids := ids + [randomId];
      }
      used := used + 1;
      assert draws[..used][..used - 1] == draws[..used - 1];
    }
    FirstDrawsPrefix(draws, used);
    forall i | 0 <= i < |ids| ensures 1 <= ids[i] <= maxPokemonId {
      assert ids[i] in draws[..used];
    }
  }

  function Range(lo: int, hi: int): (r: seq<int>)
    requires lo <= hi
    ensures |r| == hi - lo && forall i :: 0 <= i < |r| ==> r[i] == lo + i
    decreases hi - lo
  {
    if lo == hi then [] else [lo] + Range(lo + 1, hi)
  }

  /** Pigeonhole: distinct ids drawn from [1, max] number at most max. */
  lemma {:induction false} DistinctInRangeBound(r: seq<int>, max: nat)
    requires NoDuplicates(r) && forall i :: 0 <= i < |r| ==> 1 <= r[i] <= max
    ensures |r| <= max
    decreases max
  {
    assert r != [] ==> 1 <= r[0] <= max;
    if max == 0 {
    } else if max !in r {
      forall k | 0 <= k < |r| ensures 1 <= r[k] <= max - 1 {
        assert r[k] in r;
      }
      DistinctInRangeBound(r, max - 1);
    } else {
      var i :| 0 <= i < |r| && r[i] == max;
      var rest := DropMax(r, max, i);
      DistinctInRangeBound(rest, max - 1);
    }
  }

  /** Removing the entry equal to max leaves distinct ids in [1, max - 1]. */
  lemma DropMax(r: seq<int>, max: nat, i: nat) returns (rest: seq<int>)
    requires NoDuplicates(r) && forall k :: 0 <= k < |r| ==> 1 <= r[k] <= max
    requires i < |r| && r[i] == max
    ensures |rest| == |r| - 1 && NoDuplicates(rest)
    ensures forall k :: 0 <= k < |rest| ==> 1 <= rest[k] <= max - 1
  {
    rest := r[..i] + r[i + 1..];
    assert forall k :: 0 <= k < |rest| ==> rest[k] == if k < i then r[k] else r[k + 1];
    forall p, q | 0 <= p < q < |rest| ensures rest[p] != rest[q] {
      var p' := if p < i then p else p + 1;
      var q' := if q < i then q else q + 1;
      assert p' < q' && rest[p] == r[p'] && rest[q] == r[q'];
    }
    forall k | 0 <= k < |rest| ensures 1 <= rest[k] <= max - 1 {
      var k' := if k < i then k else k + 1;
      assert k' != i && rest[k] == r[k'];
    }
  }

  /** The liveness hazard of `getRandomPokemonIds`: with count > maxPokemonId no stream of
      in-range draws ever collects `count` ids, so the source loop would never end. With
      count <= maxPokemonId some stream does. */
  lemma StreamCannotExceedRange(count: nat, maxPokemonId: nat)
    ensures (exists draws :: InRange(draws, maxPokemonId) && count <= |FirstDraws(draws)|)
            <==> count <= maxPokemonId
  {
    if count <= maxPokemonId {
      var draws := Range(1, maxPokemonId + 1);
      assert InRange(draws, maxPokemonId);
      assert NoDuplicates(draws);
      FirstDrawsOfDistinct(draws);
    }
    forall draws | InRange(draws, maxPokemonId) ensures |FirstDraws(draws)| <= maxPokemonId {
      var ids := FirstDraws(draws);
      forall i | 0 <= i < |ids| ensures 1 <= ids[i] <= maxPokemonId {
        assert ids[i] in draws;
      }
      DistinctInRangeBound(ids, maxPokemonId);
    }
  }

  predicate InRange(draws: seq<int>, maxPokemonId: int)
  {
    forall k :: 0 <= k < |draws| ==> 1 <= draws[k] <= maxPokemonId
  }

  /** A stream without repeats is collected as it is. */
  lemma {:induction false} FirstDrawsOfDistinct(draws: seq<int>)
    requires NoDuplicates(draws)
    ensures FirstDraws(draws) == draws
  {
    if draws != [] {
      var init := draws[..|draws| - 1];
      assert NoDuplicates(init);
      FirstDrawsOfDistinct(init);
      assert draws[|draws| - 1] !in init;
      assert init + [draws[|draws| - 1]] == draws;
    }
  }
}
