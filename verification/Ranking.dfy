/**
  Ranking: shuffle a copy of the bids, then sort it stably by descending
  revenue. The sort is specified by the order it puts indices in, which is
  determined by the revenues alone.
 */
module Ranking {
  import opened Prelude
  import opened Bids
  import opened Permutations

  // ---- The order of a list of keys ----

  /** Index `i` must precede index `j`: a larger key, or the same key and an earlier place. */
  predicate Beats(keys: seq<int>, i: nat, j: nat)
    requires i < |keys| && j < |keys|
  {
    keys[i] > keys[j] || (keys[i] == keys[j] && i < j)
  }

  /** `o` lists all indices of `keys`, each before those it beats. */
  ghost predicate Arranged(keys: seq<int>, o: seq<nat>) {
    && IsPerm(o, |keys|)
    && forall a, b :: 0 <= a < b < |o| ==> Beats(keys, o[a], o[b])
  }

  /** Where a new last key goes among descending `keys`: after everything not smaller, scanning from the end. */
  function Slot(keys: seq<int>, key: int): (k: nat)
    ensures k <= |keys|
    ensures k > 0 ==> keys[k - 1] >= key
    ensures forall i :: k <= i < |keys| ==> keys[i] < key
  {
    if keys == [] then 0
    else if keys[|keys| - 1] < key then Slot(keys[..|keys| - 1], key)
    else |keys|
  }

  function InsertAt<T>(s: seq<T>, k: nat, x: T): (r: seq<T>)
    requires k <= |s|
    ensures |r| == |s| + 1
  {
    s[..k] + [x] + s[k..]
  }

  lemma InsertedEntry<T>(s: seq<T>, k: nat, x: T, a: nat)
    requires k <= |s| && a <= |s|
    ensures InsertAt(s, k, x)[a] == if a < k then s[a] else if a == k then x else s[a - 1]
  {
  }

  /** Slots are where the new key, and only the new key, changes who precedes whom. */
  lemma SlotSplits(front: seq<int>, o: seq<nat>, key: int, k: nat, a: nat)
    requires Arranged(front, o) && k == Slot(Pick(front, o), key) && a < |o|
    ensures front[o[a]] >= key <==> a < k
  {
    hide Slot;
    var sorted := Pick(front, o);
    if k <= a {
      assert sorted[a] < key;
    } else {
      assert sorted[k - 1] >= key;
      assert a < k - 1 ==> Beats(front, o[a], o[k - 1]);
    }
  }

  lemma InsertedBeats(front: seq<int>, o: seq<nat>, key: int, k: nat, a: nat, b: nat)
    requires Arranged(front, o) && k == Slot(Pick(front, o), key) && a < b <= |o|
    ensures var r := InsertAt<nat>(o, k, |front|);
            && r[a] <= |front| && r[b] <= |front| && r[a] != r[b]
            && Beats(front + [key], r[a], r[b])
  {
    InsertedEntry<nat>(o, k, |front|, a);
    InsertedEntry<nat>(o, k, |front|, b);
    if b == k {
      SlotSplits(front, o, key, k, a);
    } else if a == k {
      SlotSplits(front, o, key, k, b - 1);
    } else {
      var a' := if a < k then a else a - 1;
      var b' := if b < k then b else b - 1;
      assert Beats(front, o[a'], o[b']);
    }
  }

  lemma ArrangedInsert(front: seq<int>, o: seq<nat>, key: int, k: nat)
    requires Arranged(front, o) && k == Slot(Pick(front, o), key)
    ensures Arranged(front + [key], InsertAt<nat>(o, k, |front|))
  {
    var r := InsertAt<nat>(o, k, |front|);
    forall a | 0 <= a < |r|
      ensures r[a] < |front| + 1
    {
      InsertedEntry<nat>(o, k, |front|, a);
    }
    forall a, b | 0 <= a < b < |r|
      ensures r[a] != r[b] && Beats(front + [key], r[a], r[b])
    {
      InsertedBeats(front, o, key, k, a, b);
    }
  }

  lemma {:induction false} ArrangedExists(keys: seq<int>) returns (o: seq<nat>)
    ensures Arranged(keys, o)
  {
    hide Slot, InsertAt;
    if keys == [] {
      o := [];
    } else {
      var n := |keys| - 1;
      var front := keys[..n];
      var o' := ArrangedExists(front);
      var k := Slot(Pick(front, o'), keys[n]);
      ArrangedInsert(front, o', keys[n], k);
      assert keys == front + [keys[n]];
      o := InsertAt<nat>(o', k, n);
    }
  }

  lemma SomeOrderIsArranged(keys: seq<int>)
    ensures exists o :: Arranged(keys, o)
  {
    var o := ArrangedExists(keys);
  }

  /** The indices of `keys` in ranked order. */
  ghost function Order(keys: seq<int>): (o: seq<nat>)
    ensures |o| == |keys| && IndicesBelow(o, |keys|)
  {
    SomeOrderIsArranged(keys);
    var o :| Arranged(keys, o);
    o
  }

  lemma OrderIsArranged(keys: seq<int>)
    ensures Arranged(keys, Order(keys))
  {
  }

  // ---- Ranks ----

  ghost function Above(keys: seq<int>, k: nat): set<nat>
    requires k < |keys|
  {
    set j | 0 <= j < |keys| && keys[j] > keys[k]
  }

  ghost function EqualBefore(keys: seq<int>, k: nat): set<nat>
    requires k < |keys|
  {
    set j | 0 <= j < k && keys[j] == keys[k]
  }

  /** How many keys are larger than key `k`, plus how many equal keys come before it. */
  ghost function Rank(keys: seq<int>, k: nat): nat
    requires k < |keys|
  {
    |Above(keys, k)| + |EqualBefore(keys, k)|
  }

  ghost function Beaters(keys: seq<int>, k: nat): set<nat>
    requires k < |keys|
  {
    set j | 0 <= j < |keys| && Beats(keys, j, k)
  }

  lemma RankCountsBeaters(keys: seq<int>, k: nat)
    requires k < |keys|
    ensures Rank(keys, k) == |Beaters(keys, k)|
  {
    assert Beaters(keys, k) == Above(keys, k) + EqualBefore(keys, k);
    assert Above(keys, k) !! EqualBefore(keys, k);
  }

  lemma PositionsOrderAsBeats(keys: seq<int>, o: seq<nat>, q: nat, r: nat)
    requires Arranged(keys, o) && q < |o| && r < |o|
    ensures Beats(keys, o[q], o[r]) <==> q < r
  {
    if q < r {
      assert Beats(keys, o[q], o[r]);
    } else if r < q {
      assert Beats(keys, o[r], o[q]);
    }
  }

  /** In any arranged order, the index at position `r` has rank `r`. */
  lemma RankIsPosition(keys: seq<int>, o: seq<nat>, r: nat)
    requires Arranged(keys, o) && r < |o|
    ensures Rank(keys, o[r]) == r
  {
    RankCountsBeaters(keys, o[r]);
    forall j | j in Beaters(keys, o[r])
      ensures j in o[..r]
    {
      var q := IndexIn(o, j);
      PositionsOrderAsBeats(keys, o, q, r);
      assert o[..r][q] == j;
    }
    CardinalityOfDistinct(o[..r], Beaters(keys, o[r]));
  }

  /** There is only one arranged order, so every correct stable sort produces it. */
  lemma ArrangedIsUnique(keys: seq<int>, o: seq<nat>)
    requires Arranged(keys, o)
    ensures o == Order(keys)
  {
    OrderIsArranged(keys);
    var o' := Order(keys);
    forall r | 0 <= r < |o|
      ensures o[r] == o'[r]
    {
      var q := IndexIn(o', o[r]);
      RankIsPosition(keys, o, r);
      RankIsPosition(keys, o', q);
    }
  }

  /** The exact rank formula: key `k` ends at position `Rank(keys, k)`. */
  lemma RankFormula(keys: seq<int>, k: nat)
    requires k < |keys|
    ensures Rank(keys, k) < |keys| && Order(keys)[Rank(keys, k)] == k
  {
    OrderIsArranged(keys);
    RankIsPosition(keys, Order(keys), IndexIn(Order(keys), k));
  }

  lemma RankOrdersAsBeats(keys: seq<int>, i: nat, j: nat)
    requires i < |keys| && j < |keys|
    ensures Rank(keys, i) < Rank(keys, j) <==> Beats(keys, i, j)
  {
    OrderIsArranged(keys);
    RankFormula(keys, i);
    RankFormula(keys, j);
    PositionsOrderAsBeats(keys, Order(keys), Rank(keys, i), Rank(keys, j));
  }

  /**
    Raising one key never moves it to a later position, and the relative order
    of all the others stays what it was.
   */
  lemma RaisingMovesUp(keys: seq<int>, k: nat, raised: int)
    requires k < |keys| && keys[k] <= raised
    ensures Rank(keys[k := raised], k) <= Rank(keys, k)
    ensures forall i, j :: 0 <= i < |keys| && 0 <= j < |keys| && i != k && j != k ==>
              (Rank(keys[k := raised], i) < Rank(keys[k := raised], j) <==> Rank(keys, i) < Rank(keys, j))
  {
    var keys' := keys[k := raised];
    RankCountsBeaters(keys, k);
    RankCountsBeaters(keys', k);
    assert Beaters(keys', k) <= Beaters(keys, k);
    SubsetCardinality(Beaters(keys', k), Beaters(keys, k));
    forall i, j | 0 <= i < |keys| && 0 <= j < |keys| && i != k && j != k
      ensures Rank(keys', i) < Rank(keys', j) <==> Rank(keys, i) < Rank(keys, j)
    {
      RankOrdersAsBeats(keys', i, j);
      RankOrdersAsBeats(keys, i, j);
    }
  }

  // ---- Ranking bids ----

  function Revenues(bids: seq<ArbiterBid>): (keys: seq<int>)
    ensures |keys| == |bids|
    ensures forall i :: 0 <= i < |bids| ==> keys[i] == bids[i].revenue
  {
    seq(|bids|, i requires 0 <= i < |bids| => bids[i].revenue)
  }

  /** The bids by descending revenue, bids of equal revenue keeping their order. */
  ghost function Ranked(bids: seq<ArbiterBid>): (r: seq<ArbiterBid>)
    ensures |r| == |bids|
  {
    Pick(bids, Order(Revenues(bids)))
  }

  /** The bid at index `k` ends exactly where the formula says. */
  lemma BidEndsAtItsRank(bids: seq<ArbiterBid>, k: nat)
    requires k < |bids|
    ensures Rank(Revenues(bids), k) < |bids| && Ranked(bids)[Rank(Revenues(bids), k)] == bids[k]
  {
    RankFormula(Revenues(bids), k);
  }

  /** Nothing is lost or invented, and revenues descend. */
  lemma RankingSorts(bids: seq<ArbiterBid>)
    ensures multiset(Ranked(bids)) == multiset(bids)
    ensures forall a, b :: 0 <= a < b < |bids| ==> Ranked(bids)[a].revenue >= Ranked(bids)[b].revenue
  {
    var keys := Revenues(bids);
    var o := Order(keys);
    OrderIsArranged(keys);
    PickKeepsElements(bids, o);
    forall a, b | 0 <= a < b < |bids|
      ensures Ranked(bids)[a].revenue >= Ranked(bids)[b].revenue
    {
      assert Beats(keys, o[a], o[b]);
    }
  }

  lemma RankedOfOne(b: seq<ArbiterBid>)
    requires |b| <= 1
    ensures Ranked(b) == b
  {
    if |b| == 1 {
      assert Order(Revenues(b)) == [0] by {
        OrderIsArranged(Revenues(b));
      }
    }
  }

  lemma PickInserted<T>(s: seq<T>, x: T, o: seq<nat>, k: nat)
    requires IndicesBelow(o, |s|) && k <= |o|
    ensures IndicesBelow(InsertAt<nat>(o, k, |s|), |s| + 1)
    ensures Pick(s + [x], InsertAt<nat>(o, k, |s|)) == InsertAt(Pick(s, o), k, x)
  {
  }

  /** Ranking one bid more is inserting it after everything not cheaper. */
  lemma RankedExtend(bids: seq<ArbiterBid>, x: ArbiterBid)
    ensures Ranked(bids + [x]) == InsertAt(Ranked(bids), Slot(Revenues(Ranked(bids)), x.revenue), x)
  {
    hide Slot, InsertAt;
    var keys := Revenues(bids);
    var o := Order(keys);
    var k := Slot(Revenues(Ranked(bids)), x.revenue);
    assert Pick(keys, o) == Revenues(Ranked(bids));
    OrderIsArranged(keys);
    ArrangedInsert(keys, o, x.revenue, k);
    assert Revenues(bids + [x]) == keys + [x.revenue];
    ArrangedIsUnique(keys + [x.revenue], InsertAt<nat>(o, k, |bids|));
    PickInserted(bids, x, o, k);
  }

  lemma ApplySwapsOfEmpty(s: seq<ArbiterBid>, swaps: seq<SwapStep>)
    requires s == [] && SwapsInRange(swaps, 0)
    ensures ApplySwaps(s, swaps) == []
  {
  }

  lemma SlotStep(keys: seq<int>, key: int, j: nat)
    requires j <= |keys|
    requires forall i :: j <= i < |keys| ==> keys[i] < key
    requires j > 0 ==> keys[j - 1] >= key
    ensures Slot(keys, key) == j
  {
  }

  lemma InsertAtEarlier<T>(s: seq<T>, k: nat, x: T, rest: seq<T>)
    requires 0 < k <= |s|
    ensures (InsertAt(s, k, x) + rest)[k - 1] == s[k - 1]
    ensures InsertAt(s, k - 1, x) + rest == Swap(InsertAt(s, k, x) + rest, k - 1, k)
  {
  }

  lemma InsertAtOwnPlace<T>(s: seq<T>, i: nat)
    requires i < |s|
    ensures InsertAt(s[..i], i, s[i]) + s[i + 1..] == s
  {
  }

  /** The swap that both the shuffle and the sort perform on the copied bids. */
  method SwapEntries(a: array<ArbiterBid>, i: nat, j: nat)
    requires i < a.Length && j < a.Length
    modifies a
    ensures a[..] == Swap(old(a[..]), i, j)
  {
    a[i], a[j] := a[j], a[i];
  }

  /** A random source's shuffle: it calls back with pairs of indices to swap, one after the other. */
  method Shuffle(a: array<ArbiterBid>, swaps: seq<SwapStep>)
    requires SwapsInRange(swaps, a.Length)
    modifies a
    ensures a[..] == ApplySwaps(old(a[..]), swaps)
  {
    ghost var was := a[..];
    var k := 0;
    while k < |swaps|
      invariant k <= |swaps|
      invariant a[..] == ApplySwaps(was, swaps[..k])
    {
      assert swaps[..k + 1][..k] == swaps[..k];
      SwapEntries(a, swaps[k].0, swaps[k].1);
      k := k + 1;
    }
    assert swaps[..k] == swaps;
  }

  /** One pass of the sort: the bid at `i` sinks past the cheaper ones directly before it. */
  method Sink(a: array<ArbiterBid>, i: nat)
    requires i < a.Length
    modifies a
    ensures var before := old(a[..]);
            var k := Slot(Revenues(before[..i]), before[i].revenue);
            a[..] == InsertAt(before[..i], k, before[i]) + before[i + 1..]
  {
    hide InsertAt, Slot;
    ghost var before := a[..];
    ghost var front, rest := before[..i], before[i + 1..];
    var x := a[i];
    var j := i;
    InsertAtOwnPlace(before, i);
    while j > 0 && a[j - 1].revenue < x.revenue
      invariant 0 <= j <= i
      invariant a[..] == InsertAt(front, j, x) + rest
      invariant forall m :: j <= m < i ==> front[m].revenue < x.revenue
    {
      InsertAtEarlier(front, j, x, rest);
      SwapEntries(a, j - 1, j);
      j := j - 1;
    }
    if j > 0 {
      InsertAtEarlier(front, j, x, rest);
      assert a[..][j - 1] == front[j - 1];
    }
    SlotStep(Revenues(front), x.revenue, j);
  }

  lemma RankedPrefixStep(was: seq<ArbiterBid>, i: nat, now: seq<ArbiterBid>)
    requires i < |was| && now == Ranked(was[..i]) + was[i..]
    ensures InsertAt(now[..i], Slot(Revenues(now[..i]), now[i].revenue), now[i]) + now[i + 1..]
         == Ranked(was[..i + 1]) + was[i + 1..]
  {
    assert now[..i] == Ranked(was[..i]) && now[i] == was[i] && now[i + 1..] == was[i + 1..];
    RankedExtend(was[..i], was[i]);
    assert was[..i + 1] == was[..i] + [was[i]];
  }

  /** An in-place stable sort by descending revenue. */
  method SortStable(a: array<ArbiterBid>)
    modifies a
    ensures a[..] == Ranked(old(a[..]))
  {
    ghost var was := a[..];
    var i := 0;
    while i < a.Length
      invariant i <= a.Length
      invariant a[..] == Ranked(was[..i]) + was[i..]
    {
      RankedPrefixStep(was, i, a[..]);
      Sink(a, i);
      i := i + 1;
    }
    assert was[..i] == was;
  }

  /** The response of an arbitration: the ranked bids, and the index of the winner among them. */
  class ArbitrateResponse {
    var bids: array<ArbiterBid>
    var winner: Option<nat>

    constructor (n: nat)
      ensures fresh(bids) && bids.Length == n && winner == None
    {
      bids := new ArbiterBid[n](_ => ArbiterBid(None, 0, false));
      winner := None;
    }

    /** The bid the winner index points at. */
    function WinningBid(): Option<ArbiterBid>
      requires winner.Some? ==> winner.value < bids.Length
      reads this, bids
    {
      if winner.Some? then Some(bids[winner.value]) else None
    }
  }

  /** The first entry of a ranking, absent when there is none. */
  function First(ranked: seq<ArbiterBid>): Option<ArbiterBid> {
    if ranked == [] then None else Some(ranked[0])
  }

  /**
    `RankBids`: copy, shuffle the copy by the random source's swaps, sort it,
    point at the first entry. The input is not modified.
   */
  method RankBids(bids: array<ArbiterBid>, swaps: seq<SwapStep>) returns (resp: ArbitrateResponse)
    requires SwapsInRange(swaps, bids.Length)
    ensures fresh(resp) && fresh(resp.bids)
    ensures resp.bids[..] == Ranked(ApplySwaps(bids[..], swaps))
    ensures resp.winner == if bids.Length == 0 then None else Some(0)
  {
    resp := new ArbitrateResponse(bids.Length);
    var copy := resp.bids;
    forall i | 0 <= i < bids.Length {
      copy[i] := bids[i];
    }
    assert copy[..] == bids[..];
    if copy.Length == 0 {
      ApplySwapsOfEmpty(copy[..], swaps);
      RankedOfOne(copy[..]);
      return;
    }
    Shuffle(copy, swaps);
    SortStable(copy);
    resp.winner := Some(0);
  }
}
