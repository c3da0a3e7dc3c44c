/**
  Ties break uniformly: counted over all shuffles, every ordering that only
  rearranges bids of equal revenue is equally likely.

  A shuffle is a permutation `p` of the input's indices; the outcome is the
  order in which the input's indices come out of the ranking. Swapping bids of
  equal revenue in the input relabels shuffles one to one and relabels outcomes
  in the same way, so no such bid is favoured.
 */
module TieBreaking {
  import opened Bids
  import opened Permutations
  import opened Ranking

  /** The input's indices in ranked order after the shuffle `p`. */
  ghost function Outcome(keys: seq<int>, p: seq<nat>): (o: seq<nat>)
    requires IndicesBelow(p, |keys|)
    ensures |o| == |p| && IndicesBelow(o, |keys|)
  {
    Pick(p, Order(Pick(keys, p)))
  }

  /** What `RankBids` returns is the input picked along the outcome of its shuffle. */
  lemma RankingFollowsOutcome(bids: seq<ArbiterBid>, swaps: seq<SwapStep>)
    requires SwapsInRange(swaps, |bids|)
    ensures IsPerm(ShuffleOf(|bids|, swaps), |bids|)
    ensures Ranked(ApplySwaps(bids, swaps)) == Pick(bids, Outcome(Revenues(bids), ShuffleOf(|bids|, swaps)))
  {
    ShuffleIsPermutation(bids, swaps);
    var p := ShuffleOf(|bids|, swaps);
    assert Revenues(Pick(bids, p)) == Pick(Revenues(bids), p);
    PickAssociative(bids, p, Order(Pick(Revenues(bids), p)));
  }

  /** Where the bid at input index `i` ends under the shuffle `p`. */
  ghost function Position(keys: seq<int>, p: seq<nat>, i: nat): nat
    requires IsPerm(p, |keys|) && i < |keys|
  {
    Rank(Pick(keys, p), IndexIn(p, i))
  }

  lemma PositionIsPlaceInOutcome(keys: seq<int>, p: seq<nat>, i: nat)
    requires IsPerm(p, |keys|) && i < |keys|
    ensures Position(keys, p, i) < |keys| && Outcome(keys, p)[Position(keys, p, i)] == i
  {
    RankFormula(Pick(keys, p), IndexIn(p, i));
  }

  /**
    Under one shuffle, raising a bid's revenue never moves it to a later
    position and keeps the relative order of all other bids.
   */
  lemma RaisingABidNeverHurts(keys: seq<int>, p: seq<nat>, i: nat, raised: int)
    requires IsPerm(p, |keys|) && i < |keys| && keys[i] <= raised
    ensures Position(keys[i := raised], p, i) <= Position(keys, p, i)
    ensures forall a, b :: 0 <= a < |keys| && 0 <= b < |keys| && a != i && b != i ==>
              (Position(keys[i := raised], p, a) < Position(keys[i := raised], p, b)
               <==> Position(keys, p, a) < Position(keys, p, b))
  {
    var k := IndexIn(p, i);
    assert Pick(keys[i := raised], p) == Pick(keys, p)[k := raised];
    RaisingMovesUp(Pick(keys, p), k, raised);
  }

  // ---- Orderings ----

  /** `o` is an order of all indices in which keys never increase. */
  ghost predicate Descending(keys: seq<int>, o: seq<nat>) {
    && IsPerm(o, |keys|)
    && forall a, b :: 0 <= a < b < |o| ==> keys[o[a]] >= keys[o[b]]
  }

  lemma OutcomeDescends(keys: seq<int>, p: seq<nat>)
    requires IsPerm(p, |keys|)
    ensures Descending(keys, Outcome(keys, p))
  {
    var shuffled := Pick(keys, p);
    var o := Order(shuffled);
    OrderIsArranged(shuffled);
    PickIsPerm(p, o, |keys|);
    forall a, b | 0 <= a < b < |o|
      ensures keys[p[o[a]]] >= keys[p[o[b]]]
    {
      assert Beats(shuffled, o[a], o[b]);
    }
  }

  /** Every descending order is the outcome of some shuffle, namely of itself. */
  lemma DescendingIsItsOwnOutcome(keys: seq<int>, o: seq<nat>)
    requires Descending(keys, o)
    ensures Outcome(keys, o) == o
  {
    ArrangedIsUnique(Pick(keys, o), Identity(|keys|));
  }

  ghost function Larger(keys: seq<int>, v: int): set<nat> {
    set i | 0 <= i < |keys| && keys[i] > v
  }

  lemma FewLargerThanPlace(keys: seq<int>, o: seq<nat>, r: nat)
    requires Descending(keys, o) && r < |o|
    ensures |Larger(keys, keys[o[r]])| <= r
  {
    var front := set q | 0 <= q < r :: o[q];
    CardinalityOfDistinct(o[..r], front);
    assert forall q :: r <= q < |o| ==> keys[o[r]] >= keys[o[q]];
    forall i | i in Larger(keys, keys[o[r]])
      ensures i in front
    {
      var q := IndexIn(o, i);
      assert q < r;
    }
    SubsetCardinality(Larger(keys, keys[o[r]]), front);
  }

  lemma ManyLargerBeforePlace(keys: seq<int>, o: seq<nat>, r: nat, v: int)
    requires Descending(keys, o) && r < |o| && keys[o[r]] > v
    ensures |Larger(keys, v)| >= r + 1
  {
    var front := set q | 0 <= q <= r :: o[q];
    CardinalityOfDistinct(o[..r + 1], front);
    forall i | i in front
      ensures i in Larger(keys, v)
    {
      var q :| 0 <= q <= r && o[q] == i;
      assert q < r ==> keys[o[q]] >= keys[o[r]];
    }
    SubsetCardinality(front, Larger(keys, v));
  }

  /** Two descending orders differ only by exchanging indices of equal keys. */
  lemma DescendingOrdersAgree(keys: seq<int>, o: seq<nat>, o': seq<nat>)
    requires Descending(keys, o) && Descending(keys, o')
    ensures Pick(keys, o) == Pick(keys, o')
  {
    forall r | 0 <= r < |keys|
      ensures keys[o[r]] == keys[o'[r]]
    {
      FewLargerThanPlace(keys, o, r);
      FewLargerThanPlace(keys, o', r);
      if keys[o[r]] > keys[o'[r]] {
        ManyLargerBeforePlace(keys, o, r, keys[o'[r]]);
      } else if keys[o'[r]] > keys[o[r]] {
        ManyLargerBeforePlace(keys, o', r, keys[o[r]]);
      }
    }
  }

  // ---- Relabelling ----

  /** `t` permutes the indices without changing any key. */
  ghost predicate KeepsKeys(keys: seq<int>, t: seq<nat>) {
    IsPerm(t, |keys|) && forall i :: 0 <= i < |keys| ==> keys[t[i]] == keys[i]
  }

  /** Relabelling a shuffle by equal keys relabels its outcome. */
  lemma OutcomeRelabels(keys: seq<int>, t: seq<nat>, p: seq<nat>)
    requires KeepsKeys(keys, t) && IsPerm(p, |keys|)
    ensures IsPerm(Pick(t, p), |keys|)
    ensures Outcome(keys, Pick(t, p)) == Pick(t, Outcome(keys, p))
  {
    PickIsPerm(t, p, |keys|);
    assert Pick(keys, Pick(t, p)) == Pick(keys, p);
    PickAssociative(t, p, Order(Pick(keys, p)));
  }

  /** The relabelling that turns one descending order into another. */
  lemma RelabellingBetween(keys: seq<int>, o: seq<nat>, o': seq<nat>) returns (t: seq<nat>)
    requires Descending(keys, o) && Descending(keys, o')
    ensures KeepsKeys(keys, t) && Pick(t, o) == o'
  {
    var back := Inverse(o);
    t := Pick(o', back);
    PickIsPerm(o', back, |keys|);
    DescendingOrdersAgree(keys, o, o');
    forall i | 0 <= i < |keys|
      ensures keys[t[i]] == keys[i]
    {
      assert Pick(keys, o)[back[i]] == Pick(keys, o')[back[i]];
    }
  }

  // ---- Counting shuffles ----

  ghost function Sequences(length: nat, n: nat): set<seq<nat>> {
    if length == 0 then {[]}
    else set s, x | s in Sequences(length - 1, n) && x in Below(n) :: s + [x]
  }

  lemma {:induction false} SequencesAreAll(length: nat, n: nat, s: seq<nat>)
    requires |s| == length && IndicesBelow(s, n)
    ensures s in Sequences(length, n)
  {
    if length > 0 {
      SequencesAreAll(length - 1, n, s[..length - 1]);
      assert s == s[..length - 1] + [s[length - 1]];
      assert s[length - 1] in Below(n);
    } else {
      assert s == [];
    }
  }

  ghost predicate HoldsAllShuffles(all: set<seq<nat>>, n: nat) {
    forall p {:trigger p in all} :: p in all <==> IsPerm(p, n)
  }

  lemma ShufflesAreFinite(n: nat)
    ensures exists all :: HoldsAllShuffles(all, n)
  {
    forall p: seq<nat> | IsPerm(p, n)
      ensures p in Sequences(n, n)
    {
      SequencesAreAll(n, n, p);
    }
    var all := set p | p in Sequences(n, n) && IsPerm(p, n);
    assert HoldsAllShuffles(all, n);
  }

  /** All shuffles of `n` bids. */
  ghost function AllShuffles(n: nat): (all: set<seq<nat>>)
    ensures HoldsAllShuffles(all, n)
  {
    ShufflesAreFinite(n);
    var all :| HoldsAllShuffles(all, n);
    all
  }

  ghost function OutcomesOf(keys: seq<int>): (m: map<seq<nat>, seq<nat>>)
    ensures m.Keys == AllShuffles(|keys|)
    ensures forall p {:trigger m[p]} :: p in m ==> IndicesBelow(p, |keys|) && m[p] == Outcome(keys, p)
  {
    map p | p in AllShuffles(|keys|) :: Outcome(keys, p)
  }

  ghost function WinnersOf(keys: seq<int>): (m: map<seq<nat>, nat>)
    requires keys != []
    ensures m.Keys == AllShuffles(|keys|)
    ensures forall p {:trigger m[p]} :: p in m ==>
              IndicesBelow(p, |keys|) && |p| == |keys| && m[p] == Outcome(keys, p)[0]
  {
    map p | p in AllShuffles(|keys|) :: Outcome(keys, p)[0]
  }

  /** What `m` maps to `v`. */
  ghost function Fibre<S, T>(m: map<S, T>, v: T): set<S> {
    set p | p in m && m[p] == v
  }

  lemma RelabellingIsInjective(t: seq<nat>, p: seq<nat>, p': seq<nat>, n: nat)
    requires IsPerm(t, n) && IsPerm(p, n) && IsPerm(p', n)
    ensures Pick(t, p) == Pick(t, p') ==> p == p'
  {
    var q, q' := Pick(t, p), Pick(t, p');
    if q == q' {
      forall i | 0 <= i < n
        ensures p[i] == p'[i]
      {
        assert q[i] == t[p[i]] && q'[i] == t[p'[i]];
      }
    }
  }

  /** An injection into a finite set: the image of a relabelled set is no smaller. */
  lemma {:induction false} RelabelledSetIsNoSmaller(a: set<seq<nat>>, b: set<seq<nat>>, t: seq<nat>, n: nat)
    requires IsPerm(t, n)
    requires forall p :: p in a ==> IsPerm(p, n) && Pick(t, p) in b
    ensures |a| <= |b|
    decreases a
  {
    if a == {} {
    } else {
      var p :| p in a;
      var q := Pick(t, p);
      forall p' | p' in a - {p}
        ensures Pick(t, p') in b - {q}
      {
        RelabellingIsInjective(t, p, p', n);
      }
      RelabelledSetIsNoSmaller(a - {p}, b - {q}, t, n);
    }
  }

  /** Relabelling carries the shuffles with one outcome into those with the relabelled outcome. */
  lemma OutcomeFibreCarries(keys: seq<int>, t: seq<nat>, o: seq<nat>)
    requires KeepsKeys(keys, t) && IsPerm(o, |keys|)
    ensures |Fibre(OutcomesOf(keys), o)| <= |Fibre(OutcomesOf(keys), Pick(t, o))|
  {
    var m := OutcomesOf(keys);
    forall p | p in Fibre(m, o)
      ensures Pick(t, p) in Fibre(m, Pick(t, o))
    {
      OutcomeRelabels(keys, t, p);
    }
    RelabelledSetIsNoSmaller(Fibre(m, o), Fibre(m, Pick(t, o)), t, |keys|);
  }

  /** Any two descending orders come out of equally many shuffles. */
  lemma OrderingsEquallyLikely(keys: seq<int>, o: seq<nat>, o': seq<nat>)
    requires Descending(keys, o) && Descending(keys, o')
    ensures |Fibre(OutcomesOf(keys), o)| == |Fibre(OutcomesOf(keys), o')|
  {
    var t := RelabellingBetween(keys, o, o');
    var u := RelabellingBetween(keys, o', o);
    OutcomeFibreCarries(keys, t, o);
    OutcomeFibreCarries(keys, u, o');
  }

  lemma WithoutFibre<S, T>(m: map<S, T>, v: T)
    ensures var rest := m - Fibre(m, v);
            && |m| == |rest| + |Fibre(m, v)|
            && rest.Values == m.Values - {v}
            && forall w :: w != v ==> Fibre(rest, w) == Fibre(m, w)
  {
    var rest := m - Fibre(m, v);
    assert m.Keys == rest.Keys + Fibre(m, v) && rest.Keys !! Fibre(m, v);
    assert |m| == |m.Keys| && |rest| == |rest.Keys|;
    forall w | w in m.Values && w != v
      ensures w in rest.Values
    {
      var p :| p in m && m[p] == w;
      assert p in rest && rest[p] == w;
    }
  }

  lemma EntryHasValue<S, T>(m: map<S, T>, p: S)
    requires p in m
    ensures m.Values != {}
  {
    assert m[p] in m.Values;
  }

  lemma NoValuesNoEntries<S, T>(m: map<S, T>)
    requires m.Values == {}
    ensures |m| == 0
  {
    assert |m| == |m.Keys|;
    if p :| p in m {
      EntryHasValue(m, p);
    }
  }

  lemma OneMore(k: nat, c: nat)
    ensures (k + 1) * c == k * c + c
  {
  }

  /** Maps whose fibres all have `c` elements have `c` times as many entries as values. */
  lemma {:induction false} EqualFibres<S, T>(m: map<S, T>, values: set<T>, c: nat)
    requires m.Values == values
    requires forall v :: v in values ==> |Fibre(m, v)| == c
    ensures |m| == |values| * c
    decreases values
  {
    if values == {} {
      NoValuesNoEntries(m);
    } else {
      var v :| v in values;
      var rest, others := m - Fibre(m, v), values - {v};
      WithoutFibre(m, v);
      forall w | w in others
        ensures |Fibre(rest, w)| == c
      {
      }
      EqualFibres(rest, others, c);
      assert |values| == |others| + 1;
      OneMore(|others|, c);
    }
  }

  ghost function DescendingOrders(keys: seq<int>): (all: set<seq<nat>>)
    ensures forall o :: o in all <==> Descending(keys, o)
  {
    set o | o in AllShuffles(|keys|) && Descending(keys, o)
  }

  lemma OutcomesAreDescendingOrders(keys: seq<int>)
    ensures OutcomesOf(keys).Values == DescendingOrders(keys)
  {
    hide Outcome;
    var m := OutcomesOf(keys);
    forall p | p in m
      ensures Descending(keys, m[p])
    {
      OutcomeDescends(keys, p);
    }
    forall o | Descending(keys, o)
      ensures o in m.Values
    {
      DescendingIsItsOwnOutcome(keys, o);
      assert o in m && m[o] == o;
    }
  }

  /**
    Uniform tie-breaking: of all shuffles, each descending order is produced by
    exactly one part in as many as there are descending orders, and no other
    order is ever produced.
   */
  lemma TiesBreakUniformly(keys: seq<int>, o: seq<nat>)
    requires IsPerm(o, |keys|)
    ensures Descending(keys, o) ==>
              |AllShuffles(|keys|)| == |DescendingOrders(keys)| * |Fibre(OutcomesOf(keys), o)|
    ensures !Descending(keys, o) ==> Fibre(OutcomesOf(keys), o) == {}
  {
    hide Outcome;
    var m := OutcomesOf(keys);
    OutcomesAreDescendingOrders(keys);
    if Descending(keys, o) {
      forall v | v in DescendingOrders(keys)
        ensures |Fibre(m, v)| == |Fibre(m, o)|
      {
        OrderingsEquallyLikely(keys, v, o);
      }
      EqualFibres(m, DescendingOrders(keys), |Fibre(m, o)|);
      assert |m| == |m.Keys|;
    }
  }

  // ---- Who wins ----

  ghost function TopTied(keys: seq<int>): (top: set<nat>) {
    set i | 0 <= i < |keys| && forall j :: 0 <= j < |keys| ==> keys[i] >= keys[j]
  }

  function Exchange(n: nat, i: nat, j: nat): (t: seq<nat>)
    requires i < n && j < n
    ensures |t| == n
  {
    Swap(Identity(n), i, j)
  }

  lemma ExchangeKeepsKeys(keys: seq<int>, i: nat, j: nat)
    requires i < |keys| && j < |keys| && keys[i] == keys[j]
    ensures KeepsKeys(keys, Exchange(|keys|, i, j))
    ensures Exchange(|keys|, i, j)[i] == j
  {
  }

  lemma WinnerFibreCarries(keys: seq<int>, i: nat, j: nat)
    requires i < |keys| && j < |keys| && keys[i] == keys[j]
    ensures |Fibre(WinnersOf(keys), i)| <= |Fibre(WinnersOf(keys), j)|
  {
    hide Outcome, Exchange;
    var m := WinnersOf(keys);
    var t := Exchange(|keys|, i, j);
    ExchangeKeepsKeys(keys, i, j);
    forall p | p in Fibre(m, i)
      ensures Pick(t, p) in Fibre(m, j)
    {
      OutcomeRelabels(keys, t, p);
    }
    RelabelledSetIsNoSmaller(Fibre(m, i), Fibre(m, j), t, |keys|);
  }

  lemma SomeShuffleElects(keys: seq<int>, i: nat) returns (p: seq<nat>)
    requires i in TopTied(keys)
    ensures IsPerm(p, |keys|) && Outcome(keys, p)[0] == i
  {
    hide Outcome;
    var n := |keys|;
    var o := Outcome(keys, Identity(n));
    OutcomeDescends(keys, Identity(n));
    var first := o[0];
    var t := Exchange(n, first, i);
    var at := IndexIn(o, i);
    assert at == 0 || keys[o[0]] >= keys[o[at]];
    ExchangeKeepsKeys(keys, first, i);
    OutcomeRelabels(keys, t, Identity(n));
    p := Pick(t, Identity(n));
  }

  /**
    Only bids of the highest revenue win, and each of them wins under exactly
    one part in as many shuffles as there are such bids.
   */
  lemma WinnersEquallyLikely(keys: seq<int>, i: nat)
    requires i < |keys|
    ensures i in TopTied(keys) ==> |AllShuffles(|keys|)| == |TopTied(keys)| * |Fibre(WinnersOf(keys), i)|
    ensures i !in TopTied(keys) ==> Fibre(WinnersOf(keys), i) == {}
  {
    hide Outcome;
    var m := WinnersOf(keys);
    forall p | p in m
      ensures m[p] in TopTied(keys)
    {
      OutcomeDescends(keys, p);
      var o := Outcome(keys, p);
      forall j | 0 <= j < |keys|
        ensures keys[o[0]] >= keys[j]
      {
        var at := IndexIn(o, j);
        assert at == 0 || keys[o[0]] >= keys[o[at]];
      }
    }
    if i in TopTied(keys) {
      forall v | v in TopTied(keys)
        ensures v in m.Values && |Fibre(m, v)| == |Fibre(m, i)|
      {
        var p := SomeShuffleElects(keys, v);
        assert p in m && m[p] == v;
        WinnerFibreCarries(keys, v, i);
        WinnerFibreCarries(keys, i, v);
      }
      assert m.Values == TopTied(keys);
      EqualFibres(m, TopTied(keys), |Fibre(m, i)|);
      assert |m| == |m.Keys|;
    }
  }
}
