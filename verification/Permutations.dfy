/** Permutations of index ranges, and the shuffles that produce them. */
module Permutations {

  /** `p` lists every number below `n` exactly once. */
  ghost predicate IsPerm(p: seq<nat>, n: nat) {
    && |p| == n
    && (forall i :: 0 <= i < n ==> p[i] < n)
    && (forall i, j :: 0 <= i < j < n ==> p[i] != p[j])
  }

  predicate IndicesBelow(p: seq<nat>, n: nat) {
    forall i :: 0 <= i < |p| ==> p[i] < n
  }

  /** The elements of `s` in the order the indices `p` list them. */
  function Pick<T>(s: seq<T>, p: seq<nat>): (r: seq<T>)
    requires IndicesBelow(p, |s|)
    ensures |r| == |p|
    ensures forall i :: 0 <= i < |p| ==> r[i] == s[p[i]]
  {
    seq(|p|, i requires 0 <= i < |p| => s[p[i]])
  }

  function Identity(n: nat): (p: seq<nat>)
    ensures |p| == n
    ensures forall i :: 0 <= i < n ==> p[i] == i
  {
    seq(n, i => i)
  }

  ghost function Below(n: nat): (s: set<nat>)
    ensures |s| == n
    ensures forall x: nat :: x in s <==> x < n
  {
    if n == 0 then {} else Below(n - 1) + {n - 1}
  }

  lemma {:induction false} CardinalityOfDistinct(p: seq<nat>, s: set<nat>)
    requires forall i, j :: 0 <= i < j < |p| ==> p[i] != p[j]
    requires forall x :: x in s <==> x in p
    ensures |s| == |p|
  {
    if p == [] {
      assert s == {};
    } else {
      var last := p[|p| - 1];
      var front := p[..|p| - 1];
      assert p == front + [last];
      CardinalityOfDistinct(front, s - {last});
    }
  }

  lemma SubsetCardinality<T>(a: set<T>, b: set<T>)
    requires a <= b
    ensures |a| <= |b|
    ensures |a| == |b| ==> a == b
  {
    assert b == a + (b - a);
    assert |b| == |a| + |b - a|;
    if |a| == |b| {
      assert b - a == {};
    }
  }

  /** Distinct numbers below `n`, `n` of them, leave nothing out. */
  lemma PermIsOnto(p: seq<nat>, n: nat, x: nat)
    requires IsPerm(p, n) && x < n
    ensures x in p
  {
    var values := set i | 0 <= i < n :: p[i];
    CardinalityOfDistinct(p, values);
    assert forall v :: v in values ==> v in Below(n);
    SubsetCardinality(values, Below(n));
    assert x in values;
  }

  ghost function IndexIn(p: seq<nat>, x: nat): (i: nat)
    requires IsPerm(p, |p|) && x < |p|
    ensures i < |p| && p[i] == x
  {
    PermIsOnto(p, |p|, x);
    var i :| 0 <= i < |p| && p[i] == x;
    i
  }

  ghost function Inverse(p: seq<nat>): (q: seq<nat>)
    requires IsPerm(p, |p|)
    ensures IsPerm(q, |p|)
    ensures forall x :: 0 <= x < |p| ==> p[q[x]] == x
    ensures forall i :: 0 <= i < |p| ==> q[p[i]] == i
  {
    seq(|p|, x requires 0 <= x < |p| => IndexIn(p, x))
  }

  lemma PickIsPerm(q: seq<nat>, p: seq<nat>, n: nat)
    requires IsPerm(p, n) && IsPerm(q, n)
    ensures IsPerm(Pick(q, p), n)
  {
  }

  lemma PickAssociative<T>(s: seq<T>, q: seq<nat>, p: seq<nat>)
    requires IndicesBelow(q, |s|) && IndicesBelow(p, |q|)
    ensures Pick(Pick(s, q), p) == Pick(s, Pick(q, p))
  {
  }

  // ---- Shuffling by swaps ----

  type SwapStep = (nat, nat)

  predicate SwapsInRange(swaps: seq<SwapStep>, n: nat) {
    forall k :: 0 <= k < |swaps| ==> swaps[k].0 < n && swaps[k].1 < n
  }

  function Swap<T>(s: seq<T>, i: nat, j: nat): (r: seq<T>)
    requires i < |s| && j < |s|
    ensures |r| == |s|
  {
    s[i := s[j]][j := s[i]]
  }

  /** `s` after the swaps, first to last. */
  function ApplySwaps<T>(s: seq<T>, swaps: seq<SwapStep>): (r: seq<T>)
    requires SwapsInRange(swaps, |s|)
    ensures |r| == |s|
  {
    if swaps == [] then s
    else
      var last := |swaps| - 1;
      Swap(ApplySwaps(s, swaps[..last]), swaps[last].0, swaps[last].1)
  }

  /** The permutation a sequence of swaps performs: entry `i` is where the element now at `i` came from. */
  function ShuffleOf(n: nat, swaps: seq<SwapStep>): seq<nat>
    requires SwapsInRange(swaps, n)
  {
    ApplySwaps(Identity(n), swaps)
  }

  /** One swap exchanges its two entries and moves no other. */
  lemma OneSwapExchanges<T>(s: seq<T>, i: nat, j: nat)
    requires i < |s| && j < |s|
    ensures var r := ApplySwaps(s, [(i, j)]);
            && r[i] == s[j] && r[j] == s[i]
            && forall k :: 0 <= k < |s| && k != i && k != j ==> r[k] == s[k]
  {
    assert [(i, j)][..0] == [];
  }

  lemma OneSwapMore<T>(s: seq<T>, swaps: seq<SwapStep>, step: SwapStep)
    requires SwapsInRange(swaps + [step], |s|)
    ensures SwapsInRange(swaps, |s|) && step.0 < |s| && step.1 < |s|
    ensures ApplySwaps(s, swaps + [step]) == Swap(ApplySwaps(s, swaps), step.0, step.1)
  {
    var longer := swaps + [step];
    assert longer[..|longer| - 1] == swaps && longer[|swaps|] == step;
    forall k | 0 <= k < |swaps|
      ensures swaps[k].0 < |s| && swaps[k].1 < |s|
    {
      assert longer[k] == swaps[k];
    }
  }

  /** Swaps are performed one after the other. */
  lemma {:induction false} SwapsCompose<T>(s: seq<T>, first: seq<SwapStep>, second: seq<SwapStep>)
    requires SwapsInRange(first, |s|) && SwapsInRange(second, |s|)
    ensures SwapsInRange(first + second, |s|)
    ensures ApplySwaps(s, first + second) == ApplySwaps(ApplySwaps(s, first), second)
  {
    if second == [] {
      assert first + second == first;
    } else {
      hide ApplySwaps, Swap;
      var n := |second| - 1;
      SwapsCompose(s, first, second[..n]);
      assert second == second[..n] + [second[n]];
      assert first + second == (first + second[..n]) + [second[n]];
      OneSwapMore(s, first + second[..n], second[n]);
      OneSwapMore(ApplySwaps(s, first), second[..n], second[n]);
    }
  }

  /** Swapping performs one and the same permutation on every sequence of that length. */
  lemma {:induction false} ShuffleIsPermutation<T>(s: seq<T>, swaps: seq<SwapStep>)
    requires SwapsInRange(swaps, |s|)
    ensures IsPerm(ShuffleOf(|s|, swaps), |s|)
    ensures ApplySwaps(s, swaps) == Pick(s, ShuffleOf(|s|, swaps))
  {
    if swaps == [] {
      assert Pick(s, Identity(|s|)) == s;
    } else {
      ShuffleIsPermutation(s, swaps[..|swaps| - 1]);
    }
  }

  lemma {:induction false} SwapsKeepElements<T>(s: seq<T>, swaps: seq<SwapStep>)
    requires SwapsInRange(swaps, |s|)
    ensures multiset(ApplySwaps(s, swaps)) == multiset(s)
  {
    if swaps == [] {
    } else {
      var last := |swaps| - 1;
      var t := ApplySwaps(s, swaps[..last]);
      SwapsKeepElements(s, swaps[..last]);
      SwapKeepsElements(t, swaps[last].0, swaps[last].1);
    }
  }

  lemma SwapKeepsElements<T>(s: seq<T>, i: nat, j: nat)
    requires i < |s| && j < |s|
    ensures multiset(Swap(s, i, j)) == multiset(s)
  {
  }

  /** Every permutation is performed by some sequence of swaps. */
  lemma PermutationHasSwaps(p: seq<nat>) returns (swaps: seq<SwapStep>)
    requires IsPerm(p, |p|)
    ensures SwapsInRange(swaps, |p|) && ShuffleOf(|p|, swaps) == p
  {
    var n := |p|;
    swaps := [];
    var k := 0;
    while k < n
      invariant k <= n && SwapsInRange(swaps, n)
      invariant forall i :: 0 <= i < k ==> ShuffleOf(n, swaps)[i] == p[i]
    {
      var q := ShuffleOf(n, swaps);
      ShuffleIsPermutation(Identity(n), swaps);
      var j := IndexIn(q, p[k]);
      assert j >= k;
      var longer := swaps + [(k, j)];
      assert longer[..|longer| - 1] == swaps;
      swaps := longer;
      k := k + 1;
    }
  }

  /** Picking along a permutation keeps every element with its multiplicity. */
  lemma PickKeepsElements<T>(s: seq<T>, p: seq<nat>)
    requires IsPerm(p, |s|)
    ensures multiset(Pick(s, p)) == multiset(s)
  {
    var swaps := PermutationHasSwaps(p);
    ShuffleIsPermutation(s, swaps);
    SwapsKeepElements(s, swaps);
  }

  // ---- The swaps of a random source ----

  predicate ChoicesInRange(choices: seq<nat>) {
    forall i :: 0 <= i < |choices| ==> choices[i] <= i
  }

  /**
    The swaps of `rand.Shuffle`: for each index from the last down to 1, with
    an index not beyond it that the generator chooses. The choice for index 0
    is the only one there is.
   */
  function FisherYates(choices: seq<nat>): (swaps: seq<SwapStep>)
    requires ChoicesInRange(choices)
    ensures SwapsInRange(swaps, |choices|)
  {
    var last := |choices| - 1;
    if last <= 0 then [] else [(last, choices[last])] + FisherYates(choices[..last])
  }

  ghost predicate Distinct(s: seq<nat>) {
    forall i, j :: 0 <= i < j < |s| ==> s[i] != s[j]
  }

  /** Swaps that leave the last entry out act on the entries before it. */
  lemma {:induction false} SwapsOnFront<T>(s: seq<T>, swaps: seq<SwapStep>)
    requires s != [] && SwapsInRange(swaps, |s| - 1)
    ensures ApplySwaps(s, swaps) == ApplySwaps(s[..|s| - 1], swaps) + [s[|s| - 1]]
  {
    if swaps == [] {
    } else {
      SwapsOnFront(s, swaps[..|swaps| - 1]);
    }
  }

  lemma NoSwaps<T>(s: seq<T>)
    ensures ApplySwaps(s, []) == s
  {
  }

  lemma OneSwap<T>(s: seq<T>, i: nat, j: nat)
    requires i < |s| && j < |s|
    ensures ApplySwaps(s, [(i, j)]) == Swap(s, i, j)
  {
    assert [(i, j)][..0] == [];
  }

  /** What the first choice leaves to shuffle. */
  function Rest<T>(s: seq<T>, c: nat): (t: seq<T>)
    requires c < |s|
    ensures |t| == |s| - 1
  {
    Swap(s, |s| - 1, c)[..|s| - 1]
  }

  lemma FisherYatesOfOne<T>(s: seq<T>, choices: seq<nat>)
    requires ChoicesInRange(choices) && |choices| == |s| == 1
    ensures ApplySwaps(s, FisherYates(choices)) == ApplySwaps(Rest(s, 0), FisherYates(choices[..0])) + [s[0]]
  {
    NoSwaps(s);
    NoSwaps(Rest(s, 0));
  }

  lemma LaterSwaps<T>(s: seq<T>, c: nat, rest: seq<SwapStep>)
    requires c < |s| && SwapsInRange(rest, |s| - 1)
    ensures ApplySwaps(s, [(|s| - 1, c)] + rest) == ApplySwaps(Rest(s, c), rest) + [s[c]]
  {
    hide ApplySwaps;
    var last := |s| - 1;
    var first: seq<SwapStep> := [(last, c)];
    SwapsCompose(s, first, rest);
    OneSwap(s, last, c);
    SwapsOnFront(Swap(s, last, c), rest);
  }

  /** The first choice settles the last entry; the others shuffle what is before it. */
  lemma FisherYatesStep<T>(s: seq<T>, choices: seq<nat>)
    requires ChoicesInRange(choices) && |choices| == |s| > 0
    ensures var last := |s| - 1;
            ApplySwaps(s, FisherYates(choices))
              == ApplySwaps(Rest(s, choices[last]), FisherYates(choices[..last])) + [s[choices[last]]]
  {
    hide ApplySwaps, Rest;
    var last := |s| - 1;
    if last == 0 {
      FisherYatesOfOne(s, choices);
    } else {
      LaterSwaps(s, choices[last], FisherYates(choices[..last]));
    }
  }

  /** Both lists hold the same distinct elements. */
  ghost predicate Rearranges(s: seq<nat>, t: seq<nat>) {
    Distinct(s) && Distinct(t) && |s| == |t| && forall x: nat :: x in s <==> x in t
  }

  lemma SwapRearranges(s: seq<nat>, t: seq<nat>, c: nat)
    requires Rearranges(s, t) && c < |s| && s[c] == t[|t| - 1]
    ensures var last := |s| - 1;
            Rearranges(Rest(s, c), t[..last])
  {
    var last := |s| - 1;
    var u := Swap(s, last, c);
    assert forall x :: x in u[..last] ==> x in s;
    forall x | x in s && x != s[c]
      ensures x in u[..last]
    {
      var k :| 0 <= k < |s| && s[k] == x;
      assert u[..last][if k == last then c else k] == x;
    }
    assert t == t[..last] + [t[last]];
    assert s[c] !in u[..last];
  }

  /** Every rearrangement comes from some choices. */
  lemma {:induction false} ChoicesExist(s: seq<nat>, t: seq<nat>) returns (choices: seq<nat>)
    requires Rearranges(s, t)
    ensures ChoicesInRange(choices) && |choices| == |s| && ApplySwaps(s, FisherYates(choices)) == t
    decreases |s|
  {
    if s == [] {
      choices := [];
    } else {
      var last := |s| - 1;
      hide ApplySwaps, FisherYates, Rest, SwapsInRange;
      assert t[last] in s;
      var c :| 0 <= c < |s| && s[c] == t[last];
      SwapRearranges(s, t, c);
      var front := ChoicesExist(Rest(s, c), t[..last]);
      choices := front + [c];
      assert choices[..last] == front;
      FisherYatesStep(s, choices);
    }
  }

  lemma SameEntrySamePlace(s: seq<nat>, i: nat, j: nat)
    requires Distinct(s) && i < |s| && j < |s| && s[i] == s[j]
    ensures i == j
  {
  }

  lemma RestIsDistinct(s: seq<nat>, c: nat)
    requires Distinct(s) && c < |s|
    ensures Distinct(Rest(s, c))
  {
  }

  lemma FisherYatesParts(s: seq<nat>, choices: seq<nat>)
    requires ChoicesInRange(choices) && |choices| == |s| > 0
    ensures var last := |s| - 1;
            var t := ApplySwaps(s, FisherYates(choices));
            && t[last] == s[choices[last]]
            && t[..last] == ApplySwaps(Rest(s, choices[last]), FisherYates(choices[..last]))
  {
    hide ApplySwaps, Rest, FisherYates;
    FisherYatesStep(s, choices);
  }

  lemma FirstChoicesAgree(s: seq<nat>, a: seq<nat>, b: seq<nat>)
    requires Distinct(s) && ChoicesInRange(a) && ChoicesInRange(b) && |a| == |b| == |s| > 0
    requires ApplySwaps(s, FisherYates(a)) == ApplySwaps(s, FisherYates(b))
    ensures var last := |s| - 1;
            && a[last] == b[last]
            && ApplySwaps(Rest(s, a[last]), FisherYates(a[..last]))
                 == ApplySwaps(Rest(s, a[last]), FisherYates(b[..last]))
  {
    hide ApplySwaps, Rest, FisherYates, Distinct, SwapsInRange;
    FisherYatesParts(s, a);
    FisherYatesParts(s, b);
    SameEntrySamePlace(s, a[|s| - 1], b[|s| - 1]);
  }

  /** Different choices give different rearrangements. */
  lemma {:induction false} ChoicesAreDetermined(s: seq<nat>, a: seq<nat>, b: seq<nat>)
    requires Distinct(s) && ChoicesInRange(a) && ChoicesInRange(b) && |a| == |b| == |s|
    requires ApplySwaps(s, FisherYates(a)) == ApplySwaps(s, FisherYates(b))
    ensures a == b
    decreases |s|
  {
    hide ApplySwaps, FisherYates, Rest, Distinct, SwapsInRange;
    if s == [] {
    } else {
      var last := |s| - 1;
      FirstChoicesAgree(s, a, b);
      RestIsDistinct(s, a[last]);
      ChoicesAreDetermined(Rest(s, a[last]), a[..last], b[..last]);
      assert a == a[..last] + [a[last]] && b == b[..last] + [b[last]];
    }
  }

  /**
    The random source's choices and the shuffles correspond one to one: each
    permutation is performed for exactly one sequence of choices. So where all
    choices are equally likely, so are all permutations.
   */
  lemma EachShuffleHasItsChoices(p: seq<nat>) returns (choices: seq<nat>)
    requires IsPerm(p, |p|)
    ensures ChoicesInRange(choices) && |choices| == |p|
    ensures ShuffleOf(|p|, FisherYates(choices)) == p
    ensures forall other ::
              ChoicesInRange(other) && |other| == |p| && ShuffleOf(|p|, FisherYates(other)) == p ==> other == choices
  {
    var n := |p|;
    forall x: nat
      ensures x in p <==> x in Identity(n)
    {
      if x < n {
        PermIsOnto(p, n, x);
        assert Identity(n)[x] == x;
      }
    }
    choices := ChoicesExist(Identity(n), p);
    forall other |
      ChoicesInRange(other) && |other| == |p| && ShuffleOf(|p|, FisherYates(other)) == p
      ensures other == choices
    {
      ChoicesAreDetermined(Identity(n), other, choices);
    }
  }
}
