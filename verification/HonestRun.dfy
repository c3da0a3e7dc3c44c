/**
  What an honest run of the enclave on one request produces, under every key,
  shuffle and pair of nonces.
 */
module HonestRun {
  import opened Prelude
  import opened Units
  import opened Uuid
  import opened Bids
  import opened Primitives
  import opened Sealing
  import opened BidHash
  import opened Permutations
  import opened Ranking
  import opened TieBreaking
  import opened Arbitration

  /** A request, the key it is handled with, and the primitives in use. */
  datatype Run = Run(prim: Primitives, priv: Option<PrivateKey>, request: Request) {
    /** The swaps stay within the bids to be ranked. */
    predicate InRange(swaps: seq<SwapStep>) {
      SwapsInRange(swaps, |CoreBids(prim, request.bids)|)
    }

    ghost function FinalRanking(swaps: seq<SwapStep>): seq<ArbiterBid>
      requires InRange(swaps)
    {
      RankedFor(prim, priv, request.bids, swaps)
    }

    ghost function Attestation(swaps: seq<SwapStep>, bidEntropy: Entropy, requestEntropy: Entropy): UserData
      requires InRange(swaps)
    {
      UserDataFor(prim, priv, request, swaps, bidEntropy, requestEntropy)
    }

    /** The UUID that wire bid `i` spells, if any. */
    function IdOf(i: nat): Option<Uuid>
      requires i < |request.bids|
    {
      prim.parseUuid(request.bids[i].id)
    }

    /** Wire bid `i` as the arbiter resolved it. */
    function ResolvedOf(i: nat): ArbiterBid
      requires i < |request.bids| && IdOf(i).Some?
    {
      Resolve(prim, priv, ToCoreBid(IdOf(i).value, request.bids[i]))
    }

    function RevenueOf(i: nat): MicroDollars
      requires i < |request.bids| && IdOf(i).Some?
    {
      ResolvedOf(i).revenue
    }

    /** The string hashed for wire bid `i` under a nonce. */
    function PreimageOf(i: nat, nonce: string): string
      requires i < |request.bids| && IdOf(i).Some?
    {
      BidPreimage(Print(IdOf(i).value), RevenueOf(i), nonce)
    }

    /** The place on the wire of each ranked bid, in ranked order. */
    ghost function Origins(swaps: seq<SwapStep>): seq<nat>
      requires InRange(swaps)
    {
      var resolved := ResolveAll(prim, priv, CoreBids(prim, request.bids));
      WireBidsArePartitioned(prim, request.bids);
      ShuffleIsPermutation(resolved, swaps);
      Pick(Places(prim, request.bids, true), Outcome(Revenues(resolved), ShuffleOf(|resolved|, swaps)))
    }
  }

  lemma PickKeepsMembers(s: seq<nat>, p: seq<nat>, x: nat)
    requires IsPerm(p, |s|)
    ensures x in Pick(s, p) <==> x in s
  {
    if k :| 0 <= k < |s| && s[k] == x {
      assert Pick(s, p)[IndexIn(p, k)] == x;
    }
  }

  /** `o` lists the places of all wire bids with parseable IDs, each once, dearest first. */
  ghost predicate Ranks(run: Run, o: seq<nat>) {
    && (forall r :: 0 <= r < |o| ==> o[r] < |run.request.bids| && run.IdOf(o[r]).Some?)
    && (forall q, r :: 0 <= q < r < |o| ==> o[q] != o[r] && run.RevenueOf(o[q]) >= run.RevenueOf(o[r]))
    && (forall i :: 0 <= i < |run.request.bids| && run.IdOf(i).Some? ==> i in o)
  }

  /** The ranked bids are the resolved ones, and their places those of the core bids, picked in one order. */
  lemma RankingPicks(run: Run, swaps: seq<SwapStep>) returns (out: seq<nat>)
    requires run.InRange(swaps)
    ensures var kept := Places(run.prim, run.request.bids, true);
            var resolved := ResolveAll(run.prim, run.priv, CoreBids(run.prim, run.request.bids));
            && |kept| == |resolved|
            && Descending(Revenues(resolved), out) && IndicesBelow(out, |kept|)
            && run.Origins(swaps) == Pick(kept, out) && run.FinalRanking(swaps) == Pick(resolved, out)
  {
    hide Outcome, Descending;
    var resolved := ResolveAll(run.prim, run.priv, CoreBids(run.prim, run.request.bids));
    WireBidsArePartitioned(run.prim, run.request.bids);
    RankingFollowsOutcome(resolved, swaps);
    var p := ShuffleOf(|resolved|, swaps);
    assert IsPerm(p, |Revenues(resolved)|);
    OutcomeDescends(Revenues(resolved), p);
    out := Outcome(Revenues(resolved), p);
  }

  /** Core bid `k` resolves like the wire bid it was made from. */
  lemma CoreBidResolves(run: Run, k: nat)
    requires k < |Places(run.prim, run.request.bids, true)|
    ensures var i := Places(run.prim, run.request.bids, true)[k];
            && k < |CoreBids(run.prim, run.request.bids)|
            && run.IdOf(i).Some?
            && Resolve(run.prim, run.priv, CoreBids(run.prim, run.request.bids)[k]) == run.ResolvedOf(i)
  {
    hide Resolve;
    WireBidsArePartitioned(run.prim, run.request.bids);
  }

  lemma PicksRank(run: Run, resolved: seq<ArbiterBid>, kept: seq<nat>, out: seq<nat>)
    requires kept == Places(run.prim, run.request.bids, true)
    requires resolved == ResolveAll(run.prim, run.priv, CoreBids(run.prim, run.request.bids))
    requires |kept| == |resolved| && Descending(Revenues(resolved), out) && IndicesBelow(out, |kept|)
    ensures Ranks(run, Pick(kept, out))
    ensures forall r :: 0 <= r < |out| ==> resolved[out[r]] == run.ResolvedOf(kept[out[r]])
  {
    hide Places, CoreBids, Resolve;
    PlacesAscendAndAreComplete(run.prim, run.request.bids, true);
    forall r | 0 <= r < |out|
      ensures run.IdOf(kept[out[r]]).Some? && resolved[out[r]] == run.ResolvedOf(kept[out[r]])
    {
      CoreBidResolves(run, out[r]);
    }
    forall i: nat | i < |run.request.bids| && run.IdOf(i).Some?
      ensures i in Pick(kept, out)
    {
      PickKeepsMembers(kept, out, i);
    }
  }

  /**
    Conservation through the whole run: the ranked bids are the wire bids with
    parseable IDs, each exactly once, each resolved from its own wire bid (so
    its source, revenue and decryption outcome are its own), dearest first.
   */
  lemma RankedBidsAreTheWireBids(run: Run, swaps: seq<SwapStep>)
    requires run.InRange(swaps)
    ensures Ranks(run, run.Origins(swaps))
    ensures |run.FinalRanking(swaps)| == |run.Origins(swaps)|
    ensures forall r :: 0 <= r < |run.Origins(swaps)| ==>
              run.FinalRanking(swaps)[r] == run.ResolvedOf(run.Origins(swaps)[r])
  {
    hide Outcome, RankedFor, Run.Origins, Places, CoreBids, Resolve, Descending, Ranks;
    var out := RankingPicks(run, swaps);
    var kept := Places(run.prim, run.request.bids, true);
    var resolved := ResolveAll(run.prim, run.priv, CoreBids(run.prim, run.request.bids));
    PicksRank(run, resolved, kept, out);
  }

  /** A wire bid resolves to the price it opens to, and to its cleartext revenue exactly when it opens to none. */
  lemma RevenueOfWireBid(run: Run, i: nat)
    requires i < |run.request.bids| && run.IdOf(i).Some?
    ensures var wb, ab := run.request.bids[i], run.ResolvedOf(i);
            && (forall price :: OpensTo(run.prim, run.priv, wb.encryptedCPMDollars, price) ==>
                  ab.revenue == CPMAsMicros(run.prim.floatOverflow, price))
            && (ab.decrypted <==> exists price :: OpensTo(run.prim, run.priv, wb.encryptedCPMDollars, price))
            && (!ab.decrypted ==> ab.revenue == wb.cleartextRevenue)
  {
    hide OpensTo, Resolve;
    RevenueOfBid(run.prim, run.priv, ToCoreBid(run.IdOf(i).value, run.request.bids[i]));
  }

  /** The response's bid at each place echoes its wire bid: canonical ID, source, revenue and decryption outcome. */
  lemma ResponseEchoesWireBids(run: Run, swaps: seq<SwapStep>, r: nat)
    requires run.InRange(swaps) && r < |run.Origins(swaps)|
    ensures |ResolvedBids(run.FinalRanking(swaps))| == |run.Origins(swaps)|
    ensures run.Origins(swaps)[r] < |run.request.bids| && run.IdOf(run.Origins(swaps)[r]).Some?
    ensures var i, echoed := run.Origins(swaps)[r], ResolvedBids(run.FinalRanking(swaps))[r];
            && echoed.id == Print(run.IdOf(i).value)
            && echoed.source == run.request.bids[i].source
            && echoed.revenue == run.RevenueOf(i)
            && (echoed.decrypted <==> exists price :: OpensTo(run.prim, run.priv, run.request.bids[i].encryptedCPMDollars, price))
  {
    hide RankedFor, Outcome;
    RankedBidsAreTheWireBids(run, swaps);
    RankedBidsArePresent(run, swaps);
    ResolvedBidsFollowRanking(run.FinalRanking(swaps));
    RevenueOfWireBid(run, run.Origins(swaps)[r]);
  }

  /**
    The response repeats the ID of a wire bid exactly when that ID has 36
    characters and no capital letter; it respells every other one.
   */
  lemma ResponseKeepsIdIff(run: Run, swaps: seq<SwapStep>, r: nat)
    requires run.prim.parseUuid == Parse
    requires run.InRange(swaps) && r < |run.Origins(swaps)|
    ensures |ResolvedBids(run.FinalRanking(swaps))| == |run.Origins(swaps)|
    ensures run.Origins(swaps)[r] < |run.request.bids|
    ensures var id := run.request.bids[run.Origins(swaps)[r]].id;
            ResolvedBids(run.FinalRanking(swaps))[r].id == id <==> |id| == 36 && Lower(id) == id
  {
    hide Parse, Run.Origins, Run.FinalRanking;
    ResponseEchoesWireBids(run, swaps, r);
    var i := run.Origins(swaps)[r];
    PrintRepeatsIff(run.request.bids[i].id, run.IdOf(i).value);
  }

  /** A request whose only bid puts its ID in braces: the response reports another string. */
  lemma BracedIdIsRespelled(run: Run, u: Uuid, source: string, revenue: MicroDollars)
    requires run.prim.parseUuid == Parse
    requires run.request.bids == [WireBid("{" + Print(u) + "}", source, revenue, None)]
    ensures run.InRange([]) && |ResolvedBids(run.FinalRanking([]))| == 1
    ensures ResolvedBids(run.FinalRanking([]))[0].id == Print(u) != run.request.bids[0].id
  {
    hide Parse, Print, Run.Origins, Run.FinalRanking;
    var id := "{" + Print(u) + "}";
    PrintIsLower(u);
    assert id[1..37] == Print(u);
    ParseIffSpells(id, u);
    RankedBidsAreTheWireBids(run, []);
    assert 0 in run.Origins([]);
    ResponseEchoesWireBids(run, [], 0);
  }

  // ---- The attestation describes the ranking ----

  lemma {:induction false} HashesFollowRanking(prim: Primitives, ranked: seq<ArbiterBid>, nonce: string)
    requires forall r :: 0 <= r < |ranked| ==> ranked[r].bid.Some?
    ensures |BidHashes(prim, ranked, nonce)| == |ranked|
    ensures forall r :: 0 <= r < |ranked| ==> BidHashes(prim, ranked, nonce)[r] == HashOf(prim, ranked[r], nonce)
  {
    hide HashOf;
    if ranked == [] {
    } else {
      var front := ranked[..|ranked| - 1];
      HashesFollowRanking(prim, front, nonce);
    }
  }

  lemma {:induction false} ResolvedBidsFollowRanking(ranked: seq<ArbiterBid>)
    requires forall r :: 0 <= r < |ranked| ==> ranked[r].bid.Some?
    ensures |ResolvedBids(ranked)| == |ranked|
    ensures forall r :: 0 <= r < |ranked| ==> ResolvedBids(ranked)[r] == Project(ranked[r])
  {
    hide Project;
    if ranked == [] {
    } else {
      var front := ranked[..|ranked| - 1];
      ResolvedBidsFollowRanking(front);
    }
  }

  lemma RankedBidsArePresent(run: Run, swaps: seq<SwapStep>)
    requires run.InRange(swaps)
    ensures forall r :: 0 <= r < |run.FinalRanking(swaps)| ==> run.FinalRanking(swaps)[r].bid.Some?
  {
    hide RankedFor, Outcome;
    RankedBidsAreTheWireBids(run, swaps);
  }

  /**
    The response and the attestation agree place by place: each attested hash is
    the hash of the response's bid at that place, the attested winner is the
    response's first bid, and there is a winner exactly when there are hashes.
   */
  lemma ResponseAgreesWithAttestation(run: Run, swaps: seq<SwapStep>, bidEntropy: Entropy, requestEntropy: Entropy)
    requires run.InRange(swaps)
    ensures var ud, bids := run.Attestation(swaps, bidEntropy, requestEntropy), ResolvedBids(run.FinalRanking(swaps));
            && |ud.bidHashes| == |bids|
            && (forall r :: 0 <= r < |bids| ==>
                  ud.bidHashes[r] == ComputeBidHash(run.prim.sha256, bids[r].id, bids[r].revenue, ud.bidHashNonce))
            && (ud.winner == None <==> ud.bidHashes == [])
            && (bids != [] ==> ud.winner == Some(ArbiterBidWithoutSource(bids[0].id, bids[0].revenue)))
  {
    hide RankedFor, Outcome;
    RankedBidsArePresent(run, swaps);
    HashesFollowRanking(run.prim, run.FinalRanking(swaps), Nonce(bidEntropy));
    ResolvedBidsFollowRanking(run.FinalRanking(swaps));
  }

  /** The listed exclusions are the unparseable wire bids at places `d`, all for the one reason. */
  ghost predicate Excludes(run: Run, d: seq<nat>, excluded: seq<ExcludedBid>) {
    && |excluded| == |d|
    && (forall k :: 0 <= k < |d| ==>
          && d[k] < |run.request.bids| && run.IdOf(d[k]) == None
          && excluded[k] == ExcludedBid(run.request.bids[d[k]].id, EXCLUSION_REASON_MALFORMED_BID_ID))
    && (forall i :: 0 <= i < |run.request.bids| && run.IdOf(i) == None ==> i in d)
  }

  /** The hashes are those of the wire bids at places `o`, in that order, and the first of these is the winner. */
  ghost predicate AttestsBids(run: Run, o: seq<nat>, ud: UserData) {
    && Ranks(run, o)
    && ud.bidHashNonce != ""
    && |ud.bidHashes| == |o|
    && (forall r :: 0 <= r < |o| ==> ud.bidHashes[r] == run.prim.sha256(run.PreimageOf(o[r], ud.bidHashNonce)))
    && ud.winner == (if o == [] then None
                     else Some(ArbiterBidWithoutSource(Print(run.IdOf(o[0]).value), run.RevenueOf(o[0]))))
  }

  predicate AttestsRequest(run: Run, ud: UserData) {
    && ud.requestNonce != ""
    && ud.requestHash == run.prim.sha256(RequestPreimage(run.request.requestID, ud.requestNonce))
  }

  lemma ExclusionsHavePlaces(run: Run)
    ensures Excludes(run, Places(run.prim, run.request.bids, false), Exclusions(run.prim, run.request.bids))
  {
    WireBidsArePartitioned(run.prim, run.request.bids);
    PlacesAscendAndAreComplete(run.prim, run.request.bids, false);
  }

  lemma HashOfWireBid(run: Run, i: nat, nonce: string)
    requires i < |run.request.bids| && run.IdOf(i).Some?
    ensures run.ResolvedOf(i).bid.Some?
    ensures HashOf(run.prim, run.ResolvedOf(i), nonce) == run.prim.sha256(run.PreimageOf(i, nonce))
  {
  }

  /** Each attested hash is that of the wire bid ranked at its place. */
  lemma HashesComeFromOrigins(run: Run, swaps: seq<SwapStep>, nonce: string)
    requires run.InRange(swaps)
    ensures var o, hashes := run.Origins(swaps), BidHashes(run.prim, run.FinalRanking(swaps), nonce);
            && Ranks(run, o) && |hashes| == |o|
            && forall r :: 0 <= r < |o| ==> hashes[r] == run.prim.sha256(run.PreimageOf(o[r], nonce))
  {
    hide RankedFor, Outcome, BidHashes, HashOf;
    var o := run.Origins(swaps);
    RankedBidsAreTheWireBids(run, swaps);
    RankedBidsArePresent(run, swaps);
    HashesFollowRanking(run.prim, run.FinalRanking(swaps), nonce);
    forall r | 0 <= r < |o|
      ensures BidHashes(run.prim, run.FinalRanking(swaps), nonce)[r] == run.prim.sha256(run.PreimageOf(o[r], nonce))
    {
      HashOfWireBid(run, o[r], nonce);
    }
  }

  lemma WinnerComesFromOrigin(run: Run, swaps: seq<SwapStep>)
    requires run.InRange(swaps)
    ensures var o, winner := run.Origins(swaps), WinnerDescriptor(First(run.FinalRanking(swaps)));
            if o == [] then winner == None
            else
              && o[0] < |run.request.bids| && run.IdOf(o[0]).Some?
              && winner == Some(ArbiterBidWithoutSource(Print(run.IdOf(o[0]).value), run.RevenueOf(o[0])))
  {
    hide RankedFor, Outcome;
    RankedBidsAreTheWireBids(run, swaps);
    if run.Origins(swaps) != [] {
      assert run.FinalRanking(swaps)[0] == run.ResolvedOf(run.Origins(swaps)[0]);
    }
  }

  /** Every honest run attests its ranking, request and exclusions, whatever the shuffle and the nonces. */
  lemma HonestRunAttests(run: Run, swaps: seq<SwapStep>, bidEntropy: Entropy, requestEntropy: Entropy)
    requires run.InRange(swaps)
    ensures var ud := run.Attestation(swaps, bidEntropy, requestEntropy);
            && AttestsBids(run, run.Origins(swaps), ud)
            && AttestsRequest(run, ud)
            && Excludes(run, Places(run.prim, run.request.bids, false), ud.excludedBids)
            && ud.requestID == run.request.requestID
            && ud.bidHashNonce == Nonce(bidEntropy) && ud.requestNonce == Nonce(requestEntropy)
  {
    hide RankedFor, Outcome, BidHashes, Exclusions, Nonce, Ranks, WinnerDescriptor, Excludes, Run.PreimageOf,
         Run.Origins, Places;
    HashesComeFromOrigins(run, swaps, Nonce(bidEntropy));
    WinnerComesFromOrigin(run, swaps);
    ExclusionsHavePlaces(run);
    NonceShape(bidEntropy, requestEntropy);
    NonceShape(requestEntropy, bidEntropy);
  }

  // ---- Who can win ----

  /** Wire bid `w` parses and no other one that does has a higher revenue. */
  ghost predicate TopRevenue(run: Run, w: nat) {
    && w < |run.request.bids| && run.IdOf(w).Some?
    && forall i :: 0 <= i < |run.request.bids| && run.IdOf(i).Some? ==> run.RevenueOf(i) <= run.RevenueOf(w)
  }

  /** Every wire bid of the highest revenue wins under some shuffle. */
  lemma TopBidCanWin(run: Run, w: nat) returns (swaps: seq<SwapStep>)
    requires TopRevenue(run, w)
    ensures run.InRange(swaps) && run.Origins(swaps) != [] && run.Origins(swaps)[0] == w
  {
    hide Outcome, Places, CoreBids, Resolve;
    var kept := Places(run.prim, run.request.bids, true);
    var resolved := ResolveAll(run.prim, run.priv, CoreBids(run.prim, run.request.bids));
    var keys := Revenues(resolved);
    WireBidsArePartitioned(run.prim, run.request.bids);
    PlacesAscendAndAreComplete(run.prim, run.request.bids, true);
    var k :| 0 <= k < |kept| && kept[k] == w;
    forall j | 0 <= j < |keys|
      ensures keys[j] == run.RevenueOf(kept[j])
    {
      CoreBidResolves(run, j);
    }
    var p := SomeShuffleElects(keys, k);
    swaps := PermutationHasSwaps(p);
  }

  /** Whatever the shuffle, the winner has the highest revenue. */
  lemma WinnerHasTopRevenue(run: Run, o: seq<nat>)
    requires Ranks(run, o) && o != []
    ensures TopRevenue(run, o[0])
  {
    forall i | 0 <= i < |run.request.bids| && run.IdOf(i).Some?
      ensures run.RevenueOf(i) <= run.RevenueOf(o[0])
    {
      var r :| 0 <= r < |o| && o[r] == i;
      assert r == 0 || run.RevenueOf(o[0]) >= run.RevenueOf(o[r]);
    }
  }

  // ---- What the attestation determines ----

  /** No two bids of the two runs have different strings with one hash. */
  ghost predicate NoCollisionBetween(run: Run, run': Run, nonce: string) {
    forall i, j ::
      && 0 <= i < |run.request.bids| && run.IdOf(i).Some?
      && 0 <= j < |run'.request.bids| && run'.IdOf(j).Some?
      && run.prim.sha256(run.PreimageOf(i, nonce)) == run'.prim.sha256(run'.PreimageOf(j, nonce)) ==>
        run.PreimageOf(i, nonce) == run'.PreimageOf(j, nonce)
  }

  /** The places `o` and `o'` list bids with the same UUIDs at the same revenues, one by one. */
  ghost predicate SameRankedBids(run: Run, o: seq<nat>, run': Run, o': seq<nat>)
    requires Ranks(run, o) && Ranks(run', o')
  {
    && |o| == |o'|
    && forall r :: 0 <= r < |o| ==>
         run.IdOf(o[r]) == run'.IdOf(o'[r]) && run.RevenueOf(o[r]) == run'.RevenueOf(o'[r])
  }

  /**
    The attestation binds what was ranked: two runs that one document describes
    ranked bids of the same UUIDs at the same revenues in the same places, and
    excluded bids of the same IDs.
   */
  lemma AttestationBindsOutcome(run: Run, o: seq<nat>, d: seq<nat>, run': Run, o': seq<nat>, d': seq<nat>, ud: UserData)
    requires AttestsBids(run, o, ud) && Excludes(run, d, ud.excludedBids)
    requires AttestsBids(run', o', ud) && Excludes(run', d', ud.excludedBids)
    requires NoCollisionBetween(run, run', ud.bidHashNonce)
    ensures SameRankedBids(run, o, run', o')
    ensures |d| == |d'| && forall k :: 0 <= k < |d| ==> run.request.bids[d[k]].id == run'.request.bids[d'[k]].id
  {
    hide BidPreimage, Print, Run.ResolvedOf;
    forall r | 0 <= r < |o|
      ensures run.IdOf(o[r]) == run'.IdOf(o'[r]) && run.RevenueOf(o[r]) == run'.RevenueOf(o'[r])
    {
      var u, u' := run.IdOf(o[r]).value, run'.IdOf(o'[r]).value;
      assert run.prim.sha256(run.PreimageOf(o[r], ud.bidHashNonce))
          == run'.prim.sha256(run'.PreimageOf(o'[r], ud.bidHashNonce));
      BidPreimageInjective(Print(u), run.RevenueOf(o[r]), Print(u'), run'.RevenueOf(o'[r]), ud.bidHashNonce);
      PrintInjective(u, u');
    }
    forall k | 0 <= k < |d|
      ensures run.request.bids[d[k]].id == run'.request.bids[d'[k]].id
    {
      assert ud.excludedBids[k].bidID == run.request.bids[d[k]].id;
      assert ud.excludedBids[k].bidID == run'.request.bids[d'[k]].id;
    }
  }

  /** So no honest run can have its attestation pass for that of a run with another outcome. */
  lemma EqualAttestationsEqualOutcomes(run: Run, swaps: seq<SwapStep>, run': Run, swaps': seq<SwapStep>,
                                       bidEntropy: Entropy, requestEntropy: Entropy,
                                       bidEntropy': Entropy, requestEntropy': Entropy)
    requires run.InRange(swaps) && run'.InRange(swaps')
    requires NoCollisionBetween(run, run', Nonce(bidEntropy))
    ensures Ranks(run, run.Origins(swaps)) && Ranks(run', run'.Origins(swaps'))
    ensures run.Attestation(swaps, bidEntropy, requestEntropy)
              == run'.Attestation(swaps', bidEntropy', requestEntropy') ==>
            && run.request.requestID == run'.request.requestID
            && SameRankedBids(run, run.Origins(swaps), run', run'.Origins(swaps'))
  {
    hide RankedFor, BidHashes, WinnerDescriptor, Excludes, Ranks, Nonce, Places, Exclusions, Run.Origins,
         NoCollisionBetween, SameRankedBids;
    var ud := run.Attestation(swaps, bidEntropy, requestEntropy);
    HonestRunAttests(run, swaps, bidEntropy, requestEntropy);
    HonestRunAttests(run', swaps', bidEntropy', requestEntropy');
    if ud == run'.Attestation(swaps', bidEntropy', requestEntropy') {
      AttestationBindsOutcome(run, run.Origins(swaps), Places(run.prim, run.request.bids, false),
                              run', run'.Origins(swaps'), Places(run'.prim, run'.request.bids, false), ud);
    }
  }

  // ---- What the outcome does not depend on ----

  /**
    The two wire bids differ only where the arbiter must not look: in the
    cleartext of a bid that opens to the same price, or in the ciphertext of
    one that does not open.
   */
  ghost predicate SameToArbiter(prim: Primitives, priv: Option<PrivateKey>, a: WireBid, b: WireBid) {
    && a.id == b.id && a.source == b.source
    && (forall price ::
          OpensTo(prim, priv, a.encryptedCPMDollars, price) <==> OpensTo(prim, priv, b.encryptedCPMDollars, price))
    && (a.cleartextRevenue == b.cleartextRevenue || exists price :: OpensTo(prim, priv, a.encryptedCPMDollars, price))
  }

  ghost predicate SameRequestToArbiter(prim: Primitives, priv: Option<PrivateKey>, a: seq<WireBid>, b: seq<WireBid>) {
    |a| == |b| && forall i :: 0 <= i < |a| ==> SameToArbiter(prim, priv, a[i], b[i])
  }

  /** Resolved bids that may differ only in the wire data they carry along. */
  predicate SameResolved(a: ArbiterBid, b: ArbiterBid) {
    && a.bid.Some? && b.bid.Some?
    && a.bid.value.id == b.bid.value.id && a.bid.value.source == b.bid.value.source
    && a.revenue == b.revenue && a.decrypted == b.decrypted
  }

  lemma {:induction false} SamePlaces(run: Run, other: seq<WireBid>, parses: bool)
    requires SameRequestToArbiter(run.prim, run.priv, run.request.bids, other)
    ensures Places(run.prim, other, parses) == Places(run.prim, run.request.bids, parses)
    ensures Exclusions(run.prim, other) == Exclusions(run.prim, run.request.bids)
    decreases |other|
  {
    if other == [] {
    } else {
      var n := |other| - 1;
      var wire := run.request.bids;
      assert forall i :: 0 <= i < n ==> SameToArbiter(run.prim, run.priv, wire[..n][i], other[..n][i]);
      SamePlaces(run.(request := run.request.(bids := wire[..n])), other[..n], parses);
      assert SameToArbiter(run.prim, run.priv, wire[n], other[n]);
    }
  }

  lemma SameWireResolvesSame(prim: Primitives, priv: Option<PrivateKey>, a: WireBid, b: WireBid, id: Uuid)
    requires SameToArbiter(prim, priv, a, b)
    ensures SameResolved(Resolve(prim, priv, ToCoreBid(id, a)), Resolve(prim, priv, ToCoreBid(id, b)))
  {
    hide OpensTo, Resolve;
    RevenueOfBid(prim, priv, ToCoreBid(id, a));
    RevenueOfBid(prim, priv, ToCoreBid(id, b));
    if Resolve(prim, priv, ToCoreBid(id, a)).decrypted {
      var price :| OpensTo(prim, priv, a.encryptedCPMDollars, price);
      assert OpensTo(prim, priv, b.encryptedCPMDollars, price);
    }
  }

  /**
    Non-interference: bids changed only where the arbiter must not look come out
    in the same places with the same IDs, revenues and decryption outcomes, and
    the attestation is the same document.
   */
  lemma OutcomeIgnoresUnusedData(run: Run, other: seq<WireBid>, swaps: seq<SwapStep>,
                                 bidEntropy: Entropy, requestEntropy: Entropy)
    requires run.InRange(swaps) && SameRequestToArbiter(run.prim, run.priv, run.request.bids, other)
    ensures var run' := run.(request := run.request.(bids := other));
            && run'.InRange(swaps)
            && run'.Attestation(swaps, bidEntropy, requestEntropy) == run.Attestation(swaps, bidEntropy, requestEntropy)
            && ResolvedBids(run'.FinalRanking(swaps)) == ResolvedBids(run.FinalRanking(swaps))
  {
    hide Outcome, Nonce, Ranked;
    var run' := run.(request := run.request.(bids := other));
    var wire := run.request.bids;
    SamePlaces(run, other, true);
    WireBidsArePartitioned(run.prim, wire);
    WireBidsArePartitioned(run.prim, other);
    var resolved := ResolveAll(run.prim, run.priv, CoreBids(run.prim, wire));
    var resolved' := ResolveAll(run.prim, run.priv, CoreBids(run.prim, other));
    var kept := Places(run.prim, wire, true);
    forall k | 0 <= k < |kept|
      ensures SameResolved(resolved[k], resolved'[k])
    {
      var i := kept[k];
      assert SameToArbiter(run.prim, run.priv, wire[i], other[i]);
      SameWireResolvesSame(run.prim, run.priv, wire[i], other[i], run.IdOf(i).value);
    }
    SameResolvedRankSame(resolved, resolved', swaps);
    SameRankingSameHashes(run.prim, run.FinalRanking(swaps), run'.FinalRanking(swaps), Nonce(bidEntropy));
  }

  ghost predicate AllSameResolved(a: seq<ArbiterBid>, b: seq<ArbiterBid>) {
    |a| == |b| && forall r :: 0 <= r < |a| ==> SameResolved(a[r], b[r])
  }

  lemma PickSameResolved(a: seq<ArbiterBid>, b: seq<ArbiterBid>, o: seq<nat>)
    requires AllSameResolved(a, b) && IndicesBelow(o, |a|)
    ensures AllSameResolved(Pick(a, o), Pick(b, o))
  {
    forall r | 0 <= r < |o|
      ensures SameResolved(Pick(a, o)[r], Pick(b, o)[r])
    {
      assert SameResolved(a[o[r]], b[o[r]]);
    }
  }

  lemma SameResolvedRankSame(a: seq<ArbiterBid>, b: seq<ArbiterBid>, swaps: seq<SwapStep>)
    requires AllSameResolved(a, b) && SwapsInRange(swaps, |a|)
    ensures AllSameResolved(Ranked(ApplySwaps(a, swaps)), Ranked(ApplySwaps(b, swaps)))
  {
    hide Order, Outcome, Ranked, ApplySwaps;
    RankingFollowsOutcome(a, swaps);
    RankingFollowsOutcome(b, swaps);
    assert Revenues(a) == Revenues(b);
    PickSameResolved(a, b, Outcome(Revenues(a), ShuffleOf(|a|, swaps)));
  }

  lemma {:induction false} SameRankingSameHashes(prim: Primitives, a: seq<ArbiterBid>, b: seq<ArbiterBid>,
                                                 nonce: string)
    requires AllSameResolved(a, b)
    ensures BidHashes(prim, a, nonce) == BidHashes(prim, b, nonce)
    ensures ResolvedBids(a) == ResolvedBids(b)
  {
    if a == [] {
    } else {
      var n := |a| - 1;
      assert SameResolved(a[n], b[n]);
      SameRankingSameHashes(prim, a[..n], b[..n], nonce);
    }
  }

  // ---- Sealed prices ----

  /** A bid whose ciphertext is a price sealed to this enclave's key is ranked at that price. */
  lemma SealedPriceIsRanked(run: Run, key: PrivateKey, i: nat, price: real)
    requires run.prim.OpensWhatItSeals() && run.priv == Some(key)
    requires i < |run.request.bids| && run.IdOf(i).Some? && run.request.bids[i].encryptedCPMDollars.Some?
    requires SealsPrice(run.prim, run.prim.publicKeyOf(key), price, run.request.bids[i].encryptedCPMDollars.value)
    ensures run.ResolvedOf(i).decrypted
    ensures run.RevenueOf(i) == CPMAsMicros(run.prim.floatOverflow, price)
  {
    OpenAfterSeal(run.prim, key, price, run.request.bids[i].encryptedCPMDollars.value);
  }

  /**
    Ranking by micros never inverts opened prices by a micro or more: a bid
    ranked later was sealed below the earlier one's price plus 0.001 CPM, unless
    both prices truncate to zero.
   */
  lemma RankingRespectsPrices(run: Run, o: seq<nat>, q: nat, r: nat)
    requires Ranks(run, o) && q < r < |o|
    ensures forall earlier, later ::
              && OpensTo(run.prim, run.priv, run.request.bids[o[q]].encryptedCPMDollars, earlier) && PriceInRange(earlier)
              && OpensTo(run.prim, run.priv, run.request.bids[o[r]].encryptedCPMDollars, later) && PriceInRange(later) ==>
                later < earlier + 0.001 || (-0.001 < earlier && later < 0.001)
  {
    hide OpensTo, PriceInRange, Run.ResolvedOf;
    assert run.RevenueOf(o[q]) >= run.RevenueOf(o[r]);
    RevenueOfWireBid(run, o[q]);
    RevenueOfWireBid(run, o[r]);
    forall earlier, later |
      && OpensTo(run.prim, run.priv, run.request.bids[o[q]].encryptedCPMDollars, earlier) && PriceInRange(earlier)
      && OpensTo(run.prim, run.priv, run.request.bids[o[r]].encryptedCPMDollars, later) && PriceInRange(later)
      ensures later < earlier + 0.001 || (-0.001 < earlier && later < 0.001)
    {
      if earlier + 0.001 <= later {
        MicrosSeparateIff(run.prim.floatOverflow, earlier, later);
      }
    }
  }
}
