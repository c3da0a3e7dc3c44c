/**
  What the validator accepts of an honestly attested document: any user data
  `ud` that attests a run's request, the ranking of its wire bids at places `o`,
  and the exclusion of those at places `d`. That every honest run produces such
  a document, under every shuffle and pair of nonces, is `HonestRunAttests`.
 */
module Protocol {
  import opened Prelude
  import opened Uuid
  import opened Bids
  import opened Primitives
  import opened BidHash
  import opened Permutations
  import opened Arbitration
  import opened Validation
  import opened HonestRun

  // ---- When a claim is true of a run ----

  /** Wire bid `i` carries the claimed ID, in whatever spelling, and resolved to the claimed revenue. */
  predicate Witness(run: Run, claim: Claim, i: nat) {
    && i < |run.request.bids|
    && run.IdOf(i).Some?
    && run.IdOf(i) == run.prim.parseUuid(claim.bidID)
    && run.RevenueOf(i) == claim.bidRevenue
  }

  /** The winning wire bid has the claimed ID. */
  predicate Won(run: Run, o: seq<nat>, claim: Claim)
    requires o != [] ==> o[0] < |run.request.bids| && run.IdOf(o[0]).Some?
  {
    o != [] && run.IdOf(o[0]) == run.prim.parseUuid(claim.bidID)
  }

  ghost predicate TrueInclusion(run: Run, o: seq<nat>, claim: Claim)
    requires Ranks(run, o)
  {
    && (exists i :: Witness(run, claim, i))
    && (claim.isWinner <==> Won(run, o, claim))
    && claim.requestID == run.request.requestID
  }

  /** Wire bid `i` does not parse and carries this ID. */
  predicate ExcludedAs(run: Run, bidID: string, i: nat) {
    i < |run.request.bids| && run.IdOf(i) == None && run.request.bids[i].id == bidID
  }

  ghost predicate TrueExclusion(run: Run, claim: Claim) {
    && (exists i :: ExcludedAs(run, claim.bidID, i))
    && claim.expectedExclusionReason == EXCLUSION_REASON_MALFORMED_BID_ID
    && claim.requestID == run.request.requestID
  }

  /** What a claim says is so: that its bid took part with this revenue and outcome, or that it was excluded. */
  ghost predicate True(run: Run, o: seq<nat>, claim: Claim)
    requires Ranks(run, o)
  {
    if claim.expectation == EXPECT_EXCLUDED then TrueExclusion(run, claim) else TrueInclusion(run, o, claim)
  }

  /** The string the validator hashes to look for a claimed bid. */
  function ClaimPreimage(run: Run, claim: Claim, nonce: string): string {
    BidPreimage(Canonical(run.prim.parseUuid, claim.bidID), claim.bidRevenue, nonce)
  }

  /** Wire bid `i` hashes like the claim. */
  predicate HashesAlike(run: Run, ud: UserData, claim: Claim, i: nat) {
    && i < |run.request.bids| && run.IdOf(i).Some?
    && run.prim.sha256(run.PreimageOf(i, ud.bidHashNonce))
       == run.prim.sha256(ClaimPreimage(run, claim, ud.bidHashNonce))
  }

  /** The claimed bid's string collides with none of those hashed for the run's bids. */
  ghost predicate NoBidCollision(run: Run, ud: UserData, claim: Claim) {
    forall i :: HashesAlike(run, ud, claim, i) ==>
      run.PreimageOf(i, ud.bidHashNonce) == ClaimPreimage(run, claim, ud.bidHashNonce)
  }

  /** The claimed request's string does not collide with the run's. */
  predicate NoRequestCollision(run: Run, ud: UserData, claim: Claim) {
    var ours := RequestPreimage(run.request.requestID, ud.requestNonce);
    var theirs := RequestPreimage(claim.requestID, ud.requestNonce);
    run.prim.sha256(ours) == run.prim.sha256(theirs) ==> ours == theirs
  }

  // ---- The checks, one by one ----

  lemma WinnerCheckIsTruthful(run: Run, o: seq<nat>, ud: UserData, claim: Claim)
    requires Lawful(run.prim.parseUuid) && AttestsBids(run, o, ud)
    ensures AttestedWinner(run.prim, claim, ud) <==> Won(run, o, claim)
  {
    if o != [] {
      CanonicalIsPrintIff(run.prim.parseUuid, claim.bidID, run.IdOf(o[0]).value);
    }
  }

  /** Absent a collision, the request check passes exactly for the run's own request ID. */
  lemma RequestCheckIsTruthful(run: Run, ud: UserData, claim: Claim)
    requires AttestsRequest(run, ud)
    ensures claim.requestID == run.request.requestID ==> RequestHashMatches(run.prim, claim, ud)
    ensures RequestHashMatches(run.prim, claim, ud) && NoRequestCollision(run, ud, claim) ==>
              claim.requestID == run.request.requestID
  {
    hide RequestPreimage;
    if RequestPreimage(claim.requestID, ud.requestNonce) == RequestPreimage(run.request.requestID, ud.requestNonce) {
      RequestPreimageInjective(claim.requestID, run.request.requestID, ud.requestNonce);
    }
  }

  /** The inclusion check passes exactly when the claim's string hashes like that of some ranked wire bid. */
  lemma ListedIffHashesAlike(run: Run, o: seq<nat>, ud: UserData, claim: Claim)
    requires AttestsBids(run, o, ud)
    ensures BidHashListed(run.prim, claim, ud) <==> exists i :: HashesAlike(run, ud, claim, i)
  {
    hide BidPreimage, Canonical, Run.PreimageOf;
    if BidHashListed(run.prim, claim, ud) {
      var r :| 0 <= r < |ud.bidHashes|
               && ud.bidHashes[r] == run.prim.sha256(ClaimPreimage(run, claim, ud.bidHashNonce));
      assert HashesAlike(run, ud, claim, o[r]);
    }
    if i :| HashesAlike(run, ud, claim, i) {
      var r :| 0 <= r < |o| && o[r] == i;
      assert ud.bidHashes[r] in ud.bidHashes;
    }
  }

  /** Two bid preimages agree exactly when the wire bid is the claimed one. */
  lemma SamePreimageIffWitness(run: Run, claim: Claim, i: nat, nonce: string)
    requires Lawful(run.prim.parseUuid) && i < |run.request.bids| && run.IdOf(i).Some?
    ensures run.PreimageOf(i, nonce) == ClaimPreimage(run, claim, nonce) <==> Witness(run, claim, i)
  {
    hide BidPreimage, Print;
    var u, id := run.IdOf(i).value, Canonical(run.prim.parseUuid, claim.bidID);
    CanonicalIsPrintIff(run.prim.parseUuid, claim.bidID, u);
    if run.PreimageOf(i, nonce) == ClaimPreimage(run, claim, nonce) {
      BidPreimageInjective(Print(u), run.RevenueOf(i), id, claim.bidRevenue, nonce);
    }
  }

  lemma BidCheckComplete(run: Run, o: seq<nat>, ud: UserData, claim: Claim, i: nat)
    requires Lawful(run.prim.parseUuid) && AttestsBids(run, o, ud) && Witness(run, claim, i)
    ensures BidHashListed(run.prim, claim, ud)
  {
    hide BidHashListed, Run.PreimageOf, ClaimPreimage;
    SamePreimageIffWitness(run, claim, i, ud.bidHashNonce);
    assert HashesAlike(run, ud, claim, i);
    ListedIffHashesAlike(run, o, ud, claim);
  }

  lemma BidCheckSound(run: Run, o: seq<nat>, ud: UserData, claim: Claim) returns (i: nat)
    requires Lawful(run.prim.parseUuid) && AttestsBids(run, o, ud)
    requires NoBidCollision(run, ud, claim)
    requires BidHashListed(run.prim, claim, ud)
    ensures Witness(run, claim, i)
  {
    hide BidHashListed, Run.PreimageOf, ClaimPreimage;
    ListedIffHashesAlike(run, o, ud, claim);
    i :| HashesAlike(run, ud, claim, i);
    SamePreimageIffWitness(run, claim, i, ud.bidHashNonce);
  }

  /**
    The exclusion check passes exactly for IDs of unparseable wire bids under
    the malformed-ID reason, although it looks at the first match only.
   */
  lemma ExclusionCheckIsTruthful(run: Run, d: seq<nat>, ud: UserData, claim: Claim)
    requires Excludes(run, d, ud.excludedBids)
    ensures ExclusionListed(claim, ud) <==>
            && (exists i :: ExcludedAs(run, claim.bidID, i))
            && claim.expectedExclusionReason == EXCLUSION_REASON_MALFORMED_BID_ID
  {
    hide FirstMatch;
    var excluded := ud.excludedBids;
    FirstMatchIsMember(claim.bidID, excluded);
    if ExclusionListed(claim, ud) {
      var k :| 0 <= k < |excluded| && excluded[k] == ExcludedBid(claim.bidID, claim.expectedExclusionReason);
      assert ExcludedAs(run, claim.bidID, d[k]);
    }
    if i :| ExcludedAs(run, claim.bidID, i) {
      var k :| 0 <= k < |d| && d[k] == i;
      assert excluded[k].bidID == claim.bidID;
    }
  }

  // ---- The main theorems ----

  /** Completeness: every true claim of inclusion is accepted, whatever the hash function. */
  lemma TrueInclusionIsAccepted(run: Run, o: seq<nat>, ud: UserData, claim: Claim)
    requires Lawful(run.prim.parseUuid) && AttestsBids(run, o, ud) && AttestsRequest(run, ud)
    requires TrueInclusion(run, o, claim)
    ensures AcceptsInclusion(run.prim, claim, ud)
  {
    hide Witness, Won, BidHashListed, AttestedWinner, RequestHashMatches;
    var i :| Witness(run, claim, i);
    BidCheckComplete(run, o, ud, claim, i);
    WinnerCheckIsTruthful(run, o, ud, claim);
    RequestCheckIsTruthful(run, ud, claim);
  }

  /** Completeness for exclusions: every true claim of exclusion is accepted. */
  lemma TrueExclusionIsAccepted(run: Run, d: seq<nat>, ud: UserData, claim: Claim)
    requires Excludes(run, d, ud.excludedBids) && AttestsRequest(run, ud)
    requires TrueExclusion(run, claim)
    ensures AcceptsExclusion(run.prim, claim, ud)
  {
    hide ExclusionListed, RequestHashMatches;
    ExclusionCheckIsTruthful(run, d, ud, claim);
    RequestCheckIsTruthful(run, ud, claim);
  }

  /**
    Soundness: an accepted claim of inclusion is true of the run, unless its own
    strings collide with ones hashed in the run.
   */
  lemma AcceptedInclusionIsTrue(run: Run, o: seq<nat>, ud: UserData, claim: Claim)
    requires Lawful(run.prim.parseUuid) && AttestsBids(run, o, ud) && AttestsRequest(run, ud)
    requires NoBidCollision(run, ud, claim) && NoRequestCollision(run, ud, claim)
    requires AcceptsInclusion(run.prim, claim, ud)
    ensures TrueInclusion(run, o, claim)
  {
    hide Witness, Won, BidHashListed, AttestedWinner, RequestHashMatches, NoBidCollision, NoRequestCollision;
    var i := BidCheckSound(run, o, ud, claim);
    WinnerCheckIsTruthful(run, o, ud, claim);
    RequestCheckIsTruthful(run, ud, claim);
  }

  /** Soundness for exclusions: an accepted claim of exclusion is true of the run. */
  lemma AcceptedExclusionIsTrue(run: Run, d: seq<nat>, ud: UserData, claim: Claim)
    requires Excludes(run, d, ud.excludedBids) && AttestsRequest(run, ud)
    requires NoRequestCollision(run, ud, claim)
    requires AcceptsExclusion(run.prim, claim, ud)
    ensures TrueExclusion(run, claim)
  {
    hide ExclusionListed, RequestHashMatches, NoRequestCollision;
    ExclusionCheckIsTruthful(run, d, ud, claim);
    RequestCheckIsTruthful(run, ud, claim);
  }

  /** The validator decides the truth: absent collisions it accepts exactly the true claims. */
  lemma AcceptedIffTrue(run: Run, o: seq<nat>, d: seq<nat>, ud: UserData, claim: Claim)
    requires Lawful(run.prim.parseUuid) && AttestsBids(run, o, ud) && AttestsRequest(run, ud)
    requires Excludes(run, d, ud.excludedBids)
    requires NoBidCollision(run, ud, claim) && NoRequestCollision(run, ud, claim)
    ensures Accepts(run.prim, claim, ud) <==> True(run, o, claim)
  {
    hide AcceptsInclusion, AcceptsExclusion, TrueInclusion, TrueExclusion, NoBidCollision, NoRequestCollision,
         AttestsRequest, Excludes;
    if AcceptsInclusion(run.prim, claim, ud) {
      AcceptedInclusionIsTrue(run, o, ud, claim);
    }
    if TrueInclusion(run, o, claim) {
      TrueInclusionIsAccepted(run, o, ud, claim);
    }
    if AcceptsExclusion(run.prim, claim, ud) {
      AcceptedExclusionIsTrue(run, d, ud, claim);
    }
    if TrueExclusion(run, claim) {
      TrueExclusionIsAccepted(run, d, ud, claim);
    }
  }

  /** So it does about every honest run, under every key, shuffle and pair of nonces. */
  lemma EveryHonestRunIsDecided(run: Run, swaps: seq<SwapStep>, bidEntropy: Entropy, requestEntropy: Entropy,
                                claim: Claim)
    requires Lawful(run.prim.parseUuid) && run.InRange(swaps)
    requires NoBidCollision(run, run.Attestation(swaps, bidEntropy, requestEntropy), claim)
    requires NoRequestCollision(run, run.Attestation(swaps, bidEntropy, requestEntropy), claim)
    ensures Ranks(run, run.Origins(swaps))
    ensures Accepts(run.prim, claim, run.Attestation(swaps, bidEntropy, requestEntropy)) <==>
            True(run, run.Origins(swaps), claim)
  {
    hide UserDataFor, Accepts, True, NoBidCollision, NoRequestCollision, Ranks, AttestsRequest, Excludes, Places,
         Run.Origins;
    HonestRunAttests(run, swaps, bidEntropy, requestEntropy);
    AcceptedIffTrue(run, run.Origins(swaps), Places(run.prim, run.request.bids, false),
                    run.Attestation(swaps, bidEntropy, requestEntropy), claim);
  }

  /**
    From request to verdict: the document that a successful request returns,
    handed to the validator, gives a valid result exactly when the platform
    checks pass and the claim is true of the run.
   */
  method HandleThenValidate(prim: Primitives, km: KeyManager, req: Request, swaps: seq<SwapStep>, attest: AttestRun,
                            claim: Claim, knownPCRSets: nat, platform: PlatformChecks)
    returns (resp: Response, result: ArbitrationValidationResult)
    requires Lawful(prim.parseUuid) && Run(prim, km.privateKey, req).InRange(swaps)
    requires AttestFailure(attest) == None && knownPCRSets > 0
    requires var run := Run(prim, km.privateKey, req);
             var ud := run.Attestation(swaps, attest.bidEntropy.value, attest.requestEntropy.value);
             NoBidCollision(run, ud, claim) && NoRequestCollision(run, ud, claim)
    ensures resp.success && resp.attestation.Some? && fresh(result)
    ensures var run := Run(prim, km.privateKey, req);
            && Ranks(run, run.Origins(swaps))
            && (result.IsValid() <==>
                  platform == PlatformChecks(true, true, true) && True(run, run.Origins(swaps), claim))
  {
    hide UserDataFor, Accepts, True, NoBidCollision, NoRequestCollision, Ranks, Records, RankedFor, Run.Origins;
    resp := HandleArbitrationRequest(prim, Some(km), req, swaps, attest);
    var envelope := Envelope(true, Some(platform), Ok(resp.attestation));
    var r := ValidateArbitrationAttestation(prim, Some(claim), knownPCRSets, envelope);
    result := r.value;
    EveryHonestRunIsDecided(Run(prim, km.privateKey, req), swaps, attest.bidEntropy.value, attest.requestEntropy.value,
                            claim);
  }

  // ---- What the details tell ----

  /**
    The details of a claim of inclusion report the truth about each of its
    parts: whether the bid took part at that revenue, whether it won and at
    what revenue the winner won, and whether the request is the run's. They
    never report a missing nonce.
   */
  lemma InclusionDetailsAreTruthful(run: Run, o: seq<nat>, ud: UserData, claim: Claim)
    requires Lawful(run.prim.parseUuid) && AttestsBids(run, o, ud)
    requires NoBidCollision(run, ud, claim)
    ensures match BidHashDetail(run.prim, claim, ud)
            case BidHashFound(_) => exists i :: Witness(run, claim, i)
            case BidHashNotFound(_, hashes) => hashes == |o| && !exists i :: Witness(run, claim, i)
            case _ => false
    ensures match WinnerDetail(run.prim, claim, ud)
            case WonAsExpected(revenue) => claim.isWinner && Won(run, o, claim) && revenue == run.RevenueOf(o[0])
            case LostAsExpected => !claim.isWinner && !Won(run, o, claim)
            case ExpectedToWin => claim.isWinner && !Won(run, o, claim)
            case ExpectedToLose(revenue) => !claim.isWinner && Won(run, o, claim) && revenue == run.RevenueOf(o[0])
            case _ => false
  {
    hide BidHashListed, AttestedWinner, Run.PreimageOf, Witness, NoBidCollision;
    if BidHashListed(run.prim, claim, ud) {
      var i := BidCheckSound(run, o, ud, claim);
    }
    if i :| Witness(run, claim, i) {
      BidCheckComplete(run, o, ud, claim, i);
    }
    WinnerCheckIsTruthful(run, o, ud, claim);
  }

  /** The details of a claim of exclusion tell an unknown bid from a wrong reason, and then give the right one. */
  lemma ExclusionDetailIsTruthful(run: Run, d: seq<nat>, ud: UserData, claim: Claim)
    requires Excludes(run, d, ud.excludedBids)
    ensures match ExclusionDetail(claim, ud)
            case ExclusionConfirmed(id, reason) =>
              && id == claim.bidID && (exists i :: ExcludedAs(run, id, i))
              && reason == claim.expectedExclusionReason == EXCLUSION_REASON_MALFORMED_BID_ID
            case ExclusionReasonMismatch(expected, attested) =>
              && (exists i :: ExcludedAs(run, claim.bidID, i))
              && expected == claim.expectedExclusionReason != attested == EXCLUSION_REASON_MALFORMED_BID_ID
            case ExclusionNotFound(id, exclusions) =>
              && id == claim.bidID && exclusions == |d| && !exists i :: ExcludedAs(run, id, i)
            case _ => false
  {
    hide FirstMatch;
    var excluded := ud.excludedBids;
    FirstMatchIsMember(claim.bidID, excluded);
    if FirstMatch(claim.bidID, excluded).Some? {
      var k :| 0 <= k < |excluded| && excluded[k] == FirstMatch(claim.bidID, excluded).value;
      assert ExcludedAs(run, claim.bidID, d[k]);
    }
    if i :| ExcludedAs(run, claim.bidID, i) {
      var k :| 0 <= k < |d| && d[k] == i;
      assert excluded[k].bidID == claim.bidID;
    }
  }

  lemma RequestDetailIsTruthful(run: Run, ud: UserData, claim: Claim)
    requires AttestsRequest(run, ud) && NoRequestCollision(run, ud, claim)
    ensures match RequestHashDetail(run.prim, claim, ud)
            case RequestHashPassed => claim.requestID == run.request.requestID
            case RequestHashMismatch(computed, attested) =>
              claim.requestID != run.request.requestID && computed != attested
            case _ => false
  {
    RequestCheckIsTruthful(run, ud, claim);
  }

  // ---- What bidders can prove ----

  /** The claim a bidder makes about its ranked wire bid `i`, spelling its ID as `spelling`. */
  function InclusionClaim(run: Run, o: seq<nat>, i: nat, spelling: string): Claim
    requires i < |run.request.bids| && run.IdOf(i).Some?
    requires o != [] ==> o[0] < |run.request.bids|
  {
    Claim(run.request.requestID, spelling, run.RevenueOf(i), EXPECT_INCLUDED, "",
          o != [] && run.IdOf(o[0]) == run.IdOf(i))
  }

  /** The claim a bidder makes about its excluded wire bid `i`. */
  function ExclusionClaim(run: Run, i: nat): Claim
    requires i < |run.request.bids|
  {
    Claim(run.request.requestID, run.request.bids[i].id, 0, EXPECT_EXCLUDED, EXCLUSION_REASON_MALFORMED_BID_ID, false)
  }

  /** Every wire bid whose ID parses can prove its part, under any spelling that parses to the same UUID. */
  lemma IncludedBidCanProveIt(run: Run, o: seq<nat>, ud: UserData, i: nat, spelling: string)
    requires Lawful(run.prim.parseUuid) && AttestsBids(run, o, ud) && AttestsRequest(run, ud)
    requires i < |run.request.bids| && run.IdOf(i).Some? && run.prim.parseUuid(spelling) == run.IdOf(i)
    ensures Accepts(run.prim, InclusionClaim(run, o, i, spelling), ud)
  {
    hide AcceptsInclusion, AttestsRequest;
    assert Witness(run, InclusionClaim(run, o, i, spelling), i);
    TrueInclusionIsAccepted(run, o, ud, InclusionClaim(run, o, i, spelling));
  }

  /** Every wire bid whose ID does not parse can prove its exclusion. */
  lemma ExcludedBidCanProveIt(run: Run, d: seq<nat>, ud: UserData, i: nat)
    requires Excludes(run, d, ud.excludedBids) && AttestsRequest(run, ud)
    requires i < |run.request.bids| && run.IdOf(i) == None
    ensures Accepts(run.prim, ExclusionClaim(run, i), ud)
  {
    hide AcceptsExclusion, Excludes, AttestsRequest;
    assert ExcludedAs(run, ExclusionClaim(run, i).bidID, i);
    TrueExclusionIsAccepted(run, d, ud, ExclusionClaim(run, i));
  }

  /**
    With the concrete parser the spelling may be any of the accepted ones of the
    UUID that the bid's own ID spells.
   */
  lemma AnySpellingWillDo(run: Run, o: seq<nat>, ud: UserData, i: nat, u: Uuid, spelling: string)
    requires run.prim.parseUuid == Parse && AttestsBids(run, o, ud) && AttestsRequest(run, ud)
    requires i < |run.request.bids| && Spells(run.request.bids[i].id, u) && Spells(spelling, u)
    ensures run.IdOf(i) == Some(u)
    ensures Accepts(run.prim, InclusionClaim(run, o, i, spelling), ud)
  {
    hide Accepts, AttestsBids, AttestsRequest, Spells, Parse;
    ParseIffSpells(run.request.bids[i].id, u);
    ParseIffSpells(spelling, u);
    ParseIsLawful();
    IncludedBidCanProveIt(run, o, ud, i, spelling);
  }

  /** No ID is both included and excluded, whatever else the two claims say. */
  lemma InclusionAndExclusionExclude(run: Run, o: seq<nat>, d: seq<nat>, ud: UserData, included: Claim, excluded: Claim)
    requires Lawful(run.prim.parseUuid) && AttestsBids(run, o, ud) && Excludes(run, d, ud.excludedBids)
    requires NoBidCollision(run, ud, included)
    requires included.bidID == excluded.bidID
    ensures !(BidHashListed(run.prim, included, ud) && ExclusionListed(excluded, ud))
  {
    hide AttestsBids, Excludes, NoBidCollision, BidHashListed, ExclusionListed;
    if BidHashListed(run.prim, included, ud) {
      var i := BidCheckSound(run, o, ud, included);
      ExclusionCheckIsTruthful(run, d, ud, excluded);
    }
  }

  // ---- Accepted claims and the auction ----

  /** No accepted claim of inclusion states more revenue than the attested winner's. */
  lemma NoAcceptedClaimBeatsTheWinner(run: Run, o: seq<nat>, ud: UserData, claim: Claim)
    requires Lawful(run.prim.parseUuid) && AttestsBids(run, o, ud)
    requires NoBidCollision(run, ud, claim)
    requires BidHashListed(run.prim, claim, ud)
    ensures ud.winner.Some? && claim.bidRevenue <= ud.winner.value.revenue
  {
    hide NoBidCollision, BidHashListed;
    var i := BidCheckSound(run, o, ud, claim);
    var r :| 0 <= r < |o| && o[r] == i;
    assert r == 0 || run.RevenueOf(o[0]) >= run.RevenueOf(o[r]);
  }

  /** All bids that share wire bid `w`'s UUID resolved to its revenue. */
  ghost predicate OneRevenuePerId(run: Run, w: nat)
    requires w < |run.request.bids| && run.IdOf(w).Some?
  {
    forall i :: 0 <= i < |run.request.bids| && run.IdOf(i) == run.IdOf(w) ==> run.RevenueOf(i) == run.RevenueOf(w)
  }

  /** A claim the validator accepts as winning although its revenue is not the winner's. */
  predicate WinsAtAnotherRevenue(run: Run, ud: UserData, claim: Claim) {
    && claim.isWinner && AcceptsInclusion(run.prim, claim, ud)
    && ud.winner.Some? && claim.bidRevenue != ud.winner.value.revenue
  }

  lemma OneRevenueWinsExactly(run: Run, o: seq<nat>, ud: UserData, claim: Claim)
    requires Lawful(run.prim.parseUuid) && AttestsBids(run, o, ud) && o != []
    requires OneRevenuePerId(run, o[0])
    requires NoBidCollision(run, ud, claim)
    ensures !WinsAtAnotherRevenue(run, ud, claim)
  {
    hide NoBidCollision, BidHashListed, AttestedWinner;
    if claim.isWinner && AcceptsInclusion(run.prim, claim, ud) {
      var i := BidCheckSound(run, o, ud, claim);
      WinnerCheckIsTruthful(run, o, ud, claim);
    }
  }

  lemma TwinWinsAtItsOwnRevenue(run: Run, o: seq<nat>, ud: UserData, i: nat)
    requires Lawful(run.prim.parseUuid) && AttestsBids(run, o, ud) && AttestsRequest(run, ud) && o != []
    requires i < |run.request.bids| && run.IdOf(i) == run.IdOf(o[0])
    requires run.RevenueOf(i) != run.RevenueOf(o[0])
    ensures WinsAtAnotherRevenue(run, ud, InclusionClaim(run, o, i, run.request.bids[i].id))
  {
    hide AcceptsInclusion, AttestsRequest;
    IncludedBidCanProveIt(run, o, ud, i, run.request.bids[i].id);
  }

  /**
    The validator compares winners by ID only. A winning claim at a revenue
    other than the winner's can be accepted exactly when the request holds a bid
    with the winner's UUID that resolved to a different revenue.
   */
  lemma WinningClaimsAreExactIff(run: Run, o: seq<nat>, ud: UserData)
    requires Lawful(run.prim.parseUuid) && AttestsBids(run, o, ud) && AttestsRequest(run, ud) && o != []
    ensures OneRevenuePerId(run, o[0]) ==>
              forall claim :: NoBidCollision(run, ud, claim) ==> !WinsAtAnotherRevenue(run, ud, claim)
    ensures !OneRevenuePerId(run, o[0]) ==> exists claim :: WinsAtAnotherRevenue(run, ud, claim)
  {
    hide NoBidCollision, WinsAtAnotherRevenue;
    if OneRevenuePerId(run, o[0]) {
      forall claim | NoBidCollision(run, ud, claim)
        ensures !WinsAtAnotherRevenue(run, ud, claim)
      {
        OneRevenueWinsExactly(run, o, ud, claim);
      }
    } else {
      var i :| 0 <= i < |run.request.bids| && run.IdOf(i) == run.IdOf(o[0]) && run.RevenueOf(i) != run.RevenueOf(o[0]);
      TwinWinsAtItsOwnRevenue(run, o, ud, i);
    }
  }

  /** The request repeats the UUID of a bid of the highest revenue at another revenue. */
  ghost predicate TopBidHasTwin(run: Run) {
    exists w :: TopRevenue(run, w) && !OneRevenuePerId(run, w)
  }

  /** A run's claim to have won at another revenue is accepted, and not because of a collision. */
  ghost predicate CanWinWrongly(run: Run, swaps: seq<SwapStep>, bidEntropy: Entropy, requestEntropy: Entropy,
                                claim: Claim)
  {
    && run.InRange(swaps)
    && NoBidCollision(run, run.Attestation(swaps, bidEntropy, requestEntropy), claim)
    && WinsAtAnotherRevenue(run, run.Attestation(swaps, bidEntropy, requestEntropy), claim)
  }

  /** A claim about one of the run's own bids collides with none of them if these do not collide. */
  lemma OwnClaimDoesNotCollide(run: Run, ud: UserData, claim: Claim, i: nat)
    requires Lawful(run.prim.parseUuid) && NoCollisionBetween(run, run, ud.bidHashNonce)
    requires Witness(run, claim, i)
    ensures NoBidCollision(run, ud, claim)
  {
    hide Run.PreimageOf, ClaimPreimage;
    SamePreimageIffWitness(run, claim, i, ud.bidHashNonce);
  }

  /** Elect the bid that has a twin, and let the twin claim the win. */
  lemma TopTwinWinsWrongly(run: Run, bidEntropy: Entropy, requestEntropy: Entropy)
    returns (swaps: seq<SwapStep>, claim: Claim)
    requires Lawful(run.prim.parseUuid) && TopBidHasTwin(run)
    ensures run.InRange(swaps)
    ensures WinsAtAnotherRevenue(run, run.Attestation(swaps, bidEntropy, requestEntropy), claim)
    ensures exists i :: Witness(run, claim, i)
  {
    hide UserDataFor, WinsAtAnotherRevenue, Run.Origins, Excludes, AttestsRequest, Places, Run.ResolvedOf;
    var w :| TopRevenue(run, w) && !OneRevenuePerId(run, w);
    swaps := TopBidCanWin(run, w);
    HonestRunAttests(run, swaps, bidEntropy, requestEntropy);
    var o := run.Origins(swaps);
    var i :| 0 <= i < |run.request.bids| && run.IdOf(i) == run.IdOf(w) && run.RevenueOf(i) != run.RevenueOf(w);
    claim := InclusionClaim(run, o, i, run.request.bids[i].id);
    TwinWinsAtItsOwnRevenue(run, o, run.Attestation(swaps, bidEntropy, requestEntropy), i);
    assert Witness(run, claim, i);
  }

  lemma OnlyTopTwinWinsWrongly(run: Run, swaps: seq<SwapStep>, bidEntropy: Entropy, requestEntropy: Entropy,
                               claim: Claim)
    requires Lawful(run.prim.parseUuid) && CanWinWrongly(run, swaps, bidEntropy, requestEntropy, claim)
    ensures TopBidHasTwin(run)
  {
    hide UserDataFor, Run.Origins, Excludes, AttestsRequest, Places, NoBidCollision, BidHashListed, OneRevenuePerId,
         Ranks, TopRevenue, AttestedWinner, RequestHashMatches;
    HonestRunAttests(run, swaps, bidEntropy, requestEntropy);
    var o, ud := run.Origins(swaps), run.Attestation(swaps, bidEntropy, requestEntropy);
    assert o != [];
    WinnerHasTopRevenue(run, o);
    if OneRevenuePerId(run, o[0]) {
      OneRevenueWinsExactly(run, o, ud, claim);
    }
  }

  /**
    The condition on the request alone: under some shuffle a claim to have won
    at another revenue than the winner's is accepted exactly when a bid of the
    highest revenue shares its UUID with a bid of another revenue.
   */
  lemma WrongWinsIff(run: Run, bidEntropy: Entropy, requestEntropy: Entropy)
    requires Lawful(run.prim.parseUuid) && NoCollisionBetween(run, run, Nonce(bidEntropy))
    ensures (exists swaps, claim :: CanWinWrongly(run, swaps, bidEntropy, requestEntropy, claim)) <==> TopBidHasTwin(run)
  {
    hide Nonce, WinsAtAnotherRevenue, TopBidHasTwin, NoBidCollision, NoCollisionBetween, Witness, RankedFor, BidHashes;
    if swaps, claim :| CanWinWrongly(run, swaps, bidEntropy, requestEntropy, claim) {
      OnlyTopTwinWinsWrongly(run, swaps, bidEntropy, requestEntropy, claim);
    }
    if TopBidHasTwin(run) {
      var swaps, claim := TopTwinWinsWrongly(run, bidEntropy, requestEntropy);
      var i :| Witness(run, claim, i);
      OwnClaimDoesNotCollide(run, run.Attestation(swaps, bidEntropy, requestEntropy), claim, i);
      assert CanWinWrongly(run, swaps, bidEntropy, requestEntropy, claim);
    }
  }

  /** Such requests exist: where two bids share a UUID, the cheaper one is accepted as winning at its own revenue. */
  lemma CheaperTwinWins(run: Run, u: Uuid, swaps: seq<SwapStep>, bidEntropy: Entropy, requestEntropy: Entropy)
    requires Lawful(run.prim.parseUuid)
    requires run.request.bids == [WireBid(Print(u), "", 10, None), WireBid(Print(u), "", 5, None)]
    requires run.InRange(swaps)
    ensures WinsAtAnotherRevenue(run, run.Attestation(swaps, bidEntropy, requestEntropy),
                                 Claim(run.request.requestID, Print(u), 5, EXPECT_INCLUDED, "", true))
  {
    hide UserDataFor, WinsAtAnotherRevenue, Print, Run.Origins, Excludes, AttestsRequest;
    HonestRunAttests(run, swaps, bidEntropy, requestEntropy);
    var o := run.Origins(swaps);
    assert run.RevenueOf(0) == 10 && run.RevenueOf(1) == 5;
    assert 0 in o && o[0] == 0;
    TwinWinsAtItsOwnRevenue(run, o, run.Attestation(swaps, bidEntropy, requestEntropy), 1);
  }

  /** Requests whose bids all have different UUIDs never admit such a claim. */
  lemma DistinctIdsHaveOneRevenue(run: Run, w: nat)
    requires w < |run.request.bids| && run.IdOf(w).Some?
    requires forall i, j :: 0 <= i < j < |run.request.bids| && run.IdOf(i).Some? ==> run.IdOf(i) != run.IdOf(j)
    ensures OneRevenuePerId(run, w)
  {
  }
}
