/** The off-enclave check of an arbitration attestation. */
module Validation {
  import opened Prelude
  import opened Units
  import opened Uuid
  import opened Decimal
  import opened Bids
  import opened Primitives
  import opened BidHash
  import opened Arbitration

  const EXPECT_INCLUDED := 0
  const EXPECT_EXCLUDED := 1

  /** The caller's claim about its bid. Any expectation but `EXPECT_EXCLUDED` takes the inclusion path. */
  datatype Claim = Claim(
    requestID: string,
    bidID: string,
    bidRevenue: MicroDollars,
    expectation: int,
    expectedExclusionReason: string,
    isWinner: bool)

  datatype PlatformChecks = PlatformChecks(pcrs: bool, certificate: bool, signature: bool) {
    predicate Pass() {
      pcrs && certificate && signature
    }
  }

  datatype ValidationError = NilInput | NoPCRSets | Undecompressable | UnparseableCommon | UnparseableUserData

  /** What decoding the attestation envelope yields; the decoders are not part of this model. */
  datatype Envelope = Envelope(
    decompresses: bool,
    platform: Option<PlatformChecks>,
    userData: Result<Option<UserData>, ValidationError>)

  datatype Detail =
    | UserDataMissing
    | ExclusionConfirmed(bidID: string, reason: string)
    | ExclusionReasonMismatch(expected: string, attested: string)
    | ExclusionNotFound(bidID: string, attestedExclusions: nat)
    | BidHashNonceMissing
    | BidHashFound(computed: string)
    | BidHashNotFound(computed: string, attestedHashes: nat)
    | RequestHashNonceMissing
    | RequestHashPassed
    | RequestHashMismatch(computed: string, attested: string)
    | WonAsExpected(revenue: MicroDollars)
    | LostAsExpected
    | ExpectedToWin
    | ExpectedToLose(revenue: MicroDollars)

  // ---- What each check decides ----

  predicate BidHashListed(prim: Primitives, claim: Claim, ud: UserData) {
    && ud.bidHashNonce != ""
    && ComputeBidHash(prim.sha256, Canonical(prim.parseUuid, claim.bidID), claim.bidRevenue, ud.bidHashNonce)
       in ud.bidHashes
  }

  predicate AttestedWinner(prim: Primitives, claim: Claim, ud: UserData) {
    ud.winner.Some? && ud.winner.value.id == Canonical(prim.parseUuid, claim.bidID)
  }

  predicate RequestHashMatches(prim: Primitives, claim: Claim, ud: UserData) {
    ud.requestNonce != "" && ComputeRequestHash(prim.sha256, claim.requestID, ud.requestNonce) == ud.requestHash
  }

  /** The first exclusion of `bidID`, if any. */
  function FirstMatch(bidID: string, excluded: seq<ExcludedBid>): Option<ExcludedBid> {
    if excluded == [] then None
    else if excluded[0].bidID == bidID then Some(excluded[0])
    else FirstMatch(bidID, excluded[1..])
  }

  /** The first attested exclusion of the claimed ID carries the expected reason. */
  predicate ExclusionListed(claim: Claim, ud: UserData) {
    FirstMatch(claim.bidID, ud.excludedBids) == Some(ExcludedBid(claim.bidID, claim.expectedExclusionReason))
  }

  predicate AcceptsInclusion(prim: Primitives, claim: Claim, ud: UserData) {
    && BidHashListed(prim, claim, ud)
    && claim.isWinner == AttestedWinner(prim, claim, ud)
    && RequestHashMatches(prim, claim, ud)
  }

  predicate AcceptsExclusion(prim: Primitives, claim: Claim, ud: UserData) {
    ExclusionListed(claim, ud) && RequestHashMatches(prim, claim, ud)
  }

  /** The user-data checks pass, on the path the claim selects. */
  predicate Accepts(prim: Primitives, claim: Claim, ud: UserData) {
    if claim.expectation == EXPECT_EXCLUDED then AcceptsExclusion(prim, claim, ud)
    else AcceptsInclusion(prim, claim, ud)
  }

  // ---- The validator ----

  class ArbitrationValidationResult {
    var platform: PlatformChecks
    var bidHashValid: bool
    var bidExclusionValid: bool
    var requestHashValid: bool
    var winnerValid: bool
    var details: seq<Detail>

    constructor (platform: PlatformChecks)
      ensures this.platform == platform && details == []
      ensures !bidHashValid && !bidExclusionValid && !requestHashValid && !winnerValid
    {
      this.platform := platform;
      bidHashValid, bidExclusionValid, requestHashValid, winnerValid := false, false, false, false;
      details := [];
    }

    predicate IsValid()
      reads this
    {
      platform.Pass() && bidHashValid && bidExclusionValid && requestHashValid && winnerValid
    }

    method ValidateBidExclusion(claim: Claim, ud: UserData) returns (ok: bool)
      modifies this`details
      ensures ok == ExclusionListed(claim, ud)
      ensures details == old(details) + [ExclusionDetail(claim, ud)]
    {
      var i := 0;
      while i < |ud.excludedBids|
        invariant i <= |ud.excludedBids|
        invariant forall j :: 0 <= j < i ==> ud.excludedBids[j].bidID != claim.bidID
      {
        var eb := ud.excludedBids[i];
        if eb.bidID == claim.bidID {
          FirstMatchIff(claim.bidID, ud.excludedBids, eb);
          if eb.reason == claim.expectedExclusionReason {
            details := details + [ExclusionConfirmed(eb.bidID, eb.reason)];
            return true;
          }
          details := details + [ExclusionReasonMismatch(claim.expectedExclusionReason, eb.reason)];
          return false;
        }
        i := i + 1;
      }
      FirstMatchIff(claim.bidID, ud.excludedBids, ExcludedBid("", ""));
      details := details + [ExclusionNotFound(claim.bidID, |ud.excludedBids|)];
      return false;
    }

    method ValidateBidHash(prim: Primitives, claim: Claim, ud: UserData) returns (ok: bool)
      modifies this`details
      ensures ok == BidHashListed(prim, claim, ud)
      ensures details == old(details) + [BidHashDetail(prim, claim, ud)]
    {
      var nonce := ud.bidHashNonce;
      if nonce == "" {
        details := details + [BidHashNonceMissing];
        return false;
      }
      var computed := ComputeBidHash(prim.sha256, Canonical(prim.parseUuid, claim.bidID), claim.bidRevenue, nonce);
      var i := 0;
      while i < |ud.bidHashes|
        invariant i <= |ud.bidHashes|
        invariant computed !in ud.bidHashes[..i]
      {
        if ud.bidHashes[i] == computed {
          details := details + [BidHashFound(computed)];
          return true;
        }
        i := i + 1;
      }
      assert ud.bidHashes[..i] == ud.bidHashes;
      details := details + [BidHashNotFound(computed, |ud.bidHashes|)];
      return false;
    }

    method ValidateRequestHash(prim: Primitives, claim: Claim, ud: UserData) returns (ok: bool)
      modifies this`details
      ensures ok == RequestHashMatches(prim, claim, ud)
      ensures details == old(details) + [RequestHashDetail(prim, claim, ud)]
    {
      var nonce := ud.requestNonce;
      if nonce == "" {
        details := details + [RequestHashNonceMissing];
        return false;
      }
      var computed := ComputeRequestHash(prim.sha256, claim.requestID, nonce);
      if computed == ud.requestHash {
        details := details + [RequestHashPassed];
        return true;
      }
      details := details + [RequestHashMismatch(computed, ud.requestHash)];
      return false;
    }

    method ValidateWinner(prim: Primitives, claim: Claim, ud: UserData) returns (ok: bool)
      modifies this`details
      ensures ok == (claim.isWinner == AttestedWinner(prim, claim, ud))
      ensures details == old(details) + [WinnerDetail(prim, claim, ud)]
    {
      var winner := ud.winner;
      var actuallyWon := winner.Some? && winner.value.id == Canonical(prim.parseUuid, claim.bidID);
      if claim.isWinner == actuallyWon {
        details := details + [if actuallyWon then WonAsExpected(winner.value.revenue) else LostAsExpected];
        return true;
      }
      if claim.isWinner && !actuallyWon {
        details := details + [ExpectedToWin];
      } else {
        details := details + [ExpectedToLose(winner.value.revenue)];
      }
      return false;
    }
  }

  /** The first match has the ID and nothing before it does; without a match nothing has. */
  lemma {:induction false} FirstMatchIff(bidID: string, excluded: seq<ExcludedBid>, eb: ExcludedBid)
    ensures FirstMatch(bidID, excluded) == Some(eb) <==>
            exists i :: 0 <= i < |excluded| && excluded[i] == eb && eb.bidID == bidID
              && forall j :: 0 <= j < i ==> excluded[j].bidID != bidID
    ensures FirstMatch(bidID, excluded) == None <==>
            forall j :: 0 <= j < |excluded| ==> excluded[j].bidID != bidID
  {
    if excluded == [] || excluded[0].bidID == bidID {
    } else {
      var rest := excluded[1..];
      FirstMatchIff(bidID, rest, eb);
      assert forall i :: 0 <= i < |rest| ==> rest[i] == excluded[i + 1];
      if i :| 0 <= i < |excluded| && excluded[i] == eb && eb.bidID == bidID
              && forall j :: 0 <= j < i ==> excluded[j].bidID != bidID {
        assert rest[i - 1] == eb;
        assert forall j :: 0 <= j < i - 1 ==> rest[j].bidID != bidID;
      }
      if i :| 0 <= i < |rest| && rest[i] == eb && eb.bidID == bidID
              && forall j :: 0 <= j < i ==> rest[j].bidID != bidID {
        assert excluded[i + 1] == eb;
        assert forall j :: 0 < j < i + 1 ==> excluded[j] == rest[j - 1];
      }
      assert forall j :: 0 < j < |excluded| ==> excluded[j] == rest[j - 1];
    }
  }

  lemma {:induction false} FirstMatchIsMember(bidID: string, excluded: seq<ExcludedBid>)
    ensures match FirstMatch(bidID, excluded)
            case Some(eb) => eb in excluded && eb.bidID == bidID
            case None => forall j :: 0 <= j < |excluded| ==> excluded[j].bidID != bidID
  {
    if excluded == [] {
    } else {
      FirstMatchIsMember(bidID, excluded[1..]);
    }
  }

  // ---- What each check reports ----

  function ExclusionDetail(claim: Claim, ud: UserData): Detail {
    match FirstMatch(claim.bidID, ud.excludedBids)
    case Some(eb) =>
      if ExclusionListed(claim, ud) then ExclusionConfirmed(eb.bidID, eb.reason)
      else ExclusionReasonMismatch(claim.expectedExclusionReason, eb.reason)
    case None => ExclusionNotFound(claim.bidID, |ud.excludedBids|)
  }

  function BidHashDetail(prim: Primitives, claim: Claim, ud: UserData): Detail {
    var computed := ComputeBidHash(prim.sha256, Canonical(prim.parseUuid, claim.bidID),
                                   claim.bidRevenue, ud.bidHashNonce);
    if ud.bidHashNonce == "" then BidHashNonceMissing
    else if BidHashListed(prim, claim, ud) then BidHashFound(computed)
    else BidHashNotFound(computed, |ud.bidHashes|)
  }

  function RequestHashDetail(prim: Primitives, claim: Claim, ud: UserData): Detail {
    if ud.requestNonce == "" then RequestHashNonceMissing
    else if RequestHashMatches(prim, claim, ud) then RequestHashPassed
    else RequestHashMismatch(ComputeRequestHash(prim.sha256, claim.requestID, ud.requestNonce), ud.requestHash)
  }

  function WinnerDetail(prim: Primitives, claim: Claim, ud: UserData): Detail {
    match (claim.isWinner, AttestedWinner(prim, claim, ud))
    case (true, true) => WonAsExpected(ud.winner.value.revenue)
    case (false, false) => LostAsExpected
    case (true, false) => ExpectedToWin
    case (false, true) => ExpectedToLose(ud.winner.value.revenue)
  }

  /**
    The detail of the inclusion check on any document: the one string the
    bidder's claim stands for, and whether its hash is among the attested ones.
   */
  lemma BidHashDetailOnAnyDocument(prim: Primitives, claim: Claim, ud: UserData)
    ensures var text := Canonical(prim.parseUuid, claim.bidID) + "|" + FormatInt(claim.bidRevenue) + "|" + ud.bidHashNonce;
            match BidHashDetail(prim, claim, ud)
            case BidHashNonceMissing => ud.bidHashNonce == "" && !BidHashListed(prim, claim, ud)
            case BidHashFound(computed) =>
              && ud.bidHashNonce != "" && computed == prim.sha256(text)
              && (exists i :: 0 <= i < |ud.bidHashes| && ud.bidHashes[i] == computed)
              && BidHashListed(prim, claim, ud)
            case BidHashNotFound(computed, hashes) =>
              && ud.bidHashNonce != "" && computed == prim.sha256(text)
              && hashes == |ud.bidHashes| && (forall i :: 0 <= i < |ud.bidHashes| ==> ud.bidHashes[i] != computed)
              && !BidHashListed(prim, claim, ud)
            case _ => false
  {
  }

  /** The detail of the request check on any document. */
  lemma RequestHashDetailOnAnyDocument(prim: Primitives, claim: Claim, ud: UserData)
    ensures match RequestHashDetail(prim, claim, ud)
            case RequestHashNonceMissing => ud.requestNonce == "" && !RequestHashMatches(prim, claim, ud)
            case RequestHashPassed =>
              && ud.requestNonce != "" && ud.requestHash == prim.sha256(claim.requestID + "|" + ud.requestNonce)
              && RequestHashMatches(prim, claim, ud)
            case RequestHashMismatch(computed, attested) =>
              && ud.requestNonce != "" && computed == prim.sha256(claim.requestID + "|" + ud.requestNonce)
              && attested == ud.requestHash != computed && !RequestHashMatches(prim, claim, ud)
            case _ => false
  {
  }

  /** The detail of the exclusion check on any document: what the first exclusion of the claimed ID says. */
  lemma ExclusionDetailOnAnyDocument(claim: Claim, ud: UserData)
    ensures match ExclusionDetail(claim, ud)
            case ExclusionConfirmed(id, reason) =>
              && id == claim.bidID && reason == claim.expectedExclusionReason
              && FirstExcluded(ud.excludedBids, id, reason) && ExclusionListed(claim, ud)
            case ExclusionReasonMismatch(expected, attested) =>
              && expected == claim.expectedExclusionReason != attested
              && FirstExcluded(ud.excludedBids, claim.bidID, attested) && !ExclusionListed(claim, ud)
            case ExclusionNotFound(id, exclusions) =>
              && id == claim.bidID && exclusions == |ud.excludedBids|
              && (forall i :: 0 <= i < |ud.excludedBids| ==> ud.excludedBids[i].bidID != id)
              && !ExclusionListed(claim, ud)
            case _ => false
  {
    hide FirstMatch;
    FirstMatchIsMember(claim.bidID, ud.excludedBids);
    match FirstMatch(claim.bidID, ud.excludedBids)
    case Some(eb) => FirstMatchIff(claim.bidID, ud.excludedBids, eb);
    case None =>
  }

  /** The first exclusion of `bidID` is for `reason`. */
  ghost predicate FirstExcluded(excluded: seq<ExcludedBid>, bidID: string, reason: string) {
    exists i :: 0 <= i < |excluded| && excluded[i] == ExcludedBid(bidID, reason)
      && forall j :: 0 <= j < i ==> excluded[j].bidID != bidID
  }

  /** The detail of the winner check on any document: the attested winner's ID and revenue, if there is a winner. */
  lemma WinnerDetailOnAnyDocument(prim: Primitives, claim: Claim, ud: UserData)
    ensures var id := Canonical(prim.parseUuid, claim.bidID);
            match WinnerDetail(prim, claim, ud)
            case WonAsExpected(revenue) => claim.isWinner && ud.winner == Some(ArbiterBidWithoutSource(id, revenue))
            case ExpectedToLose(revenue) => !claim.isWinner && ud.winner == Some(ArbiterBidWithoutSource(id, revenue))
            case LostAsExpected => !claim.isWinner && (ud.winner.Some? ==> ud.winner.value.id != id)
            case ExpectedToWin => claim.isWinner && (ud.winner.Some? ==> ud.winner.value.id != id)
            case _ => false
  {
  }

  /** All details of a claim, in the order of the checks on its path. */
  function Details(prim: Primitives, claim: Claim, ud: UserData): seq<Detail> {
    (if claim.expectation == EXPECT_EXCLUDED then [ExclusionDetail(claim, ud)]
     else [BidHashDetail(prim, claim, ud), WinnerDetail(prim, claim, ud)])
    + [RequestHashDetail(prim, claim, ud)]
  }

  /** A detail that confirms what was claimed. */
  predicate Confirms(d: Detail) {
    d.ExclusionConfirmed? || d.BidHashFound? || d.WonAsExpected? || d.LostAsExpected? || d.RequestHashPassed?
  }

  /** The verdict can be read off the details: a claim is accepted exactly when every detail confirms it. */
  lemma DetailsTellTheVerdict(prim: Primitives, claim: Claim, ud: UserData)
    ensures Accepts(prim, claim, ud) <==> forall d :: d in Details(prim, claim, ud) ==> Confirms(d)
  {
    hide FirstMatch, AttestedWinner, ComputeBidHash, ComputeRequestHash;
    var details := Details(prim, claim, ud);
    var last := RequestHashDetail(prim, claim, ud);
    assert Confirms(last) <==> RequestHashMatches(prim, claim, ud);
    if claim.expectation == EXPECT_EXCLUDED {
      FirstMatchIsMember(claim.bidID, ud.excludedBids);
      assert Confirms(ExclusionDetail(claim, ud)) <==> ExclusionListed(claim, ud);
      assert details == [ExclusionDetail(claim, ud), last];
      assert details[0] in details && details[1] in details;
    } else {
      assert details == [BidHashDetail(prim, claim, ud), WinnerDetail(prim, claim, ud), last];
      assert details[0] in details && details[1] in details && details[2] in details;
    }
  }

  function EnvelopeFailure(input: Option<Claim>, knownPCRSets: nat, envelope: Envelope): Option<ValidationError> {
    if input == None then Some(NilInput)
    else if knownPCRSets == 0 then Some(NoPCRSets)
    else if !envelope.decompresses then Some(Undecompressable)
    else if envelope.platform == None then Some(UnparseableCommon)
    else if envelope.userData.Err? then Some(UnparseableUserData)
    else None
  }

  /** Each field of the result is the verdict of its check; checks off the claim's path count as passed. */
  predicate Records(prim: Primitives, claim: Claim, ud: UserData, result: ArbitrationValidationResult)
    reads result
  {
    var excluding := claim.expectation == 1;
    && result.bidExclusionValid == (excluding ==> ExclusionListed(claim, ud))
    && result.bidHashValid == (!excluding ==> BidHashListed(prim, claim, ud))
    && result.winnerValid == (!excluding ==> claim.isWinner == AttestedWinner(prim, claim, ud))
    && result.requestHashValid == RequestHashMatches(prim, claim, ud)
    && result.details == Details(prim, claim, ud)
  }

  /**
    `ValidateArbitrationAttestation`: an error when the envelope cannot be
    read; otherwise a result that is valid exactly when the platform checks
    pass, user data is present, and the claim is accepted on its path.
   */
  method ValidateArbitrationAttestation(prim: Primitives, input: Option<Claim>, knownPCRSets: nat, envelope: Envelope)
    returns (r: Result<ArbitrationValidationResult, ValidationError>)
    ensures EnvelopeFailure(input, knownPCRSets, envelope).Some? ==>
              r == Err(EnvelopeFailure(input, knownPCRSets, envelope).value)
    ensures r == Err(NilInput) <==> input == None
    ensures r == Err(NoPCRSets) <==> input.Some? && knownPCRSets == 0
    ensures r == Err(Undecompressable) <==> input.Some? && knownPCRSets > 0 && !envelope.decompresses
    ensures r == Err(UnparseableCommon) <==>
            input.Some? && knownPCRSets > 0 && envelope.decompresses && envelope.platform == None
    ensures r == Err(UnparseableUserData) <==>
            && input.Some? && knownPCRSets > 0 && envelope.decompresses && envelope.platform.Some?
            && envelope.userData.Err?
    ensures EnvelopeFailure(input, knownPCRSets, envelope) == None ==>
              && r.Ok? && fresh(r.value)
              && (r.value.IsValid() <==>
                    && envelope.platform.value == PlatformChecks(true, true, true)
                    && envelope.userData.value.Some?
                    && Accepts(prim, input.value, envelope.userData.value.value))
              && r.value.platform == envelope.platform.value
              && match envelope.userData.value
                 case None =>
                   && r.value.details == [UserDataMissing]
                   && !r.value.bidHashValid && !r.value.bidExclusionValid
                   && !r.value.requestHashValid && !r.value.winnerValid
                 case Some(ud) => Records(prim, input.value, ud, r.value)
  {
    if input == None {
      return Err(NilInput);
    }
    var claim := input.value;
    if knownPCRSets == 0 {
      return Err(NoPCRSets);
    }
    if !envelope.decompresses {
      return Err(Undecompressable);
    }
    if envelope.platform == None {
      return Err(UnparseableCommon);
    }
    if envelope.userData.Err? {
      return Err(UnparseableUserData);
    }
    var result := new ArbitrationValidationResult(envelope.platform.value);
    if envelope.userData.value == None {
      result.details := result.details + [UserDataMissing];
      return Ok(result);
    }
    var ud := envelope.userData.value.value;
    if claim.expectation == EXPECT_EXCLUDED {
      var excluded := result.ValidateBidExclusion(claim, ud);
      result.bidExclusionValid := excluded;
      result.bidHashValid := true;
      result.winnerValid := true;
    } else {
      var listed := result.ValidateBidHash(prim, claim, ud);
      result.bidHashValid := listed;
      var agrees := result.ValidateWinner(prim, claim, ud);
      result.winnerValid := agrees;
      result.bidExclusionValid := true;
    }
    var matches := result.ValidateRequestHash(prim, claim, ud);
    result.requestHashValid := matches;
    return Ok(result);
  }
}
