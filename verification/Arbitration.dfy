/**
  One arbitration inside the enclave: wire bids are parsed or excluded, each
  revenue is resolved once, the bids are ranked, and the outcome is attested.
 */
module Arbitration {
  import opened Prelude
  import opened Units
  import opened Uuid
  import opened Bids
  import opened Primitives
  import opened Sealing
  import opened Decimal
  import opened BidHash
  import opened Permutations
  import opened Ranking

  // ---- From wire bids to core bids ----

  function ToCoreBid(id: Uuid, wb: WireBid): Bid {
    Bid(id, wb.source, Some(InMicros(wb.cleartextRevenue)), wb.encryptedCPMDollars)
  }

  function CoreBids(prim: Primitives, wire: seq<WireBid>): seq<Bid> {
    if wire == [] then []
    else
      var last := wire[|wire| - 1];
      CoreBids(prim, wire[..|wire| - 1]) +
      match prim.parseUuid(last.id)
      case Some(id) => [ToCoreBid(id, last)]
      case None => []
  }

  function Exclusions(prim: Primitives, wire: seq<WireBid>): seq<ExcludedBid> {
    if wire == [] then []
    else
      var last := wire[|wire| - 1];
      Exclusions(prim, wire[..|wire| - 1]) +
      match prim.parseUuid(last.id)
      case Some(_) => []
      case None => [ExcludedBid(last.id, EXCLUSION_REASON_MALFORMED_BID_ID)]
  }

  /** `wireBidsToCoreBids`. */
  method WireBidsToCoreBids(prim: Primitives, wire: seq<WireBid>)
    returns (bids: seq<Bid>, excluded: seq<ExcludedBid>)
    ensures bids == CoreBids(prim, wire)
    ensures excluded == Exclusions(prim, wire)
  {
    bids, excluded := [], [];
    var i := 0;
    while i < |wire|
      invariant i <= |wire|
      invariant bids == CoreBids(prim, wire[..i])
      invariant excluded == Exclusions(prim, wire[..i])
    {
      var wb := wire[i];
      assert wire[..i + 1][..i] == wire[..i];
      var id := prim.parseUuid(wb.id);
      i := i + 1;
      if id == None {
        excluded := excluded + [ExcludedBid(wb.id, EXCLUSION_REASON_MALFORMED_BID_ID)];
        continue;
      }
      bids := bids + [ToCoreBid(id.value, wb)];
    }
    assert wire[..i] == wire;
  }

  /** The places in `wire` whose IDs do, or do not, parse, in wire order. */
  function Places(prim: Primitives, wire: seq<WireBid>, parses: bool): (p: seq<nat>)
    ensures IndicesBelow(p, |wire|)
  {
    if wire == [] then []
    else
      var n := |wire| - 1;
      Places(prim, wire[..n], parses) + if prim.parseUuid(wire[n].id).Some? == parses then [n] else []
  }

  lemma {:induction false} PlacesAscendAndAreComplete(prim: Primitives, wire: seq<WireBid>, parses: bool)
    ensures var p := Places(prim, wire, parses);
            && (forall a, b :: 0 <= a < b < |p| ==> p[a] < p[b])
            && (forall i :: 0 <= i < |wire| ==> (i in p <==> prim.parseUuid(wire[i].id).Some? == parses))
  {
    if wire == [] {
    } else {
      var n := |wire| - 1;
      PlacesAscendAndAreComplete(prim, wire[..n], parses);
      forall i | 0 <= i < n
        ensures wire[..n][i] == wire[i]
      {
      }
    }
  }

  /**
    Conservation at the door: the wire bids whose IDs parse become core bids and
    the others become exclusions, each in wire order, with nothing lost or added.
   */
  lemma {:induction false} WireBidsArePartitioned(prim: Primitives, wire: seq<WireBid>)
    ensures var kept := Places(prim, wire, true);
            && |CoreBids(prim, wire)| == |kept|
            && forall k :: 0 <= k < |kept| ==>
                 && prim.parseUuid(wire[kept[k]].id).Some?
                 && CoreBids(prim, wire)[k] == ToCoreBid(prim.parseUuid(wire[kept[k]].id).value, wire[kept[k]])
    ensures var dropped := Places(prim, wire, false);
            && |Exclusions(prim, wire)| == |dropped|
            && forall k :: 0 <= k < |dropped| ==>
                 && prim.parseUuid(wire[dropped[k]].id) == None
                 && Exclusions(prim, wire)[k] == ExcludedBid(wire[dropped[k]].id, "malformed bid id")
    ensures |CoreBids(prim, wire)| + |Exclusions(prim, wire)| == |wire|
  {
    if wire == [] {
    } else {
      WireBidsArePartitioned(prim, wire[..|wire| - 1]);
    }
  }

  // ---- Resolving revenues ----

  /** `resolveRevenue`: the opened price when there is one, otherwise the cleartext amount or zero. */
  function ResolveRevenue(prim: Primitives, priv: Option<PrivateKey>, b: Bid): (Currency, bool) {
    match DecryptCPMDollars(prim, priv, b.encryptedCPMDollars)
    case Ok(price) => (InDollars(CPMAsDollars(price)), true)
    case Err(_) =>
      match b.cleartextRevenue
      case Some(cleartext) => (cleartext, false)
      case None => (InMicros(0), false)
  }

  function Resolve(prim: Primitives, priv: Option<PrivateKey>, b: Bid): ArbiterBid {
    var (revenue, decrypted) := ResolveRevenue(prim, priv, b);
    ArbiterBid(Some(b), AsMicros(prim.floatOverflow, revenue), decrypted)
  }

  /**
    Any bid resolves to the price its ciphertext opens to; one that opens to
    none keeps its cleartext revenue, in whichever unit it is given, or zero.
   */
  lemma RevenueOfBid(prim: Primitives, priv: Option<PrivateKey>, b: Bid)
    ensures var ab := Resolve(prim, priv, b);
            && ab.bid == Some(b)
            && (forall price :: OpensTo(prim, priv, b.encryptedCPMDollars, price) ==>
                  ab.revenue == CPMAsMicros(prim.floatOverflow, price))
            && (ab.decrypted <==> exists price :: OpensTo(prim, priv, b.encryptedCPMDollars, price))
            && (!ab.decrypted ==>
                  ab.revenue == match b.cleartextRevenue
                                case Some(InMicros(micros)) => micros
                                case Some(InDollars(dollars)) => DollarsAsMicros(prim.floatOverflow, dollars)
                                case None => 0)
  {
    hide DecryptCPMDollars, OpensTo;
    DecryptsIffOpens(prim, priv, b.encryptedCPMDollars);
    var decryption := DecryptCPMDollars(prim, priv, b.encryptedCPMDollars);
    if decryption.Ok? {
      assert OpensTo(prim, priv, b.encryptedCPMDollars, decryption.value);
    }
  }

  function ResolveAll(prim: Primitives, priv: Option<PrivateKey>, bids: seq<Bid>): (r: seq<ArbiterBid>)
    ensures |r| == |bids|
    ensures forall i :: 0 <= i < |bids| ==> r[i] == Resolve(prim, priv, bids[i])
  {
    seq(|bids|, i requires 0 <= i < |bids| => Resolve(prim, priv, bids[i]))
  }

  /** `Arbitrate`: resolve every bid once, then rank. */
  method Arbitrate(prim: Primitives, priv: Option<PrivateKey>, bids: seq<Bid>, swaps: seq<SwapStep>)
    returns (resp: ArbitrateResponse)
    requires SwapsInRange(swaps, |bids|)
    ensures fresh(resp) && fresh(resp.bids)
    ensures resp.bids[..] == Ranked(ApplySwaps(ResolveAll(prim, priv, bids), swaps))
    ensures resp.winner == if bids == [] then None else Some(0)
  {
    var resolved := new ArbiterBid[|bids|](_ => ArbiterBid(None, 0, false));
    var i := 0;
    while i < |bids|
      invariant i <= |bids|
      invariant resolved[..i] == ResolveAll(prim, priv, bids)[..i]
    {
      var (revenue, decrypted) := ResolveRevenue(prim, priv, bids[i]);
      resolved[i] := ArbiterBid(Some(bids[i]), AsMicros(prim.floatOverflow, revenue), decrypted);
      assert resolved[i] == ResolveAll(prim, priv, bids)[i];
      i := i + 1;
    }
    assert resolved[..] == ResolveAll(prim, priv, bids);
    resp := RankBids(resolved, swaps);
  }

  // ---- Attesting the outcome ----

  datatype ArbiterBidWithoutSource = ArbiterBidWithoutSource(id: string, revenue: MicroDollars)

  datatype UserData = UserData(
    requestID: string,
    bidHashes: seq<string>,
    bidHashNonce: string,
    requestHash: string,
    requestNonce: string,
    winner: Option<ArbiterBidWithoutSource>,
    excludedBids: seq<ExcludedBid>)

  datatype AttestError = NilAttester | NoNonce | UnmarshalableUserData | AttesterFailed

  /** What the world answers during one attestation; an absent nonce stands for a failed read. */
  datatype AttestRun = AttestRun(
    attester: bool,
    bidEntropy: Option<Entropy>,
    requestEntropy: Option<Entropy>,
    marshals: bool,
    attestationEntropy: Option<Entropy>,
    attests: bool)

  /** The attested hash of one resolved bid. */
  function HashOf(prim: Primitives, ab: ArbiterBid, nonce: string): string
    requires ab.bid.Some?
  {
    ComputeBidHash(prim.sha256, Print(ab.bid.value.id), ab.revenue, nonce)
  }

  function BidHashes(prim: Primitives, resolved: seq<ArbiterBid>, nonce: string): seq<string> {
    if resolved == [] then []
    else
      var last := resolved[|resolved| - 1];
      BidHashes(prim, resolved[..|resolved| - 1], nonce) + if last.bid.Some? then [HashOf(prim, last, nonce)] else []
  }

  function WinnerDescriptor(winner: Option<ArbiterBid>): Option<ArbiterBidWithoutSource> {
    if winner.Some? && winner.value.bid.Some? then
      Some(ArbiterBidWithoutSource(Print(winner.value.bid.value.id), winner.value.revenue))
    else None
  }

  function Attested(prim: Primitives, requestID: string, resolved: seq<ArbiterBid>, winner: Option<ArbiterBid>,
                    excluded: seq<ExcludedBid>, bidNonce: string, requestNonce: string): UserData
  {
    UserData(
      requestID,
      BidHashes(prim, resolved, bidNonce),
      bidNonce,
      ComputeRequestHash(prim.sha256, requestID, requestNonce),
      requestNonce,
      WinnerDescriptor(winner),
      excluded)
  }

  function AttestFailure(run: AttestRun): Option<AttestError> {
    if !run.attester then Some(NilAttester)
    else if run.bidEntropy == None || run.requestEntropy == None then Some(NoNonce)
    else if !run.marshals then Some(UnmarshalableUserData)
    else if run.attestationEntropy == None then Some(NoNonce)
    else if !run.attests then Some(AttesterFailed)
    else None
  }

  /** What one bid adds to the attested hashes: its hash, or nothing where there is no bid. */
  lemma {:induction false} HashesOfParts(prim: Primitives, a: seq<ArbiterBid>, ab: ArbiterBid, b: seq<ArbiterBid>,
                                         nonce: string)
    ensures BidHashes(prim, [], nonce) == []
    ensures BidHashes(prim, a + [ab] + b, nonce) ==
            BidHashes(prim, a, nonce)
            + (match ab.bid
               case Some(bid) => [prim.sha256(Print(bid.id) + "|" + FormatInt(ab.revenue) + "|" + nonce)]
               case None => [])
            + BidHashes(prim, b, nonce)
  {
    var s := a + [ab] + b;
    if b == [] {
      assert s[..|s| - 1] == a;
    } else {
      var n := |b| - 1;
      HashesOfParts(prim, a, ab, b[..n], nonce);
      assert s[..|s| - 1] == a + [ab] + b[..n];
    }
  }

  /** `GenerateArbitrationAttestation`; the signed document is identified with its user data. */
  method GenerateArbitrationAttestation(prim: Primitives, run: AttestRun, requestID: string,
                                        resolved: array<ArbiterBid>, winner: Option<ArbiterBid>,
                                        excluded: seq<ExcludedBid>)
    returns (r: Result<UserData, AttestError>)
    ensures AttestFailure(run).Some? ==> r == Err(AttestFailure(run).value)
    ensures AttestFailure(run) == None ==>
              r == Ok(Attested(prim, requestID, resolved[..], winner, excluded,
                               Nonce(run.bidEntropy.value), Nonce(run.requestEntropy.value)))
    ensures r == Err(NilAttester) <==> !run.attester
    ensures r == Err(NoNonce) <==>
            && run.attester
            && (run.bidEntropy == None || run.requestEntropy == None || (run.marshals && run.attestationEntropy == None))
    ensures r == Err(UnmarshalableUserData) <==>
            run.attester && run.bidEntropy.Some? && run.requestEntropy.Some? && !run.marshals
    ensures r == Err(AttesterFailed) <==>
            && run.attester && run.bidEntropy.Some? && run.requestEntropy.Some? && run.marshals
            && run.attestationEntropy.Some? && !run.attests
    ensures r.Ok? ==>
              && r.value.winner == (match winner
                                    case Some(ArbiterBid(Some(b), revenue, _)) =>
                                      Some(ArbiterBidWithoutSource(Print(b.id), revenue))
                                    case _ => None)
              && r.value.requestID == requestID && r.value.excludedBids == excluded
              && r.value.bidHashNonce == Nonce(run.bidEntropy.value)
              && r.value.requestNonce == Nonce(run.requestEntropy.value)
              && r.value.requestHash == prim.sha256(requestID + "|" + r.value.requestNonce)
  {
    if !run.attester {
      return Err(NilAttester);
    }
    if run.bidEntropy == None {
      return Err(NoNonce);
    }
    var bidNonce := Nonce(run.bidEntropy.value);
    if run.requestEntropy == None {
      return Err(NoNonce);
    }
    var requestNonce := Nonce(run.requestEntropy.value);
    var bidHashes: seq<string> := [];
    var i := 0;
    while i < resolved.Length
      invariant i <= resolved.Length
      invariant bidHashes == BidHashes(prim, resolved[..i], bidNonce)
    {
      var ab := resolved[i];
      assert resolved[..i + 1][..i] == resolved[..i];
      i := i + 1;
      if ab.bid == None {
        continue;
      }
      bidHashes := bidHashes + [ComputeBidHash(prim.sha256, Print(ab.bid.value.id), ab.revenue, bidNonce)];
    }
    assert resolved[..i] == resolved[..];
    var winnerDescriptor := None;
    if winner.Some? && winner.value.bid.Some? {
      winnerDescriptor := Some(ArbiterBidWithoutSource(Print(winner.value.bid.value.id), winner.value.revenue));
    }
    var userData := UserData(requestID, bidHashes, bidNonce,
      ComputeRequestHash(prim.sha256, requestID, requestNonce), requestNonce, winnerDescriptor, excluded);
    if !run.marshals {
      return Err(UnmarshalableUserData);
    }
    if run.attestationEntropy == None {
      return Err(NoNonce);
    }
    if !run.attests {
      return Err(AttesterFailed);
    }
    return Ok(userData);
  }

  // ---- Handling a request ----

  datatype ResolvedBid = ResolvedBid(id: string, source: string, revenue: MicroDollars, decrypted: bool)

  /** A ranked bid as the response reports it. */
  function Project(ab: ArbiterBid): ResolvedBid
    requires ab.bid.Some?
  {
    ResolvedBid(Print(ab.bid.value.id), ab.bid.value.source, ab.revenue, ab.decrypted)
  }

  function ResolvedBids(ranked: seq<ArbiterBid>): seq<ResolvedBid> {
    if ranked == [] then []
    else
      var last := ranked[|ranked| - 1];
      ResolvedBids(ranked[..|ranked| - 1]) + if last.bid.Some? then [Project(last)] else []
  }

  /** What one ranked bid adds to the response's bids: its projection, or nothing where there is no bid. */
  lemma {:induction false} ResolvedBidsOfParts(a: seq<ArbiterBid>, ab: ArbiterBid, b: seq<ArbiterBid>)
    ensures ResolvedBids([]) == []
    ensures ResolvedBids(a + [ab] + b) ==
            ResolvedBids(a)
            + (match ab.bid
               case Some(bid) => [ResolvedBid(Print(bid.id), bid.source, ab.revenue, ab.decrypted)]
               case None => [])
            + ResolvedBids(b)
  {
    var s := a + [ab] + b;
    if b == [] {
      assert s[..|s| - 1] == a;
    } else {
      var n := |b| - 1;
      ResolvedBidsOfParts(a, ab, b[..n]);
      assert s[..|s| - 1] == a + [ab] + b[..n];
    }
  }

  /** `resolvedBids`. */
  method ProjectResolvedBids(ranked: array<ArbiterBid>) returns (out: seq<ResolvedBid>)
    ensures out == ResolvedBids(ranked[..])
  {
    if ranked.Length == 0 {
      return [];
    }
    out := [];
    var i := 0;
    while i < ranked.Length
      invariant i <= ranked.Length
      invariant out == ResolvedBids(ranked[..i])
    {
      var ab := ranked[i];
      assert ranked[..i + 1][..i] == ranked[..i];
      i := i + 1;
      if ab.bid == None {
        continue;
      }
      out := out + [ResolvedBid(Print(ab.bid.value.id), ab.bid.value.source, ab.revenue, ab.decrypted)];
    }
    assert ranked[..i] == ranked[..];
  }

  datatype KeyManager = KeyManager(privateKey: Option<PrivateKey>)

  datatype Request = Request(requestID: string, bids: seq<WireBid>)

  datatype Message = NilKeyManager | AttestationFailed(error: AttestError) | Arbitrated(count: nat)

  datatype Response = Response(
    success: bool,
    message: Message,
    attestation: Option<UserData>,
    excludedBids: seq<ExcludedBid>,
    bids: seq<ResolvedBid>)

  /** The ranked bids of a request under a key and a shuffle. */
  ghost function RankedFor(prim: Primitives, priv: Option<PrivateKey>, wire: seq<WireBid>, swaps: seq<SwapStep>)
    : (r: seq<ArbiterBid>)
    requires SwapsInRange(swaps, |CoreBids(prim, wire)|)
    ensures |r| == |CoreBids(prim, wire)|
  {
    Ranked(ApplySwaps(ResolveAll(prim, priv, CoreBids(prim, wire)), swaps))
  }

  /** The user data of a successful run. */
  ghost function UserDataFor(prim: Primitives, priv: Option<PrivateKey>, req: Request, swaps: seq<SwapStep>,
                       bidEntropy: Entropy, requestEntropy: Entropy): UserData
    requires SwapsInRange(swaps, |CoreBids(prim, req.bids)|)
  {
    var ranked := RankedFor(prim, priv, req.bids, swaps);
    Attested(prim, req.requestID, ranked, First(ranked), Exclusions(prim, req.bids),
             Nonce(bidEntropy), Nonce(requestEntropy))
  }

  /** `HandleArbitrationRequest`. */
  method HandleArbitrationRequest(prim: Primitives, km: Option<KeyManager>, req: Request,
                                  swaps: seq<SwapStep>, run: AttestRun)
    returns (resp: Response)
    requires SwapsInRange(swaps, |CoreBids(prim, req.bids)|)
    ensures km == None ==> resp == Response(false, NilKeyManager, None, [], [])
    ensures km.Some? && AttestFailure(run).Some? ==>
              resp == Response(false, AttestationFailed(AttestFailure(run).value), None, [], [])
    ensures km.Some? && AttestFailure(run) == None ==>
              var ranked := RankedFor(prim, km.value.privateKey, req.bids, swaps);
              resp == Response(
                true,
                Arbitrated(|ranked|),
                Some(UserDataFor(prim, km.value.privateKey, req, swaps,
                                 run.bidEntropy.value, run.requestEntropy.value)),
                Exclusions(prim, req.bids),
                ResolvedBids(ranked))
  {
    if km == None {
      return Response(false, NilKeyManager, None, [], []);
    }
    var coreBids, excluded := WireBidsToCoreBids(prim, req.bids);
    var arbitrated := Arbitrate(prim, km.value.privateKey, coreBids, swaps);
    ghost var ranked := RankedFor(prim, km.value.privateKey, req.bids, swaps);
    assert arbitrated.bids[..] == ranked && |ranked| == arbitrated.bids.Length;
    var winner := arbitrated.WinningBid();
    assert winner == First(ranked);
    var cose := GenerateArbitrationAttestation(prim, run, req.requestID, arbitrated.bids, winner, excluded);
    if cose.Err? {
      return Response(false, AttestationFailed(cose.error), None, [], []);
    }
    var bids := ProjectResolvedBids(arbitrated.bids);
    return Response(true, Arbitrated(|coreBids|), Some(cose.value), excluded, bids);
  }
}
