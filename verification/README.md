# Open Arbiter: a verified model

Open Arbiter runs a revenue auction inside an enclave. Bidders submit bids whose
prices may be sealed to the enclave's key; the enclave opens them, ranks the
bids, and signs a document that lets each bidder check afterwards, outside the
enclave, that its bid took part (or was excluded) and whether it won.

The model covers four things and proves what each is for.

- **The emit/validate protocol** (`Arbitration`, `HonestRun`, `Validation`, `Protocol`). One
  run turns wire bids into ranked and excluded ones, resolves each revenue once,
  ranks, and attests hashes, winner and exclusions. The validator replays the
  attested data. Over every request, key, shuffle, nonce and spelling of an ID:
  absent hash collisions, the validator accepts exactly the claims that are true
  of the run (`EveryHonestRunIsDecided`), every wire bid has a claim that is
  accepted (`IncludedBidCanProveIt`, `ExcludedBidCanProveIt`), a refusal names
  the parts of the claim that are false (`InclusionDetailsAreTruthful`), and data
  the arbiter must not use changes neither the ranking nor the document
  (`OutcomeIgnoresUnusedData`). The document in turn fixes what was ranked
  (`AttestationBindsOutcome`).
- **Ranking with fair ties** (`Permutations`, `Ranking`, `TieBreaking`). The
  in-place shuffle and stable sort put each bid at an exactly known rank; raising
  a bid never hurts it; and, counted over all shuffles, every order that only
  rearranges equal revenues is equally likely (`TiesBreakUniformly`). The choices
  a random source makes correspond one to one to shuffles
  (`EachShuffleHasItsChoices`).
- **The worker pool** (`WorkerPool`). The accept loop and the connection handlers
  run interleaved over a counting semaphore. Safety is stated over whole
  schedules, in terms of what was done when; a request is answered unless one of
  its handler's calls fails or panics (`RequestIsAnswered`,
  `UnansweredOnlyOnFailure`); each handler's moves are bounded however many
  connections arrive, and draining is always possible.
- **Text and arithmetic** (`Decimal`, `Uuid`, `BidHash`, `Units`, `Sealing`,
  `SysInfo`). Printed numbers and UUIDs read back, hash preimages decode in one
  way, truncation keeps the order of prices, and 64-bit counters may wrap; the
  reported percentages lie between 0 and 100 exactly under stated conditions
  (`CPUUsageInRangeIff`, `MemUsageInRangeIff`).

SHA-256, RSA-OAEP, AES-GCM, base64, JSON numbers, the UUID parser and
out-of-range float conversion are function-valued parameters (`Primitives`).
A theorem that needs a law of one of them requires it: the claim's own strings
collide with none hashed in the run; opening undoes sealing; the UUID
parser reads canonical forms back (`Uuid.Lawful`, which the concrete parser
`Uuid.Parse` is proved to satisfy).

Where code and comments differ, the model follows the code. The response's bid
ID is documented as the wire bid's ID (enclaveapi/types.go:112), but the code
reports the canonical form of the parsed UUID: the wire bid's ID comes back
exactly when it has 36 characters and no capital letter (`ResponseKeepsIdIff`),
and one in braces does not (`BracedIdIsRespelled`). Bid IDs are documented as
unique within a request (core/arbiter.go:32), but nothing enforces it;
`WrongWinsIff` says exactly which requests that leaves open to a winning claim at
another revenue than the winner's, and `CheaperTwinWins` gives some.

To check the project: `dafny verify dfyconfig.toml`.

## Model

| member | source | states |
|---|---|---|
| Protocol.AcceptedIffTrue | validation/arbitration.go:100-114 | absent collisions with the claim's own strings, the validator accepts a claim on either path exactly when it is true of the run: an honest request holds the claimed bid at the claimed revenue and outcome, or excluded it for the claimed reason |
| Protocol.EveryHonestRunIsDecided | validation/arbitration.go:66-117 | the same for what an honest run attests, under every request, key, shuffle and pair of nonces |
| Protocol.HandleThenValidate | validation/arbitration.go:69-117 | from request to verdict: the document a successful request returns gives a valid result exactly when PCRs, certificate and signature are all valid and the claim is true of the run |
| Protocol.InclusionDetailsAreTruthful | validation/arbitration.go:137-204 | absent collisions, the details report of each part of an inclusion claim whether it is true of the run, name the revenue the winner won at, and never report a missing nonce |
| Protocol.ExclusionDetailIsTruthful | validation/arbitration.go:119-135 | the detail tells an ID that was not excluded from one excluded for another reason, and then gives that reason |
| Protocol.RequestDetailIsTruthful | validation/arbitration.go:168-182 | absent a collision, a mismatch is reported exactly for another request ID |
| Protocol.TrueInclusionIsAccepted | validation/arbitration.go:137-204 | completeness: a claim whose ID spells a wire bid's UUID, with that bid's resolved revenue, the true outcome and the request's ID, is accepted, with no assumption on the hash |
| Protocol.AcceptedInclusionIsTrue | validation/arbitration.go:137-204 | soundness: an accepted inclusion claim names a wire bid that parses to the claimed UUID and resolved to exactly the claimed revenue, the right request, and the true outcome |
| Protocol.ListedIffHashesAlike | validation/arbitration.go:137-154 | the inclusion check passes exactly when the claim's preimage hashes like that of some ranked wire bid, so a false pass is a collision |
| Protocol.WinnerCheckIsTruthful | validation/arbitration.go:184-186 | the attested winner matches the claimed ID exactly when the winning wire bid has the UUID the claim spells |
| Protocol.RequestCheckIsTruthful | validation/arbitration.go:168-182 | the request check passes for the run's own request ID and, absent a collision, for no other |
| Protocol.ExclusionCheckIsTruthful | validation/arbitration.go:119-135 | the exclusion check passes exactly for IDs of unparseable wire bids under the malformed-ID reason, although only the first listed match is examined |
| Protocol.TrueExclusionIsAccepted | validation/arbitration.go:100-107 | every true claim of exclusion is accepted |
| Protocol.AcceptedExclusionIsTrue | validation/arbitration.go:100-107 | an accepted exclusion claim is true of the run, request ID included |
| Protocol.IncludedBidCanProveIt | enclave/attestation.go:44-94 | every wire bid with a parseable ID has an accepted claim, under any spelling the parser reads as the same UUID |
| Protocol.ExcludedBidCanProveIt | enclave/handlers.go:113-129 | every other wire bid has an accepted claim of exclusion, so none is dropped silently |
| Protocol.AnySpellingWillDo | validation/integration_test.go:320-328 | with the concrete parser, any accepted spelling of the bid's UUID (hyphenated, braced, urn, unhyphenated, any case) validates |
| Protocol.InclusionAndExclusionExclude | validation/arbitration.go:100-114 | no ID passes both the inclusion and the exclusion check, whatever revenue or reason is claimed |
| Protocol.NoAcceptedClaimBeatsTheWinner | validation/arbitration.go:137-186 | a revenue that passes the inclusion check never exceeds the attested winner's |
| Protocol.WinningClaimsAreExactIff | validation/arbitration.go:184-196 | a winning claim at a revenue other than the winner's can be accepted exactly when the request repeats the winner's UUID at another revenue |
| Protocol.WrongWinsIff | validation/arbitration.go:184-196 | over all shuffles, absent collisions among the run's own strings: such a claim can be accepted exactly when a bid of the highest revenue shares its UUID with a bid of another revenue |
| Protocol.CheaperTwinWins | validation/arbitration.go:184-196 | requests where it happens: of two bids with one UUID, at 10 and 5, the claim to have won at 5 is accepted under every shuffle and nonces |
| Protocol.OneRevenueWinsExactly | validation/arbitration.go:184-196 | where the winner's UUID resolved to one revenue, accepted winning claims state the winner's revenue |
| Protocol.DistinctIdsHaveOneRevenue | core/arbiter.go:32-35 | requests whose bids have different UUIDs meet that condition |
| HonestRun.HonestRunAttests | enclave/attestation.go:59-94 | whatever the shuffle and nonces, a run attests the hashes of its parseable wire bids in ranked order, the first as winner, its request, and its unparseable wire bids |
| HonestRun.RankedBidsAreTheWireBids | enclave/handlers.go:67-69 | conservation: the ranked bids are the parseable wire bids, each exactly once and resolved from its own wire bid, by descending revenue |
| HonestRun.ResponseEchoesWireBids | enclave/handlers.go:91-111 | each response bid echoes its wire bid's source, resolved revenue and decryption outcome, under its canonical ID |
| HonestRun.ResponseKeepsIdIff | enclaveapi/types.go:111-113 | the response repeats a wire bid's ID, as documented, exactly when that ID has 36 characters and no capital letter |
| HonestRun.BracedIdIsRespelled | enclaveapi/types.go:111-113 | an ID in braces comes back as another string |
| HonestRun.ResponseAgreesWithAttestation | enclave/handlers.go:71-88 | attested hash i is the hash of response bid i under the attested nonce; the attested winner is response bid 0; there is a winner exactly when there are hashes |
| HonestRun.OutcomeIgnoresUnusedData | enclave/arbiter.go:35-49 | changing the cleartext of bids that open, or the ciphertext of bids that do not, leaves response bids and the whole attestation identical under the same shuffle |
| HonestRun.AttestationBindsOutcome | enclave/handlers.go:47-50 | absent collisions between two runs' strings, one document describes both only if they ranked the same UUIDs at the same revenues in the same places and excluded the same IDs |
| HonestRun.EqualAttestationsEqualOutcomes | enclave/handlers.go:47-50 | two honest runs that attest the same document agree on request, ranked UUIDs and revenues, whatever their keys, shuffles and ciphertexts |
| HonestRun.TopBidCanWin | core/arbiter.go:89-107 | every wire bid of the highest revenue wins under some shuffle |
| HonestRun.RevenueOfWireBid | enclave/arbiter.go:35-66 | a wire bid resolves to the price its ciphertext opens to, and to its cleartext revenue exactly when it opens to none |
| HonestRun.SealedPriceIsRanked | core/arbiter.go:43-47 | a price sealed to the enclave's key is the revenue ranked, whatever the cleartext says |
| HonestRun.RankingRespectsPrices | core/units.go:31-42 | a bid ranked after another was not sealed a micro or more above it, unless both prices truncate to zero |
| Arbitration.WireBidsArePartitioned | enclave/handlers.go:113-138 | core bids and exclusions are the parseable and unparseable wire bids, each in wire order, and their numbers add up to the request's |
| Arbitration.PlacesAscendAndAreComplete | enclave/handlers.go:118-138 | the places of parseable (unparseable) bids are listed in ascending order and completely |
| Arbitration.WireBidsToCoreBids | enclave/handlers.go:118-138 | the loop returns the core bids and exclusions that WireBidsArePartitioned describes |
| Arbitration.Arbitrate | enclave/arbiter.go:55-66 | every bid is resolved once; the response holds the ranking of the resolved bids after the shuffle, and the winner is its first entry |
| Arbitration.RevenueOfBid | enclave/arbiter.go:35-66 | any bid resolves to the price its ciphertext opens to; otherwise to its cleartext revenue in either unit, or zero without one |
| Arbitration.GenerateArbitrationAttestation | enclave/attestation.go:49-112 | each error exactly when its step is the first to fail; otherwise request ID and hash, both nonces, the winner and the exclusions as given, and the bid hashes of HashesOfParts |
| Arbitration.HashesOfParts | enclave/attestation.go:68-74 | each bid adds the hash of ID, revenue and nonce to the hashes at its place, and an absent bid adds none |
| Arbitration.ProjectResolvedBids | enclave/handlers.go:94-111 | the response bids in ranked order, skipping absent bids |
| Arbitration.ResolvedBidsOfParts | enclave/handlers.go:94-111 | each bid adds its ID, source, revenue and flag to the response at its place, and an absent bid adds nothing |
| Arbitration.HandleArbitrationRequest | enclave/handlers.go:52-89 | the whole response: both failure responses, and on success the count, the attestation of this run, the exclusions and the ranked bids |
| Validation.ValidateArbitrationAttestation | validation/arbitration.go:69-117 | each error exactly when its step is the first to fail; otherwise every result field is the verdict of its check on the claim's path, and the result is valid exactly when PCRs, certificate and signature are all valid and the claim is accepted |
| Validation.FirstMatchIff | validation/arbitration.go:119-131 | the first exclusion of an ID is the one no earlier exclusion of that ID precedes, and is absent exactly when none has the ID |
| Validation.DetailsTellTheVerdict | validation/arbitration.go:100-114 | a claim is accepted exactly when every detail reported on its path confirms it |
| Validation.BidHashDetailOnAnyDocument | validation/arbitration.go:137-154 | on any document, honest or not: which outcome the inclusion check reports, with the hash of the claimed ID, revenue and nonce, and that it passes in one of them only |
| Validation.RequestHashDetailOnAnyDocument | validation/arbitration.go:168-182 | on any document: which outcome the request check reports, with the hash of request ID and nonce, and that it passes in one of them only |
| Validation.WinnerDetailOnAnyDocument | validation/arbitration.go:184-204 | on any document: which of the four outcomes the winner check reports, with the attested revenue where the claimed ID won |
| Validation.ExclusionDetailOnAnyDocument | validation/arbitration.go:119-135 | on any document: what the first exclusion of the claimed ID makes the exclusion check report, or that there is none |
| Validation.ArbitrationValidationResult.constructor | validation/arbitration.go:93 | a result starts with the platform checks and every user-data check failed |
| Validation.ArbitrationValidationResult.ValidateBidExclusion | validation/arbitration.go:119-135 | decides on the first exclusion with the claimed ID and reports which of its three outcomes occurred |
| Validation.ArbitrationValidationResult.ValidateBidHash | validation/arbitration.go:137-154 | true exactly when the nonce is present and the hash of the canonical ID and revenue is among the attested ones; reports the outcome |
| Validation.ArbitrationValidationResult.ValidateRequestHash | validation/arbitration.go:168-182 | true exactly when the nonce is present and the request hash matches; reports the outcome |
| Validation.ArbitrationValidationResult.ValidateWinner | validation/arbitration.go:184-204 | true exactly when the claimed outcome equals the attested one by ID; reports which of four cases occurred |
| Ranking.RankFormula | core/arbiter.go:84-109 | the bid at shuffled index k ends at position #{j : rev_j > rev_k} + #{j < k : rev_j = rev_k} |
| Ranking.BidEndsAtItsRank | core/arbiter.go:84-107 | the ranking places each bid at its rank |
| Ranking.RankingSorts | core/arbiter.go:84-107 | the ranking keeps every bid with its multiplicity and descends in revenue |
| Ranking.ArrangedIsUnique | core/arbiter.go:104-106 | only one order is descending and stable, so any correct stable sort yields this one |
| Ranking.RaisingMovesUp | core/arbiter.go:91-109 | raising one key never moves it later and keeps the relative order of all others |
| Ranking.SortStable | core/arbiter.go:104-106 | the in-place sort leaves the array in exactly that order |
| Ranking.Sink | core/arbiter.go:104-106 | one pass moves one bid past the cheaper ones before it and nothing else |
| Ranking.Shuffle | core/arbiter.go:97-103 | the swap callbacks perform the swaps in order on the copied bids |
| Ranking.RankBids | core/arbiter.go:91-109 | for any in-range swaps, a fresh response holds the ranking of the shuffled bids, the winner points at its first entry or is absent, and the input is unmodified |
| Permutations.ShuffleIsPermutation | core/arbiter.go:101-103 | a sequence of in-range swaps performs one permutation, the same on every input of that length |
| Permutations.PermutationHasSwaps | core/arbiter.go:77-82 | every permutation is performed by some sequence of swaps |
| Permutations.OneSwapExchanges | core/arbiter.go:101-103 | one callback exchanges its two entries, whichever index is larger, and moves no other |
| Permutations.SwapsCompose | core/arbiter.go:101-103 | callbacks take effect one after the other |
| Permutations.EachShuffleHasItsChoices | core/arbiter.go:97-103 | the swaps of a Fisher-Yates source, each with an index not beyond the first: every permutation comes from exactly one sequence of its choices |
| TieBreaking.RankingFollowsOutcome | core/arbiter.go:91-109 | what RankBids returns is the input picked along the outcome of its shuffle |
| TieBreaking.PositionIsPlaceInOutcome | core/arbiter.go:91-109 | a bid's position under a shuffle is where its input index stands in the outcome |
| TieBreaking.RaisingABidNeverHurts | core/arbiter.go:91-109 | under one shuffle, raising a bid's revenue never moves it later and keeps the relative order of the others |
| TieBreaking.OutcomeRelabels | core/arbiter.go:89-107 | relabelling a shuffle among equal revenues relabels its outcome the same way |
| TieBreaking.OrderingsEquallyLikely | core/arbiter.go:89-107 | any two descending orders come out of equally many shuffles |
| TieBreaking.TiesBreakUniformly | core/arbiter.go:89-107 | each descending order is the outcome of exactly (number of shuffles)/(number of descending orders) shuffles, and no other order ever is |
| TieBreaking.WinnersEquallyLikely | core/rank_test.go:49-68 | only top-tied bids win, each under exactly (number of shuffles)/(number of top-tied bids) shuffles |
| BidHash.BidPreimageInjective | core/hash.go:19-23 | under one nonce the preimage determines ID and revenue, for any IDs |
| BidHash.BidPreimageLayout | core/hash.go:19-23 | where ID, separators, decimal revenue and nonce stand in a bid's preimage |
| BidHash.RequestPreimageLayout | core/hash.go:31-35 | where ID, separator and nonce stand in a request's preimage |
| BidHash.BidPreimageDecodable | core/hash.go:19-23 | with separator-free nonces it determines ID, revenue and nonce |
| BidHash.ConfusableIff | core/hash.go:19-23 | two different nonces allow equal preimages exactly when one is a printed number, a separator and the other, possibly after a prefix ending in a separator |
| BidHash.SeparatorsConfuse | core/hash.go:19-23 | a pair of different nonces that allows equal preimages: "n", and "0", a separator and "n" |
| BidHash.RequestPreimageInjective | core/hash.go:31-35 | under one nonce the preimage determines the request ID |
| BidHash.NonceShape | enclave/attestation.go:26-33 | generated nonces have 64 characters and no separator, differ when their randomness does, and are never confusable |
| BidHash.NonceLayout | enclave/attestation.go:26-33 | where the two hex digits of each random byte stand in a nonce |
| Decimal.FormatNatIff | core/hash.go:20 | a number prints as the one digit string without leading zeros that denotes it |
| Decimal.FormatNatLayout | core/hash.go:20 | the i-th character from the right is the i-th decimal digit from the right |
| Decimal.FormatIntLayout | core/hash.go:20 | a minus before the magnitude of negative integers and nothing before the others |
| Decimal.FormatIntInjective | core/hash.go:20 | two integers with the same signed decimal text are equal |
| Decimal.ParseUintOfFormat | enclave/sysinfo.go:110 | printing then parsing is the identity exactly on 64-bit unsigned numbers, and an error beyond |
| Decimal.ParseUintIff | enclave/sysinfo.go:110 | a string is read as n exactly when it is n's printed form after any number of zeros, below 2^64 |
| Decimal.AtoiOfFormat | cmd/enclave-server/main.go:207 | printing then parsing is the identity exactly on int64 |
| Decimal.AtoiIff | cmd/enclave-server/main.go:207 | a string is read as n exactly when it is an optional sign, zeros and n's printed magnitude, within int64 |
| Uuid.ParseIffSpells | validation/integration_test.go:320-328 | the parser accepts exactly the listed spellings and reads each as the UUID it spells |
| Uuid.HexValueIff | validation/integration_test.go:320-328 | hex digits count alike in both letter cases, and no other character is one |
| Uuid.PrintLayout | validation/arbitration.go:156-160 | where each hex digit and hyphen stands in the canonical form |
| Uuid.ParsePrint | validation/arbitration.go:161-166 | parsing the canonical form gives the UUID back |
| Uuid.CanonicalIdempotent | validation/arbitration.go:161-166 | a canonical ID is its own canonical ID |
| Uuid.CanonicalEqualIff | validation/arbitration.go:161-166 | two IDs canonicalise alike exactly when they parse to the same UUID or are the same string |
| Uuid.CanonicalIsPrintIff | validation/arbitration.go:156-166 | a canonical ID equals a printed UUID exactly when the ID parses to it, so unparseable IDs never collide with one |
| Sealing.SealCPMDollars | core/seal.go:66-105 | reports the first failing step; otherwise the result is the seal made with the fresh key and nonce, and whoever holds the private key opens the result to exactly the sealed price |
| Sealing.OpenAfterSeal | enclave/crypto.go:20-76 | every seal of a price for a key opens under it to that price |
| Sealing.DecryptErrorIsFirstFailure | enclave/crypto.go:20-76 | which error each failing stage gives, all stages before it having succeeded |
| Sealing.FillRandom | core/seal.go:76-91 | a buffer is filled with the random bytes or the read fails |
| Units.MicrosTruncateTowardZero | core/units.go:31-42 | conversion truncates toward zero by less than one micro |
| Units.DollarsTruncateTowardZero | core/units.go:31-33 | a dollar is a million micros, truncated toward zero by less than one |
| Units.PriceInRangeIff | core/units.go:31-42 | the prices whose micros fit an int64, as bounds on the price |
| Units.OutOfRangeIsPlatforms | core/units.go:31-42 | outside them the result is whatever the platform makes of the price in micros |
| Units.MicrosMonotone | core/units.go:31-42 | a dearer price never becomes fewer micros |
| Units.MicrosSeparateIff | core/units.go:31-42 | prices a micro apart stay apart exactly when they do not both truncate to zero |
| Units.MicrosMayTieAcrossZero | core/units.go:31-42 | two prices of opposite sign that differ by a micro and tie |
| WorkerPool.ReachableInv | cmd/enclave-server/main.go:62-136 | the pool's invariant holds after every schedule of actions |
| WorkerPool.PermitsBoundWorkers | cmd/enclave-server/main.go:62-76 | permits taken and not returned equal the live handlers and never exceed maxWorkers |
| WorkerPool.RejectedOnlyWhenFull | cmd/enclave-server/main.go:71-82 | a connection is turned away only while every permit is held by a live handler |
| WorkerPool.AcceptLoopNeverWaits | cmd/enclave-server/main.go:65-83 | an accepted connection is at once either admitted or turned away, never both |
| WorkerPool.ClosedOnceBeforeRelease | cmd/enclave-server/main.go:73-104 | a handler returns its permit only after closing its connection, and closes it once, panics included |
| WorkerPool.AtMostOnce | cmd/enclave-server/main.go:96-136 | on every path at most one close and at most one response write |
| WorkerPool.WrittenOnlyAfterDeadlines | cmd/enclave-server/main.go:106-136 | a response is written only after a complete read, a base decode and the write deadline |
| WorkerPool.RequestIsAnswered | cmd/enclave-server/main.go:96-136 | a request that nothing goes wrong with, in any number of chunks within its deadlines, is read, answered once and closed, and its permit returned, with no other connection touched |
| WorkerPool.UnansweredOnlyOnFailure | cmd/enclave-server/main.go:96-136 | under every schedule, a handler whose body is over has written a response or had a call fail or panic |
| WorkerPool.OnlyDeferredAfterFailure | cmd/enclave-server/main.go:97-104 | after a failure or a panic a handler only closes its connection and returns its permit |
| WorkerPool.FailureIsCleanedUp | cmd/enclave-server/main.go:97-130 | in every phase of its body a handler may panic or have its call fail, and then the connection is closed and the permit returned |
| WorkerPool.EndsWellBeforeDeadline | cmd/enclave-server/main.go:31-37 | a read or write ends well only while its deadline's budget lasts |
| WorkerPool.OpenConnectionsBounded | cmd/enclave-server/main.go:62-83 | at most maxWorkers + 1 connections are open |
| WorkerPool.DrainIsBounded | cmd/enclave-server/main.go:31-37 | deadlines bound the handlers' moves: no schedule of handlers alone is longer than a bound fixed at its start |
| WorkerPool.HandlerIsBounded | cmd/enclave-server/main.go:96-136 | under every schedule, accepts included, each handler makes at most 9 moves plus its read and write budgets |
| WorkerPool.LiveHandlerCanMove | cmd/enclave-server/main.go:73-76 | no live handler is stuck; returning a permit never blocks |
| WorkerPool.PoolDrains | cmd/enclave-server/main.go:62-136 | once no handler can move, all permits are back, every connection the accept loop does not hold was closed exactly once, and the accept loop, whatever it is in the middle of, goes on to admit one |
| WorkerPool.FreePermitAdmits | cmd/enclave-server/main.go:65-83 | whenever a permit is free the accept loop can admit a connection within three actions of its own, whether it is listening, deciding or turning one away |
| WorkerPool.NextIsAdmitted | cmd/enclave-server/main.go:65-76 | with a permit free, the next connection gets a handler at the start of its work and takes one permit |
| WorkerPool.FullPoolTurnsAway | cmd/enclave-server/main.go:77-82 | with none free, the next connection is closed unread and the loop listens again |
| WorkerPool.DrainExists | cmd/enclave-server/main.go:62-136 | from every reachable state the handlers can run until all permits are back |
| WorkerPool.MaxWorkersOfPrinted | cmd/enclave-server/main.go:189-213 | a printed integer sets the pool size exactly when it is an int64 of at least one |
| WorkerPool.MaxWorkersIff | cmd/enclave-server/main.go:189-213 | for every setting: the size it gives, or which of the three errors |
| WorkerPool.ConfiguredPoolAdmits | cmd/enclave-server/main.go:189-200 | any accepted setting admits the first connection |
| SysInfo.MemInfoLineReadsBack | enclave/sysinfo.go:102-115 | a line of key, padding, printed number, optional unit and blanks reads back, exactly when the number fits 64 bits |
| SysInfo.MemInfoLineIff | enclave/sysinfo.go:102-115 | a line gives a key a value exactly when it is a colon-free key, a colon, blanks, digits that denote it, an optional unit and blanks |
| SysInfo.SpacesAreWhiteSpace | enclave/sysinfo.go:108 | blanks are the white space characters of Unicode |
| SysInfo.ParseKeyValueKB | enclave/sysinfo.go:81-100 | exactly the wanted keys that occur, each with its last value |
| SysInfo.LastValueIsLast | enclave/sysinfo.go:93-98 | the last value of a key comes from a line after which no line mentions it |
| SysInfo.MemInfoIsExactIff | enclave/sysinfo.go:58-76 | byte totals are exact exactly below 2^54 kB, and there used and available bytes add up to the total |
| SysInfo.MemUsageInRangeIff | enclave/sysinfo.go:66-76 | the reported, rounded percentage: absent without bytes in all, otherwise the nearest tenth; and in [0, 100] exactly when 2000 times the used bytes are below 2001 times the total |
| SysInfo.MemBytes | enclave/sysinfo.go:66-71 | both byte counts, for every input, as kB modulo 2^54 |
| SysInfo.AvailableIs | enclave/sysinfo.go:62-65 | available memory as reported, or on older kernels free, buffered and cached memory modulo 2^64 |
| SysInfo.UsedMemory | enclave/sysinfo.go:62-71 | below 2^54 kB, used bytes from the fields: the total less what is available, with or without MemAvailable |
| SysInfo.MemInfoWrapsToZero | enclave/sysinfo.go:66-71 | at 2^54 kB the total wraps to zero and the percentage is undefined |
| SysInfo.MemInfoBeyondLimit | enclave/sysinfo.go:66-76 | beyond 2^54 kB, one input with a percentage above 100 and one at 50.0 with both byte counts wrapped |
| SysInfo.ReadMemInfoLines | enclave/sysinfo.go:53-77 | from the text: none without a positive last total, and below 2^54 kB exact total and used bytes from the last values given, with or without MemAvailable, and a percentage in [0, 100] |
| SysInfo.OneDecimalIsClose | enclave/sysinfo.go:75 | reported percentages are within 0.05 of the exact ones |
| SysInfo.OneDecimalIff | enclave/sysinfo.go:75 | a percentage is reported as the nearest number of tenths, halves upward |
| SysInfo.ParseCPULine | enclave/sysinfo.go:145-166 | the wrapped sum of the first eight counters and the fourth one, or the format error, or the first unparseable field |
| SysInfo.FieldsOfSpaced | enclave/sysinfo.go:146 | splitting a spaced line gives its words back |
| SysInfo.FieldsSkipBlanks | enclave/sysinfo.go:146 | blanks before a line change none of its words |
| SysInfo.CPULineReadsBack | enclave/sysinfo.go:141-166 | the counters of a printed cpu line are its first eight numbers, however it is spaced |
| SysInfo.CPUUsageInRangeIff | enclave/sysinfo.go:185-191 | the reported, rounded usage lies in [0, 100] exactly when no ticks passed, the wrapped idle delta does not exceed the wrapped total delta, or the idle counter went back by less than a 2000th of the total delta |
| SysInfo.CPUUsageIff | enclave/sysinfo.go:185-191 | the reported usage: zero when no ticks passed, otherwise the nearest tenth to the share of ticks that were not idle, stated on integers |
| SysInfo.ShrinkingCounterLeavesRange | enclave/sysinfo.go:185-191 | two samples in which a counter shrinks and the reported usage exceeds 100 |
| SysInfo.RoundingHidesShrinkingIdle | enclave/sysinfo.go:185-191 | two samples in which the idle counter shrinks and the reported usage is 100 all the same |
| SysInfo.CPUUsageSurvivesWrapping | enclave/sysinfo.go:175-192 | for non-decreasing counters advancing by less than 2^64, wrapped deltas are the true ones and usage is the busy counters' share of all ticks, in [0, 100] |
| SysInfo.ReadCPUTicks | enclave/sysinfo.go:128-139 | the ticks of the first "cpu " line, or what is wrong with the text: no such line, too few fields, or the first that is not a number |
| SysInfo.TicksOfLineIff | enclave/sysinfo.go:145-166 | a line gives ticks exactly when its second to ninth fields are at least four numbers: their sum modulo 2^64 and the fourth |
| SysInfo.IsCPULineIff | enclave/sysinfo.go:131 | the line looked for starts with "cpu " |
| SysInfo.SampleCPUUsageBetween | enclave/sysinfo.go:175-192 | succeeds exactly when both texts give ticks, and then reports the usage between them; otherwise what is wrong with the first that does not |
| SysInfo.ShownUsage | enclave/sysinfo.go:122-192 | from text to usage: two texts showing non-decreasing counters that advance by less than 2^64 give the busy share of the counted ticks, in [0, 100] |

## Left out

- Uuid.Parse: reads the spellings the integration tests list; google/uuid is not part of this model. The protocol's theorems hold for every parser that reads canonical forms back, whatever else it accepts.
- Primitives: the insides of SHA-256, RSA-OAEP, AES-GCM, base64 and JSON numbers; only the laws a theorem requires are used, and failure of each step is a value.
- Units.CPMAsMicros: IEEE-754 rounding and NaN; prices are reals, and out-of-range conversion is an arbitrary function of the price.
- Validation.Envelope: gzip, COSE, CBOR, JSON, certificate chains, PCR matching and signatures; the platform checks are booleans and user data is its own serialisation.
- Validation.Detail: the wording of the validation details, and the details the platform checks add before them.
- Arbitration.AttestRun: timestamps, processing time and the text of error messages.
- Permutations.ApplySwaps: the random generator; a shuffle is any sequence of in-range swaps, and uniformity counts permutations, each taken as equally likely, as they are when all choices of `FisherYates` are.
- Ranking.SortStable: the standard library's block-insertion and merge steps; the sort here is one insertion sort, which ArrangedIsUnique shows to give the same result.
- Arbitration.ResolveAll: bids are values; the pointers from ranked bids into the caller's slice, which nothing writes through, are not modelled.
- WorkerPool.Advance: what dispatch computes, logging, the vsock transport, a listener that closes, and a panic inside the deferred close itself; handlers are steps of a transition system rather than a loop because they interleave.
- SysInfo.ReadMemInfoLines: opening and scanning files, and line-length limits; a text is its lines.
- Key requests, key attestation, the key manager, PEM parsing, command-line tools and build scripts: plumbing without branching of interest.
