/** The bids the enclave receives, resolves, ranks and excludes. */
module Bids {
  import opened Prelude
  import opened Units
  import opened Uuid

  datatype EncryptedRevenue = EncryptedRevenue(
    aesKeyEncrypted: string,
    encryptedPayload: string,
    nonce: string,
    hashAlgorithm: string)

  /** A cleartext revenue in either of the units the arbiter compares. */
  datatype Currency = InMicros(micros: MicroDollars) | InDollars(dollars: real)

  function AsMicros(overflow: real -> Int64, c: Currency): MicroDollars {
    match c
    case InMicros(micros) => micros
    case InDollars(dollars) => DollarsAsMicros(overflow, dollars)
  }

  datatype WireBid = WireBid(
    id: string,
    source: string,
    cleartextRevenue: MicroDollars,
    encryptedCPMDollars: Option<EncryptedRevenue>)

  datatype Bid = Bid(
    id: Uuid,
    source: string,
    cleartextRevenue: Option<Currency>,
    encryptedCPMDollars: Option<EncryptedRevenue>)

  /** A bid after its revenue was resolved; `bid` is absent where Go has a nil pointer. */
  datatype ArbiterBid = ArbiterBid(bid: Option<Bid>, revenue: MicroDollars, decrypted: bool)

  datatype ExcludedBid = ExcludedBid(bidID: string, reason: string)

  const EXCLUSION_REASON_MALFORMED_BID_ID := "malformed bid id"
}
