/**
  The strings the enclave and the validators hash, and when such a string
  determines what it was built from. SHA-256 (as lowercase hex) is a
  parameter: nothing is known about it but that it is a function.
 */
module BidHash {
  import opened Prelude
  import opened Decimal
  import opened Uuid

  function BidPreimage(bidID: string, revenue: int, nonce: string): string {
    bidID + "|" + FormatInt(revenue) + "|" + nonce
  }

  function RequestPreimage(requestID: string, nonce: string): string {
    requestID + "|" + nonce
  }

  function ComputeBidHash(sha256: string -> string, bidID: string, revenue: Int64, nonce: string): string {
    sha256(BidPreimage(bidID, revenue, nonce))
  }

  function ComputeRequestHash(sha256: string -> string, requestID: string, nonce: string): string {
    sha256(RequestPreimage(requestID, nonce))
  }

  /** The layout of a bid's preimage: ID, separator, signed decimal revenue, separator, nonce. */
  lemma BidPreimageLayout(id: string, revenue: int, nonce: string)
    ensures var p, d := BidPreimage(id, revenue, nonce), FormatInt(revenue);
            && |p| == |id| + 1 + |d| + 1 + |nonce|
            && p[..|id|] == id && p[|id|] == '|'
            && p[|id| + 1..|id| + 1 + |d|] == d && p[|id| + 1 + |d|] == '|'
            && p[|id| + |d| + 2..] == nonce
  {
    hide FormatInt;
    var d := FormatInt(revenue);
    assert BidPreimage(id, revenue, nonce) == id + "|" + (d + "|" + nonce);
    JoinLayout(d, nonce);
    JoinLayout(id, d + "|" + nonce);
  }

  lemma JoinLayout(a: string, b: string)
    ensures var s := a + "|" + b;
            && |s| == |a| + 1 + |b| && s[..|a|] == a && s[|a|] == '|' && s[|a| + 1..] == b
            && forall i, j :: |a| + 1 <= i <= j <= |s| ==> s[i..j] == b[i - |a| - 1..j - |a| - 1]
  {
  }

  /** The layout of a request's preimage: ID, separator, nonce. */
  lemma RequestPreimageLayout(id: string, nonce: string)
    ensures var p := RequestPreimage(id, nonce);
            |p| == |id| + 1 + |nonce| && p[..|id|] == id && p[|id|] == '|' && p[|id| + 1..] == nonce
  {
    assert RequestPreimage(id, nonce) == id + ("|" + nonce);
  }

  /** Where the part after the separator has none itself, every separator lies at or before it. */
  lemma NoLaterSeparator(a: string, b: string, i: nat)
    requires '|' !in b
    requires i < |a + "|" + b| && (a + "|" + b)[i] == '|'
    ensures i <= |a|
  {
    var s := a + "|" + b;
    forall k | |a| < k < |s|
      ensures s[k] != '|'
    {
      assert s[k] == b[k - |a| - 1];
    }
  }

  /** A string splits in one way only at its last separator. */
  lemma SplitAtLast(a: string, b: string, a': string, b': string)
    requires a + "|" + b == a' + "|" + b'
    requires '|' !in b && '|' !in b'
    ensures a == a' && b == b'
  {
    var s := a + "|" + b;
    NoLaterSeparator(a, b, |a'|);
    NoLaterSeparator(a', b', |a|);
    assert a == s[..|a|] && b == s[|a| + 1..];
    assert a' == s[..|a'|] && b' == s[|a'| + 1..];
  }

  lemma CutSuffix(a: string, a': string, suffix: string)
    requires a + suffix == a' + suffix
    ensures a == a'
  {
    assert a == (a + suffix)[..|a|];
    assert a' == (a' + suffix)[..|a'|];
  }

  lemma SeparatorNotInDecimal(n: int)
    ensures '|' !in FormatInt(n)
  {
    if '|' in FormatInt(n) {
      FormatIntCharacters(n, '|');
    }
  }

  /** Under one nonce, the preimage determines ID and revenue, even for IDs that contain the separator. */
  lemma BidPreimageInjective(id: string, revenue: int, id': string, revenue': int, nonce: string)
    requires BidPreimage(id, revenue, nonce) == BidPreimage(id', revenue', nonce)
    ensures id == id' && revenue == revenue'
  {
    var r, r' := FormatInt(revenue), FormatInt(revenue');
    assert BidPreimage(id, revenue, nonce) == (id + "|" + r) + ("|" + nonce);
    assert BidPreimage(id', revenue', nonce) == (id' + "|" + r') + ("|" + nonce);
    CutSuffix(id + "|" + r, id' + "|" + r', "|" + nonce);
    SeparatorNotInDecimal(revenue);
    SeparatorNotInDecimal(revenue');
    SplitAtLast(id, r, id', r');
    FormatIntInjective(revenue, revenue');
  }

  /** When neither nonce contains the separator, the preimage determines ID, revenue and nonce. */
  lemma BidPreimageDecodable(id: string, revenue: int, nonce: string, id': string, revenue': int, nonce': string)
    requires BidPreimage(id, revenue, nonce) == BidPreimage(id', revenue', nonce')
    requires '|' !in nonce && '|' !in nonce'
    ensures id == id' && revenue == revenue' && nonce == nonce'
  {
    SplitAtLast(id + "|" + FormatInt(revenue), nonce, id' + "|" + FormatInt(revenue'), nonce');
    BidPreimageInjective(id, revenue, id', revenue', nonce);
  }

  /** `longer` is `shorter` with a printed number and separators in front of it. */
  ghost predicate Extends(longer: string, shorter: string) {
    exists r: int :: ExtendsBy(longer, shorter, r)
  }

  predicate ExtendsBy(longer: string, shorter: string, r: int) {
    var tail := FormatInt(r) + "|" + shorter;
    || longer == tail
    || (|longer| > |tail| && longer == longer[..|longer| - |tail| - 1] + "|" + tail)
  }

  ghost predicate Confusable(nonce: string, nonce': string) {
    exists id, revenue, id', revenue' ::
      BidPreimage(id, revenue, nonce) == BidPreimage(id', revenue', nonce')
  }

  /** One string read as ending in `n` and as ending in `d`, a separator and a shorter `n'`. */
  lemma LongerEnding(x: string, n: string, y: string, d: string, n': string)
    requires x + "|" + n == y + "|" + (d + "|" + n')
    requires '|' !in d && |n| > |n'|
    ensures |x| <= |y|
    ensures var tail := d + "|" + n';
            n == if |x| == |y| then tail else n[..|y| - |x| - 1] + "|" + tail
  {
    var tail := d + "|" + n';
    var s := x + "|" + n;
    var s' := y + "|" + tail;
    assert s'[|x|] == '|';
    forall k | |y| < k < |y| + 1 + |d|
      ensures s'[k] != '|'
    {
      assert s'[k] == d[k - |y| - 1];
    }
    assert n == s[|x| + 1..];
    assert s'[|x| + 1..] == if |x| == |y| then tail else y[|x| + 1..] + "|" + tail;
    if |x| < |y| {
      assert n[..|y| - |x| - 1] == y[|x| + 1..];
    }
  }

  lemma ConfusableOnlyIfExtends(id: string, revenue: int, nonce: string, id': string, revenue': int, nonce': string)
    requires BidPreimage(id, revenue, nonce) == BidPreimage(id', revenue', nonce')
    requires |nonce| > |nonce'|
    ensures ExtendsBy(nonce, nonce', revenue')
  {
    var d := FormatInt(revenue');
    SeparatorNotInDecimal(revenue');
    assert BidPreimage(id', revenue', nonce') == id' + "|" + (d + "|" + nonce');
    LongerEnding(id + "|" + FormatInt(revenue), nonce, id', d, nonce');
  }

  lemma EqualEndings(x: string, n: string, y: string, n': string)
    requires x + "|" + n == y + "|" + n' && |n| == |n'|
    ensures n == n'
  {
    assert n == (x + "|" + n)[|x| + 1..];
    assert n' == (y + "|" + n')[|y| + 1..];
  }

  lemma ConfusableIfExtends(nonce: string, nonce': string, r: int)
    requires ExtendsBy(nonce, nonce', r)
    ensures Confusable(nonce, nonce')
  {
    hide FormatInt;
    var d := FormatInt(r);
    var tail := d + "|" + nonce';
    if nonce == tail {
      SameReading("", FormatInt(0), d, nonce');
      assert "" + "|" + FormatInt(0) + "|" + (d + "|" + nonce') == BidPreimage("", 0, nonce);
      assert BidPreimage("", 0, nonce) == BidPreimage("" + "|" + FormatInt(0), r, nonce');
    } else {
      var z := nonce[..|nonce| - |tail| - 1];
      SameReadingAfter("", FormatInt(0), z, d, nonce');
      assert BidPreimage("", 0, nonce) == BidPreimage("" + "|" + FormatInt(0) + "|" + z, r, nonce');
    }
  }

  lemma SameReading(a: string, b: string, c: string, d: string)
    ensures a + "|" + b + "|" + (c + "|" + d) == (a + "|" + b) + "|" + c + "|" + d
  {
  }

  lemma SameReadingAfter(a: string, b: string, z: string, c: string, d: string)
    ensures a + "|" + b + "|" + (z + "|" + (c + "|" + d)) == (a + "|" + b + "|" + z) + "|" + c + "|" + d
  {
  }

  /**
    Exactly when two different nonces allow the same preimage for two bids: one
    of them must be a printed number, a separator and the other, possibly after
    a prefix that itself ends in a separator.
   */
  lemma ConfusableIff(nonce: string, nonce': string)
    requires nonce != nonce'
    ensures Confusable(nonce, nonce') <==> Extends(nonce, nonce') || Extends(nonce', nonce)
  {
    if Confusable(nonce, nonce') {
      var id, revenue, id', revenue' :| BidPreimage(id, revenue, nonce) == BidPreimage(id', revenue', nonce');
      if |nonce| > |nonce'| {
        ConfusableOnlyIfExtends(id, revenue, nonce, id', revenue', nonce');
      } else if |nonce'| > |nonce| {
        ConfusableOnlyIfExtends(id', revenue', nonce', id, revenue, nonce);
      } else {
        EqualEndings(id + "|" + FormatInt(revenue), nonce, id' + "|" + FormatInt(revenue'), nonce');
      }
    }
    if Extends(nonce, nonce') {
      var r :| ExtendsBy(nonce, nonce', r);
      ConfusableIfExtends(nonce, nonce', r);
    }
    if Extends(nonce', nonce) {
      var r :| ExtendsBy(nonce', nonce, r);
      ConfusableIfExtends(nonce', nonce, r);
      var id', revenue', id, revenue :|
        BidPreimage(id', revenue', nonce') == BidPreimage(id, revenue, nonce);
      assert BidPreimage(id, revenue, nonce) == BidPreimage(id', revenue', nonce');
    }
  }

  /** So the preimage alone does not tell these two nonces apart. */
  lemma SeparatorsConfuse()
    ensures Confusable("0|n", "n")
  {
    assert FormatInt(0) == "0";
    assert ExtendsBy("0|n", "n", 0);
    ConfusableIff("0|n", "n");
  }

  /** Under one nonce, the request preimage determines the request ID. */
  lemma RequestPreimageInjective(id: string, id': string, nonce: string)
    requires RequestPreimage(id, nonce) == RequestPreimage(id', nonce)
    ensures id == id'
  {
    assert RequestPreimage(id, nonce) == id + ("|" + nonce);
    assert RequestPreimage(id', nonce) == id' + ("|" + nonce);
    CutSuffix(id, id', "|" + nonce);
  }

  // ---- Nonces ----

  type Entropy = b: seq<Byte> | |b| == 32 witness seq(32, _ => 0)

  /** `generateNonce`: 256 random bytes' worth of lowercase hex. */
  function Nonce(random: Entropy): (s: string)
    ensures |s| == 64
  {
    HexEncode(random)
  }

  lemma {:induction false} HexEncodeInjective(a: seq<Byte>, b: seq<Byte>)
    requires HexEncode(a) == HexEncode(b)
    ensures a == b
  {
    var s := HexEncode(a);
    assert Lower(s) == s by {
      HexEncodeIsLowerHex(a);
      forall i | 0 <= i < |s|
        ensures LowerChar(s[i]) == s[i]
      {
        assert IsLowerHex(s[i]);
      }
    }
    HexDecodeIff(s, a);
    HexDecodeIff(s, b);
  }

  /** A nonce's characters: each random byte's high digit, then its low digit, bytes in order. */
  lemma NonceLayout(random: Entropy, i: nat)
    requires i < 32
    ensures Nonce(random)[2 * i] == "0123456789abcdef"[random[i] / 16]
    ensures Nonce(random)[2 * i + 1] == "0123456789abcdef"[random[i] % 16]
  {
    HexEncodeAt(random, i);
  }

  /**
    Generated nonces are never empty, contain no separator, and differ when
    their random bytes differ; so no two of them are confusable.
   */
  lemma NonceShape(random: Entropy, random': Entropy)
    ensures |Nonce(random)| == 64 && '|' !in Nonce(random)
    ensures Nonce(random) == Nonce(random') ==> random == random'
    ensures random != random' ==> !Confusable(Nonce(random), Nonce(random'))
  {
    HexEncodeIsLowerHex(random);
    HexEncodeIsLowerHex(random');
    if Nonce(random) == Nonce(random') {
      HexEncodeInjective(random, random');
    } else {
      if Confusable(Nonce(random), Nonce(random')) {
        var id, revenue, id', revenue' :|
          BidPreimage(id, revenue, Nonce(random)) == BidPreimage(id', revenue', Nonce(random'));
        BidPreimageDecodable(id, revenue, Nonce(random), id', revenue', Nonce(random'));
      }
    }
  }
}
