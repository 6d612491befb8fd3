/**
 * The CIDR engine of script.js: `parseCIDR` checks the A.B.C.D/P notation
 * (the address-prefix notation of section 3.1 of RFC 4632) and `cidrCalc`
 * derives the block's size, mask, network and broadcast addresses; the
 * input handler then derives the usable count and the first and last
 * usable addresses.
 */
module Cidr {
  import opened Wrappers
  import opened Bits
  import opened Text
  import opened Address

  /** What `parseCIDR` returns: the address as a number and the prefix length. */
  datatype Block = Block(ipNum: nat, prefix: nat)

  /** What `cidrCalc` returns. */
  datatype Range = Range(network: nat, broadcast: nat, total: nat, prefix: nat)

  /** `\d{1,3}(?:\.\d{1,3}){3}`: four groups of one to three digits joined by dots. */
  predicate IsDottedShape(a: string)
  {
    AllOctetTexts(Split(a, '.'))
  }

  /** `\d{1,2}`: one or two digits. */
  predicate IsPrefixText(p: string)
  {
    1 <= |p| <= 2 && IsDigits(p)
  }

  /**
   * The anchored match of `^(\d{1,3}(?:\.\d{1,3}){3})\/(\d{1,2})$`, giving
   * the address group and the prefix group.
   */
  function MatchCidr(s: string): (m: Option<(string, string)>)
    ensures m.Some? ==> s == m.value.0 + "/" + m.value.1
    ensures m.Some? ==> IsDottedShape(m.value.0) && IsPrefixText(m.value.1)
  {
    var halves := Split(s, '/');
    JoinSplit(s, '/');
    if |halves| == 2 && IsDottedShape(halves[0]) && IsPrefixText(halves[1]) then
      Some((halves[0], halves[1]))
    else
      None
  }

  /** Every string of the shape the pattern describes is matched, with its own groups. */
  lemma MatchCidrComplete(a: string, p: string)
    requires IsDottedShape(a) && IsPrefixText(p)
    ensures MatchCidr(a + "/" + p) == Some((a, p))
  {
    var parts := Split(a, '.');
    forall i | 0 <= i < |parts| ensures '/' !in parts[i] {
      assert IsDigits(parts[i]);
    }
    JoinSplit(a, '.');
    JoinAvoids(parts, '.', '/');
    assert IsDigits(p);
    SplitFree(p, '/');
    SplitCons(a, '/', p);
  }

  /**
   * `parseCIDR`: the shape error when the pattern does not match, then the
   * address's own errors, then the prefix error for a prefix above 32.
   */
  function ParseCidr(s: string): (r: Result<Block, ErrorKind>)
    ensures r == Err(ShapeError) <==> MatchCidr(s).None?
    ensures r != Err(IpFormatError)
    ensures r.Ok? ==> r.value.ipNum < TWO32 && r.value.prefix <= 32
  {
    match MatchCidr(s)
    case None => Err(ShapeError)
    case Some((a, p)) =>
      match ParseAddress(a)
      case Err(e) => Err(e)
      case Ok(ipNum) =>
        var prefix := DecimalValue(p);
        if prefix > 32 then Err(PrefixError) else Ok(Block(ipNum, prefix))
  }

  /** The outcome of `parseCIDR` on a string of the right shape, error by error. */
  lemma ParseCidrOfShape(a: string, p: string)
    requires IsDottedShape(a) && IsPrefixText(p)
    ensures ParseAddress(a).Err? ==> ParseCidr(a + "/" + p) == Err(OctetError)
    ensures ParseAddress(a).Ok? && DecimalValue(p) > 32 ==> ParseCidr(a + "/" + p) == Err(PrefixError)
    ensures ParseAddress(a).Ok? && DecimalValue(p) <= 32 ==>
              ParseCidr(a + "/" + p) == Ok(Block(ParseAddress(a).value, DecimalValue(p)))
  {
    MatchCidrComplete(a, p);
  }

  /** The text `numToIp(n) + "/" + prefix` parses back to the same block. */
  lemma CidrRoundTrip(n: nat, prefix: nat)
    requires n < TWO32 && prefix <= 32
    ensures ParseCidr(NumToIp(n) + "/" + Decimal(prefix)) == Ok(Block(n, prefix))
  {
    AddressShape(n);
    DecimalLength(prefix, 2, 100);
    DecimalCanonical(prefix);
    DecimalRoundTrip(prefix);
    AddressRoundTrip(n);
    ParseCidrOfShape(NumToIp(n), Decimal(prefix));
  }

  /** `numToIp` writes text of the shape the CIDR pattern accepts. */
  lemma AddressShape(n: nat)
    requires n < TWO32
    ensures IsDottedShape(NumToIp(n))
  {
    NumToIpParts(n);
  }

  /** The mask of `cidrCalc`: all ones above the low hostBits bits. */
  function Mask(hostBits: nat): (m: nat)
    requires hostBits <= 32
    ensures m == TWO32 - Pow2(hostBits)
  {
    Pow2Of32();
    Pow2Monotone(hostBits, 32);
    if hostBits == 32 then 0
    else
      var total := Pow2(hostBits);
      BitNotValue(ToUint32(total - 1), 32);
      BitNot(ToUint32(total - 1), 32)  // ~(total - 1) >>> 0
  }

  /** A range as `cidrCalc` produces it: an aligned block of 2^(32-prefix) addresses. */
  ghost predicate WellFormed(r: Range)
  {
    r.prefix <= 32 && r.total == Pow2(32 - r.prefix) && r.network % r.total == 0 &&
    r.broadcast == r.network + r.total - 1 && r.broadcast < TWO32
  }

  /**
   * The arithmetic of `cidrCalc` on a parsed block: the network address is
   * the address with its host bits cleared, the broadcast address the
   * network address with its host bits set.
   */
  function Calc(ipNum: nat, prefix: nat): (r: Range)
    requires ipNum < TWO32 && prefix <= 32
    ensures WellFormed(r) && r.prefix == prefix
    ensures r.network == ipNum - ipNum % r.total
    ensures r.network <= ipNum <= r.broadcast
  {
    var hostBits := 32 - prefix;
    var total := Pow2(hostBits);
    var mask := Mask(hostBits);
    var network := BitAnd(ipNum, mask, 32);                 // (ipNum & mask) >>> 0
    var broadcast := BitOr(network, BitNot(mask, 32), 32);  // (network | (~mask >>> 0)) >>> 0
    CalcFacts(ipNum, hostBits);
    Range(network, broadcast, total, prefix)
  }

  lemma CalcFacts(ipNum: nat, hostBits: nat)
    requires ipNum < TWO32 && hostBits <= 32
    ensures var d := Pow2(hostBits);
            var network := BitAnd(ipNum, Mask(hostBits), 32);
            network == ipNum - ipNum % d && network % d == 0 &&
            BitOr(network, BitNot(Mask(hostBits), 32), 32) == network + d - 1 &&
            network + d <= TWO32
  {
    NetworkFacts(ipNum, hostBits);
    var network := ipNum - ipNum % Pow2(hostBits);
    BroadcastFacts(network, hostBits, Mask(hostBits));
  }

  /** `ipNum & mask` clears the host bits, leaving an aligned block that fits below 2^32. */
  lemma NetworkFacts(ipNum: nat, hostBits: nat)
    requires ipNum < TWO32 && hostBits <= 32
    ensures var d := Pow2(hostBits);
            var network := BitAnd(ipNum, Mask(hostBits), 32);
            network == ipNum - ipNum % d && network % d == 0 && network + d <= TWO32
  {
    var d := Pow2(hostBits);
    Pow2Of32();
    Pow2Monotone(hostBits, 32);
    BitAndHighOnes(ipNum, hostBits, 32);
    RoundDownIsMultiple(ipNum, d);
    BlockFits(ipNum, hostBits);
  }

  lemma BlockFits(ipNum: nat, hostBits: nat)
    requires ipNum < TWO32 && hostBits <= 32
    ensures ipNum - ipNum % Pow2(hostBits) + Pow2(hostBits) <= TWO32
  {
    var d, k := Pow2(hostBits), Pow2(32 - hostBits);
    Pow2Add(hostBits, 32 - hostBits);
    Pow2Of32();
    assert d * k == TWO32;
    AlignedBlockFits(ipNum, d, k);
  }

  /** `network | ~mask` sets the host bits of an aligned network address. */
  lemma BroadcastFacts(network: nat, hostBits: nat, mask: nat)
    requires hostBits <= 32 && network < TWO32 && network % Pow2(hostBits) == 0
    requires mask == TWO32 - Pow2(hostBits)
    ensures BitOr(network, BitNot(mask, 32), 32) == network + Pow2(hostBits) - 1
  {
    assert BitNot(mask, 32) == Pow2(hostBits) - 1 by {
      Pow2Of32();
      BitNotValue(mask, 32);
    }
    assert BitOr(network, Pow2(hostBits) - 1, 32) == network + Pow2(hostBits) - 1 by {
      Pow2Of32();
      BitOrLowOnes(network, hostBits, 32);
    }
  }

  /** An aligned block of size d that starts at or below x < d·k ends at or below d·k. */
  lemma AlignedBlockFits(x: nat, d: nat, k: nat)
    requires d > 0 && x < d * k
    ensures x - x % d + d <= d * k
  {
    var q := x / d;
    assert x - x % d == d * q;
    if q >= k {
      MulMonotone(d, k, q);
    }
    MulMonotone(d, q + 1, k);
  }

  /** `cidrCalc`: parse, then compute the range; errors pass through unchanged. */
  function CidrCalc(s: string): (r: Result<Range, ErrorKind>)
    ensures r.Err? <==> ParseCidr(s).Err?
    ensures r.Err? ==> r.error == ParseCidr(s).error && r.error != IpFormatError
    ensures r.Ok? ==> WellFormed(r.value)
    ensures r.Ok? ==> var b := ParseCidr(s).value;
      r.value.prefix == b.prefix && r.value.network <= b.ipNum <= r.value.broadcast
  {
    match ParseCidr(s)
    case Err(e) => Err(e)
    case Ok(b) => Ok(Calc(b.ipNum, b.prefix))
  }

  /** Applying the calculation to its own network address gives the same range. */
  lemma CalcIdempotent(ipNum: nat, prefix: nat)
    requires ipNum < TWO32 && prefix <= 32
    ensures Calc(Calc(ipNum, prefix).network, prefix) == Calc(ipNum, prefix)
  {
    var r := Calc(ipNum, prefix);
    var r' := Calc(r.network, prefix);
    assert r'.network == r.network - r.network % r.total;
  }

  /** Prefix 0 covers the whole space: mask 0, 0.0.0.0 to 255.255.255.255, 2^32 addresses. */
  lemma CalcPrefixZero(ipNum: nat)
    requires ipNum < TWO32
    ensures Mask(32) == 0
    ensures Calc(ipNum, 0) == Range(0, TWO32 - 1, TWO32, 0)
  {
    Pow2Of32();
    DivModUnique(ipNum, TWO32, 0, ipNum);
  }

  /** Prefix 32 is the single address itself. */
  lemma CalcPrefix32(ipNum: nat)
    requires ipNum < TWO32
    ensures Calc(ipNum, 32) == Range(ipNum, ipNum, 1, 32)
  {
  }

  /** The text shown where a block has no usable host addresses. */
  const NotApplicable: string := "N/A"

  /** The summary table the input handler fills, before formatting. */
  datatype Summary = Summary(network: nat, broadcast: nat, total: nat, usable: nat, first: Option<nat>, last: Option<nat>)

  /**
   * The summary of a range: the usable count leaves out the network and
   * broadcast addresses, and the first and last usable addresses exist
   * only in a block of more than two addresses (no exception for /31).
   */
  function Summarize(r: Range): (s: Summary)
    requires WellFormed(r)
    ensures s.network == r.network && s.broadcast == r.broadcast
    ensures s.total == s.broadcast - s.network + 1
    ensures s.usable == if s.total >= 2 then s.broadcast - s.network - 1 else 0
    ensures s.first.Some? <==> s.total > 2
    ensures s.last.Some? <==> s.total > 2
    ensures s.first.Some? ==> s.network < s.first.value <= s.last.value < s.broadcast
    ensures s.first.Some? ==> s.last.value - s.first.value + 1 == s.usable
    ensures s.first.Some? ==> s.first.value == s.network + 1 && s.last.value == s.broadcast - 1
  {
    var total := r.total;
    Summary(r.network, r.broadcast, total, Usable(total),
            if total > 2 then Some(r.network + 1) else None,
            if total > 2 then Some(r.broadcast - 1) else None)
  }

  /** `Math.max(total - 2, 0)`: the larger of total - 2 and 0. */
  function Usable(total: nat): (r: nat)
    ensures r >= total - 2
    ensures r == 0 || r == total - 2
  {
    if total - 2 > 0 then total - 2 else 0
  }

  /** The six cells of the summary table as text; "N/A" stands for a missing address. */
  function SummaryCells(s: Summary): seq<string>
  {
    [NumToIp(s.network), NumToIp(s.broadcast), Decimal(s.total), Decimal(s.usable),
     if s.first.Some? then NumToIp(s.first.value) else NotApplicable,
     if s.last.Some? then NumToIp(s.last.value) else NotApplicable]
  }
}
