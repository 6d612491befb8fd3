/**
 * The dotted-quad codec of script.js: `ipToNum` reads "A.B.C.D" into an
 * unsigned 32-bit number and `numToIp` writes such a number back.
 */
module Address {
  import opened Wrappers
  import opened Bits
  import opened Text

  /** The kinds of error the calculator throws, one per message. */
  datatype ErrorKind =
    | ShapeError     // the input is not of the form A.B.C.D/P
    | IpFormatError  // the address does not split into four parts
    | OctetError     // a part is not an integer in 0..255
    | PrefixError    // the prefix is above 32

  /**
   * `Number(p)` followed by the integer and 0..255 checks, for a part
   * made of ASCII digits; any other part is refused as an octet.
   */
  function ParseOctet(p: string): (r: Option<nat>)
    ensures r.Some? ==> r.value <= 255
  {
    if |p| >= 1 && IsDigits(p) && DecimalValue(p) <= 255 then Some(DecimalValue(p)) else None
  }

  predicate AllOctets(parts: seq<string>)
  {
    forall i :: 0 <= i < |parts| ==> ParseOctet(parts[i]).Some?
  }

  /** The number whose base-256 digits are the parts, most significant first. */
  function PartsValue(parts: seq<string>): (r: nat)
    requires AllOctets(parts)
    ensures r < Pow2(8 * |parts|)
  {
    if |parts| == 0 then 0
    else
      var prev := PartsValue(parts[..|parts| - 1]);
      Pow2Add(8 * (|parts| - 1), 8);
      Pow2Of32();
      prev * 256 + ParseOctet(parts[|parts| - 1]).value
  }

  function Octet(parts: seq<string>, i: nat): nat
    requires i < |parts| && AllOctets(parts)
  {
    ParseOctet(parts[i]).value
  }

  /**
   * What `ipToNum` computes: four dot-separated octets give
   * o0·2^24 + o1·2^16 + o2·2^8 + o3; the wrong number of parts and a
   * bad part are distinct errors.
   */
  function ParseAddress(ip: string): (r: Result<nat, ErrorKind>)
    ensures r.Ok? ==> r.value < TWO32
  {
    var parts := Split(ip, '.');
    if |parts| != 4 then Err(IpFormatError)
    else if !AllOctets(parts) then Err(OctetError)
    else
      PartsValueOfFour(parts);
      Ok(PartsValue(parts))
  }

  /**
   * `ipToNum` fails with the format error exactly when the text does not
   * split into four parts, with the octet error exactly when some part is
   * not an octet, and otherwise returns the base-256 number of the octets.
   */
  lemma ParseAddressSpec(ip: string)
    ensures var parts := Split(ip, '.');
      && (ParseAddress(ip) == Err(IpFormatError) <==> |parts| != 4)
      && (ParseAddress(ip) == Err(OctetError) <==> |parts| == 4 && !AllOctets(parts))
      && (ParseAddress(ip).Ok? <==> |parts| == 4 && AllOctets(parts))
      && (ParseAddress(ip).Ok? ==>
           ParseAddress(ip).value == Octet(parts, 0) * 0x100_0000 + Octet(parts, 1) * 0x1_0000
                                     + Octet(parts, 2) * 0x100 + Octet(parts, 3))
  {
    var parts := Split(ip, '.');
    if |parts| == 4 && AllOctets(parts) {
      PartsValueOfFour(parts);
    }
  }

  lemma PartsValueOfFour(parts: seq<string>)
    requires |parts| == 4 && AllOctets(parts)
    ensures PartsValue(parts) < TWO32
    ensures PartsValue(parts) == Octet(parts, 0) * 0x100_0000 + Octet(parts, 1) * 0x1_0000 + Octet(parts, 2) * 0x100 + Octet(parts, 3)
  {
    Pow2Of32();
    PartsValueLast(parts);
    PartsValueLast(parts[..3]);
    PartsValueLast(parts[..2]);
    PartsValueLast(parts[..1]);
    assert parts[..3][..2] == parts[..2];
    assert parts[..2][..1] == parts[..1];
    assert parts[..1][..0] == [];
  }

  /** The value of the parts is the value of all but the last, shifted one byte, plus the last. */
  lemma PartsValueLast(parts: seq<string>)
    requires |parts| >= 1 && AllOctets(parts)
    ensures AllOctets(parts[..|parts| - 1])
    ensures forall i :: 0 <= i < |parts| - 1 ==> Octet(parts[..|parts| - 1], i) == Octet(parts, i)
    ensures PartsValue(parts) == PartsValue(parts[..|parts| - 1]) * 256 + Octet(parts, |parts| - 1)
  {
  }

  /** One step of `n = (n << 8) + x` on a value still below 2^24. */
  lemma ShiftStep(n: int, x: nat)
    requires 0 <= n < 0x100_0000 && x <= 255
    ensures ToUint32(ShiftLeft(n, 8) + x) == n * 256 + x
    ensures n < 0x1_0000 ==> ShiftLeft(n, 8) + x == n * 256 + x
  {
    var m := n * 256;
    assert ShiftLeft(n, 8) == ToInt32(m) by {
      Pow2Of32();
      DivModUnique(n, TWO32, 0, n);
    }
    assert ToInt32(m) == if m < TWO31 then m else m - TWO32 by {
      DivModUnique(m, TWO32, 0, m);
    }
    assert ToUint32(ShiftLeft(n, 8) + x) == m + x by {
      if m < TWO31 {
        DivModUnique(m + x, TWO32, 0, m + x);
      } else {
        DivModUnique(m - TWO32 + x, TWO32, -1, m + x);
      }
    }
  }

  /**
   * `ipToNum` as the source runs it: a loop over the parts that throws on
   * the first bad one and accumulates with the 32-bit shift `n << 8`,
   * then reads the result unsigned with `n >>> 0`.
   */
  method IpToNum(ip: string) returns (r: Result<nat, ErrorKind>)
    ensures r == ParseAddress(ip)
  {
    var parts := Split(ip, '.');
    if |parts| != 4 {
      return Err(IpFormatError);
    }
    var n: int := 0;
    var i := 0;
    while i < 4
      invariant 0 <= i <= 4
      invariant AllOctets(parts[..i])
      invariant i < 4 ==> n == PartsValue(parts[..i])
      invariant i == 4 ==> ToUint32(n) == PartsValue(parts[..i])
    {
      var x := ParseOctet(parts[i]);
      if x.None? {
        return Err(OctetError);
      }
      PrefixStep(parts, i);
      ShiftStep(n, x.value);
      n := ShiftLeft(n, 8) + x.value;
      i := i + 1;
    }
    assert parts[..4] == parts;
    return Ok(ToUint32(n));
  }

  /** Extending an all-octet prefix of the parts by one octet. */
  lemma PrefixStep(parts: seq<string>, i: nat)
    requires i < 4 && i < |parts| && AllOctets(parts[..i]) && ParseOctet(parts[i]).Some?
    ensures AllOctets(parts[..i + 1])
    ensures PartsValue(parts[..i + 1]) == PartsValue(parts[..i]) * 256 + ParseOctet(parts[i]).value
    ensures PartsValue(parts[..i]) < 0x100_0000
    ensures i < 3 ==> PartsValue(parts[..i]) < 0x1_0000
  {
    var longer := parts[..i + 1];
    assert longer[..i] == parts[..i];
    assert AllOctets(longer) by {
      forall j | 0 <= j < |longer| ensures ParseOctet(longer[j]).Some? {
        if j < i {
          assert longer[j] == parts[..i][j];
        }
      }
    }
    PartsValueLast(longer);
    assert PartsValue(parts[..i]) < Pow2(8 * i);
    assert Pow2(8 * i) <= 0x100_0000 by {
      Pow2Of32();
      Pow2Monotone(8 * i, 24);
    }
    if i < 3 {
      assert Pow2(8 * i) <= 0x1_0000 by {
        Pow2Of32();
        Pow2Monotone(8 * i, 16);
      }
    }
  }

  /** `numToIp`: the four bytes of the unsigned number, high byte first. */
  function NumToIp(num: int): string
  {
    Join([Decimal(BitAnd(ShiftRightUnsigned(num, 24), 255, 32)),
          Decimal(BitAnd(ShiftRightUnsigned(num, 16), 255, 32)),
          Decimal(BitAnd(ShiftRightUnsigned(num, 8), 255, 32)),
          Decimal(BitAnd(ToUint32(num), 255, 32))], '.')
  }

  /** The four octets `numToIp` writes for an address below 2^32. */
  lemma NumToIpOctets(n: nat)
    requires n < TWO32
    ensures NumToIp(n) == Join([Decimal(n / 0x100_0000), Decimal(n / 0x1_0000 % 256),
                                Decimal(n / 0x100 % 256), Decimal(n % 256)], '.')
  {
    HighByte(n);
    assert BitAnd(ShiftRightUnsigned(n, 16), 255, 32) == n / 0x1_0000 % 256 by {
      Pow2Of32();
      ShiftedByte(n, 16, 0x1_0000);
    }
    assert BitAnd(ShiftRightUnsigned(n, 8), 255, 32) == n / 0x100 % 256 by {
      Pow2Of32();
      ShiftedByte(n, 8, 0x100);
    }
    assert BitAnd(ToUint32(n), 255, 32) == n % 256 by {
      DivModUnique(n, TWO32, 0, n);
      BitAndByte(n);
    }
  }

  /** `(n >>> 24) & 255` is the high byte itself: nothing above it survives in an address. */
  lemma HighByte(n: nat)
    requires n < TWO32
    ensures BitAnd(ShiftRightUnsigned(n, 24), 255, 32) == n / 0x100_0000
  {
    var b := n / 0x100_0000;
    assert BitAnd(ShiftRightUnsigned(n, 24), 255, 32) == b % 256 by {
      Pow2Of32();
      ShiftedByte(n, 24, 0x100_0000);
    }
    assert b < 256 by {
      QuotientBelow(n, 0x100_0000, 256);
    }
    DivModUnique(b, 256, 0, b);
  }

  /** `(n >>> k) & 255` is byte k/8 of an address n. */
  lemma ShiftedByte(n: nat, k: nat, p: nat)
    requires n < TWO32 && k < 32 && p == Pow2(k)
    ensures BitAnd(ShiftRightUnsigned(n, k), 255, 32) == n / p % 256
  {
    assert ToUint32(n) == n;
    var b := n / p;
    HalveIsDivision(n, k);
    assert ShiftRightUnsigned(n, k) == b;
    BitAndByte(b);
  }

  lemma OctetOfDecimal(k: nat)
    requires k <= 255
    ensures ParseOctet(Decimal(k)) == Some(k)
    ensures IsOctetText(Decimal(k))
  {
    DecimalCanonical(k);
    DecimalRoundTrip(k);
    DecimalLength(k, 3, 1000);
  }

  /** The four parts of the text `numToIp` writes, high byte first. */
  ghost function QuadTexts(n: nat): seq<string>
  {
    [Decimal(n / 0x100_0000), Decimal(n / 0x1_0000 % 256), Decimal(n / 0x100 % 256), Decimal(n % 256)]
  }

  /** `\d{1,3}`: one to three decimal digits. */
  predicate IsOctetText(p: string)
  {
    1 <= |p| <= 3 && IsDigits(p)
  }

  /** Four parts, each of one to three digits. */
  predicate AllOctetTexts(parts: seq<string>)
  {
    |parts| == 4 && forall i :: 0 <= i < 4 ==> IsOctetText(parts[i])
  }

  lemma FourOctetTexts(parts: seq<string>)
    requires |parts| == 4
    requires IsOctetText(parts[0]) && IsOctetText(parts[1]) && IsOctetText(parts[2]) && IsOctetText(parts[3])
    ensures AllOctetTexts(parts)
  {
    forall i | 0 <= i < 4
      ensures IsOctetText(parts[i])
    {
      if i == 0 {} else if i == 1 {} else if i == 2 {} else {}
    }
  }

  /** Four octet texts joined with dots split back into themselves, and read as their base-256 number. */
  lemma OctetQuad(parts: seq<string>, o0: nat, o1: nat, o2: nat, o3: nat)
    requires AllOctetTexts(parts)
    requires ParseOctet(parts[0]) == Some(o0) && ParseOctet(parts[1]) == Some(o1)
    requires ParseOctet(parts[2]) == Some(o2) && ParseOctet(parts[3]) == Some(o3)
    ensures Split(Join(parts, '.'), '.') == parts
    ensures AllOctets(parts)
    ensures PartsValue(parts) == o0 * 0x100_0000 + o1 * 0x1_0000 + o2 * 0x100 + o3
  {
    forall i | 0 <= i < 4 ensures '.' !in parts[i] {
      assert IsOctetText(parts[i]);
    }
    SplitJoin(parts, '.');
    assert AllOctets(parts);
    PartsValueOfFour(parts);
  }

  /** Four bytes written in decimal and joined with dots split back into octets of their value. */
  lemma DecimalQuad(parts: seq<string>, o0: nat, o1: nat, o2: nat, o3: nat)
    requires o0 <= 255 && o1 <= 255 && o2 <= 255 && o3 <= 255
    requires parts == [Decimal(o0), Decimal(o1), Decimal(o2), Decimal(o3)]
    ensures Split(Join(parts, '.'), '.') == parts
    ensures AllOctets(parts) && AllOctetTexts(parts)
    ensures PartsValue(parts) == o0 * 0x100_0000 + o1 * 0x1_0000 + o2 * 0x100 + o3
  {
    assert IsOctetText(parts[0]) && ParseOctet(parts[0]) == Some(o0) by { OctetOfDecimal(o0); }
    assert IsOctetText(parts[1]) && ParseOctet(parts[1]) == Some(o1) by { OctetOfDecimal(o1); }
    assert IsOctetText(parts[2]) && ParseOctet(parts[2]) == Some(o2) by { OctetOfDecimal(o2); }
    assert IsOctetText(parts[3]) && ParseOctet(parts[3]) == Some(o3) by { OctetOfDecimal(o3); }
    FourOctetTexts(parts);
    OctetQuad(parts, o0, o1, o2, o3);
  }

  /** The text of an address splits into four octet texts whose value is the address. */
  lemma NumToIpParts(n: nat)
    requires n < TWO32
    ensures Split(NumToIp(n), '.') == QuadTexts(n)
    ensures AllOctets(QuadTexts(n))
    ensures AllOctetTexts(QuadTexts(n))
    ensures PartsValue(QuadTexts(n)) == n
  {
    NumToIpOctets(n);
    ByteDecomposition(n);
    DecimalQuad(QuadTexts(n), n / 0x100_0000, n / 0x1_0000 % 256, n / 0x100 % 256, n % 256);
  }

  /** Every address survives a trip through its dotted-quad text. */
  lemma AddressRoundTrip(n: nat)
    requires n < TWO32
    ensures ParseAddress(NumToIp(n)) == Ok(n)
  {
    NumToIpParts(n);
  }

  lemma ByteDecomposition(n: nat)
    requires n < TWO32
    ensures n / 0x100_0000 <= 255
    ensures n == n / 0x100_0000 * 0x100_0000 + n / 0x1_0000 % 256 * 0x1_0000 + n / 0x100 % 256 * 0x100 + n % 256
  {
    var a := n / 0x100;
    var b := a / 0x100;
    var c := b / 0x100;
    DivModUnique(n, 0x1_0000, b, a % 256 * 256 + n % 256);
    DivModUnique(n, 0x100_0000, c, b % 256 * 0x1_0000 + a % 256 * 256 + n % 256);
  }
}
