/**
 * Worked cases of the calculator: a /24 block, a single host, the whole
 * space, a block too large to list, the three kinds of rejected input,
 * and the page count of a 600-address list.
 *
 * The rejected texts are passed as parameters fixed by `requires`, so that the
 * proofs go through the general lemmas rather than unfolding the parser
 * character by character.
 */
module Examples {
  import opened Wrappers
  import opened Bits
  import opened Text
  import opened Address
  import opened Cidr
  import opened Session

  /** Four parts joined with dots, written out. */
  lemma JoinFour(p0: string, p1: string, p2: string, p3: string)
    ensures Join([p0, p1, p2, p3], '.') == p0 + "." + p1 + "." + p2 + "." + p3
  {
    var parts := [p0, p1, p2, p3];
    assert parts[1..] == [p1, p2, p3];
    assert parts[1..][1..] == [p2, p3];
    assert parts[1..][1..][1..] == [p3];
    assert Join([p3], '.') == p3;
    assert Join([p2, p3], '.') == p2 + "." + p3;
    assert Join([p1, p2, p3], '.') == p1 + "." + (p2 + "." + p3);
  }

  /** Four octet texts joined with dots have the dotted shape and split back into themselves. */
  lemma DottedOfFour(a: string, parts: seq<string>)
    requires |parts| == 4 && a == Join(parts, '.')
    requires IsOctetText(parts[0]) && IsOctetText(parts[1]) && IsOctetText(parts[2]) && IsOctetText(parts[3])
    ensures Split(a, '.') == parts && IsDottedShape(a)
  {
    FourOctetTexts(parts);
    forall i | 0 <= i < 4 ensures '.' !in parts[i] {
      assert IsOctetText(parts[i]);
    }
    SplitJoin(parts, '.');
  }

  /**
   * The block of 10.0.0.0 (0x0A00_0000) with prefix 24: network 10.0.0.0,
   * broadcast 10.0.0.255, 256 addresses, 254 usable, 10.0.0.1 to 10.0.0.254.
   */
  lemma ExampleSlash24()
    ensures Calc(0x0A00_0000, 24) == Range(0x0A00_0000, 0x0A00_00FF, 256, 24)
    ensures Summarize(Calc(0x0A00_0000, 24)) ==
              Summary(0x0A00_0000, 0x0A00_00FF, 256, 254, Some(0x0A00_0001), Some(0x0A00_00FE))
  {
    Pow2Of32();
    DivModUnique(0x0A00_0000, 256, 0x0A_0000, 0);
  }

  /** The block of 192.168.1.5 (0xC0A8_0105) with prefix 32: the address alone, nothing usable. */
  lemma ExampleHost()
    ensures Calc(0xC0A8_0105, 32) == Range(0xC0A8_0105, 0xC0A8_0105, 1, 32)
    ensures Summarize(Calc(0xC0A8_0105, 32)) == Summary(0xC0A8_0105, 0xC0A8_0105, 1, 0, None, None)
  {
    CalcPrefix32(0xC0A8_0105);
  }

  /**
   * Prefix 0 from any address: 0.0.0.0 to 255.255.255.255 and 2^32
   * addresses, too many to list and to download whole.
   */
  lemma ExampleWholeSpace()
    ensures Calc(0, 0) == Range(0, 0xFFFF_FFFF, TWO32, 0)
    ensures Calc(0, 0).total > RENDER_LIMIT && Calc(0, 0).total > MAX_DOWNLOAD
  {
    CalcPrefixZero(0);
  }

  /**
   * The block of 10.0.0.0 (0x0A00_0000) with prefix 8: 10.0.0.0 to
   * 10.255.255.255, 16,777,216 addresses, above both the listing limit and
   * the download cap.
   */
  lemma ExampleSlash8()
    ensures Calc(0x0A00_0000, 8) == Range(0x0A00_0000, 0x0AFF_FFFF, 0x100_0000, 8)
    ensures Calc(0x0A00_0000, 8).total > RENDER_LIMIT && Calc(0x0A00_0000, 8).total > MAX_DOWNLOAD
  {
    Pow2Of32();
    DivModUnique(0x0A00_0000, 0x100_0000, 10, 0);
  }

  /** "not-a-cidr" has no "/" and is refused by the pattern. */
  lemma ExampleShapeError(s: string)
    requires s == "not-a-cidr"
    ensures ParseCidr(s) == Err(ShapeError)
  {
    SplitFree(s, '/');
  }

  /** "999.1.1.1/24" has the right shape but an octet above 255. */
  lemma ExampleOctetError(s: string, a: string, p: string)
    requires s == "999.1.1.1/24" && a == "999.1.1.1" && p == "24"
    ensures ParseCidr(s) == Err(OctetError)
  {
    var parts := ["999", "1", "1", "1"];
    assert Split(a, '.') == parts && IsDottedShape(a) by {
      JoinFour("999", "1", "1", "1");
      DottedOfFour(a, parts);
    }
    assert ParseAddress(a).Err? by {
      assert ParseOctet(parts[0]) == None by {
        assert Decimal(999) == "999";
        DecimalRoundTrip(999);
      }
      ParseAddressSpec(a);
    }
    assert IsPrefixText(p);
    ParseCidrOfShape(a, p);
    assert a + "/" + p == s;
  }

  /** "10.0.0.0/33" has the right shape and a valid address but a prefix above 32. */
  lemma ExamplePrefixError(s: string, a: string, p: string)
    requires s == "10.0.0.0/33" && a == "10.0.0.0" && p == "33"
    ensures ParseCidr(s) == Err(PrefixError)
  {
    var parts := ["10", "0", "0", "0"];
    assert Split(a, '.') == parts && IsDottedShape(a) by {
      JoinFour("10", "0", "0", "0");
      DottedOfFour(a, parts);
    }
    assert ParseAddress(a).Ok? by {
      assert ParseOctet("10") == Some(10) && ParseOctet("0") == Some(0) by {
        assert Decimal(10) == "10" && Decimal(0) == "0";
        DecimalRoundTrip(10);
        DecimalRoundTrip(0);
      }
      assert AllOctets(parts);
      ParseAddressSpec(a);
    }
    assert IsPrefixText(p) && DecimalValue(p) == 33 by {
      assert Decimal(33) == "33";
      DecimalRoundTrip(33);
    }
    ParseCidrOfShape(a, p);
    assert a + "/" + p == s;
  }

  /**
   * A list of 600 addresses makes three pages: two full ones and 88 on the
   * third, which is the last, so the next button does nothing there.
   */
  lemma ExamplePaging(items: seq<string>)
    requires |items| == 600
    ensures TotalPages(|items|) == 3
    ensures PageSlice(items, 1) == items[..256] && PageSlice(items, 3) == items[512..]
    ensures 2 * PAGE_SIZE < |items| && !(3 * PAGE_SIZE < |items|)
  {
    NextGuard(|items|, 2);
    NextGuard(|items|, 3);
  }
}
