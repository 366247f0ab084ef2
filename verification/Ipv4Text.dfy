/** The text form of an IPv4 CIDR block. */
module Ipv4Text {
  import opened Machine
  import opened Text
  import opened Arith
  import C = Cidr

  const USIZE_MAX: nat := USIZE_LIMIT - 1

  // ----- Addresses -----

  /** A number of 32 bits from its four bytes, the first one highest. */
  function FromOctets(a: nat, b: nat, c: nat, d: nat): nat {
    ((a * 256 + b) * 256 + c) * 256 + d
  }

  /** `Display` of an address. */
  function PrintAddr(x: nat): string {
    Decimal(x / 256 / 256 / 256) + ['.'] + Decimal(x / 256 / 256 % 256) + ['.'] +
    Decimal(x / 256 % 256) + ['.'] + Decimal(x % 256)
  }

  /** One to three decimal digits of a number up to 255. Only older versions of the
      standard library take leading zeros, hence the flag. */
  function ParseOctet(s: string, leadingZeros: bool): Option<nat> {
    if 1 <= |s| <= 3 && AllDecimal(s) && (leadingZeros || |s| == 1 || s[0] != '0')
    then FromStrRadix(s, 10, 255)
    else None
  }

  /** `Ipv4Addr::from_str`. */
  function ParseAddr(s: string, leadingZeros: bool): Option<nat> {
    var pieces := Split(s, {'.'});
    if |pieces| != 4 then None else
    var a, b := ParseOctet(pieces[0], leadingZeros), ParseOctet(pieces[1], leadingZeros);
    var c, d := ParseOctet(pieces[2], leadingZeros), ParseOctet(pieces[3], leadingZeros);
    if a.Some? && b.Some? && c.Some? && d.Some? then Some(FromOctets(a.value, b.value, c.value, d.value)) else None
  }

  // ----- Blocks -----

  /** `Display` of a block. */
  function Print(c: C.Cidr): string {
    PrintAddr(c.address) + ['/'] + Decimal(c.Length())
  }

  /** `Ipv4Cidr::from_str`. */
  function Parse(s: string, leadingZeros: bool): Result<C.Cidr, C.CidrError> {
    var pieces := Split(s, {'/'});
    if |pieces| != 2 then Err(C.Malformed) else
    var address := ParseAddr(pieces[0], leadingZeros);
    if address.None? then Err(C.Malformed) else
    var len := FromStrRadix(pieces[1], 10, USIZE_MAX);
    if len.Some? then C.New(C.IPV4ADDR_BITS, address.value, len.value) else
    var netmask := ParseAddr(pieces[1], leadingZeros);
    if netmask.None? then Err(C.Malformed) else C.WithNetmask(C.IPV4ADDR_BITS, address.value, netmask.value)
  }

  // ----- Round trips -----

  lemma {:induction false} DecimalLength(n: nat)
    ensures n < 1000 ==> |Decimal(n)| <= 3
    ensures 10 <= n ==> Decimal(n)[0] != '0'
  {
    if 10 <= n {
      DecimalLength(n / 10);
      if n < 1000 {
        assert |Decimal(n)| == |Decimal(n / 10)| + 1;
        assert n < 100 ==> |Decimal(n / 10)| == 1;
        assert 100 <= n ==> |Decimal(n / 10)| == |Decimal(n / 10 / 10)| + 1 == 2;
      }
    }
  }

  lemma {:induction false} OctetParses(n: nat, leadingZeros: bool)
    requires n < 256
    ensures ParseOctet(Decimal(n), leadingZeros) == Some(n)
  {
    DecimalLength(n);
    DecimalParses(n, 255);
  }

  lemma BytesOf(x: nat, a: nat, b: nat, c: nat, d: nat)
    requires b < 256 && c < 256 && d < 256
    requires x == a * 0x100_0000 + b * 0x1_0000 + c * 0x100 + d
    ensures x / 256 / 256 / 256 == a && x / 256 / 256 % 256 == b && x / 256 % 256 == c && x % 256 == d
  {
    DivModUnique(256, a * 0x1_0000 + b * 0x100 + c, d);
    DivModUnique(256, a * 0x100 + b, c);
    DivModUnique(256, a, b);
  }

  /** The first octet of the text is the highest byte of the address. */
  lemma PrintAddrIs(x: nat, a: nat, b: nat, c: nat, d: nat)
    requires a < 256 && b < 256 && c < 256 && d < 256
    requires x == a * 0x100_0000 + b * 0x1_0000 + c * 0x100 + d
    ensures PrintAddr(x) == Decimal(a) + ['.'] + Decimal(b) + ['.'] + Decimal(c) + ['.'] + Decimal(d)
  {
    BytesOf(x, a, b, c, d);
  }

  lemma {:induction false} SplitFour(a: string, b: string, c: string, d: string)
    requires Free(a, {'.'}) && Free(b, {'.'}) && Free(c, {'.'}) && Free(d, {'.'})
    ensures Split(a + ['.'] + b + ['.'] + c + ['.'] + d, {'.'}) == [a, b, c, d]
  {
    SplitFree(a, {'.'});
    SplitFree(b, {'.'});
    SplitFree(c, {'.'});
    SplitFree(d, {'.'});
    SplitAround(a, '.', b, {'.'});
    SplitAround(a + ['.'] + b, '.', c, {'.'});
    SplitAround(a + ['.'] + b + ['.'] + c, '.', d, {'.'});
  }

  lemma OctetsBack(x: nat)
    requires x < 0x1_0000_0000
    ensures x / 256 / 256 / 256 < 256
    ensures FromOctets(x / 256 / 256 / 256, x / 256 / 256 % 256, x / 256 % 256, x % 256) == x
  {
  }

  lemma DecimalFree(n: nat)
    ensures Free(Decimal(n), {'.'}) && Free(Decimal(n), {'/'})
  {
  }

  lemma FourParse(s: string, a: nat, b: nat, c: nat, d: nat, leadingZeros: bool)
    requires a < 256 && b < 256 && c < 256 && d < 256
    requires Split(s, {'.'}) == [Decimal(a), Decimal(b), Decimal(c), Decimal(d)]
    ensures ParseAddr(s, leadingZeros) == Some(FromOctets(a, b, c, d))
  {
    OctetParses(a, leadingZeros);
    OctetParses(b, leadingZeros);
    OctetParses(c, leadingZeros);
    OctetParses(d, leadingZeros);
  }

  lemma AddrParses(x: nat, leadingZeros: bool)
    requires x < 0x1_0000_0000
    ensures ParseAddr(PrintAddr(x), leadingZeros) == Some(x)
  {
    var a, b, c, d := x / 256 / 256 / 256, x / 256 / 256 % 256, x / 256 % 256, x % 256;
    OctetsBack(x);
    DecimalFree(a);
    DecimalFree(b);
    DecimalFree(c);
    DecimalFree(d);
    SplitFour(Decimal(a), Decimal(b), Decimal(c), Decimal(d));
    FourParse(PrintAddr(x), a, b, c, d, leadingZeros);
  }

  lemma OctetCanonical(s: string)
    ensures ParseOctet(s, false).Some? ==> ParseOctet(s, false).value < 256 && s == Decimal(ParseOctet(s, false).value)
  {
    if ParseOctet(s, false).Some? {
      DecimalCanonical(s);
      assert s[0] != '+';
    }
  }

  lemma JoinOne(pieces: seq<string>, last: string, c: char)
    requires pieces != []
    ensures Join(pieces + [last], c) == Join(pieces, c) + [c] + last
  {
    assert (pieces + [last])[..|pieces|] == pieces;
  }

  lemma JoinFour(a: string, b: string, c: string, d: string)
    ensures Join([a, b, c, d], '.') == a + ['.'] + b + ['.'] + c + ['.'] + d
  {
    assert [a] + [b] == [a, b] && [a, b] + [c] == [a, b, c] && [a, b, c] + [d] == [a, b, c, d];
    JoinOne([a], b, '.');
    JoinOne([a, b], c, '.');
    JoinOne([a, b, c], d, '.');
  }

  lemma AddrCanonical(s: string)
    requires ParseAddr(s, false).Some?
    ensures ParseAddr(s, false).value < 0x1_0000_0000 && s == PrintAddr(ParseAddr(s, false).value)
  {
    var p := Split(s, {'.'});
    OctetCanonical(p[0]);
    OctetCanonical(p[1]);
    OctetCanonical(p[2]);
    OctetCanonical(p[3]);
    JoinSplit(s, '.');
    assert p == [p[0], p[1], p[2], p[3]];
    JoinFour(p[0], p[1], p[2], p[3]);
    PrintAddrIs(ParseAddr(s, false).value, ParseOctet(p[0], false).value,
                ParseOctet(p[1], false).value, ParseOctet(p[2], false).value, ParseOctet(p[3], false).value);
  }

  /** Without leading zeros, a text is an address exactly when it is the printed form of
      one. */
  lemma {:induction false} AddrParsesIff(s: string, x: nat)
    ensures ParseAddr(s, false) == Some(x) <==> x < 0x1_0000_0000 && s == PrintAddr(x)
  {
    if ParseAddr(s, false) == Some(x) {
      AddrCanonical(s);
    }
    if x < 0x1_0000_0000 {
      AddrParses(x, false);
    }
  }

  lemma AddrHasDot(x: nat)
    ensures exists i :: 0 < i < |PrintAddr(x)| && PrintAddr(x)[i] == '.'
    ensures Free(PrintAddr(x), {'/'})
  {
    assert PrintAddr(x)[|Decimal(x / 256 / 256 / 256)|] == '.';
  }

  lemma SplitBlock(x: nat, rest: string)
    requires Free(rest, {'/'})
    ensures Split(PrintAddr(x) + ['/'] + rest, {'/'}) == [PrintAddr(x), rest]
  {
    AddrHasDot(x);
    SplitFree(PrintAddr(x), {'/'});
    SplitFree(rest, {'/'});
    SplitAround(PrintAddr(x), '/', rest, {'/'});
  }

  /** "address/length" parses to what `new` builds, for any length. */
  lemma {:induction false} LengthTextParses(x: nat, length: nat, leadingZeros: bool)
    requires x < 0x1_0000_0000 && length <= USIZE_MAX
    ensures Parse(PrintAddr(x) + ['/'] + Decimal(length), leadingZeros) == C.New(C.IPV4ADDR_BITS, x, length)
  {
    SplitBlock(x, Decimal(length));
    AddrParses(x, leadingZeros);
    DecimalParses(length, USIZE_MAX);
  }

  /** "address/netmask" with a dotted netmask parses to what `with_netmask` builds, for
      any netmask. */
  lemma NetmaskTextParses(x: nat, netmask: nat, leadingZeros: bool)
    requires x < 0x1_0000_0000 && netmask < 0x1_0000_0000
    ensures Parse(PrintAddr(x) + ['/'] + PrintAddr(netmask), leadingZeros)
         == C.WithNetmask(C.IPV4ADDR_BITS, x, netmask)
  {
    AddrHasDot(netmask);
    SplitBlock(x, PrintAddr(netmask));
    AddrParses(x, leadingZeros);
    AddrParses(netmask, leadingZeros);
    var i :| 0 < i < |PrintAddr(netmask)| && PrintAddr(netmask)[i] == '.';
    NotANumber(PrintAddr(netmask), i, 10, USIZE_MAX);
  }

  /** Over all texts: what parses, to what, and which error anything else gives. */
  lemma {:induction false} ParsesIff(s: string, leadingZeros: bool)
    ensures var p := Split(s, {'/'});
            var address := ParseAddr(p[0], leadingZeros);
            var r := Parse(s, leadingZeros);
            if |p| != 2 || address.None? then r == Err(C.Malformed) else
            var len, netmask := FromStrRadix(p[1], 10, USIZE_MAX), ParseAddr(p[1], leadingZeros);
            && (len.Some? ==>
                  && (r.Ok? <==> len.value <= 32)
                  && (r.Err? ==> r.error == C.Malformed)
                  && (r.Ok? ==> r.value == C.Cidr(32, address.value,
                                    C.Mask(32, if len.value == 0 then 32 else len.value))))
            && (len.None? && netmask.None? ==> r == Err(C.Malformed))
            && (len.None? && netmask.Some? ==>
                  r == if C.LeadingOnes(32, netmask.value) then Ok(C.Cidr(32, address.value, netmask.value))
                       else Err(C.InvalidPrefixLength))
  {
    var p := Split(s, {'/'});
    var address := ParseAddr(p[0], leadingZeros);
    Pow2Of32();
    if |p| == 2 && address.Some? {
      var len, netmask := FromStrRadix(p[1], 10, USIZE_MAX), ParseAddr(p[1], leadingZeros);
      ParsedAddrFits(p[0], leadingZeros);
      ParsedAddrFits(p[1], leadingZeros);
      if len.Some? {
        C.NewBuilds(32, address.value, len.value);
      } else if netmask.Some? {
        C.WithNetmaskKeeps(32, address.value, netmask.value);
      }
    }
  }

  lemma Pow2Of32()
    ensures C.Pow2(C.IPV4ADDR_BITS) == 0x1_0000_0000
  {
    C.Pow2Sum(16, 16);
    C.Pow2Sum(8, 8);
    assert C.Pow2(8) == 256;
  }

  /** The two notations of a prefix mean the same block. */
  lemma {:induction false} NotationsAgree(x: nat, n: nat, leadingZeros: bool)
    requires x < 0x1_0000_0000 && 1 <= n <= C.IPV4ADDR_BITS
    ensures C.Mask(C.IPV4ADDR_BITS, n) < 0x1_0000_0000
    ensures Parse(PrintAddr(x) + ['/'] + PrintAddr(C.Mask(C.IPV4ADDR_BITS, n)), leadingZeros)
         == Parse(PrintAddr(x) + ['/'] + Decimal(n), leadingZeros)
  {
    Pow2Of32();
    C.LengthOfMask(C.IPV4ADDR_BITS, n);
    NetmaskTextParses(x, C.Mask(C.IPV4ADDR_BITS, n), leadingZeros);
    LengthTextParses(x, n, leadingZeros);
    C.WithNetmaskKeeps(C.IPV4ADDR_BITS, x, C.Mask(C.IPV4ADDR_BITS, n));
    C.NewBuilds(C.IPV4ADDR_BITS, x, n);
  }

  /** The value of a default or a built block: the mask is of leading ones, or zero. */
  ghost predicate Ipv4(c: C.Cidr) {
    c.w == C.IPV4ADDR_BITS && c.address < C.Pow2(c.w) && (c.mask == 0 || C.LeadingOnes(c.w, c.mask))
  }

  /** The printed form of a block parses back to it exactly when its mask is not zero,
      that is for every block but those of the default mask: "/0" is read as a single
      address. */
  lemma {:induction false} PrintParsesIff(c: C.Cidr, leadingZeros: bool)
    requires Ipv4(c)
    ensures Parse(Print(c), leadingZeros) == Ok(c) <==> c.mask != 0
  {
    Pow2Of32();
    if c.mask == 0 {
      C.NotIs(c.w, 0);
      C.LeadingZerosOfHost(c.w, c.w);
      assert c.Length() == 0;
      LengthTextParses(c.address, 0, leadingZeros);
    } else {
      var n :| 1 <= n <= c.w && c.mask == C.Mask(c.w, n);
      C.LengthOfMask(c.w, n);
      assert c.mask > 0 && c.Length() == n;
      LengthTextParses(c.address, n, leadingZeros);
      C.NewBuilds(c.w, c.address, n);
    }
  }

  lemma ParsedAddrFits(s: string, leadingZeros: bool)
    ensures ParseAddr(s, leadingZeros).Some? ==> ParseAddr(s, leadingZeros).value < 0x1_0000_0000
  {
  }

  /** What the constructors return is never of the default mask. */
  lemma {:induction false} ConstructedIsIpv4(address: nat, length: nat, netmask: nat)
    requires address < 0x1_0000_0000 && netmask < 0x1_0000_0000
    ensures var r := C.New(C.IPV4ADDR_BITS, address, length); r.Ok? ==> Ipv4(r.value) && r.value.mask != 0
    ensures var r := C.WithNetmask(C.IPV4ADDR_BITS, address, netmask); r.Ok? ==> Ipv4(r.value) && r.value.mask != 0
  {
    var w := C.IPV4ADDR_BITS;
    Pow2Of32();
    C.NewBuilds(w, address, length);
    C.WithNetmaskKeeps(w, address, netmask);
    forall n | 1 <= n <= w
      ensures C.Mask(w, n) != 0
    {
      C.Pow2Monotone(w - n, w);
    }
  }

  /** Whatever text parses, the block has one to 32 leading ones, so printing it and
      parsing again changes nothing. */
  lemma {:induction false} ParsedIsBuilt(s: string, leadingZeros: bool)
    ensures var r := Parse(s, leadingZeros);
            r.Ok? ==> Ipv4(r.value) && r.value.mask != 0 && Parse(Print(r.value), leadingZeros) == r
  {
    var r, pieces := Parse(s, leadingZeros), Split(s, {'/'});
    if r.Ok? {
      var len, netmask := FromStrRadix(pieces[1], 10, USIZE_MAX), ParseAddr(pieces[1], leadingZeros);
      ParsedAddrFits(pieces[0], leadingZeros);
      ParsedAddrFits(pieces[1], leadingZeros);
      ConstructedIsIpv4(ParseAddr(pieces[0], leadingZeros).value,
                        if len.Some? then len.value else 0,
                        if netmask.Some? then netmask.value else 0);
      PrintParsesIff(r.value, leadingZeros);
    }
  }
}
