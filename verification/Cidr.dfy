/** CIDR blocks over addresses of any width, as in section 3.1 of RFC 4632 (32 bits) and
    section 2.3 of RFC 4291 (128 bits). A word is a natural number below 2^w. */
module Cidr {
  import opened Machine
  import opened Arith

  const IPV4ADDR_BITS: nat := 32
  const IPV6ADDR_BITS: nat := 128
  const USIZE_BITS: nat := 64

  // ----- Bit operations -----

  function Pow2(n: nat): (p: nat)
    ensures 1 <= p
  {
    if n == 0 then 1 else 2 * Pow2(n - 1)
  }

  function And(w: nat, x: nat, y: nat): nat {
    if w == 0 then 0 else 2 * And(w - 1, x / 2, y / 2) + (if x % 2 == 1 && y % 2 == 1 then 1 else 0)
  }

  function Or(w: nat, x: nat, y: nat): nat {
    if w == 0 then 0 else 2 * Or(w - 1, x / 2, y / 2) + (if x % 2 == 1 || y % 2 == 1 then 1 else 0)
  }

  function Not(w: nat, x: nat): nat {
    if w == 0 then 0 else 2 * Not(w - 1, x / 2) + (1 - x % 2)
  }

  function Shl(w: nat, x: nat, shift: nat): nat {
    (x * Pow2(shift)) % Pow2(w)
  }

  function LeadingZeros(w: nat, x: nat): (n: nat)
    ensures n <= w
  {
    if w == 0 then 0 else if x < Pow2(w - 1) then 1 + LeadingZeros(w - 1, x) else 0
  }

  function TrailingZeros(w: nat, x: nat): nat {
    if w == 0 || x % 2 == 1 then 0 else 1 + TrailingZeros(w - 1, x / 2)
  }

  function CountZeros(w: nat, x: nat): nat {
    if w == 0 then 0 else CountZeros(w - 1, x / 2) + (1 - x % 2)
  }

  // ----- Blocks -----

  datatype CidrError = Malformed | InvalidPrefixLength

  datatype Cidr = Cidr(w: nat, address: nat, mask: nat) {
    function Network(): nat {
      And(w, mask, address)
    }

    function Broadcast(): nat {
      Or(w, And(w, mask, address), Not(w, mask))
    }

    predicate Contains(a: nat) {
      And(w, mask, address) == And(w, mask, a)
    }

    function Length(): nat {
      LeadingZeros(w, Not(w, mask))
    }

    /** `None` where the power leaves the range of a 64-bit usize. */
    function Size(): Option<nat> {
      if w - Length() < USIZE_BITS then Some(Pow2(w - Length())) else None
    }
  }

  /** Length 0 gives the mask of length `w`. */
  function New(w: nat, address: nat, length: nat): Result<Cidr, CidrError> {
    if length == 0 then Ok(Cidr(w, address, Pow2(w) - 1))
    else if length <= w then Ok(Cidr(w, address, Shl(w, Pow2(w) - 1, w - length)))
    else Err(Malformed)
  }

  function NetmaskLength(w: nat, netmask: nat): Result<nat, CidrError> {
    if LeadingZeros(w, netmask) == 0 && TrailingZeros(w, netmask) == CountZeros(w, netmask)
    then Ok(LeadingZeros(w, Not(w, netmask)))
    else Err(InvalidPrefixLength)
  }

  function WithNetmask(w: nat, address: nat, netmask: nat): Result<Cidr, CidrError> {
    match NetmaskLength(w, netmask)
    case Ok(length) => New(w, address, length)
    case Err(e) => Err(e)
  }

  /** The mask of `n` leading ones. */
  ghost function Mask(w: nat, n: nat): (m: nat)
    requires n <= w
  {
    Pow2Monotone(w - n, w);
    Pow2(w) - Pow2(w - n)
  }

  /** What the constructors build: an address and one to `w` leading ones. */
  ghost predicate Built(c: Cidr, n: nat) {
    1 <= n <= c.w && c.address < Pow2(c.w) && c.mask == Mask(c.w, n)
  }

  // ----- Powers and division -----

  lemma {:induction false} Pow2Monotone(m: nat, n: nat)
    requires m <= n
    ensures Pow2(m) <= Pow2(n) && (m < n ==> Pow2(m) < Pow2(n))
  {
    if m < n {
      Pow2Monotone(m, n - 1);
    }
  }

  lemma {:induction false} Pow2Sum(m: nat, n: nat)
    ensures Pow2(m + n) == Pow2(m) * Pow2(n)
  {
    if m > 0 {
      Pow2Sum(m - 1, n);
    }
  }

  // ----- What the bit operations compute -----

  lemma {:induction false} NotIs(w: nat, x: nat)
    requires x < Pow2(w)
    ensures Not(w, x) == Pow2(w) - 1 - x
  {
    if w > 0 {
      NotIs(w - 1, x / 2);
    }
  }

  lemma {:induction false} AndOnes(w: nat, x: nat)
    requires x < Pow2(w)
    ensures And(w, Pow2(w) - 1, x) == x
  {
    if w > 0 {
      AndOnes(w - 1, x / 2);
      assert (Pow2(w) - 1) / 2 == Pow2(w - 1) - 1;
    }
  }

  /** `x` with its low `h` bits cleared. */
  ghost function RoundDown(h: nat, x: nat): nat {
    if h == 0 then x else 2 * RoundDown(h - 1, x / 2)
  }

  lemma {:induction false} RoundDownIs(h: nat, x: nat)
    ensures RoundDown(h, x) == x / Pow2(h) * Pow2(h)
  {
    if h > 0 {
      RoundDownIs(h - 1, x / 2);
      HalveQuotient(x, Pow2(h - 1));
      DoubleProduct(x / 2 / Pow2(h - 1), Pow2(h - 1));
    }
  }

  lemma {:induction false} RoundDownFits(w: nat, h: nat, x: nat)
    requires h <= w && x < Pow2(w)
    ensures RoundDown(h, x) + Pow2(h) - 1 < Pow2(w)
  {
    if h > 0 {
      RoundDownFits(w - 1, h - 1, x / 2);
    }
  }

  lemma {:induction false} AndMask(w: nat, h: nat, x: nat)
    requires h <= w && x < Pow2(w)
    ensures And(w, Mask(w, w - h), x) == RoundDown(h, x)
  {
    if h == 0 {
      AndOnes(w, x);
    } else {
      AndMask(w - 1, h - 1, x / 2);
      Pow2Monotone(h, w);
      assert Mask(w, w - h) == 2 * Mask(w - 1, w - h);
    }
  }

  /** The low `h` bits are zero. */
  ghost predicate LowZero(h: nat, x: nat) {
    h == 0 || (x % 2 == 0 && LowZero(h - 1, x / 2))
  }

  lemma {:induction false} RoundDownLowZero(h: nat, x: nat)
    ensures LowZero(h, RoundDown(h, x))
  {
    if h > 0 {
      RoundDownLowZero(h - 1, x / 2);
    }
  }

  /** Filling `h` low bits that are zero adds 2^h - 1. */
  lemma {:induction false} OrHost(w: nat, h: nat, x: nat)
    requires h <= w && x < Pow2(w) && LowZero(h, x)
    ensures Or(w, x, Pow2(h) - 1) == x + Pow2(h) - 1
  {
    if h == 0 {
      OrZero(w, x);
    } else {
      OrHost(w - 1, h - 1, x / 2);
      assert (Pow2(h) - 1) / 2 == Pow2(h - 1) - 1;
    }
  }

  lemma {:induction false} OrZero(w: nat, x: nat)
    requires x < Pow2(w)
    ensures Or(w, x, 0) == x
  {
    if w > 0 {
      OrZero(w - 1, x / 2);
    }
  }

  lemma {:induction false} LeadingZerosOfHost(w: nat, h: nat)
    requires h <= w
    ensures LeadingZeros(w, Pow2(h) - 1) == w - h
  {
    if h < w {
      Pow2Monotone(h, w - 1);
      LeadingZerosOfHost(w - 1, h);
    }
  }

  lemma {:induction false} CountZerosNone(w: nat, x: nat)
    requires x < Pow2(w)
    ensures CountZeros(w, x) == 0 <==> x == Pow2(w) - 1
  {
    if w > 0 {
      CountZerosNone(w - 1, x / 2);
    }
  }

  /** All zeros trail exactly when the ones lead. */
  lemma {:induction false} ZerosTrail(w: nat, x: nat)
    requires x < Pow2(w)
    ensures TrailingZeros(w, x) <= w
    ensures TrailingZeros(w, x) == CountZeros(w, x) <==> x == Mask(w, w - TrailingZeros(w, x))
  {
    if w > 0 {
      if x % 2 == 1 {
        CountZerosNone(w, x);
      } else {
        var t := TrailingZeros(w - 1, x / 2);
        ZerosTrail(w - 1, x / 2);
        assert Mask(w, w - (t + 1)) == 2 * Mask(w - 1, w - 1 - t);
      }
    }
  }

  lemma {:induction false} TrailingZerosOfMask(w: nat, h: nat)
    requires h <= w
    ensures TrailingZeros(w, Mask(w, w - h)) == h
  {
    if h > 0 {
      TrailingZerosOfMask(w - 1, h - 1);
      Pow2Monotone(h, w);
      assert Mask(w, w - h) == 2 * Mask(w - 1, w - h);
    }
  }

  // ----- Constructors -----

  lemma {:induction false} ShlOnes(w: nat, n: nat)
    requires n <= w
    ensures n >= 1 ==> Shl(w, Pow2(w) - 1, w - n) == Mask(w, n)
  {
    if n >= 1 {
      var p, q := Pow2(w), Pow2(w - n);
      Pow2Monotone(w - n, w);
      CrossMultiply(p, q);
      DivModUnique(p, q - 1, p - q);
    }
  }

  lemma LengthOfMask(w: nat, n: nat)
    requires n <= w
    ensures Mask(w, n) < Pow2(w) && Not(w, Mask(w, n)) == Pow2(w - n) - 1
    ensures LeadingZeros(w, Not(w, Mask(w, n))) == n
  {
    NotIs(w, Mask(w, n));
    LeadingZerosOfHost(w, w - n);
  }

  lemma NetmaskOfLength(w: nat, n: nat)
    requires 1 <= n <= w
    ensures NetmaskLength(w, Mask(w, n)) == Ok(n)
  {
    TrailingZerosOfMask(w, w - n);
    LengthOfMask(w, n);
    ZerosTrail(w, Mask(w, n));
    Pow2Monotone(w - n, w - 1);
    TopBit(w, Mask(w, n));
  }

  /** A netmask is accepted exactly when it is 2^w - 2^(w-n) for some n in 1..w, and then
      its length is n. */
  lemma NetmaskLengthIff(w: nat, netmask: nat, n: nat)
    requires 1 <= w && netmask < Pow2(w)
    ensures NetmaskLength(w, netmask) == Ok(n) <==> 1 <= n <= w && netmask == Mask(w, n)
  {
    if 1 <= n <= w && netmask == Mask(w, n) {
      NetmaskOfLength(w, n);
    } else if NetmaskLength(w, netmask).Ok? {
      ZerosTrail(w, netmask);
      LengthOfMask(w, w - TrailingZeros(w, netmask));
      TopBit(w, netmask);
    }
  }

  lemma TopBit(w: nat, x: nat)
    requires x < Pow2(w)
    ensures LeadingZeros(w, x) == 0 <==> w == 0 || Pow2(w - 1) <= x
  {
  }

  /** A length of 1 to `w` gives a block of that length; 0 gives a single address. */
  lemma {:induction false} NewBuilds(w: nat, address: nat, length: nat)
    requires 1 <= w && address < Pow2(w)
    ensures length > w ==> New(w, address, length) == Err(Malformed)
    ensures New(w, address, length).Ok? <==> length <= w
    ensures length <= w ==>
              var c := New(w, address, length).value;
              var n := if length == 0 then w else length;
              c.w == w && c.address == address && Built(c, n) && c.Length() == n
  {
    if length <= w {
      ShlOnes(w, length);
      LengthOfMask(w, if length == 0 then w else length);
    }
  }

  ghost predicate LeadingOnes(w: nat, netmask: nat) {
    exists n :: 1 <= n <= w && netmask == Mask(w, n)
  }

  lemma NetmaskAcceptedIff(w: nat, netmask: nat)
    requires 1 <= w && netmask < Pow2(w)
    ensures NetmaskLength(w, netmask).Ok? <==> LeadingOnes(w, netmask)
  {
    if n :| 1 <= n <= w && netmask == Mask(w, n) {
      NetmaskLengthIff(w, netmask, n);
    } else if NetmaskLength(w, netmask).Ok? {
      NetmaskLengthIff(w, netmask, NetmaskLength(w, netmask).value);
    }
  }

  /** `with_netmask` accepts exactly the masks of leading ones and keeps the mask. */
  lemma WithNetmaskKeeps(w: nat, address: nat, netmask: nat)
    requires 1 <= w && address < Pow2(w) && netmask < Pow2(w)
    ensures WithNetmask(w, address, netmask)
         == if LeadingOnes(w, netmask) then Ok(Cidr(w, address, netmask)) else Err(InvalidPrefixLength)
  {
    NetmaskAcceptedIff(w, netmask);
    if NetmaskLength(w, netmask).Ok? {
      var n := NetmaskLength(w, netmask).value;
      NetmaskLengthIff(w, netmask, n);
      ShlOnes(w, n);
    }
  }

  // ----- Membership -----

  /** Network and broadcast of a block. */
  lemma BlockIs(c: Cidr, n: nat)
    requires Built(c, n)
    ensures c.Network() == RoundDown(c.w - n, c.address)
    ensures c.Broadcast() == c.Network() + Pow2(c.w - n) - 1 < Pow2(c.w)
    ensures c.Length() == n
  {
    var h := c.w - n;
    AndMask(c.w, h, c.address);
    LengthOfMask(c.w, n);
    RoundDownFits(c.w, h, c.address);
    RoundDownLowZero(h, c.address);
    OrHost(c.w, h, RoundDown(h, c.address));
  }

  lemma ContainsIffQuotient(c: Cidr, n: nat, a: nat)
    requires Built(c, n) && a < Pow2(c.w)
    ensures c.Contains(a) <==> a / Pow2(c.w - n) == c.address / Pow2(c.w - n)
  {
    var h := c.w - n;
    AndMask(c.w, h, a);
    AndMask(c.w, h, c.address);
    RoundDownIs(h, a);
    RoundDownIs(h, c.address);
    SameMultiple(a / Pow2(h), c.address / Pow2(h), Pow2(h));
  }

  /** The block is a range: `contains` is the interval from network to broadcast, which
      has 2^(w-n) addresses and ends inside the address space. */
  lemma ContainsIffInRange(c: Cidr, n: nat, a: nat)
    requires Built(c, n) && a < Pow2(c.w)
    ensures c.Contains(a) <==> c.Network() <= a <= c.Broadcast()
    ensures c.Broadcast() == c.Network() + Pow2(c.w - n) - 1 < Pow2(c.w)
    ensures c.Network() == c.address - c.address % Pow2(c.w - n)
    ensures c.Length() == n
  {
    var p := Pow2(c.w - n);
    BlockIs(c, n);
    RoundDownIs(c.w - n, c.address);
    DivMod(c.address, p);
    ContainsIffQuotient(c, n, a);
    QuotientRange(a, c.address / p, p);
  }

  /** Any two blocks over the same address space are nested or disjoint. */
  lemma NestedOrDisjoint(c: Cidr, d: Cidr, m: nat, n: nat)
    requires Built(c, m) && Built(d, n) && c.w == d.w && m <= n
    ensures (forall a: nat :: a < Pow2(c.w) && d.Contains(a) ==> c.Contains(a))
         || (forall a: nat :: a < Pow2(c.w) ==> !(c.Contains(a) && d.Contains(a)))
  {
    var p, k := Pow2(d.w - n), Pow2(n - m);
    Pow2Sum(n - m, d.w - n);
    assert Pow2(c.w - m) == k * p;
    forall a: nat | a < Pow2(c.w)
      ensures c.Contains(a) <==> a / p / k == c.address / (k * p)
      ensures d.Contains(a) <==> a / p == d.address / p
    {
      ContainsIffQuotient(c, m, a);
      ContainsIffQuotient(d, n, a);
      QuotientOfProduct(a, p, k);
    }
  }

  // ----- Iteration -----

  /** `CidrIterator::new`: `None` where the arithmetic on w-bit words overflows. The size
      is cast to a w-bit word before one is subtracted. */
  function IteratorEnd(w: nat, start: nat, size: nat): Option<nat> {
    var cast := size % Pow2(w);
    if cast == 0 || start + (cast - 1) >= Pow2(w) then None else Some(start + (cast - 1))
  }

  /** `iter`: `None` where it overflows. */
  function IterEnd(c: Cidr): Option<nat> {
    match c.Size()
    case Some(size) => IteratorEnd(c.w, c.Network(), size)
    case None => None
  }

  /** The numbers from `lo` to `hi`, ascending. */
  ghost function Range(lo: nat, hi: nat): (s: seq<nat>)
    ensures |s| == if lo <= hi then hi - lo + 1 else 0
    ensures forall i :: 0 <= i < |s| ==> s[i] == lo + i
  {
    seq(if lo <= hi then hi - lo + 1 else 0, i requires 0 <= i => lo + i)
  }

  /** Iterating over a built block starts without overflow exactly when its size is a
      64-bit usize: always over 32 bits, from length 65 over 128 bits. It then runs from
      network to broadcast. */
  lemma IterFitsIff(c: Cidr, n: nat)
    requires Built(c, n)
    ensures IterEnd(c) == if c.w - n < USIZE_BITS then Some(c.Broadcast()) else None
    ensures c.w == IPV4ADDR_BITS ==> IterEnd(c).Some?
    ensures c.w == IPV6ADDR_BITS ==> (IterEnd(c).Some? <==> 65 <= n)
  {
    BlockIs(c, n);
    Pow2Monotone(c.w - n, c.w);
    SmallModulus(Pow2(c.w - n), Pow2(c.w));
  }

  /** The block of `Default`, of mask 0, can not be iterated over at either width. */
  lemma DefaultDoesNotIterate(w: nat)
    requires 1 <= w
    ensures IterEnd(Cidr(w, 0, 0)) == None
  {
    NotIs(w, 0);
    LeadingZerosOfHost(w, w);
    SmallModulus(0, Pow2(w));
  }

  lemma {:induction false} AndZero(w: nat, x: nat)
    ensures And(w, 0, x) == 0
  {
    if w > 0 {
      AndZero(w - 1, x / 2);
    }
  }

  lemma {:induction false} OrOfZero(w: nat, x: nat)
    requires x < Pow2(w)
    ensures Or(w, 0, x) == x
  {
    if w > 0 {
      OrOfZero(w - 1, x / 2);
    }
  }

  /** It contains every address. */
  lemma DefaultIsEverything(w: nat, a: nat)
    requires 1 <= w && a < Pow2(w)
    ensures var c := Cidr(w, 0, 0);
            c.Contains(a) && c.Network() == 0 && c.Broadcast() == Pow2(w) - 1 && c.Length() == 0
  {
    AndZero(w, a);
    AndZero(w, 0);
    NotIs(w, 0);
    OrOfZero(w, Pow2(w) - 1);
    LeadingZerosOfHost(w, w);
  }

  /** What iteration yields is what the block contains: each address once, ascending, and
      as many as the size says. */
  lemma YieldsTheBlock(c: Cidr, n: nat)
    requires Built(c, n) && c.w - n < USIZE_BITS
    ensures var all := Range(c.Network(), c.Broadcast());
            && c.Size() == Some(|all|)
            && (forall i, j :: 0 <= i < j < |all| ==> all[i] < all[j])
            && (forall a: nat :: a in all <==> a < Pow2(c.w) && c.Contains(a))
  {
    ContainsIffInRange(c, n, c.address);
    var all := Range(c.Network(), c.Broadcast());
    forall a: nat
      ensures a in all <==> a < Pow2(c.w) && c.Contains(a)
    {
      if a < Pow2(c.w) {
        ContainsIffInRange(c, n, a);
      }
      if c.Network() <= a <= c.Broadcast() {
        assert all[a - c.Network()] == a;
      }
    }
  }

  class CidrIterator {
    const w: nat
    const end: nat
    var next: Option<nat>

    ghost predicate Valid()
      reads this
    {
      end < Pow2(w) && (next.Some? ==> next.value <= end)
    }

    /** What is still to come. */
    ghost function Rest(): seq<nat>
      requires Valid()
      reads this
    {
      match next
      case Some(a) => Range(a, end)
      case None => []
    }

    constructor (w: nat, start: nat, size: nat)
      requires IteratorEnd(w, start, size).Some?
      ensures Valid() && this.w == w
      ensures Rest() == Range(start, IteratorEnd(w, start, size).value)
    {
      this.w, next, end := w, Some(start), start + (size % Pow2(w) - 1);
    }

    /** Yields the first of the rest; once there is none, never changes again. The
        increment stays below 2^w. */
    method Next() returns (r: Option<nat>)
      requires Valid()
      modifies this
      ensures Valid()
      ensures old(Rest()) == [] ==> r == None && Rest() == []
      ensures old(Rest()) != [] ==> r == Some(old(Rest())[0]) && Rest() == old(Rest())[1..]
    {
      if next.None? {
        return None;
      }
      var current := next.value;
      if current == end {
        next := None;
      } else {
        assert current + 1 < Pow2(w);
        next := Some(current + 1);
      }
      return Some(current);
    }
  }

  lemma HeadAndTail(rest: seq<nat>, all: seq<nat>)
    requires rest != []
    ensures all + [rest[0]] + rest[1..] == all + rest
  {
  }

  /** Calls `next` until it returns none, as a `for` loop does. */
  method Drain(iter: CidrIterator) returns (all: seq<nat>)
    requires iter.Valid()
    modifies iter
    ensures iter.Valid() && iter.Rest() == []
    ensures all == old(iter.Rest())
  {
    ghost var whole := iter.Rest();
    all := [];
    while true
      invariant iter.Valid() && all + iter.Rest() == whole
      decreases |iter.Rest()|
    {
      ghost var rest := iter.Rest();
      var yielded := iter.Next();
      if yielded.None? {
        break;
      }
      HeadAndTail(rest, all);
      all := all + [yielded.value];
    }
  }

  /** `for a in block.iter()`: collects what the iterator yields. */
  method Collect(c: Cidr, ghost n: nat) returns (all: seq<nat>)
    requires Built(c, n) && c.w - n < USIZE_BITS
    ensures all == Range(c.Network(), c.Broadcast())
  {
    IterFitsIff(c, n);
    var iter := new CidrIterator(c.w, c.Network(), c.Size().value);
    all := Drain(iter);
  }
}
