/** IPv4 addresses and subnets as Go's `net` package represents them once an
    address has been reduced to its 4-byte form, together with the
    dotted-decimal text form that `net.IP.String()` produces for it. */
module IPv4 {
  import opened Wrappers

  /** One octet. */
  newtype byte = x: int | 0 <= x < 256

  /** A 4-byte IPv4 address, octets in network order. */
  datatype Ip4 = Ip4(a: byte, b: byte, c: byte, d: byte)

  /** An IPv4 `net.IPNet`: a network number and a 4-byte mask. The mask need
      not be a contiguous prefix; containment is checked byte by byte. */
  datatype IpNet = IpNet(ip: Ip4, mask: Ip4)

  /** Bitwise AND of two naturals, bit by bit from the lowest. */
  function BitAnd(x: nat, y: nat): (r: nat)
    ensures r <= x
  {
    if x == 0 || y == 0 then 0
    else 2 * BitAnd(x / 2, y / 2) + (if x % 2 == 1 && y % 2 == 1 then 1 else 0)
  }

  /** Bitwise AND of two octets. */
  function And(x: byte, y: byte): byte {
    BitAnd(x as nat, y as nat) as byte
  }

  /** The octets of an address, in network order. */
  function Octets(ip: Ip4): seq<byte> {
    [ip.a, ip.b, ip.c, ip.d]
  }

  /** Octet by octet, `xs` and `ys` agree on the bits `ms` selects. */
  function AgreeUnderMask(xs: seq<byte>, ys: seq<byte>, ms: seq<byte>): bool
    requires |xs| == |ys| == |ms|
  {
    xs == [] || (And(xs[0], ms[0]) == And(ys[0], ms[0]) && AgreeUnderMask(xs[1..], ys[1..], ms[1..]))
  }

  /** `(*net.IPNet).Contains(ip)` for an IPv4 network. `None` stands for an
      address with no 4-byte form (`To4()` returned nil); its length differs
      from the network's, so it is never contained. */
  predicate Contains(n: IpNet, ip: Option<Ip4>) {
    ip.Some? && AgreeUnderMask(Octets(n.ip), Octets(ip.value), Octets(n.mask))
  }

  /** One byte of `net.CIDRMask(ones, 32)`, for the `ones` bits it covers. */
  function MaskByte(ones: nat): byte
    requires ones <= 8
  {
    [0x00, 0x80, 0xC0, 0xE0, 0xF0, 0xF8, 0xFC, 0xFE, 0xFF][ones]
  }

  /** `net.CIDRMask(ones, 32)`: the first `ones` bits set. */
  function CidrMask(ones: nat): (m: Ip4)
    requires ones <= 32
    ensures ones == 32 ==> m == Ip4(0xFF, 0xFF, 0xFF, 0xFF)
    ensures ones == 0 ==> m == Ip4(0, 0, 0, 0)
  {
    Ip4(MaskByte(Clamp(ones)), MaskByte(Clamp(ones - 8)),
        MaskByte(Clamp(ones - 16)), MaskByte(Clamp(ones - 24)))
  }

  function Clamp(x: int): nat {
    if x < 0 then 0 else if x > 8 then 8 else x
  }

  // Masks as bit prefixes

  function Pow2(n: nat): (r: nat)
    ensures r >= 1
  {
    if n == 0 then 1 else 2 * Pow2(n - 1)
  }

  /** `2^w - 2^k`: the top `w - k` bits of a `w`-bit number set. */
  function HighMask(w: nat, k: nat): nat
    requires k <= w
  {
    if k == 0 then Pow2(w) - 1 else 2 * HighMask(w - 1, k - 1)
  }

  /** `x >> k`. */
  function ShiftRight(x: nat, k: nat): nat {
    if k == 0 then x else ShiftRight(x / 2, k - 1)
  }

  /** `x << k`. */
  function ShiftLeft(x: nat, k: nat): nat {
    if k == 0 then x else 2 * ShiftLeft(x, k - 1)
  }

  lemma {:induction false} HighMaskValue(w: nat, k: nat)
    requires k <= w
    ensures HighMask(w, k) + Pow2(k) == Pow2(w)
  {
    if k > 0 {
      HighMaskValue(w - 1, k - 1);
    }
  }

  /** `BitAnd` peels off the lowest bit whatever its arguments. */
  lemma BitAndStep(x: nat, y: nat)
    ensures BitAnd(x, y) == 2 * BitAnd(x / 2, y / 2) + (if x % 2 == 1 && y % 2 == 1 then 1 else 0)
  {
  }

  /** An all-ones mask of width `w` keeps every bit of a `w`-bit number. */
  lemma {:induction false} BitAndAllOnes(x: nat, w: nat)
    requires x < Pow2(w)
    ensures BitAnd(x, HighMask(w, 0)) == x
  {
    if x != 0 {
      BitAndAllOnes(x / 2, w - 1);
      BitAndStep(x, HighMask(w, 0));
    }
  }

  /** A mask with the top `w - k` of `w` bits set keeps a `w`-bit number
      with its low `k` bits cleared. */
  lemma {:induction false} BitAndHighBits(x: nat, w: nat, k: nat)
    requires k <= w && x < Pow2(w)
    ensures BitAnd(x, HighMask(w, k)) == ShiftLeft(ShiftRight(x, k), k)
  {
    if k == 0 {
      BitAndAllOnes(x, w);
    } else {
      BitAndHighBits(x / 2, w - 1, k - 1);
      BitAndStep(x, HighMask(w, k));
    }
  }

  lemma {:induction false} ShiftLeftInjective(x: nat, y: nat, k: nat)
    requires ShiftLeft(x, k) == ShiftLeft(y, k)
    ensures x == y
  {
    if k > 0 {
      ShiftLeftInjective(x, y, k - 1);
    }
  }

  /** The table entries of `MaskByte` are the top `ones` bits of an octet. */
  lemma MaskByteIsHighMask(ones: nat)
    requires ones <= 8
    ensures MaskByte(ones) as nat == HighMask(8, 8 - ones)
  {
    HighMaskValue(8, 8 - ones);
    assert Pow2(0) == 1 && Pow2(1) == 2 && Pow2(2) == 4 && Pow2(3) == 8;
    assert Pow2(4) == 16 && Pow2(5) == 32 && Pow2(6) == 64 && Pow2(7) == 128 && Pow2(8) == 256;
  }

  /** The leading `ones` bits of an octet, as a number. */
  function LeadingBits(x: byte, ones: nat): nat
    requires ones <= 8
  {
    ShiftRight(x as nat, 8 - ones)
  }

  /** Two octets agree under the mask of their top `ones` bits exactly when
      their leading `ones` bits agree. */
  lemma MaskByteAgreement(x: byte, y: byte, ones: nat)
    requires ones <= 8
    ensures And(x, MaskByte(ones)) == And(y, MaskByte(ones)) <==> LeadingBits(x, ones) == LeadingBits(y, ones)
  {
    MaskByteIsHighMask(ones);
    assert Pow2(8) == 256 by {
      assert Pow2(4) == 16;
    }
    BitAndHighBits(x as nat, 8, 8 - ones);
    BitAndHighBits(y as nat, 8, 8 - ones);
    if And(x, MaskByte(ones)) == And(y, MaskByte(ones)) {
      ShiftLeftInjective(LeadingBits(x, ones), LeadingBits(y, ones), 8 - ones);
    }
  }

  /** The leading `ones` bits of an address, octet by octet. */
  function Prefix(ip: Ip4, ones: nat): seq<nat>
    requires ones <= 32
  {
    [LeadingBits(ip.a, Clamp(ones)), LeadingBits(ip.b, Clamp(ones - 8)),
     LeadingBits(ip.c, Clamp(ones - 16)), LeadingBits(ip.d, Clamp(ones - 24))]
  }

  /** A four-octet mask comparison is the comparison of each octet. */
  lemma AgreeUnderMaskOctets(x: Ip4, y: Ip4, m: Ip4)
    ensures AgreeUnderMask(Octets(x), Octets(y), Octets(m)) <==>
      && And(x.a, m.a) == And(y.a, m.a) && And(x.b, m.b) == And(y.b, m.b)
      && And(x.c, m.c) == And(y.c, m.c) && And(x.d, m.d) == And(y.d, m.d)
  {
    var xs, ys, ms := Octets(x), Octets(y), Octets(m);
    assert AgreeUnderMask(xs, ys, ms) <==>
      And(x.a, m.a) == And(y.a, m.a) && AgreeUnderMask(xs[1..], ys[1..], ms[1..]);
    assert AgreeUnderMask(xs[1..], ys[1..], ms[1..]) <==>
      And(x.b, m.b) == And(y.b, m.b) && AgreeUnderMask(xs[2..], ys[2..], ms[2..]) by {
      assert xs[1..][1..] == xs[2..] && ys[1..][1..] == ys[2..] && ms[1..][1..] == ms[2..];
    }
    assert AgreeUnderMask(xs[2..], ys[2..], ms[2..]) <==>
      And(x.c, m.c) == And(y.c, m.c) && AgreeUnderMask(xs[3..], ys[3..], ms[3..]) by {
      assert xs[2..][1..] == xs[3..] && ys[2..][1..] == ys[3..] && ms[2..][1..] == ms[3..];
    }
    assert AgreeUnderMask(xs[3..], ys[3..], ms[3..]) <==> And(x.d, m.d) == And(y.d, m.d) by {
      assert xs[3..][1..] == [] && ys[3..][1..] == [] && ms[3..][1..] == [];
    }
  }


  /** A network with a CIDR mask of `ones` bits contains exactly the
      addresses whose first `ones` bits are the network's. */
  lemma CidrContainsIffPrefix(n: Ip4, ones: nat, a: Ip4)
    requires ones <= 32
    ensures Contains(IpNet(n, CidrMask(ones)), Some(a)) <==> Prefix(a, ones) == Prefix(n, ones)
  {
    AgreeUnderMaskOctets(n, a, CidrMask(ones));
    MaskByteAgreement(n.a, a.a, Clamp(ones));
    MaskByteAgreement(n.b, a.b, Clamp(ones - 8));
    MaskByteAgreement(n.c, a.c, Clamp(ones - 16));
    MaskByteAgreement(n.d, a.d, Clamp(ones - 24));
  }

  // Dotted-decimal text form

  predicate IsDigit(ch: char) {
    '0' <= ch <= '9'
  }

  predicate AllDigits(s: string) {
    forall i :: 0 <= i < |s| ==> IsDigit(s[i])
  }

  function DigitChar(v: nat): (ch: char)
    requires v < 10
    ensures IsDigit(ch)
  {
    ('0' as int + v) as char
  }

  /** Decimal value of a string of digits. */
  function DigitsValue(s: string): nat
    requires AllDigits(s)
  {
    if s == [] then 0
    else DigitsValue(s[..|s| - 1]) * 10 + (s[|s| - 1] as int - '0' as int)
  }

  /** Decimal digits of a natural number, without leading zeros. */
  function Decimal(v: nat): (s: string)
    ensures 1 <= |s|
    ensures AllDigits(s)
  {
    if v < 10 then [DigitChar(v)] else Decimal(v / 10) + [DigitChar(v % 10)]
  }

  lemma DigitsValueSnoc(s: string, v: nat)
    requires AllDigits(s) && v < 10
    ensures AllDigits(s + [DigitChar(v)])
    ensures DigitsValue(s + [DigitChar(v)]) == DigitsValue(s) * 10 + v
  {
    assert (s + [DigitChar(v)])[..|s|] == s;
  }

  /** Reading the decimal form back gives the value. */
  lemma {:induction false} DecimalValue(v: nat)
    ensures DigitsValue(Decimal(v)) == v
  {
    if v < 10 {
      DigitsValueSnoc([], v);
      assert [] + [DigitChar(v)] == Decimal(v);
    } else {
      DecimalValue(v / 10);
      DigitsValueSnoc(Decimal(v / 10), v % 10);
    }
  }

  /** The decimal form of one octet, as `net.IP.String()` writes it. */
  function OctetString(x: byte): (s: string)
    ensures AllDigits(s)
  {
    Decimal(x as int)
  }

  lemma OctetStringInjective(x: byte, y: byte)
    requires OctetString(x) == OctetString(y)
    ensures x == y
  {
    DecimalValue(x as int);
    DecimalValue(y as int);
    assert x as int == y as int;
  }

  /** Decimal octets joined by dots. */
  function JoinOctets(os: seq<byte>): string
    requires |os| > 0
  {
    if |os| == 1 then OctetString(os[0]) else OctetString(os[0]) + "." + JoinOctets(os[1..])
  }

  /** `net.IP.String()` for a 4-byte address: "a.b.c.d" in decimal. */
  function Dotted(ip: Ip4): string {
    JoinOctets(Octets(ip))
  }

  /** Index of the first '.' in `s`, or `|s|` when there is none. */
  function FirstDot(s: string): (i: nat)
    ensures i <= |s|
  {
    if s == [] || s[0] == '.' then 0 else 1 + FirstDot(s[1..])
  }

  lemma {:induction false} FirstDotAfterField(x: string, y: string)
    requires '.' !in x
    ensures FirstDot(x + "." + y) == |x|
  {
    if x != [] {
      assert (x + "." + y)[1..] == x[1..] + "." + y;
      FirstDotAfterField(x[1..], y);
    }
  }

  /** Two strings that each begin with a dot-free field split at the same
      place. */
  lemma SplitAtFirstDot(x1: string, y1: string, x2: string, y2: string)
    requires '.' !in x1 && '.' !in x2
    requires x1 + "." + y1 == x2 + "." + y2
    ensures x1 == x2 && y1 == y2
  {
    var s := x1 + "." + y1;
    FirstDotAfterField(x1, y1);
    FirstDotAfterField(x2, y2);
    assert x1 == s[..|x1|] == x2;
    assert y1 == s[|x1| + 1..] == y2;
  }

  lemma DigitsHaveNoDot(s: string)
    requires AllDigits(s)
    ensures '.' !in s
  {
  }

  /** Joined octet lists that read alike have the same octets. */
  lemma {:induction false} JoinOctetsInjective(xs: seq<byte>, ys: seq<byte>)
    requires |xs| == |ys| > 0
    requires JoinOctets(xs) == JoinOctets(ys)
    ensures xs == ys
  {
    DigitsHaveNoDot(OctetString(xs[0]));
    DigitsHaveNoDot(OctetString(ys[0]));
    if |xs| == 1 {
      OctetStringInjective(xs[0], ys[0]);
    } else {
      SplitAtFirstDot(OctetString(xs[0]), JoinOctets(xs[1..]), OctetString(ys[0]), JoinOctets(ys[1..]));
      OctetStringInjective(xs[0], ys[0]);
      JoinOctetsInjective(xs[1..], ys[1..]);
      assert xs == [xs[0]] + xs[1..];
      assert ys == [ys[0]] + ys[1..];
    }
  }

  /** Distinct addresses have distinct dotted-decimal forms, so keying a
      table by `Dotted` never merges two addresses. */
  lemma DottedInjective(p: Ip4, q: Ip4)
    requires Dotted(p) == Dotted(q)
    ensures p == q
  {
    JoinOctetsInjective(Octets(p), Octets(q));
    assert p.a == Octets(p)[0] == Octets(q)[0] == q.a;
    assert p.b == Octets(p)[1] == Octets(q)[1] == q.b;
    assert p.c == Octets(p)[2] == Octets(q)[2] == q.c;
    assert p.d == Octets(p)[3] == Octets(q)[3] == q.d;
  }
}
