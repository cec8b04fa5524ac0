/** The parts of Go's `net` package that `expandCIDR` relies on, over byte
    strings: `CIDRMask`, `IP.Mask`, `IPNet.Contains` and the checks `ParseCIDR`
    makes once the text has been read into an address and a prefix length. */
module Net {
  import opened Numbers

  /** An address in its byte form: 4 bytes for IPv4, 16 for IPv6. */
  type Address = seq<byte>

  const IPv4Len: nat := 4
  const IPv6Len: nat := 16

  /** Go `net.IPNet`: a network number and its mask. */
  datatype IPNet = IPNet(ip: Address, mask: seq<byte>)

  /** What `ParseCIDR` yields: the address as written, and the block it names. */
  datatype Parsed = Parsed(ip: Address, net: IPNet)

  /** The ways `expandCIDR` can fail. `ParseError` is the error `ParseCIDR`
      returns, naming the input; `SliceBoundsOutOfRange` is the run-time panic
      of the slice expression `ips[low:high]` when low > high. */
  datatype CidrError = ParseError(ip: Address, prefix: int) | SliceBoundsOutOfRange(low: int, high: int)

  datatype Result<T> = Ok(value: T) | Err(error: CidrError)

  /** Go's `&` on non-negative numbers, bit by bit from the least significant. */
  function AndNat(a: nat, b: nat): (r: nat)
    ensures r <= a && r <= b
  {
    if a == 0 || b == 0 then 0
    else 2 * AndNat(a / 2, b / 2) + (if a % 2 == 1 && b % 2 == 1 then 1 else 0)
  }

  /** Go's `&` on bytes. */
  function BitAnd(a: byte, b: byte): byte
  {
    AndNat(a as nat, b as nat) as byte
  }

  /** ANDing a number below 2^m with the all-ones mask 2^m - 1 keeps it whole. */
  lemma {:induction false} AndAllOnes(b: nat, m: nat)
    requires b < Pow2(m)
    ensures AndNat(b, Pow2(m) - 1) == b
  {
    if b != 0 {
      var mask: int := Pow2(m) - 1;
      assert m > 0;
      assert mask / 2 == Pow2(m - 1) - 1 && mask % 2 == 1;
      AndAllOnes(b / 2, m - 1);
      assert AndNat(b, mask) == 2 * AndNat(b / 2, mask / 2) + b % 2;
    }
  }

  /** The m-bit number whose bits from k up are set and whose k low bits are clear. */
  function HighOnes(m: nat, k: nat): (r: nat)
    requires k <= m
    ensures 0 < k ==> r % 2 == 0
  {
    if k == 0 then Pow2(m) - 1
    else
      var h := HighOnes(m - 1, k - 1);
      Halve(2 * h, h, 0);
      2 * h
  }

  /** x = 2q + r with r a bit: q and r are x / 2 and x % 2. */
  lemma Halve(x: int, q: int, r: int)
    requires 0 <= r < 2 && x == 2 * q + r
    ensures x / 2 == q && x % 2 == r
  {
    ModUnique(x, 2, q, r);
  }

  /** As a number, HighOnes(m, k) is 2^m - 2^k. */
  lemma {:induction false} HighOnesValue(m: nat, k: nat)
    requires k <= m
    ensures HighOnes(m, k) == Pow2(m) - Pow2(k)
  {
    if k > 0 {
      HighOnesValue(m - 1, k - 1);
    }
  }

  /** ANDing a number below 2^m with HighOnes(m, k) clears its k low bits and
      keeps the rest. */
  lemma {:induction false} AndHighBits(b: nat, m: nat, k: nat)
    requires k <= m && b < Pow2(m)
    ensures AndNat(b, HighOnes(m, k)) == b - b % Pow2(k)
  {
    if k == 0 {
      AndAllOnes(b, m);
    } else if b == 0 {
    } else {
      var h: int, pm: int := b / 2, Pow2(m - 1);
      assert h < pm;
      AndHighBits(h, m - 1, k - 1);
      var mask: int := HighOnes(m, k);
      assert mask / 2 == HighOnes(m - 1, k - 1) && mask % 2 == 0;
      ClearLowBitsStep(b, Pow2(k - 1), AndNat(b, mask));
    }
  }

  /** Clearing the low bits of b/2 below p and doubling clears the low bits
      of b below 2p. */
  lemma ClearLowBitsStep(b: int, p: int, a: int)
    requires b >= 0 && p > 0 && a == 2 * (b / 2 - (b / 2) % p)
    ensures a == b - b % (2 * p)
  {
    ModDouble(b, p);
  }

  /** Go's `x >> n` on non-negative numbers. */
  function ShiftRight(x: nat, n: nat): (r: nat)
    ensures r <= x
  {
    if n == 0 then x else ShiftRight(x / 2, n - 1)
  }

  /** Byte i of `CIDRMask` when `ones` mask bits are still to be placed: 0xff
      for eight or more, else `^byte(0xff >> ones)`. */
  function MaskByte(ones: nat): byte
  {
    if ones >= 8 then 255 else (255 - ShiftRight(255, ones)) as byte
  }

  /** A mask byte with fewer than eight ones sets the top `ones` bits. */
  lemma MaskByteValue(ones: nat)
    requires ones < 8
    ensures MaskByte(ones) as int == Pow2(8) - Pow2(8 - ones)
  {
    assert Pow2(8) == 256;
    if ones == 0 {
    } else if ones == 1 {
    } else if ones == 2 {
    } else if ones == 3 {
    } else if ones == 4 {
    } else if ones == 5 {
    } else if ones == 6 {
    } else {
      assert ones == 7;
    }
  }

  /** ANDing a byte with the mask byte for `ones` keeps its top `ones` bits. */
  lemma MaskByteKeepsHighBits(b: byte, ones: nat)
    ensures ones >= 8 ==> BitAnd(b, MaskByte(ones)) == b
    ensures ones < 8 ==> BitAnd(b, MaskByte(ones)) as nat == b as nat - b as nat % Pow2(8 - ones)
  {
    var v: int := b as int;
    if ones >= 8 {
      assert AndNat(v, 255) == v by {
        Pow2Byte();
        AndAllOnes(v, 8);
      }
    } else {
      var q: int, m: int := Pow2(8 - ones), MaskByte(ones) as int;
      assert m == HighOnes(8, 8 - ones) by {
        Pow2Byte();
        MaskByteValue(ones);
        HighOnesValue(8, 8 - ones);
      }
      assert AndNat(v, m) == v - v % q by {
        Pow2Byte();
        AndHighBits(v, 8, 8 - ones);
      }
    }
  }

  /** How many of the `ones` leading mask bits fall in byte i. */
  function OnesInByte(ones: nat, i: nat): (k: nat)
    ensures k <= 8
  {
    if ones >= 8 * i + 8 then 8 else if ones <= 8 * i then 0 else ones - 8 * i
  }

  /** Go `net.CIDRMask(ones, 8*len)`: `len` bytes whose leading `ones` bits
      are set; its loop gives 0xff while eight or more ones remain, then one
      partial byte, then zeros. */
  function CIDRMask(ones: nat, len: nat): (m: seq<byte>)
    ensures |m| == len
  {
    seq(len, i requires 0 <= i < len => MaskByte(OnesInByte(ones, i)))
  }

  /** The bytes of a mask: 0xff wholly inside the prefix, 0 wholly past it,
      and in the one byte the prefix ends inside exactly the top ones - 8*i
      bits set. */
  lemma CIDRMaskBytes(ones: nat, len: nat)
    ensures forall i :: 0 <= i < len && 8 * i + 8 <= ones ==> CIDRMask(ones, len)[i] == 255
    ensures forall i :: 0 <= i < len && ones <= 8 * i ==> CIDRMask(ones, len)[i] == 0
    ensures forall i :: 0 <= i < len && 8 * i < ones < 8 * i + 8 ==>
              CIDRMask(ones, len)[i] as int == Pow2(8) - Pow2(8 - (ones - 8 * i))
  {
    forall i | 0 <= i < len {
      CIDRMaskByteAt(ones, len, i);
    }
  }

  lemma CIDRMaskByteAt(ones: nat, len: nat, i: nat)
    requires i < len
    ensures 8 * i + 8 <= ones ==> CIDRMask(ones, len)[i] == 255
    ensures ones <= 8 * i ==> CIDRMask(ones, len)[i] == 0
    ensures 8 * i < ones < 8 * i + 8 ==> CIDRMask(ones, len)[i] as int == Pow2(8) - Pow2(8 - (ones - 8 * i))
  {
    var k := OnesInByte(ones, i);
    assert CIDRMask(ones, len)[i] == MaskByte(k);
    if ones <= 8 * i {
      assert ShiftRight(255, 0) == 255;
    } else if ones < 8 * i + 8 {
      MaskByteValue(k);
    }
  }

  /** Past its first byte, a mask is the mask for the ones left over. */
  lemma CIDRMaskTail(ones: nat, len: nat)
    requires len > 0
    ensures CIDRMask(ones, len)[0] == MaskByte(ones)
    ensures CIDRMask(ones, len)[1..] == CIDRMask(if ones >= 8 then ones - 8 else 0, len - 1)
  {
    var ones' := if ones >= 8 then ones - 8 else 0;
    forall i | 0 <= i < len - 1
      ensures CIDRMask(ones, len)[1..][i] == CIDRMask(ones', len - 1)[i]
    {
      assert OnesInByte(ones, i + 1) == OnesInByte(ones', i);
    }
    assert MaskByte(OnesInByte(ones, 0)) == MaskByte(ones);
  }

  /** Go `IP.Mask`: each byte ANDed with the mask byte at its position; nil
      (here the empty string) when the lengths differ. */
  function Mask(ip: Address, mask: seq<byte>): (r: Address)
    ensures |ip| == |mask| ==> |r| == |ip|
    ensures |ip| == |mask| ==> forall i :: 0 <= i < |ip| ==> r[i] == BitAnd(ip[i], mask[i])
    ensures |ip| != |mask| ==> r == []
  {
    if |ip| != |mask| then [] else seq(|ip|, i requires 0 <= i < |ip| => BitAnd(ip[i], mask[i]))
  }

  /** Go `IPNet.Contains`: same length, and equal to the network number on
      every bit the mask selects. */
  predicate Contains(n: IPNet, ip: Address)
  {
    |ip| == |n.ip| == |n.mask| && Mask(n.ip, n.mask) == Mask(ip, n.mask)
  }

  /** Containment byte by byte, as Go's loop tests it: the widths agree, and
      at every byte the network and the address agree on the masked bits. */
  lemma ContainsBytes(n: IPNet, ip: Address)
    ensures Contains(n, ip) <==> (|ip| == |n.ip| == |n.mask| &&
              forall i :: 0 <= i < |ip| ==> BitAnd(n.ip[i], n.mask[i]) == BitAnd(ip[i], n.mask[i]))
  {
    if |ip| == |n.ip| == |n.mask| {
      assert |Mask(n.ip, n.mask)| == |Mask(ip, n.mask)|;
    }
  }

  /** The host bits of a block: the address bits the prefix leaves free. */
  function HostBits(ip: Address, ones: nat): nat
    requires ones <= 8 * |ip|
  {
    8 * |ip| - ones
  }

  /** Masking with a prefix of `ones` bits zeroes the host bits: read as a
      number, the masked address is the value rounded down to a multiple of
      2^(host bits). */
  lemma {:induction false} MaskValue(s: Address, ones: nat)
    requires ones <= 8 * |s|
    ensures ToNat(Mask(s, CIDRMask(ones, |s|))) == ToNat(s) - ToNat(s) % Pow2(HostBits(s, ones))
  {
    if |s| == 0 {
      assert Mask(s, CIDRMask(ones, 0)) == [];
    } else {
      MaskValue(s[1..], if ones >= 8 then ones - 8 else 0);
      MaskValueStep(s, ones);
    }
  }

  /** The induction step of MaskValue: from the masked value of the tail to
      the masked value of the whole address. */
  lemma MaskValueStep(s: Address, ones: nat)
    requires 0 < |s| && ones <= 8 * |s|
    requires var ones' := if ones >= 8 then ones - 8 else 0;
             ToNat(Mask(s[1..], CIDRMask(ones', |s| - 1)))
               == ToNat(s[1..]) - ToNat(s[1..]) % Pow2(HostBits(s[1..], ones'))
    ensures ToNat(Mask(s, CIDRMask(ones, |s|))) == ToNat(s) - ToNat(s) % Pow2(HostBits(s, ones))
  {
    if ones >= 8 {
      MaskValueWholeByte(s, ones);
    } else {
      MaskValueCutByte(s, ones);
    }
  }

  /** The step when the first byte lies wholly inside the prefix. */
  lemma MaskValueWholeByte(s: Address, ones: nat)
    requires 0 < |s| && 8 <= ones <= 8 * |s|
    requires ToNat(Mask(s[1..], CIDRMask(ones - 8, |s| - 1)))
               == ToNat(s[1..]) - ToNat(s[1..]) % Pow2(HostBits(s[1..], ones - 8))
    ensures ToNat(Mask(s, CIDRMask(ones, |s|))) == ToNat(s) - ToNat(s) % Pow2(HostBits(s, ones))
  {
    var n := |s|;
    var total: int, v: int := ToNat(Mask(s, CIDRMask(ones, n))), ToNat(s);
    var a: int, r: int := s[0] as int, ToNat(s[1..]);
    var b: int, mr: int := BitAnd(s[0], MaskByte(ones)) as int, ToNat(Mask(s[1..], CIDRMask(ones - 8, n - 1)));
    var p: int, h: int := Pow2(8 * (n - 1)), Pow2(HostBits(s, ones));
    assert total == b * p + mr by {
      MaskCons(s, ones);
    }
    assert v == a * p + r by {
      ToNatFirst(s);
    }
    assert b == a by {
      MaskByteKeepsHighBits(s[0], ones);
    }
    assert mr == r - r % h by {
      assert HostBits(s[1..], ones - 8) == HostBits(s, ones);
    }
    assert p % h == 0 by {
      Pow2Divides(HostBits(s, ones), 8 * (n - 1));
    }
    KeepFirstByteSum(a, r, p, h, b, mr, total, v);
  }

  /** The step when the prefix ends inside the first byte, so that the rest
      of the address is masked to zero. */
  lemma MaskValueCutByte(s: Address, ones: nat)
    requires 0 < |s| && ones < 8
    requires ToNat(Mask(s[1..], CIDRMask(0, |s| - 1)))
               == ToNat(s[1..]) - ToNat(s[1..]) % Pow2(HostBits(s[1..], 0))
    ensures ToNat(Mask(s, CIDRMask(ones, |s|))) == ToNat(s) - ToNat(s) % Pow2(HostBits(s, ones))
  {
    MaskCons(s, ones);
    ToNatFirst(s);
    MaskByteKeepsHighBits(s[0], ones);
    ToNatBound(s[1..]);
    HostBitsSplit(s, ones);
    CutFirstByteSum(s[0] as int, ToNat(s[1..]), Pow2(8 - ones), Pow2(8 * (|s| - 1)), Pow2(HostBits(s, ones)),
      BitAnd(s[0], MaskByte(ones)) as int, ToNat(Mask(s[1..], CIDRMask(0, |s| - 1))),
      ToNat(Mask(s, CIDRMask(ones, |s|))), ToNat(s));
  }

  /** With the prefix inside the first byte, the host bits are those left in
      that byte and all bits of the rest. */
  lemma HostBitsSplit(s: Address, ones: nat)
    requires 0 < |s| && ones < 8
    ensures Pow2(HostBits(s, ones)) == Pow2(8 - ones) * Pow2(8 * (|s| - 1))
    ensures Pow2(HostBits(s[1..], 0)) == Pow2(8 * (|s| - 1))
  {
    Pow2Add(8 - ones, 8 * (|s| - 1));
    assert HostBits(s, ones) == (8 - ones) + 8 * (|s| - 1);
  }

  /** The first byte of a masked address is masked by the first mask byte, and
      the rest by the mask for the remaining ones. */
  lemma MaskCons(s: Address, ones: nat)
    requires 0 < |s| && ones <= 8 * |s|
    ensures var ones' := if ones >= 8 then ones - 8 else 0;
            ToNat(Mask(s, CIDRMask(ones, |s|)))
              == BitAnd(s[0], MaskByte(ones)) as nat * Pow2(8 * (|s| - 1)) + ToNat(Mask(s[1..], CIDRMask(ones', |s| - 1)))
  {
    var ones' := if ones >= 8 then ones - 8 else 0;
    CIDRMaskCons(ones, |s|);
    MaskSplit(s, CIDRMask(ones, |s|), MaskByte(ones), CIDRMask(ones', |s| - 1));
  }

  /** MaskCons for any mask given as its first byte and the rest. */
  lemma MaskSplit(s: Address, c: seq<byte>, x: byte, c': seq<byte>)
    requires 0 < |s| == |c| && c == [x] + c'
    ensures ToNat(Mask(s, c)) == BitAnd(s[0], x) as nat * Pow2(8 * (|s| - 1)) + ToNat(Mask(s[1..], c'))
  {
    MaskFirst(s, c, x, c');
    ToNatCons(BitAnd(s[0], x), Mask(s[1..], c'));
  }

  /** A mask is its first byte followed by the mask for the ones left over. */
  lemma CIDRMaskCons(ones: nat, len: nat)
    requires len > 0
    ensures CIDRMask(ones, len) == [MaskByte(ones)] + CIDRMask(if ones >= 8 then ones - 8 else 0, len - 1)
  {
    CIDRMaskTail(ones, len);
  }

  lemma MaskFirst(s: Address, c: seq<byte>, x: byte, c': seq<byte>)
    requires 0 < |s| == |c| && c == [x] + c'
    ensures Mask(s, c) == [BitAnd(s[0], x)] + Mask(s[1..], c')
  {
  }

  lemma ToNatCons(x: byte, t: seq<byte>)
    ensures ToNat([x] + t) == x as nat * Pow2(8 * |t|) + ToNat(t)
  {
    assert ToNat([x]) == x as int by {
      assert [x][..0] == [];
    }
    ToNatAppend([x], t);
  }

  lemma ToNatFirst(s: seq<byte>)
    requires 0 < |s|
    ensures ToNat(s) == s[0] as nat * Pow2(8 * (|s| - 1)) + ToNat(s[1..])
  {
    assert s == [s[0]] + s[1..];
    ToNatCons(s[0], s[1..]);
  }

  /** Rounding a*p + r down to a multiple of h, where h divides p, rounds r
      alone: the case of a first byte the mask keeps whole. */
  lemma KeepFirstByte(a: int, r: int, p: int, h: int)
    requires a >= 0 && r >= 0 && p >= 0 && h > 0 && p % h == 0
    ensures a * p + (r - r % h) == (a * p + r) - (a * p + r) % h
  {
    ModAddMultiple(a, p, r, h);
  }

  /** Rounding a*p + r (r below p) down to a multiple of q*p rounds a down to
      a multiple of q: the case of a first byte the mask cuts, with the rest
      masked to zero. */
  lemma CutFirstByte(a: int, r: int, q: int, p: int)
    requires a >= 0 && 0 <= r < p && q > 0
    ensures (a - a % q) * p + (r - r % p) == (a * p + r) - (a * p + r) % (q * p)
  {
    ModSplit(a, r, q, p);
    ModUnique(r, p, 0, r);
    assert (a - a % q) * p == a * p - (a % q) * p;
  }

  /** KeepFirstByteSum and CutFirstByteSum restate KeepFirstByte and
      CutFirstByte over named intermediate values, the terms that appear in
      MaskValueWholeByte and MaskValueCutByte: substituting them in the caller
      instead makes the solver expand the products there, at high cost. */
  lemma KeepFirstByteSum(a: int, r: int, p: int, h: int, b: int, mr: int, total: int, v: int)
    requires a >= 0 && r >= 0 && p >= 0 && h > 0 && p % h == 0
    requires b == a && mr == r - r % h && total == b * p + mr && v == a * p + r
    ensures total == v - v % h
  {
    KeepFirstByte(a, r, p, h);
  }

  lemma CutFirstByteSum(a: int, r: int, q: int, p: int, h: int, b: int, mr: int, total: int, v: int)
    requires a >= 0 && 0 <= r < p && q > 0 && h == q * p
    requires b == a - a % q && mr == r - r % p && total == b * p + mr && v == a * p + r
    ensures total == v - v % h
  {
    CutFirstByte(a, r, q, p);
  }

  /** Go `net.ParseCIDR` once the text has been read into an address and a
      prefix length: an error naming the input unless the address is 4 or 16
      bytes and the prefix lies in 0..8*len; else the address as written and
      the block, whose network number is the address masked by the prefix. */
  function ParseCIDR(ip: Address, prefix: int): (r: Result<Parsed>)
    ensures r.Ok? <==> (|ip| == IPv4Len || |ip| == IPv6Len) && 0 <= prefix <= 8 * |ip|
    ensures r.Err? ==> r.error == ParseError(ip, prefix)
    ensures r.Ok? ==> r.value.ip == ip && r.value.net.mask == CIDRMask(prefix, |ip|)
                      && r.value.net.ip == Mask(ip, r.value.net.mask)
  {
    if (|ip| == IPv4Len || |ip| == IPv6Len) && 0 <= prefix <= 8 * |ip| then
      var m := CIDRMask(prefix, |ip|);
      Ok(Parsed(ip, IPNet(Mask(ip, m), m)))
    else
      Err(ParseError(ip, prefix))
  }

  /** The network number of a parsed block, read as a number. */
  function NetworkValue(ip: Address, ones: nat): nat
    requires ones <= 8 * |ip|
  {
    ToNat(Mask(ip, CIDRMask(ones, |ip|)))
  }

  /** The network number is the address with its host bits cleared: a multiple
      of the block size, at or below the address and within one block of it,
      and the block ends no later than the top of the address space. */
  lemma NetworkAligned(ip: Address, ones: nat)
    requires ones <= 8 * |ip|
    ensures NetworkValue(ip, ones) % Pow2(HostBits(ip, ones)) == 0
    ensures NetworkValue(ip, ones) <= ToNat(ip) < NetworkValue(ip, ones) + Pow2(HostBits(ip, ones))
    ensures NetworkValue(ip, ones) + Pow2(HostBits(ip, ones)) <= Pow2(8 * |ip|)
  {
    var h: int, c: int := Pow2(HostBits(ip, ones)), Pow2(ones);
    var v: int := ToNat(ip);
    MaskValue(ip, ones);
    assert h * c == Pow2(8 * |ip|) by {
      Pow2Add(HostBits(ip, ones), ones);
    }
    ToNatBound(ip);
    RoundDown(v, h, c);
  }

  /** Rounding v below h*c down to a multiple of h stays in [v - h, v] and
      leaves room for a whole block of h below h*c. */
  lemma RoundDown(v: int, h: int, c: int)
    requires h > 0 && c > 0 && 0 <= v < h * c
    ensures (v - v % h) % h == 0
    ensures v - v % h <= v < v - v % h + h
    ensures v - v % h + h <= h * c
  {
    var q := v / h;
    assert v - v % h == q * h;
    ModUnique(q * h, h, q, 0);
    assert q < c by {
      LessMul(q, c, h, v);
    }
    assert (q + 1) * h <= c * h;
  }

  /** The block that ParseCIDR makes of an address and a prefix length:
      network number and mask. */
  function BlockNet(ip: Address, ones: nat): IPNet
    requires ones <= 8 * |ip|
  {
    var m := CIDRMask(ones, |ip|);
    IPNet(Mask(ip, m), m)
  }

  /** Membership in a block is a range of numbers: an address of the block's
      width is contained exactly when its value lies from the network number
      up to, not including, the network number plus 2^(host bits). */
  lemma ContainsRange(ip: Address, ones: nat, x: Address)
    requires ones <= 8 * |ip| && |x| == |ip|
    ensures Contains(BlockNet(ip, ones), x) <==>
            NetworkValue(ip, ones) <= ToNat(x) < NetworkValue(ip, ones) + Pow2(HostBits(ip, ones))
  {
    var m := CIDRMask(ones, |ip|);
    var network := Mask(ip, m);
    var nv: int, xv: int, h: int := NetworkValue(ip, ones), ToNat(x), Pow2(HostBits(ip, ones));
    NetworkAligned(ip, ones);
    assert ToNat(Mask(network, m)) == nv by {
      assert |network| == |ip| && HostBits(network, ones) == HostBits(ip, ones);
      MaskValue(network, ones);
      var nn: int := ToNat(network);
      assert nn == nv;
      assert nn % h == 0;
    }
    assert ToNat(Mask(x, m)) == xv - xv % h by {
      assert HostBits(x, ones) == HostBits(ip, ones);
      MaskValue(x, ones);
    }
    assert Contains(IPNet(network, m), x) <==> nv == xv - xv % h by {
      if nv == xv - xv % h {
        ToNatInjective(Mask(network, m), Mask(x, m));
      }
    }
    AlignedRange(nv, xv, h);
  }

  /** For a multiple nv of h, xv rounds down to nv exactly when it lies in [nv, nv + h). */
  lemma AlignedRange(nv: int, xv: int, h: int)
    requires h > 0 && nv % h == 0 && xv >= 0
    ensures nv == xv - xv % h <==> nv <= xv < nv + h
  {
    if nv <= xv < nv + h {
      ModUnique(xv, h, nv / h, xv - nv);
    }
  }
}
