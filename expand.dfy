/** `expandCIDR` of main.go: list the usable host addresses of a CIDR block by
    walking from the network number with `incIP` while the block contains the
    address, then dropping the first (network) and last (broadcast) entries. */
module Expand {
  import opened Numbers
  import opened Net
  import opened Increment

  /** The h addresses of width n from value start on, in ascending order. */
  function Run(start: nat, h: nat, n: nat): (b: seq<Address>)
    ensures |b| == h
  {
    seq(h, i requires 0 <= i < h => FromNat(start + i, n))
  }

  /** Entry i of a run that fits in n bytes has width n and value start + i. */
  lemma RunEntry(start: nat, h: nat, n: nat, i: nat)
    requires start + h <= Pow2(8 * n) && i < h
    ensures |Run(start, h, n)[i]| == n && ToNat(Run(start, h, n)[i]) == start + i
  {
    ToNatFromNat(start + i, n);
  }

  /** Every address of a block, in ascending order: the network number plus
      0, 1, ..., 2^(host bits) - 1, each written at the address width. */
  function Block(ip: Address, ones: nat): (b: seq<Address>)
    requires ones <= 8 * |ip|
    ensures |b| == Pow2(HostBits(ip, ones))
  {
    Run(NetworkValue(ip, ones), Pow2(HostBits(ip, ones)), |ip|)
  }

  /** What `expandCIDR` yields for an address and prefix length: the parse
      error; the run-time error of `ips[1:len(ips)-1]` when the block holds a
      single address; otherwise the block without its first and last address.
      A valid prefix of 0 is excluded: `expandCIDR` never returns there (see
      ZeroPrefixContainsAll). */
  function Expansion(ip: Address, prefix: int): (r: Result<seq<Address>>)
    requires ParseCIDR(ip, prefix).Ok? ==> prefix >= 1
    ensures ParseCIDR(ip, prefix).Err? ==> r == Err(ParseError(ip, prefix))
    ensures ParseCIDR(ip, prefix).Ok? && prefix == 8 * |ip| ==> r == Err(SliceBoundsOutOfRange(1, 0))
    ensures ParseCIDR(ip, prefix).Ok? && prefix < 8 * |ip| ==> r.Ok?
  {
    match ParseCIDR(ip, prefix)
    case Err(e) => Err(e)
    case Ok(_) =>
      var b := Block(ip, prefix);
      if |b| - 1 < 1 then Err(SliceBoundsOutOfRange(1, |b| - 1)) else Ok(b[1..|b| - 1])
  }

  /** The walk starts at the network number: the address with its host bits
      zeroed, i.e. its value rounded down to a multiple of the block size. */
  lemma BlockStart(ip: Address, ones: nat)
    requires ones <= 8 * |ip|
    ensures Block(ip, ones)[0] == Mask(ip, CIDRMask(ones, |ip|))
    ensures ToNat(Block(ip, ones)[0]) == ToNat(ip) - ToNat(ip) % Pow2(HostBits(ip, ones))
  {
    var network := Mask(ip, CIDRMask(ones, |ip|));
    BlockEntry(ip, ones, 0);
    ToNatInjective(Block(ip, ones)[0], network);
    MaskValue(ip, ones);
  }

  /** Entry i of the block has the address width and the value network + i. */
  lemma BlockEntry(ip: Address, ones: nat, i: nat)
    requires ones <= 8 * |ip| && i < |Block(ip, ones)|
    ensures |Block(ip, ones)[i]| == |ip| && ToNat(Block(ip, ones)[i]) == NetworkValue(ip, ones) + i
  {
    NetworkAligned(ip, ones);
    RunEntry(NetworkValue(ip, ones), Pow2(HostBits(ip, ones)), |ip|, i);
  }

  lemma BlockValues(ip: Address, ones: nat)
    requires ones <= 8 * |ip|
    ensures forall i :: 0 <= i < |Block(ip, ones)| ==>
              |Block(ip, ones)[i]| == |ip| && ToNat(Block(ip, ones)[i]) == NetworkValue(ip, ones) + i
  {
    forall i | 0 <= i < |Block(ip, ones)|
      ensures |Block(ip, ones)[i]| == |ip| && ToNat(Block(ip, ones)[i]) == NetworkValue(ip, ones) + i
    {
      BlockEntry(ip, ones, i);
    }
  }

  /** The walk visits addresses in strictly ascending order, so none twice. */
  lemma BlockAscending(ip: Address, ones: nat)
    requires ones <= 8 * |ip|
    ensures forall i, j :: 0 <= i < j < |Block(ip, ones)| ==>
              ToNat(Block(ip, ones)[i]) < ToNat(Block(ip, ones)[j]) && Block(ip, ones)[i] != Block(ip, ones)[j]
  {
    BlockValues(ip, ones);
  }

  /** The block lists exactly the addresses of its width that the block
      contains. */
  lemma BlockMembers(ip: Address, ones: nat, x: Address)
    requires ones <= 8 * |ip|
    ensures x in Block(ip, ones) <==> |x| == |ip| && Contains(BlockNet(ip, ones), x)
  {
    if x in Block(ip, ones) {
      var i :| 0 <= i < |Block(ip, ones)| && Block(ip, ones)[i] == x;
      BlockEntryContained(ip, ones, i);
    }
    if |x| == |ip| && Contains(BlockNet(ip, ones), x) {
      ContainedIsBlockEntry(ip, ones, x);
    }
  }

  lemma BlockEntryContained(ip: Address, ones: nat, i: nat)
    requires ones <= 8 * |ip| && i < |Block(ip, ones)|
    ensures |Block(ip, ones)[i]| == |ip| && Contains(BlockNet(ip, ones), Block(ip, ones)[i])
  {
    BlockEntry(ip, ones, i);
    ContainsRange(ip, ones, Block(ip, ones)[i]);
  }

  lemma ContainedIsBlockEntry(ip: Address, ones: nat, x: Address)
    requires ones <= 8 * |ip| && |x| == |ip| && Contains(BlockNet(ip, ones), x)
    ensures x in Block(ip, ones)
  {
    ContainsRange(ip, ones, x);
    var i := ToNat(x) - NetworkValue(ip, ones);
    BlockEntry(ip, ones, i);
    ToNatInjective(Block(ip, ones)[i], x);
  }

  /** Where the walk stands after k steps from the network number: the
      address is in the block exactly for the first 2^(host bits) steps, and
      then it is entry k of the block. With a prefix of at least one bit the
      step past the broadcast address always leaves the block, also when it
      wraps around to the all-zero address. */
  lemma WalkPosition(ip: Address, ones: nat, k: nat, c: Address)
    requires 1 <= ones <= 8 * |ip| && k <= Pow2(HostBits(ip, ones)) && |c| == |ip|
    requires ToNat(c) == (NetworkValue(ip, ones) + k) % Pow2(8 * |c|)
    ensures Contains(BlockNet(ip, ones), c) <==> k < Pow2(HostBits(ip, ones))
    ensures k < Pow2(HostBits(ip, ones)) ==> c == Block(ip, ones)[k]
  {
    WalkValueOf(ip, ones, k, c);
    ContainsRange(ip, ones, c);
    if k < Pow2(HostBits(ip, ones)) {
      BlockEntry(ip, ones, k);
      ToNatInjective(Block(ip, ones)[k], c);
    }
  }

  /** The value of the address after k steps: in the block's range exactly
      for k below the block size, and then the network number plus k. */
  lemma WalkValueOf(ip: Address, ones: nat, k: nat, c: Address)
    requires 1 <= ones <= 8 * |ip| && k <= Pow2(HostBits(ip, ones)) && |c| == |ip|
    requires ToNat(c) == (NetworkValue(ip, ones) + k) % Pow2(8 * |c|)
    ensures (NetworkValue(ip, ones) <= ToNat(c) < NetworkValue(ip, ones) + Pow2(HostBits(ip, ones)))
              <==> k < Pow2(HostBits(ip, ones))
    ensures k < Pow2(HostBits(ip, ones)) ==> ToNat(c) == NetworkValue(ip, ones) + k
  {
    NetworkAligned(ip, ones);
    HalfSpace(ip, ones);
    assert Pow2(8 * |c|) == Pow2(8 * |ip|);
    WalkValue(NetworkValue(ip, ones), Pow2(HostBits(ip, ones)), Pow2(8 * |ip|), k, ToNat(c));
  }

  lemma PrefixExtend(s: seq<Address>, k: nat)
    requires k < |s|
    ensures s[..k + 1] == s[..k] + [s[k]]
  {
  }

  /** Expansion of a well-formed block, as the slice of its entries. */
  lemma ExpansionOfBlock(ip: Address, prefix: int, b: seq<Address>)
    requires ParseCIDR(ip, prefix).Ok? && prefix >= 1 && b == Block(ip, prefix)
    ensures Expansion(ip, prefix) == if |b| - 1 < 1 then Err(SliceBoundsOutOfRange(1, |b| - 1)) else Ok(b[1..|b| - 1])
  {
  }

  /** A block with at least one prefix bit spans at most half the address space. */
  lemma HalfSpace(ip: Address, ones: nat)
    requires 1 <= ones <= 8 * |ip|
    ensures 2 * Pow2(HostBits(ip, ones)) <= Pow2(8 * |ip|)
  {
    Pow2Add(HostBits(ip, ones), ones);
    assert HostBits(ip, ones) + ones == 8 * |ip|;
    var h: int, c: int := Pow2(HostBits(ip, ones)), Pow2(ones);
    assert c >= 2;
    MulLe(2, c, h);
  }

  /** The arithmetic of WalkPosition: value (nv + k) mod t lies in [nv, nv + h)
      exactly when k < h, for an aligned block that fits in half of [0, t). */
  lemma WalkValue(nv: int, h: int, t: int, k: int, v: int)
    requires 0 <= nv && 0 < h && nv + h <= t && 2 * h <= t && 0 <= k <= h
    requires v == (nv + k) % t
    ensures nv <= v < nv + h <==> k < h
    ensures k < h ==> v == nv + k
  {
    if nv + k < t {
      ModUnique(nv + k, t, 0, nv + k);
    } else {
      ModUnique(nv + k, t, 1, 0);
    }
  }

  /** The hosts listed for a block of two or more addresses: 2^(host bits) - 2
      of them, of the address width, with values network + 1, network + 2, ...
      up to the broadcast value minus one; hence in strictly ascending order. */
  lemma ExpansionHosts(ip: Address, prefix: int)
    requires ParseCIDR(ip, prefix).Ok? && 1 <= prefix < 8 * |ip|
    ensures Pow2(HostBits(ip, prefix)) >= 2
    ensures |Expansion(ip, prefix).value| == Pow2(HostBits(ip, prefix)) - 2
    ensures forall i :: 0 <= i < |Expansion(ip, prefix).value| ==>
              |Expansion(ip, prefix).value[i]| == |ip| &&
              ToNat(Expansion(ip, prefix).value[i]) == NetworkValue(ip, prefix) + 1 + i
  {
    var b := Block(ip, prefix);
    var hs := Expansion(ip, prefix).value;
    assert Pow2(HostBits(ip, prefix)) >= 2;
    ExpansionOfBlock(ip, prefix, b);
    forall i | 0 <= i < |hs|
      ensures |hs[i]| == |ip| && ToNat(hs[i]) == NetworkValue(ip, prefix) + 1 + i
    {
      assert hs[i] == b[i + 1];
      BlockEntry(ip, prefix, i + 1);
    }
  }

  /** An address is listed exactly when it has the block's width, the block
      contains it, and it is neither the network address nor the broadcast
      address (the all-ones host part). */
  lemma ExpansionMembers(ip: Address, prefix: int, x: Address)
    requires ParseCIDR(ip, prefix).Ok? && 1 <= prefix < 8 * |ip|
    ensures x in Expansion(ip, prefix).value <==>
              |x| == |ip| && Contains(BlockNet(ip, prefix), x) &&
              ToNat(x) != NetworkValue(ip, prefix) &&
              ToNat(x) != NetworkValue(ip, prefix) + Pow2(HostBits(ip, prefix)) - 1
  {
    var hs := Expansion(ip, prefix).value;
    var nv, h := NetworkValue(ip, prefix), Pow2(HostBits(ip, prefix));
    ExpansionHosts(ip, prefix);
    if x in hs {
      var i :| 0 <= i < |hs| && hs[i] == x;
      ContainsRange(ip, prefix, x);
    }
    if |x| == |ip| && Contains(BlockNet(ip, prefix), x) && ToNat(x) != nv && ToNat(x) != nv + h - 1 {
      ContainsRange(ip, prefix, x);
      var i := ToNat(x) - nv - 1;
      ToNatInjective(hs[i], x);
    }
  }

  /** A /31 (or /127) block has no host between its two addresses: the list
      is empty, not an error. */
  lemma ExpansionPointToPoint(ip: Address)
    requires |ip| == IPv4Len || |ip| == IPv6Len
    ensures Expansion(ip, 8 * |ip| - 1) == Ok([])
  {
    ExpansionHosts(ip, 8 * |ip| - 1);
    assert HostBits(ip, 8 * |ip| - 1) == 1;
  }

  /** With a prefix of 0 the block is the whole address space: every address
      of the width is contained, including the all-zero address the walk
      wraps around to, so the loop of expandCIDR would never end. */
  lemma ZeroPrefixContainsAll(ip: Address, x: Address)
    requires |x| == |ip|
    ensures Contains(BlockNet(ip, 0), x) && Contains(BlockNet(ip, 0), Successor(x))
  {
    var t := Pow2(8 * |ip|);
    assert HostBits(ip, 0) == 8 * |ip|;
    MaskValue(ip, 0);
    ToNatBound(ip);
    ModUnique(ToNat(ip), t, 0, ToNat(ip));
    assert NetworkValue(ip, 0) == 0;
    ContainsRange(ip, 0, x);
    ToNatBound(x);
    ContainsRange(ip, 0, Successor(x));
    ToNatBound(Successor(x));
  }

  /** One incIP step inside the block moves to the next entry. */
  lemma BlockNext(ip: Address, ones: nat, k: nat)
    requires ones <= 8 * |ip| && k + 1 < |Block(ip, ones)|
    ensures Successor(Block(ip, ones)[k]) == Block(ip, ones)[k + 1]
  {
    var e := Block(ip, ones)[k];
    BlockEntry(ip, ones, k);
    BlockEntry(ip, ones, k + 1);
    NetworkAligned(ip, ones);
    SuccessorValue(e);
    StepWithin(ToNat(e), NetworkValue(ip, ones) + k + 1, Pow2(8 * |e|), ToNat(Successor(e)));
    ToNatInjective(Successor(e), Block(ip, ones)[k + 1]);
  }

  lemma StepWithin(v: int, y: int, t: int, w: int)
    requires 0 <= v && y == v + 1 && y < t && w == (v + 1) % t
    ensures w == y
  {
    ModUnique(y, t, 0, y);
  }

  /** The incIP step from the last entry of a block with at least one prefix
      bit leaves the block, so the walk stops there. */
  lemma PastBlock(ip: Address, ones: nat)
    requires 1 <= ones <= 8 * |ip|
    ensures !Contains(BlockNet(ip, ones), Successor(Block(ip, ones)[|Block(ip, ones)| - 1]))
  {
    var h := |Block(ip, ones)|;
    var e := Block(ip, ones)[h - 1];
    BlockEntry(ip, ones, h - 1);
    SuccessorValue(e);
    assert ToNat(Successor(e)) == (NetworkValue(ip, ones) + h) % Pow2(8 * |Successor(e)|);
    WalkPosition(ip, ones, h, Successor(e));
  }

  /** expandCIDR: parse, walk the block from its network number with incIP
      while the block contains the address, then slice off the first and the
      last address. A prefix of 0 is excluded: there the block is the whole
      address space and the walk never leaves it. */
  method ExpandCIDR(ip: Address, prefix: int) returns (r: Result<seq<Address>>)
    requires ParseCIDR(ip, prefix).Ok? ==> prefix >= 1
    ensures r == Expansion(ip, prefix)
  {
    var parsed := ParseCIDR(ip, prefix);
    if parsed.Err? {
      return Err(parsed.error);
    }
    var ipnet := parsed.value.net;
    var start := Mask(parsed.value.ip, ipnet.mask);
    var n := |start|;
    var cur := new byte[n](i requires 0 <= i < n => start[i]);
    ghost var b := Block(ip, prefix);
    assert ipnet == BlockNet(ip, prefix);
    BlockStart(ip, prefix);
    PastBlock(ip, prefix);
    var ips: seq<Address> := [];
    while Contains(ipnet, cur[..])
      invariant cur.Length == |ip| && |ips| <= |b|
      invariant |ips| < |b| ==> cur[..] == b[|ips|]
      invariant |ips| == |b| ==> cur[..] == Successor(b[|b| - 1])
      invariant ips == b[..|ips|]
      decreases |b| - |ips|
    {
      ghost var k := |ips|;
      assert k < |b|;
      if k + 1 < |b| {
        BlockNext(ip, prefix, k);
      } else {
        assert b[k] == b[|b| - 1];
      }
      PrefixExtend(b, k);
      ips := ips + [cur[..]];
      IncIP(cur);
      assert cur[..] == Successor(b[k]);
    }
    if |ips| < |b| {
      BlockEntryContained(ip, prefix, |ips|);
    }
    assert ips == b;
    ExpansionOfBlock(ip, prefix, ips);
    if |ips| - 1 < 1 {
      return Err(SliceBoundsOutOfRange(1, |ips| - 1));
    }
    return Ok(ips[1..|ips| - 1]);
  }
}
