/** Concrete blocks: what expandCIDR lists for a /24, a /30, a /31 and a /32,
    and incIP on concrete addresses. */
module ExpandCases {
  import opened Numbers
  import opened Net
  import opened Increment
  import opened Expand

  /** 10.0.0.0/30 lists 10.0.0.1 and 10.0.0.2. */
  lemma Slash30()
    ensures Expansion([10, 0, 0, 0], 30) == Ok([[10, 0, 0, 1], [10, 0, 0, 2]])
  {
    var ip: Address := [10, 0, 0, 0];
    var nv := ToNatPrefix24(10, 0, 0) * 256;
    NetworkOfAligned(ip, 30, nv);
    ExpansionHosts(ip, 30);
    var hs := Expansion(ip, 30).value;
    assert Pow2(HostBits(ip, 30)) == 4;
    ToNatPrefixOf(10, 0, 0, 1);
    ToNatPrefixOf(10, 0, 0, 2);
    ToNatInjective(hs[0], [10, 0, 0, 1]);
    ToNatInjective(hs[1], [10, 0, 0, 2]);
    assert hs == [[10, 0, 0, 1], [10, 0, 0, 2]];
  }

  /** 192.168.1.0/24 lists the 254 addresses 192.168.1.1 to 192.168.1.254. */
  lemma Slash24()
    ensures Expansion([192, 168, 1, 0], 24).Ok?
    ensures |Expansion([192, 168, 1, 0], 24).value| == 254
    ensures forall i :: 0 <= i < 254 ==> Expansion([192, 168, 1, 0], 24).value[i] == [192, 168, 1, (i + 1) as byte]
  {
    var ip: Address := [192, 168, 1, 0];
    var nv := ToNatPrefix24(192, 168, 1) * 256;
    NetworkOfAligned(ip, 24, nv);
    ExpansionHosts(ip, 24);
    var hs := Expansion(ip, 24).value;
    assert Pow2(HostBits(ip, 24)) == 256;
    forall i | 0 <= i < 254
      ensures hs[i] == [192, 168, 1, (i + 1) as byte]
    {
      ToNatPrefixOf(192, 168, 1, (i + 1) as byte);
      ToNatInjective(hs[i], [192, 168, 1, (i + 1) as byte]);
    }
  }

  /** 10.0.0.0/31 lists nothing; 10.0.0.7/32 fails on the slice bounds [1:0]. */
  lemma Slash31And32()
    ensures Expansion([10, 0, 0, 0], 31) == Ok([])
    ensures Expansion([10, 0, 0, 7], 32) == Err(SliceBoundsOutOfRange(1, 0))
  {
    ExpansionPointToPoint([10, 0, 0, 0]);
  }

  /** A malformed prefix is reported with the input and nothing is listed. */
  lemma BadPrefix()
    ensures Expansion([10, 0, 0, 0], 33) == Err(ParseError([10, 0, 0, 0], 33))
    ensures Expansion([10, 0, 0], 8) == Err(ParseError([10, 0, 0], 8))
  {
  }

  /** incIP carries: 10.0.0.255 becomes 10.0.1.0, and 255.255.255.255 wraps
      around to 0.0.0.0. */
  lemma IncrementCarries()
    ensures Successor([10, 0, 0, 255]) == [10, 0, 1, 0]
    ensures Successor([255, 255, 255, 255]) == [0, 0, 0, 0]
  {
    assert [10, 0, 0, 255][..3] == [10, 0, 0];
    assert [10, 0, 0][..2] == [10, 0];
    assert [255, 255, 255, 255][..3] == [255, 255, 255];
    assert [255, 255, 255][..2] == [255, 255];
    assert [255, 255][..1] == [255];
    assert [255][..0] == [];
  }

  /** The value of the three leading bytes of an IPv4 address. */
  function ToNatPrefix24(a: byte, b: byte, c: byte): nat
  {
    (a as nat * 256 + b as nat) * 256 + c as nat
  }

  lemma ToNatPrefixOf(a: byte, b: byte, c: byte, d: byte)
    ensures ToNat([a, b, c, d]) == ToNatPrefix24(a, b, c) * 256 + d as nat
  {
    assert [a][..0] == [];
    assert ToNat([a]) == a as nat;
    assert [a, b][..1] == [a];
    assert ToNat([a, b]) == a as nat * 256 + b as nat;
    assert [a, b, c][..2] == [a, b];
    assert ToNat([a, b, c]) == ToNatPrefix24(a, b, c);
    assert [a, b, c, d][..3] == [a, b, c];
  }

  /** An IPv4 address whose host bits are already zero is its own network number. */
  lemma NetworkOfAligned(ip: Address, ones: nat, v: nat)
    requires |ip| == 4 && 24 <= ones <= 32 && ip[3] == 0
    requires v == ToNatPrefix24(ip[0], ip[1], ip[2]) * 256
    ensures NetworkValue(ip, ones) == v
  {
    assert ip == [ip[0], ip[1], ip[2], ip[3]];
    ToNatPrefixOf(ip[0], ip[1], ip[2], ip[3]);
    MaskValue(ip, ones);
    var h := Pow2(HostBits(ip, ones));
    assert h <= 256 by {
      Pow2Divides(HostBits(ip, ones), 8);
    }
    assert 256 % h == 0 by {
      Pow2Divides(HostBits(ip, ones), 8);
    }
    ModAddMultiple(ToNatPrefix24(ip[0], ip[1], ip[2]), 256, 0, h);
  }
}
