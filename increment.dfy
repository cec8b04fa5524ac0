/** `incIP` of main.go: add one to an address in place, carrying from the last
    byte towards the first. */
module Increment {
  import opened Numbers

  /** Index of the last byte that is not 0xff, or -1 when every byte is 0xff:
      the byte where the carry of an increment stops. */
  function CarryStop(s: seq<byte>): (k: int)
    ensures -1 <= k < |s|
    ensures k >= 0 ==> s[k] != 255
    ensures forall i :: k < i < |s| ==> s[i] == 255
  {
    if |s| == 0 then -1
    else if s[|s| - 1] != 255 then |s| - 1
    else CarryStop(s[..|s| - 1])
  }

  /** The address after s, by the carry rule: a trailing 0xff becomes 0 and
      passes the carry on; the first byte from the right below 0xff takes it. */
  function Successor(s: seq<byte>): (r: seq<byte>)
    ensures |r| == |s|
  {
    if |s| == 0 then []
    else if s[|s| - 1] == 255 then Successor(s[..|s| - 1]) + [0]
    else s[..|s| - 1] + [s[|s| - 1] + 1]
  }

  /** The carry rule byte by byte: bytes before the carry stop are unchanged,
      the carry stop byte grows by one, and every byte after it becomes 0. */
  lemma {:induction false} SuccessorCarry(s: seq<byte>)
    ensures forall i :: 0 <= i < |s| && i < CarryStop(s) ==> Successor(s)[i] == s[i]
    ensures CarryStop(s) >= 0 ==> Successor(s)[CarryStop(s)] as int == s[CarryStop(s)] as int + 1
    ensures forall i :: CarryStop(s) < i < |s| ==> Successor(s)[i] == 0
  {
    if |s| > 0 && s[|s| - 1] == 255 {
      SuccessorCarry(s[..|s| - 1]);
    }
  }

  /** Conversely, a string that follows the carry rule from some byte k on
      (k = -1 when every byte wrapped) is the successor. */
  lemma CarryRuleIsSuccessor(s: seq<byte>, t: seq<byte>, k: int)
    requires |t| == |s| && -1 <= k < |s|
    requires forall i :: 0 <= i < k ==> t[i] == s[i]
    requires k >= 0 ==> s[k] != 255 && t[k] as int == s[k] as int + 1
    requires forall i :: k < i < |s| ==> s[i] == 255 && t[i] == 0
    ensures t == Successor(s)
  {
    assert CarryStop(s) == k by {
      CarryStopUnique(s, k);
    }
    SuccessorCarry(s);
  }

  /** The carry stop is the only index after which every byte is 0xff and
      at which the byte is not. */
  lemma {:induction false} CarryStopUnique(s: seq<byte>, k: int)
    requires -1 <= k < |s| && (k >= 0 ==> s[k] != 255)
    requires forall i :: k < i < |s| ==> s[i] == 255
    ensures CarryStop(s) == k
  {
    if |s| > 0 && k < |s| - 1 {
      CarryStopUnique(s[..|s| - 1], k);
    }
  }

  /** Read as a big-endian number, the successor is the value plus one modulo
      256^n; in particular all-0xff wraps around to all-zero. */
  lemma {:induction false} SuccessorValue(s: seq<byte>)
    ensures ToNat(Successor(s)) == (ToNat(s) + 1) % Pow2(8 * |s|)
  {
    if |s| > 0 {
      var init := s[..|s| - 1];
      var r := Successor(s);
      ToNatBound(init);
      Pow2LastByte(s);
      if s[|s| - 1] == 255 {
        SuccessorValue(init);
        assert r[..|r| - 1] == Successor(init);
        CarryIntoPrefix(ToNat(init), Pow2(8 * |init|), ToNat(Successor(init)), ToNat(s), ToNat(r));
      } else {
        assert r[..|r| - 1] == init;
        IncrementLastByte(ToNat(init), Pow2(8 * |init|), s[|s| - 1] as int, ToNat(s), ToNat(r));
      }
    }
  }

  /** A last byte of 0xff wraps to 0 and the carry goes into the rest. */
  lemma CarryIntoPrefix(i: int, p: int, si: int, v: int, r: int)
    requires 0 <= i < p && si == (i + 1) % p && v == i * 256 + 255 && r == si * 256
    ensures r == (v + 1) % (p * 256)
  {
    if i + 1 < p {
      ModUnique(i + 1, p, 0, i + 1);
      ModUnique(v + 1, p * 256, 0, (i + 1) * 256);
    } else {
      ModUnique(i + 1, p, 1, 0);
      ModUnique(v + 1, p * 256, 1, 0);
    }
  }

  /** A last byte below 0xff takes the carry and nothing wraps. */
  lemma IncrementLastByte(i: int, p: int, last: int, v: int, r: int)
    requires 0 <= i < p && 0 <= last < 255 && v == i * 256 + last && r == i * 256 + (last + 1)
    ensures r == (v + 1) % (p * 256)
  {
    assert i * 256 <= (p - 1) * 256;
    ModUnique(v + 1, p * 256, 0, v + 1);
  }

  /** incIP: the loop of main.go runs from the last byte down, adds one with
      byte wrap-around, and stops at the first byte that did not wrap to 0. */
  method IncIP(ip: array<byte>)
    modifies ip
    ensures ip[..] == Successor(old(ip[..]))
    ensures ToNat(ip[..]) == (ToNat(old(ip[..])) + 1) % Pow2(8 * ip.Length)
  {
    ghost var s := ip[..];
    var j := ip.Length - 1;
    while j >= 0
      invariant -1 <= j < ip.Length
      invariant forall i :: 0 <= i <= j ==> ip[i] == s[i]
      invariant forall i :: j < i < ip.Length ==> s[i] == 255 && ip[i] == 0
    {
      ip[j] := ((ip[j] as int + 1) % 256) as byte;
      if ip[j] > 0 {
        break;
      }
      j := j - 1;
    }
    CarryRuleIsSuccessor(s, ip[..], j);
    SuccessorValue(s);
  }
}
