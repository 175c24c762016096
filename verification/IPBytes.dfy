/** Addresses as byte strings. The range library computes on big integers and turns the result
    back into bytes without padding, so a result can come out too short. */
module IPBytes {
  import opened Wrappers
  import opened Pow2
  import opened Texts
  import opened Subnets
  import opened Iterators

  /** The bytes of a number, highest first, without leading zeros. */
  function IntToIP(a: nat): seq<nat> {
    if a == 0 then []
    else
      DivLess(a);
      IntToIP(Div(a, 256)) + [Mod(a, 256)]
  }

  lemma DivLess(a: nat)
    requires a > 0
    ensures Div(a, 256) < a
  {}

  function IPToInt(bytes: seq<nat>): nat {
    Value(bytes, 256)
  }

  lemma {:induction false} IntRoundTrip(a: nat)
    ensures IPToInt(IntToIP(a)) == a && Below(IntToIP(a), 256)
  {
    if a > 0 {
      DivLess(a);
      IntRoundTrip(Div(a, 256));
      DivMod(a, 256);
      ValueAppend(IntToIP(Div(a, 256)), Mod(a, 256), 256);
    }
  }

  lemma {:induction false} ByteCount(a: nat, n: nat)
    ensures |IntToIP(a)| <= n <==> a < Pow(8 * n)
    decreases n
  {
    PowValues();
    if a > 0 && n > 0 {
      DivLess(a);
      ByteCount(Div(a, 256), n - 1);
      assert 8 * n == 8 + 8 * (n - 1);
      PowSplit(8, 8 * (n - 1));
      DivMod(a, 256);
      if a < Pow(8 * n) { DivBelow(a, 256, Pow(8 * (n - 1))); }
    }
  }

  function ByteLength(v: Family): nat {
    if v == IPv4 then 4 else 16
  }

  /** A computed address has the length of its family exactly when its first byte is not zero
      and it does not run over the last address. */
  lemma ExactIff(v: Family, a: nat)
    ensures |IntToIP(a)| == ByteLength(v) <==> Pow(Bits(v) - 8) <= a < Pow(Bits(v))
  {
    ByteCount(a, ByteLength(v));
    ByteCount(a, ByteLength(v) - 1);
  }

  /** The lowest address whose first byte is not zero. */
  function Lowest(v: Family): int {
    Pow(Bits(v) - 8)
  }

  /** What the text of a prefix reads back as. */
  datatype Net = Unreadable | Net(family: Family, cidr: Cidr)

  /** The text of a prefix whose address was computed: four bytes are an IPv4 address whatever the
      mask, sixteen an IPv6 address, and anything else prints as "<nil>". `ip` is the address
      before masking, `bits` the length of the mask. */
  function CIDRString(bits: nat, ip: nat, c: Cidr): Net {
    var n := |IntToIP(ip)|;
    if n == 4 then Net(IPv4, if bits == 128 then Cidr(c.base, Clip(c.ones - 96)) else c)
    else if n == 16 then Net(IPv6, c)
    else Unreadable
  }

  function Clip(n: int): int {
    if n < 0 then 0 else n
  }

  /** Such a text names the prefix exactly from the lowest address with a nonzero byte on. Below
      it is unreadable, or names an IPv4 prefix. */
  lemma CIDRStringExactIff(v: Family, ip: nat, c: Cidr)
    requires v != Unknown && ip < Pow(Bits(v)) && 0 <= c.ones <= Bits(v)
    ensures CIDRString(Bits(v), ip, c) == Net(v, c) <==> Lowest(v) <= ip
    ensures v == IPv4 && ip < Lowest(v) ==> CIDRString(Bits(v), ip, c) == Unreadable
    ensures var net := CIDRString(Bits(v), ip, c);
            net.Net? ==> (net.family == v || net.family == IPv4) && 0 <= net.cidr.ones <= Bits(net.family)
  {
    ExactIff(v, ip);
    ByteCount(ip, 4);
    ByteCount(ip, 3);
    ByteCount(ip, 16);
    if v == IPv4 { PowMono(32, 128); }
  }

  /** An IPv6 prefix below passes for an IPv4 one exactly if four bytes are left, and the mask keeps its
      last 32 bits. */
  lemma LowCIDRString(ip: nat, c: Cidr)
    requires ip < Lowest(IPv6)
    ensures CIDRString(128, ip, c) ==
            if Pow(24) <= ip < Pow(32) then Net(IPv4, Cidr(c.base, if c.ones < 96 then 0 else c.ones - 96))
            else Unreadable
  {
    ByteCount(ip, 3);
    ByteCount(ip, 4);
    ByteCount(ip, 15);
  }
}
