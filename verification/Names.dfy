/** Addresses and prefixes as the program prints and names them. The store keeps names unique;
    what that says about addresses rests on the lemmas here. */
module Names {
  import opened Wrappers
  import opened Pow2
  import opened Ranges
  import opened Strings
  import opened Texts
  import opened Subnets
  import opened IPBytes
  import opened FamilyNames

  // ---------------------------------------------------------------- IPv4-mapped addresses

  const MAPPED: nat := 0xffff_0000_0000

  predicate Mapped(v: Family, a: nat) {
    v == IPv6 && MAPPED <= a < MAPPED + 0x1_0000_0000
  }

  /** Sixteen bytes that begin with ten zeros and two 255 are an IPv4 address to the program. */
  function Unmapped(v: Family, a: nat): (Family, nat) {
    if Mapped(v, a) then (IPv4, a - MAPPED) else (v, a)
  }

  lemma UnmappedFits(v: Family, a: nat)
    requires v != Unknown && a < Pow(Bits(v))
    ensures var (w, b) := Unmapped(v, a); w != Unknown && b < Pow(Bits(w))
    ensures Mapped(v, a) ==> a < Lowest(v)
  {
    MappedPowers();
  }

  lemma MappedPowers()
    ensures Pow(32) == 0x1_0000_0000 && MAPPED + Pow(32) <= Pow(120)
  {
    PowValues();
    PowSplit(16, 16);
    PowSplit(32, 16);
    PowMono(48, 120);
  }

  function IPText(v: Family, a: nat): string {
    var (w, b) := Unmapped(v, a);
    FamilyText(w, b)
  }

  function IPToName(v: Family, a: nat): string {
    Dashed(IPText(v, a))
  }

  lemma {:induction false} ReadGroupsLength(parts: seq<string>)
    ensures match ReadGroups(parts) case Some(gs) => |gs| == |parts| case None => true
  {
    if parts != [] { ReadGroupsLength(parts[1..]); }
  }

  /** An IPv4 address with colons for dots is no IPv6 address. */
  lemma DottedIsNoV6(b: nat)
    requires b < Pow(32)
    ensures var s := Join(Numerals(Digits(b, 256, 4), 10), ':');
            ParseIP(s) == None && s != [] && '.' !in s && '/' !in s && '-' !in s
    ensures ReplaceAll(ReplaceAll(V4Text(b), '.', '-'), '-', ':') == Join(Numerals(Digits(b, 256, 4), 10), ':')
  {
    var parts := Numerals(Digits(b, 256, 4), 10);
    NumeralsClean(Digits(b, 256, 4), 10, ':');
    NumeralsClean(Digits(b, 256, 4), 10, '-');
    NumeralsClean(Digits(b, 256, 4), 10, '.');
    NumeralsPlain(Digits(b, 256, 4), 10);
    FourGroupsUnread(parts);
    ReplaceJoin(parts, '.', '-');
    ReplaceJoin(parts, '-', ':');
  }

  /** Four groups without a double colon are no IPv6 address. */
  lemma FourGroupsUnread(parts: seq<string>)
    requires |parts| == 4 && Clean(parts, ':') && forall p :: p in parts ==> Plain(p)
    ensures var s := Join(parts, ':');
            ParseIP(s) == None && s != [] && '.' !in s && '/' !in s && '-' !in s
  {
    var s := Join(parts, ':');
    JoinChars(parts, ':');
    OverLacks(s, ':');
    JoinShape(parts, ':');
    SplitJoin(parts, ':');
    ReadGroupsLength(parts);
    UnsplitUnread(s);
  }

  lemma UnsplitUnread(s: string)
    requires s != [] && Kind(s) == IPv6 && FindDouble(s, ':') == -1
    requires match ReadGroups(Split(s, ':')) case Some(gs) => |gs| != 8 case None => true
    ensures ParseIP(s) == None
  {}

  /** A name stands for its address, zero appended or not, exactly if the address is not an
      IPv4-mapped one. */
  lemma IPRoundTripIff(v: Family, a: nat)
    requires v != Unknown && a < Pow(Bits(v))
    ensures NameToIP(v, IPToName(v, a)) == Some((v, a)) <==> !Mapped(v, a)
  {
    var name := IPToName(v, a);
    if Mapped(v, a) { MappedUnread(v, a, name); } else { UnmappedReads(v, a, name); }
  }

  lemma UnmappedReads(v: Family, a: nat, name: string)
    requires v != Unknown && a < Pow(Bits(v)) && !Mapped(v, a) && name == IPToName(v, a)
    ensures NameToIP(v, name) == Some((v, a))
  {
    NameIs(v, a);
    FamilyRoundTrip(v, a);
  }

  lemma MappedUnread(v: Family, a: nat, name: string)
    requires a < Pow(Bits(v)) && Mapped(v, a) && name == IPToName(v, a)
    ensures NameToIP(v, name) == None
  {
    var (w, b) := Unmapped(v, a);
    UnmappedFits(v, a);
    NameIs(v, a);
    ForeignUnread(v, w, b, name);
  }

  lemma ForeignUnread(v: Family, w: Family, b: nat, name: string)
    requires v == IPv6 && w == IPv4 && b < Pow(Bits(w)) && name == FamilyName(w, b)
    ensures NameToIP(v, name) == None
  {
    V4UnderV6(b);
  }

  lemma NameIs(v: Family, a: nat)
    ensures var (w, b) := Unmapped(v, a); IPToName(v, a) == FamilyName(w, b)
  {}

  lemma V4UnderV6(b: nat)
    requires b < Pow(32)
    ensures NameToIP(IPv6, FamilyName(IPv4, b)) == None
  {
    V4NamesTight(b, "0");
    V4Shape(b);
    AllDashes(IPv4, V4Text(b));
    V4NameParts(b, "0");
    NumeralsClean(Digits(b, 256, 4), 10, '-');
    JoinShape(Numerals(Digits(b, 256, 4), 10), '-');
    LastTwo(ReplaceAll(V4Text(b), '.', '-'), '-');
    DottedIsNoV6(b);
  }

  /** Names are equal exactly for the same address, an IPv4-mapped one counting as the IPv4
      address. */
  lemma IPNamesEqualIff(v: Family, a: nat, w: Family, b: nat)
    requires v != Unknown && a < Pow(Bits(v)) && w != Unknown && b < Pow(Bits(w))
    ensures IPToName(v, a) == IPToName(w, b) <==> Unmapped(v, a) == Unmapped(w, b)
  {
    UnmappedFits(v, a);
    UnmappedFits(w, b);
    if IPToName(v, a) == IPToName(w, b) {
      FamilyNamesInjective(Unmapped(v, a).0, Unmapped(v, a).1, Unmapped(w, b).0, Unmapped(w, b).1);
    }
  }

  // ---------------------------------------------------------------- prefixes

  /** What a prefix prints as: of an IPv4-mapped one the last 32 mask bits count. */
  function UnmappedCIDR(v: Family, base: nat, ones: nat): (Family, nat, nat) {
    if Mapped(v, base) then (IPv4, base - MAPPED, if ones < 96 then 0 else ones - 96) else (v, base, ones)
  }

  function CIDRText(v: Family, base: nat, ones: nat): string {
    var (w, b, n) := UnmappedCIDR(v, base, ones);
    FamilyCIDR(w, b, n)
  }

  /** A CIDR name decodes to its very text exactly if the prefix is not IPv4-mapped. */
  lemma CIDRRoundTripIff(v: Family, base: nat, ones: nat)
    requires v != Unknown && base < Pow(Bits(v))
    ensures NameToCIDRString(v, CIDRStringToName(CIDRText(v, base, ones))) == Some(CIDRText(v, base, ones)) <==>
            !Mapped(v, base)
  {
    UnmappedFits(v, base);
    if Mapped(v, base) {
      var (_, b, n) := UnmappedCIDR(v, base, ones);
      CIDRUnderV6(b, n);
      DottedHasDot(b, n);
    } else {
      FamilyCIDRRoundTrip(v, base, ones);
    }
  }

  lemma DottedHasDot(b: nat, n: nat)
    requires b < Pow(32)
    ensures '.' in FamilyCIDR(IPv4, b, n)
  {
    V4Shape(b);
    NoCount(V4Text(b), '.');
    var i :| 0 <= i < |V4Text(b)| && V4Text(b)[i] == '.';
    assert FamilyCIDR(IPv4, b, n)[i] == '.';
  }

  /** Under IPv6 the name of an IPv4 prefix decodes to colons and is no prefix. */
  lemma CIDRUnderV6(b: nat, n: nat)
    requires b < Pow(32)
    ensures var name := CIDRStringToName(FamilyCIDR(IPv4, b, n));
            var s := Join(Numerals(Digits(b, 256, 4), 10), ':') + "/" + Numeral(n, 10);
            NameToCIDRString(IPv6, name) == Some(s) && '.' !in s && ParseCIDR(s) == None
  {
    var m := Numeral(n, 10);
    var dashed := ReplaceAll(V4Text(b), '.', '-');
    CIDRNameShape(IPv4, b, n);
    NumeralReads(n, 10);
    LastIndexAcross(dashed, m, '-');
    CutAt(dashed, "-", m);
    DottedIsNoV6(b);
    NoPrefix(Join(Numerals(Digits(b, 256, 4), 10), ':'), m);
  }

  lemma CutAt(a: string, c: string, b: string)
    requires |c| == 1
    ensures a + c + b == a + [c[0]] + b && (a + c + b)[..|a|] == a && (a + c + b)[|a| + 1..] == b
  {}

  lemma NoPrefix(s: string, m: string)
    requires ParseIP(s) == None && '/' !in s && Plain(m) && '.' !in s
    ensures ParseCIDR(s + "/" + m) == None && '.' !in s + "/" + m
  {
    LastIndexAcross(s, m, '/');
    CutAt(s, "/", m);
    forall i | 0 <= i < |s + "/" + m| ensures (s + "/" + m)[i] != '.' {
      if i < |s| { assert (s + "/" + m)[i] == s[i]; }
      if i > |s| { assert (s + "/" + m)[i] == m[i - |s| - 1]; }
    }
  }

  lemma CIDRNamesEqualIff(v: Family, a: nat, m: nat, w: Family, b: nat, n: nat)
    requires v != Unknown && a < Pow(Bits(v)) && w != Unknown && b < Pow(Bits(w))
    ensures CIDRStringToName(CIDRText(v, a, m)) == CIDRStringToName(CIDRText(w, b, n)) <==>
            UnmappedCIDR(v, a, m) == UnmappedCIDR(w, b, n)
  {
    UnmappedFits(v, a);
    UnmappedFits(w, b);
    var (v', a', m') := UnmappedCIDR(v, a, m);
    var (w', b', n') := UnmappedCIDR(w, b, n);
    if CIDRStringToName(CIDRText(v, a, m)) == CIDRStringToName(CIDRText(w, b, n)) {
      FamilyCIDRsInjective(v', a', m', w', b', n');
    }
  }

  // ---------------------------------------------------------------- computed addresses

  function HexBytes(bytes: seq<nat>): string {
    if bytes == [] then ""
    else [Digit(Mod(Div(bytes[0], 16), 16)), Digit(Mod(bytes[0], 16))] + HexBytes(bytes[1..])
  }

  /** The family the program takes a number of bytes for. */
  function FamilyOf(bytes: nat): Family {
    if bytes == 4 then IPv4 else if bytes == 16 then IPv6 else Unknown
  }

  /** A computed address as text: one that lost bytes prints as "<nil>" or as raw bytes, or, if
      four are left, as an IPv4 address. */
  function ComputedText(a: nat): string {
    var w := FamilyOf(|IntToIP(a)|);
    if w != Unknown then FamilyText(w, a) else if a == 0 then "<nil>" else "?" + HexBytes(IntToIP(a))
  }

  /** A text that begins with a character of no address. */
  predicate Odd(s: string) {
    s != [] && (s[0] == '?' || s[0] == '<')
  }

  lemma {:induction false} OddNumeral(s: string, base: nat)
    requires 2 <= base <= 16 && Odd(s)
    ensures ReadNumeral(s, base) == None
  {
    if |s| > 1 {
      assert s[..|s| - 1][0] == s[0];
      OddNumeral(s[..|s| - 1], base);
    }
  }

  lemma SplitHead(s: string, c: char)
    requires Odd(s) && c != '?' && c != '<'
    ensures Odd(Split(s, c)[0])
  {
    assert s == [s[0]] + s[1..];
  }

  lemma OddSide(s: string)
    requires Odd(s)
    ensures Side(s) == None
  {
    SplitHead(s, ':');
    OddNumeral(Split(s, ':')[0], 16);
  }

  lemma OddUnreadable(s: string)
    requires Odd(s)
    ensures ParseIP(s) == None
  {
    OddV4(s);
    OddV6(s);
  }

  lemma OddV4(s: string)
    requires Odd(s)
    ensures ParseV4(s) == None
  {
    SplitHead(s, '.');
    OddNumeral(Split(s, '.')[0], 10);
  }

  lemma OddV6(s: string)
    requires Odd(s)
    ensures ParseV6(s) == None
  {
    OddSide(s);
    var i := FindDouble(s, ':');
    if i >= 0 {
      assert s[i] == ':';
      assert s[..i][0] == s[0];
      OddSide(s[..i]);
    }
  }

  lemma OddReplaced(s: string, c: char, d: char)
    requires Odd(s) && c != '?' && c != '<'
    ensures Odd(ReplaceAll(s, c, d))
  {
    assert ReplaceAll(s, c, d)[0] == s[0];
  }

  /** A text that begins oddly keeps doing so as a name, and its name is no address. */
  lemma {:induction false} OddLimited(s: string, c: char, d: char, n: nat)
    requires Odd(s) && c != '?' && c != '<'
    ensures Odd(Replace(s, c, d, n))
  {}

  lemma OddName(v: Family, s: string)
    requires Odd(s)
    ensures NameToIP(v, Dashed(s)) == None
  {
    OddLimited(s, '.', '-', 3);
    OddLimited(Replace(s, '.', '-', 3), ':', '-', 7);
    OddReplaced(Dashed(s), '-', '.');
    OddReplaced(Dashed(s), '-', ':');
    OddUnreadable(ReplaceAll(Dashed(s), '-', '.'));
    OddUnreadable(ReplaceAll(Dashed(s), '-', ':'));
  }

  function ComputedName(a: int): string {
    if a < 0 then "" else Dashed(ComputedText(a))
  }

  function AddressOf(v: Family, name: string): Option<int> {
    match NameToIP(v, name)
    case Some((w, a)) => if w == v then Some(a) else None
    case None => None
  }

  /** A computed address passes for its own family exactly if its first byte is not zero, and
      otherwise for none or, in place of an IPv6 address, for an IPv4 one. */
  lemma FamilyCases(v: Family, a: nat)
    requires v != Unknown && a < Pow(Bits(v))
    ensures var w := FamilyOf(|IntToIP(a)|);
            (w == v <==> Lowest(v) <= a) && (w != v && w != Unknown ==> v == IPv6 && w == IPv4 && a < Pow(32))
  {
    ExactIff(v, a);
    ByteCount(a, 4);
    ByteCount(a, 3);
    ByteCount(a, 15);
  }

  lemma OddComputed(a: nat)
    requires FamilyOf(|IntToIP(a)|) == Unknown
    ensures Odd(ComputedText(a))
  {}

  lemma ComputedIs(a: nat, w: Family)
    requires w == FamilyOf(|IntToIP(a)|) != Unknown
    ensures ComputedText(a) == FamilyText(w, a) && ComputedName(a) == FamilyName(w, a)
  {}

  /** The name of a computed address stands for the address exactly if its first byte is not
      zero. */
  lemma ComputedRoundTripIff(v: Family, a: nat)
    requires v != Unknown && a < Pow(Bits(v))
    ensures AddressOf(v, ComputedName(a)) == Some(a) <==> Lowest(v) <= a
  {
    FamilyCases(v, a);
    var w := FamilyOf(|IntToIP(a)|);
    if w == v {
      ComputedIs(a, w);
      FamilyRoundTrip(v, a);
    } else if w == Unknown {
      OddComputed(a);
      OddName(v, ComputedText(a));
    } else {
      ComputedIs(a, w);
      V4UnderV6(a);
    }
  }

  // ---------------------------------------------------------------- ranges

  /** The prefix length of a range, if it is a prefix of at least two addresses. */
  function PrefixLength(bits: nat, r: Range): Option<nat> {
    var size := r.hi - r.lo + 1;
    if r.lo < 0 || size < 2 then None
    else
      var bl := Log2(size - 1) + 1;
      if Pow(bl) == size && bl <= bits && Mod(r.lo, size) == 0 then Some(bits - bl) else None
  }

  /** A computed range as text: an address, a prefix if it is one, or both ends. The number of
      bytes of its start decides on the family; a start of a wrong number of bytes is no prefix,
      except that one of no bytes passes for one. */
  function RangeText(r: Range): string {
    if r.lo < 0 || r.hi < r.lo then ""
    else if r.hi == r.lo then ComputedText(r.lo)
    else
      var w := FamilyOf(|IntToIP(r.lo)|);
      var ones := PrefixLength(MaskBits(w), r);
      if ones.Some? && w != Unknown then FamilyCIDR(w, r.lo, ones.value)
      else if ones.Some? && r.lo == 0 then "<nil>"
      else ComputedText(r.lo) + "-" + ComputedText(r.hi)
  }

  function MaskBits(w: Family): nat {
    if w == IPv6 then 128 else 32
  }

  function RangeTexts(rs: seq<Range>): seq<string> {
    if rs == [] then [] else [RangeText(rs[0])] + RangeTexts(rs[1..])
  }

  /** A list of one range prints as that range. */
  function ListText(rs: seq<Range>): string {
    if |rs| == 1 then RangeText(rs[0]) else "[" + Join(RangeTexts(rs), ' ') + "]"
  }

  function NameOf(rs: seq<Range>): string {
    CIDRStringToName(ListText(rs))
  }

  function RangeOf(v: Family, name: string): (r: Option<Range>)
    ensures r.Some? ==> r.value.lo <= r.value.hi
  {
    match NameToCIDRString(v, name)
    case None => None
    case Some(s) =>
      match ParseCIDR(s)
      case Some((w, r)) => if w == v then Some(r) else None
      case None => None
  }

  /** A block of 2^k addresses, k > 0, is a prefix. */
  lemma BlockIsPrefix(bits: nat, r: Range, size: nat, k: nat)
    requires 0 < k <= bits && size == Pow(k) && 0 <= r.lo && Mod(r.lo, size) == 0 && r.hi == r.lo + size - 1
    ensures r.hi > r.lo && PrefixLength(bits, r) == Some(bits - k)
  {
    LogBelowPow(size - 1, k);
  }

  /** What a block of 2^(bits - ones) computed addresses from a on prints as. */
  ghost predicate TextFits(w: Family, a: nat, ones: nat, s: string) {
    if w == Unknown then Odd(s) else s == FamilyCIDR(w, a, ones)
  }

  lemma BlockText(r: Range, size: nat, k: nat, w: Family, ones: nat, s: string)
    requires 0 < k <= 32 && 0 <= r.lo && w == FamilyOf(|IntToIP(r.lo)|) && s == RangeText(r)
    requires size == Pow(k) && Mod(r.lo, size) == 0 && r.hi == r.lo + size - 1 && k + ones == MaskBits(w)
    ensures TextFits(w, r.lo, ones, s)
  {
    BlockIsPrefix(MaskBits(w), r, size, k);
    TextByBytes(r, ones, w, s);
  }

  lemma TextByBytes(r: Range, ones: nat, w: Family, s: string)
    requires 0 <= r.lo < r.hi && w == FamilyOf(|IntToIP(r.lo)|) && PrefixLength(MaskBits(w), r) == Some(ones)
    requires s == RangeText(r)
    ensures TextFits(w, r.lo, ones, s)
  {
    if w == Unknown && r.lo != 0 {
      OddFront(ComputedText(r.lo), "-" + ComputedText(r.hi));
      Regroup(ComputedText(r.lo), "-", ComputedText(r.hi));
    }
  }

  lemma OddFront(a: string, b: string)
    requires Odd(a)
    ensures Odd(a + b)
  {}

  lemma OneText(r: Range)
    ensures ListText([r]) == RangeText(r)
  {}

  lemma OddRange(v: Family, s: string)
    requires Odd(s)
    ensures RangeOf(v, CIDRStringToName(s)) == None
  {
    OddLimited(s, '.', '-', 3);
    OddLimited(Replace(s, '.', '-', 3), ':', '-', 7);
    OddLimited(Replace(Replace(s, '.', '-', 3), ':', '-', 7), '/', '-', 1);
    var name := CIDRStringToName(s);
    OddDecoded(v, name);
  }

  lemma OddDecoded(v: Family, name: string)
    requires Odd(name)
    ensures RangeOf(v, name) == None
  {
    if v == IPv4 {
      var parts := Split(name, '-');
      SplitHead(name, '-');
      if |parts| == 5 { OddPrefix(parts); }
    } else if v == IPv6 {
      var i := LastIndex(name, '-');
      if i >= 0 {
        OddReplaced(name[..i], '-', ':');
        OddText(ReplaceAll(name[..i], '-', ':') + "/" + name[i + 1..]);
      }
    }
  }

  lemma OddPrefix(parts: seq<string>)
    requires |parts| == 5 && Odd(parts[0])
    ensures ParseCIDR(Join(parts[..4], '.') + "/" + parts[4]) == None
  {
    assert parts[..4][0] == parts[0];
    OddFront(parts[0], ['.'] + Join(parts[..4][1..], '.'));
    Regroup(parts[0], ['.'], Join(parts[..4][1..], '.'));
    OddFront(Join(parts[..4], '.'), "/" + parts[4]);
    Regroup(Join(parts[..4], '.'), "/", parts[4]);
    OddText(Join(parts[..4], '.') + "/" + parts[4]);
  }

  lemma OddText(s: string)
    requires Odd(s)
    ensures ParseCIDR(s) == None
  {
    var i := LastIndex(s, '/');
    if i >= 0 {
      assert s[..i][0] == s[0];
      OddUnreadable(s[..i]);
    }
  }

  /** The name of a computed block stands for the block exactly if its first byte is not zero. */
  lemma BlockRoundTripIff(v: Family, r: Range, size: nat, k: nat)
    requires v != Unknown && 0 < k <= 32 && 0 <= r.lo < Pow(Bits(v))
    requires size == Pow(k) && Mod(r.lo, size) == 0 && r.hi == r.lo + size - 1
    ensures RangeOf(v, NameOf([r])) == Some(r) <==> Lowest(v) <= r.lo
  {
    var w := FamilyOf(|IntToIP(r.lo)|);
    FamilyCases(v, r.lo);
    var s, ones := RangeText(r), MaskBits(w) - k;
    BlockText(r, size, k, w, ones, s);
    OneText(r);
    NameOfText([r], s);
    if w == v {
      ShortPrefix(v, k, ones);
      NamedAfter(v, r, size, ones, s, NameOf([r]));
    } else {
      ForeignNamed(v, w, r.lo, ones, s, NameOf([r]));
    }
  }

  lemma ShortPrefix(v: Family, k: nat, ones: nat)
    requires v != Unknown && k + ones == MaskBits(v)
    ensures ones <= Bits(v) && Pow(Bits(v) - ones) == Pow(k)
  {}

  lemma ForeignNamed(v: Family, w: Family, a: nat, ones: nat, s: string, name: string)
    requires v != Unknown && w != v && (w != Unknown ==> v == IPv6 && w == IPv4 && a < Pow(32))
    requires name == CIDRStringToName(s) && TextFits(w, a, ones, s)
    ensures RangeOf(v, name) == None
  {
    if w == Unknown { OddRange(v, s); } else { LowDotted(v, w, a, ones, s, name); }
  }

  lemma LowDotted(v: Family, w: Family, a: nat, ones: nat, s: string, name: string)
    requires v == IPv6 && w == IPv4 && a < Pow(32) && s == FamilyCIDR(w, a, ones) && name == CIDRStringToName(s)
    ensures RangeOf(v, name) == None
  {
    CIDRUnderV6(a, ones);
  }

  /** What prints as an aligned prefix is named after it. */
  lemma NamedAfter(v: Family, r: Range, size: nat, ones: nat, s: string, name: string)
    requires v != Unknown && 0 <= r.lo < Pow(Bits(v)) && ones <= Bits(v)
    requires size == Pow(Bits(v) - ones) && Mod(r.lo, size) == 0 && r.hi == r.lo + size - 1
    requires s == FamilyCIDR(v, r.lo, ones) && name == CIDRStringToName(s)
    ensures RangeOf(v, name) == Some(r)
  {
    FamilyCIDRRoundTrip(v, r.lo, ones);
    CIDRReads(v, r, size, ones, s);
    RangeOfText(v, name, s, r);
  }

  lemma NameOfText(rs: seq<Range>, s: string)
    requires ListText(rs) == s
    ensures NameOf(rs) == CIDRStringToName(s)
  {}

  lemma RangeOfText(v: Family, name: string, s: string, r: Range)
    requires NameToCIDRString(v, name) == Some(s) && ParseCIDR(s) == Some((v, r))
    ensures RangeOf(v, name) == Some(r)
  {}
}
