/** Names of addresses and prefixes printed in the form of their family: dotted decimal for IPv4,
    hexadecimal groups for IPv6. */
module FamilyNames {
  import opened Wrappers
  import opened Pow2
  import opened Ranges
  import opened Strings
  import opened Texts
  import opened Subnets

  function FamilyText(v: Family, a: nat): string {
    if v == IPv4 then V4Text(a) else V6Text(a)
  }

  /** The first separator decides how an address is read. */
  function ParseIP(s: string): Option<(Family, nat)> {
    match Kind(s)
    case IPv4 => (match ParseV4(s) case None => None case Some(a) => Some((IPv4, a)))
    case IPv6 => (match ParseV6(s) case None => None case Some(a) => Some((IPv6, a)))
    case Unknown => None
  }

  function Kind(s: string): Family {
    if s == [] then Unknown else if s[0] == '.' then IPv4 else if s[0] == ':' then IPv6 else Kind(s[1..])
  }

  // ---------------------------------------------------------------- addresses

  /** A text as a name; one that would end in two dashes gets a zero. */
  function Dashed(text: string): string {
    var n := Replace(Replace(text, '.', '-', 3), ':', '-', 7);
    if HasSuffix(n, "--") then n + "0" else n
  }

  function FamilyName(v: Family, a: nat): string {
    Dashed(FamilyText(v, a))
  }

  function NameToIPString(v: Family, name: string): Option<string> {
    match v
    case IPv4 => Some(ReplaceAll(name, '-', '.'))
    case IPv6 => Some(ReplaceAll(name, '-', ':'))
    case Unknown => None
  }

  function NameToIP(v: Family, name: string): Option<(Family, nat)> {
    match NameToIPString(v, name) case None => None case Some(s) => ParseIP(s)
  }

  /** A text of either family without dash, slash and foreign separators. */
  ghost predicate TextShape(v: Family, s: string) {
    && s != [] && '-' !in s && '/' !in s && s[|s| - 1] != '.' && Kind(s) == v
    && (v == IPv4 ==> ':' !in s && Count(s, '.') == 3)
    && (v == IPv6 ==> '.' !in s && Count(s, ':') <= 7)
  }

  /** Nothing but c and plain characters. */
  predicate Over(s: string, c: char) {
    forall i :: 0 <= i < |s| ==> s[i] == c || PlainChar(s[i])
  }

  lemma OverConcat(a: string, b: string, c: char)
    requires Over(a, c) && Over(b, c)
    ensures Over(a + b, c)
  {
    var s := a + b;
    forall i | 0 <= i < |s| ensures s[i] == c || PlainChar(s[i]) {
      assert s[i] == if i < |a| then a[i] else b[i - |a|];
    }
  }

  lemma OverLacks(s: string, c: char)
    requires Over(s, c) && (c == '.' || c == ':')
    ensures '-' !in s && '/' !in s && (if c == '.' then ':' else '.') !in s
  {}

  lemma {:induction false} JoinChars(parts: seq<string>, c: char)
    requires parts != [] && forall p :: p in parts ==> Plain(p)
    ensures Over(Join(parts, c), c)
    ensures |parts| > 1 && (c == '.' || c == ':') ==> Kind(Join(parts, c)) == if c == '.' then IPv4 else IPv6
  {
    assert parts[0] in parts;
    if |parts| > 1 {
      var rest := Join(parts[1..], c);
      JoinChars(parts[1..], c);
      KindBehind(parts[0], [c] + rest);
      OverConcat([c], rest, c);
      OverConcat(parts[0], [c] + rest, c);
      assert parts[0] + [c] + rest == parts[0] + ([c] + rest);
    }
  }

  lemma {:induction false} KindBehind(p: string, s: string)
    requires Plain(p)
    ensures Kind(p + s) == Kind(s)
  {
    if p == [] {
      assert p + s == s;
    } else {
      assert (p + s)[1..] == p[1..] + s;
      KindBehind(p[1..], s);
    }
  }

  lemma {:induction false} NumeralsPlain(ds: seq<nat>, base: nat)
    requires 2 <= base <= 16
    ensures forall p :: p in Numerals(ds, base) ==> Plain(p)
  {
    if ds != [] {
      NumeralReads(ds[0], base);
      NumeralsPlain(ds[1..], base);
    }
  }

  lemma V4Shape(a: nat)
    requires a < Pow(32)
    ensures TextShape(IPv4, V4Text(a))
  {
    var parts := Numerals(Digits(a, 256, 4), 10);
    NumeralsPlain(Digits(a, 256, 4), 10);
    NumeralsClean(Digits(a, 256, 4), 10, '.');
    JoinShape(parts, '.');
    JoinChars(parts, '.');
    OverLacks(V4Text(a), '.');
  }

  /** What the text of one side of "::" is made of. */
  lemma HexesShape(gs: seq<nat>)
    requires Below(gs, 0x1_0000)
    ensures Over(Hexes(gs), ':')
    ensures Count(Hexes(gs), ':') == if gs == [] then 0 else |gs| - 1
    ensures |gs| > 1 ==> Kind(Hexes(gs)) == IPv6
    ensures |gs| == 1 ==> Plain(Hexes(gs))
  {
    SideReads(gs);
    if gs != [] {
      NumeralsPlain(gs, 16);
      JoinChars(Numerals(gs, 16), ':');
      if |gs| == 1 { assert Numerals(gs, 16)[0] in Numerals(gs, 16); }
    }
  }

  lemma V6Shape(a: nat)
    requires a < Pow(128)
    ensures TextShape(IPv6, V6Text(a))
  {
    var gs := Digits(a, 0x1_0000, 8);
    DigitsBelow(a, 0x1_0000, 8);
    var b := Longest(gs, 0);
    var n := Run(gs, b);
    if n < 2 {
      HexesShape(gs);
      SideReads(gs);
      OverLacks(Hexes(gs), ':');
    } else {
      OpenShape(gs[..b], gs[b + n..]);
    }
  }

  lemma OpenShape(l: seq<nat>, r: seq<nat>)
    requires |l| + |r| <= 6 && Below(l, 0x1_0000) && Below(r, 0x1_0000)
    ensures TextShape(IPv6, Hexes(l) + "::" + Hexes(r))
  {
    HexesShape(l);
    HexesShape(r);
    SideReads(r);
    var s := Hexes(l) + "::" + Hexes(r);
    OverConcat(Hexes(l), "::", ':');
    OverConcat(Hexes(l) + "::", Hexes(r), ':');
    OverLacks(s, ':');
    OpenCount(Hexes(l), Hexes(r));
    OpenKind(Hexes(l), Hexes(r));
  }

  lemma OpenCount(a: string, b: string)
    ensures Count(a + "::" + b, ':') == Count(a, ':') + 2 + Count(b, ':')
  {
    CountConcat(a + "::", b, ':');
    CountConcat(a, "::", ':');
    assert "::"[1..] == ":" && ":"[1..] == "";
  }

  lemma OpenKind(a: string, b: string)
    requires Over(a, ':')
    ensures Kind(a + "::" + b) == IPv6
  {
    assert a + "::" + b == a + ("::" + b);
    KindOver(a, "::" + b);
  }

  lemma {:induction false} KindOver(a: string, b: string)
    requires Over(a, ':') && b != [] && b[0] == ':'
    ensures Kind(a + b) == IPv6
  {
    if a == [] {
      assert a + b == b;
    } else {
      assert (a + b)[1..] == a[1..] + b;
      if a[0] != ':' { KindOver(a[1..], b); }
    }
  }

  lemma {:induction false} KindFront(p: string, s: string)
    requires Kind(p) != Unknown
    ensures Kind(p + s) == Kind(p)
  {
    assert (p + s)[1..] == p[1..] + s;
    if p[0] != '.' && p[0] != ':' { KindFront(p[1..], s); }
  }

  lemma IPTextShape(v: Family, a: nat)
    requires v != Unknown && a < Pow(Bits(v))
    ensures TextShape(v, FamilyText(v, a))
  {
    if v == IPv4 { V4Shape(a); } else { V6Shape(a); }
  }

  /** The separator of a family. */
  function Sep(v: Family): char {
    if v == IPv4 then '.' else ':'
  }

  /** The limits 3 and 7 suffice: all separators become dashes. */
  lemma AllDashes(v: Family, s: string)
    requires v != Unknown && TextShape(v, s)
    ensures Replace(Replace(s, '.', '-', 3), ':', '-', 7) == ReplaceAll(s, Sep(v), '-')
  {
    NoCount(s, '.');
    NoCount(s, ':');
    ReplaceSuffices(s, '.', '-', 3);
    CountReplaced(s, '.', '-', ':');
    ReplaceSuffices(ReplaceAll(s, '.', '-'), ':', '-', 7);
    if v == IPv4 {
      ReplaceAbsent(ReplaceAll(s, '.', '-'), ':', '-');
    } else {
      ReplaceAbsent(s, '.', '-');
    }
  }

  /** A name stands for its address, zero appended or not. */
  lemma FamilyRoundTrip(v: Family, a: nat)
    requires v != Unknown && a < Pow(Bits(v))
    ensures NameToIP(v, FamilyName(v, a)) == Some((v, a))
  {
    var s := FamilyText(v, a);
    var n := ReplaceAll(s, Sep(v), '-');
    IPTextShape(v, a);
    AllDashes(v, s);
    ReplaceBack(s, Sep(v), '-');
    if v == IPv4 {
      V4Reads(a);
      assert n[|n| - 1] == s[|s| - 1];
      assert |n| >= 2 ==> n[|n| - 2..][1] == n[|n| - 1];
    } else {
      V6Reads(a);
      DashSuffix(s);
      if HasSuffix(n, "--") {
        ReplaceConcat(n, "0", '-', ':');
        ReplaceAbsent("0", '-', ':');
        KindFront(s, "0");
      }
    }
  }

  lemma LastTwo(s: string, c: char)
    ensures HasSuffix(s, [c, c]) <==> |s| >= 2 && s[|s| - 2] == c && s[|s| - 1] == c
  {
    if |s| >= 2 { assert s[|s| - 2..] == [s[|s| - 2], s[|s| - 1]]; }
  }

  lemma DashSuffix(s: string)
    requires '-' !in s
    ensures HasSuffix(ReplaceAll(s, ':', '-'), "--") <==> HasSuffix(s, "::")
  {
    LastTwo(s, ':');
    LastTwo(ReplaceAll(s, ':', '-'), '-');
  }

  // ---------------------------------------------------------------- prefixes

  function FamilyCIDR(v: Family, base: nat, ones: nat): string {
    FamilyText(v, base) + "/" + Numeral(ones, 10)
  }

  function CIDRStringToName(s: string): string {
    Replace(Replace(Replace(s, '.', '-', 3), ':', '-', 7), '/', '-', 1)
  }

  /** Without a dash an IPv6 name has no prefix to cut off; the program panics there. */
  function NameToCIDRString(v: Family, name: string): Option<string> {
    match v
    case IPv4 =>
      var parts := Split(name, '-');
      if |parts| != 5 then None else Some(Join(parts[..4], '.') + "/" + parts[4])
    case IPv6 =>
      var i := LastIndex(name, '-');
      if i < 0 then None else Some(ReplaceAll(name[..i], '-', ':') + "/" + name[i + 1..])
    case Unknown => None
  }

  /** The name of a prefix: its address with dashes, a dash, the prefix length. */
  lemma CIDRNameShape(v: Family, base: nat, ones: nat)
    requires v != Unknown && base < Pow(Bits(v))
    ensures CIDRStringToName(FamilyCIDR(v, base, ones)) ==
            ReplaceAll(FamilyText(v, base), Sep(v), '-') + "-" + Numeral(ones, 10)
  {
    var s, m := FamilyText(v, base), Numeral(ones, 10);
    IPTextShape(v, base);
    NumeralReads(ones, 10);
    TailCounts(s, m);
    var t := s + "/" + m;
    ReplaceSuffices(t, '.', '-', 3);
    CountReplaced(t, '.', '-', ':');
    ReplaceSuffices(ReplaceAll(t, '.', '-'), ':', '-', 7);
    CountReplaced(t, '.', '-', '/');
    CountReplaced(ReplaceAll(t, '.', '-'), ':', '-', '/');
    ReplaceSuffices(ReplaceAll(ReplaceAll(t, '.', '-'), ':', '-'), '/', '-', 1);
    AllThree(s, m, Sep(v));
  }

  /** A slash and a numeral add one slash and no other separator. */
  lemma TailCounts(s: string, m: string)
    requires Plain(m) && '/' !in s
    ensures Count(s + "/" + m, '.') <= Count(s, '.') && Count(s + "/" + m, ':') <= Count(s, ':')
    ensures Count(s + "/" + m, '/') == 1
    ensures ('.' !in s ==> Count(s + "/" + m, '.') == 0) && (':' !in s ==> Count(s + "/" + m, ':') == 0)
  {
    TailCount(s, m, '.');
    TailCount(s, m, ':');
    TailCount(s, m, '/');
  }

  lemma TailCount(s: string, m: string, c: char)
    requires Plain(m) && (c == '.' || c == ':' || c == '/')
    ensures Count(s + "/" + m, c) == Count(s, c) + (if c == '/' then 1 else 0)
    ensures Count(s, c) == 0 <==> c !in s
  {
    CountConcat(s + "/", m, c);
    CountConcat(s, "/", c);
    NoCount(m, c);
    NoCount(s, c);
    assert "/"[1..] == "";
  }

  lemma AllThree(s: string, m: string, c: char)
    requires Plain(m) && '/' !in s && (c == '.' || c == ':') && (if c == '.' then ':' else '.') !in s
    ensures ReplaceAll(ReplaceAll(ReplaceAll(s + "/" + m, '.', '-'), ':', '-'), '/', '-') ==
            ReplaceAll(s, c, '-') + "-" + m
  {
    var n := ReplaceAll(s, c, '-');
    OneOf(s, m, c);
    var other := if c == '.' then ':' else '.';
    assert ReplaceAll(ReplaceAll(s + "/" + m, '.', '-'), ':', '-') == n + "/" + m by {
      ReplaceTail(s, m, c);
      ReplaceTail(s, m, other);
      ReplaceTail(n, m, other);
      ReplaceAbsent(s, other, '-');
    }
    ReplaceConcat(n + "/", m, '/', '-');
    ReplaceConcat(n, "/", '/', '-');
    ReplaceAbsent(n, '/', '-');
    ReplaceAbsent(m, '/', '-');
    assert ReplaceAll("/", '/', '-') == "-";
  }

  lemma OneOf(s: string, m: string, c: char)
    requires Plain(m) && '/' !in s && (c == '.' || c == ':') && (if c == '.' then ':' else '.') !in s
    ensures var n := ReplaceAll(s, c, '-'); '/' !in n && (if c == '.' then ':' else '.') !in n
    ensures '/' !in m && '.' !in m && ':' !in m
    ensures ReplaceAll(ReplaceAll(s, c, '-'), if c == '.' then ':' else '.', '-') == ReplaceAll(s, c, '-')
  {
    ReplaceAbsent(ReplaceAll(s, c, '-'), if c == '.' then ':' else '.', '-');
  }

  lemma ReplaceTail(s: string, m: string, c: char)
    requires Plain(m) && (c == '.' || c == ':')
    ensures ReplaceAll(s + "/" + m, c, '-') == ReplaceAll(s, c, '-') + "/" + m
  {
    ReplaceConcat(s + "/", m, c, '-');
    ReplaceConcat(s, "/", c, '-');
    ReplaceAbsent(m, c, '-');
    ReplaceAbsent("/", c, '-');
  }

  lemma {:induction false} ReplaceJoin(parts: seq<string>, c: char, d: char)
    requires parts != [] && Clean(parts, c)
    ensures ReplaceAll(Join(parts, c), c, d) == Join(parts, d)
  {
    assert parts[0] in parts;
    ReplaceAbsent(parts[0], c, d);
    if |parts| > 1 {
      ReplaceJoin(parts[1..], c, d);
      ReplaceConcat(parts[0] + [c], Join(parts[1..], c), c, d);
      ReplaceConcat(parts[0], [c], c, d);
    }
  }

  lemma {:induction false} JoinAppend(parts: seq<string>, last: string, c: char)
    requires parts != []
    ensures Join(parts + [last], c) == Join(parts, c) + [c] + last
  {
    if |parts| > 1 {
      assert (parts + [last])[1..] == parts[1..] + [last];
      JoinAppend(parts[1..], last, c);
    } else {
      assert (parts + [last])[1..] == [last];
    }
  }

  /** A dotted text with dashes and a numeral behind it is five parts joined. */
  lemma V4NameParts(base: nat, m: string)
    requires base < Pow(32) && Plain(m) && m != []
    ensures var parts := Numerals(Digits(base, 256, 4), 10) + [m];
            |parts| == 5 && Clean(parts, '-') && ReplaceAll(V4Text(base), '.', '-') + "-" + m == Join(parts, '-')
    ensures ReplaceAll(V4Text(base), '.', '-') == Join(Numerals(Digits(base, 256, 4), 10), '-')
  {
    var octets := Numerals(Digits(base, 256, 4), 10);
    NumeralsClean(Digits(base, 256, 4), 10, '.');
    NumeralsClean(Digits(base, 256, 4), 10, '-');
    ReplaceJoin(octets, '.', '-');
    JoinAppend(octets, m, '-');
  }

  /** The name of a prefix decodes to its very text. */
  lemma FamilyCIDRRoundTrip(v: Family, base: nat, ones: nat)
    requires v != Unknown && base < Pow(Bits(v))
    ensures NameToCIDRString(v, CIDRStringToName(FamilyCIDR(v, base, ones))) == Some(FamilyCIDR(v, base, ones))
  {
    var s, m := FamilyText(v, base), Numeral(ones, 10);
    CIDRNameShape(v, base, ones);
    NumeralReads(ones, 10);
    if v == IPv4 {
      V4NameParts(base, m);
      var octets := Numerals(Digits(base, 256, 4), 10);
      SplitJoin(octets + [m], '-');
      assert (octets + [m])[..4] == octets;
    } else {
      IPTextShape(v, base);
      var n := ReplaceAll(s, ':', '-');
      LastIndexAcross(n, m, '-');
      assert n + "-" + m == n + ['-'] + m;
      assert (n + ['-'] + m)[..|n|] == n && (n + ['-'] + m)[|n| + 1..] == m;
      ReplaceBack(s, ':', '-');
    }
  }

  /** Reading a prefix gives the addresses from the written one to the last of the prefix. */
  function ParseCIDR(s: string): (r: Option<(Family, Range)>)
    ensures r.Some? ==> r.value.1.lo <= r.value.1.hi
  {
    var i := LastIndex(s, '/');
    if i < 0 then None
    else
      match (ParseIP(s[..i]), ReadNumeral(s[i + 1..], 10))
      case (Some((v, a)), Some(ones)) =>
        if ones > Bits(v) then None
        else
          var size := Pow(Bits(v) - ones);
          Some((v, Range(a, a - Mod(a, size) + size - 1)))
      case _ => None
  }

  lemma CIDRReads(v: Family, r: Range, size: nat, ones: nat, s: string)
    requires v != Unknown && 0 <= r.lo < Pow(Bits(v)) && ones <= Bits(v) && s == FamilyCIDR(v, r.lo, ones)
    requires size == Pow(Bits(v) - ones) && Mod(r.lo, size) == 0 && r.hi == r.lo + size - 1
    ensures ParseCIDR(s) == Some((v, r))
  {
    CIDRParts(v, r.lo, ones);
    ParseAt(s, v, r, size, ones);
  }

  lemma ParseAt(s: string, v: Family, r: Range, size: nat, ones: nat)
    requires var i := LastIndex(s, '/');
             i >= 0 && ParseIP(s[..i]) == Some((v, r.lo)) && ReadNumeral(s[i + 1..], 10) == Some(ones)
    requires ones <= Bits(v) && size == Pow(Bits(v) - ones)
    requires r.lo >= 0 && Mod(r.lo, size) == 0 && r.hi == r.lo + size - 1
    ensures ParseCIDR(s) == Some((v, r))
  {}

  // ---------------------------------------------------------------- names never collide

  /** IPv4 names have no empty part. */
  lemma V4NamesTight(base: nat, m: string)
    requires base < Pow(32) && Plain(m) && m != []
    ensures FindDouble(FamilyName(IPv4, base), '-') == -1 && Count(FamilyName(IPv4, base), '-') == 3
    ensures var n := ReplaceAll(V4Text(base), '.', '-') + "-" + m; FindDouble(n, '-') == -1 && Count(n, '-') == 4
  {
    V4NameParts(base, m);
    var octets := Numerals(Digits(base, 256, 4), 10);
    NumeralsClean(Digits(base, 256, 4), 10, '-');
    JoinShape(octets, '-');
    JoinShape(octets + [m], '-');
    V4Shape(base);
    AllDashes(IPv4, V4Text(base));
    LastTwo(Join(octets, '-'), '-');
  }

  /** IPv6 names have seven dashes or two in a row, whatever follows them. */
  lemma V6NamesLoose(base: nat, tail: string)
    requires base < Pow(128)
    ensures var n := ReplaceAll(V6Text(base), ':', '-') + tail;
            FindDouble(n, '-') >= 0 || Count(n, '-') == 7 + Count(tail, '-')
  {
    var gs := Digits(base, 0x1_0000, 8);
    DigitsBelow(base, 0x1_0000, 8);
    var b := Longest(gs, 0);
    var k := Run(gs, b);
    if k < 2 {
      NumeralsClean(gs, 16, ':');
      NumeralsClean(gs, 16, '-');
      ReplaceJoin(Numerals(gs, 16), ':', '-');
      JoinShape(Numerals(gs, 16), '-');
      CountConcat(ReplaceAll(V6Text(base), ':', '-'), tail, '-');
    } else {
      OpenNameLoose(gs[..b], gs[b + k..], tail);
    }
  }

  lemma HexesDashed(l: seq<nat>)
    requires l != [] && Below(l, 0x1_0000)
    ensures var a := ReplaceAll(Hexes(l), ':', '-'); FindDouble(a, '-') == -1 && a != [] && a[|a| - 1] != '-'
  {
    NumeralsClean(l, 16, ':');
    NumeralsClean(l, 16, '-');
    ReplaceJoin(Numerals(l, 16), ':', '-');
    JoinShape(Numerals(l, 16), '-');
  }

  lemma OpenNameLoose(l: seq<nat>, r: seq<nat>, tail: string)
    requires Below(l, 0x1_0000)
    ensures FindDouble(ReplaceAll(Hexes(l) + "::" + Hexes(r), ':', '-') + tail, '-') >= 0
  {
    var a, rest := ReplaceAll(Hexes(l), ':', '-'), ReplaceAll(Hexes(r), ':', '-') + tail;
    if l != [] { HexesDashed(l); }
    FindAcross(a, rest, '-');
    OpenNameParts(Hexes(l), Hexes(r), tail);
  }

  lemma OpenNameParts(l: string, r: string, tail: string)
    ensures ReplaceAll(l + "::" + r, ':', '-') + tail ==
            ReplaceAll(l, ':', '-') + ['-', '-'] + (ReplaceAll(r, ':', '-') + tail)
  {
    ReplaceConcat(l + "::", r, ':', '-');
    ReplaceConcat(l, "::", ':', '-');
    assert ReplaceAll("::", ':', '-') == ['-', '-'];
  }

  /** Different addresses have different names, whatever their families. */
  lemma FamilyNamesInjective(v: Family, a: nat, w: Family, b: nat)
    requires v != Unknown && a < Pow(Bits(v)) && w != Unknown && b < Pow(Bits(w))
    requires FamilyName(v, a) == FamilyName(w, b)
    ensures v == w && a == b
  {
    if v == w {
      FamilyRoundTrip(v, a);
      FamilyRoundTrip(w, b);
    } else if v == IPv4 {
      IPNamesApart(a, b);
    } else {
      IPNamesApart(b, a);
    }
  }

  lemma IPNamesApart(a: nat, b: nat)
    requires a < Pow(32) && b < Pow(128)
    ensures FamilyName(IPv4, a) != FamilyName(IPv6, b)
  {
    V4NamesTight(a, "0");
    V6IPName(b);
  }

  lemma LooseTails(n: string)
    ensures n + "" == n && Count("", '-') == 0 && Count("0", '-') == 0
  {
    assert "0"[1..] == "";
  }

  lemma V6IPName(b: nat)
    requires b < Pow(128)
    ensures FindDouble(FamilyName(IPv6, b), '-') >= 0 || Count(FamilyName(IPv6, b), '-') == 7
  {
    var s := V6Text(b);
    V6Shape(b);
    AllDashes(IPv6, s);
    V6NamesLoose(b, "");
    V6NamesLoose(b, "0");
    LooseTails(ReplaceAll(s, ':', '-'));
  }

  /** Different prefixes have different names, whatever their families. */
  lemma FamilyCIDRsInjective(v: Family, a: nat, m: nat, w: Family, b: nat, n: nat)
    requires v != Unknown && a < Pow(Bits(v)) && w != Unknown && b < Pow(Bits(w))
    requires CIDRStringToName(FamilyCIDR(v, a, m)) == CIDRStringToName(FamilyCIDR(w, b, n))
    ensures v == w && a == b && m == n
  {
    if v == w {
      FamilyCIDRRoundTrip(v, a, m);
      FamilyCIDRRoundTrip(w, b, n);
      FamilyCIDRInjective(v, a, m, b, n);
    } else if v == IPv4 {
      CIDRNamesApart(a, m, b, n);
    } else {
      CIDRNamesApart(b, n, a, m);
    }
  }

  lemma FamilyCIDRInjective(v: Family, a: nat, m: nat, b: nat, n: nat)
    requires v != Unknown && a < Pow(Bits(v)) && b < Pow(Bits(v)) && FamilyCIDR(v, a, m) == FamilyCIDR(v, b, n)
    ensures a == b && m == n
  {
    CIDRParts(v, a, m);
    CIDRParts(v, b, n);
  }

  lemma CIDRParts(v: Family, a: nat, m: nat)
    requires v != Unknown && a < Pow(Bits(v))
    ensures var s := FamilyCIDR(v, a, m); var i := LastIndex(s, '/');
            i >= 0 && ParseIP(s[..i]) == Some((v, a)) && ReadNumeral(s[i + 1..], 10) == Some(m)
  {
    var s, t := FamilyText(v, a), Numeral(m, 10);
    NumeralReads(m, 10);
    IPTextShape(v, a);
    LastIndexAcross(s, t, '/');
    assert s + "/" + t == s + ['/'] + t;
    assert (s + ['/'] + t)[..|s|] == s && (s + ['/'] + t)[|s| + 1..] == t;
    if v == IPv4 { V4Reads(a); } else { V6Reads(a); }
  }

  lemma CIDRNamesApart(a: nat, m: nat, b: nat, n: nat)
    requires a < Pow(32) && b < Pow(128)
    ensures CIDRStringToName(FamilyCIDR(IPv4, a, m)) != CIDRStringToName(FamilyCIDR(IPv6, b, n))
  {
    CIDRNameShape(IPv4, a, m);
    NumeralReads(m, 10);
    V4NamesTight(a, Numeral(m, 10));
    V6CIDRName(b, n);
  }

  lemma DashTail(t: string)
    requires Plain(t)
    ensures Count("-" + t, '-') == 1
  {
    CountConcat("-", t, '-');
    NoCount(t, '-');
    assert "-"[1..] == "";
  }

  lemma V6CIDRName(b: nat, n: nat)
    requires b < Pow(128)
    ensures var name := CIDRStringToName(FamilyCIDR(IPv6, b, n)); FindDouble(name, '-') >= 0 || Count(name, '-') == 8
  {
    var t := Numeral(n, 10);
    CIDRNameShape(IPv6, b, n);
    NumeralReads(n, 10);
    V6NamesLoose(b, "-" + t);
    DashTail(t);
    var r := ReplaceAll(V6Text(b), ':', '-');
    Regroup(r, "-", t);
  }
}
