/** What texts and names look like, character by character: the laws elsewhere say that they are read
    back, these that they are the ones the program prints. */
module Spelling {
  import opened Wrappers
  import opened Pow2
  import opened Ranges
  import opened Strings
  import opened Texts
  import opened Subnets
  import opened IPBytes
  import opened FamilyNames
  import opened Names

  // ---------------------------------------------------------------- texts

  /** Numerals are written in decimal digits and lower-case letters. */
  lemma {:induction false} NumeralChars(n: nat, base: nat, i: nat)
    requires 2 <= base <= 16 && i < |Numeral(n, base)|
    ensures var c := Numeral(n, base)[i]; '0' <= c <= '9' || (base > 10 && 'a' <= c <= 'f')
  {
    if n >= base {
      DivSmaller(n, base);
      if i < |Numeral(n, base)| - 1 { NumeralChars(Div(n, base), base, i); }
    }
  }

  lemma {:induction false} DigitsOfValue(ds: seq<nat>, base: nat)
    requires base > 0 && Below(ds, base)
    ensures Digits(Value(ds, base), base, |ds|) == ds
  {
    if ds != [] {
      var front, d := ds[..|ds| - 1], ds[|ds| - 1];
      DigitsOfValue(front, base);
      DivOfSum(Value(front, base), d, base);
      assert front + [d] == ds;
    }
  }

  lemma DivOfSum(q: nat, d: nat, base: nat)
    requires d < base
    ensures Div(q * base + d, base) == q && Mod(q * base + d, base) == d
  {
    DivMod(q * base + d, base);
    var p := Div(q * base + d, base);
    if p < q { MulMono(p + 1, q, base); }
    if p > q { MulMono(q + 1, p, base); }
  }

  /** An IPv4 address is written as its four bytes in decimal, highest first. */
  lemma V4Spelled(n: nat, ds: seq<nat>, ps: seq<string>)
    requires |ds| == 4 && Below(ds, 256) && n == ((ds[0] * 256 + ds[1]) * 256 + ds[2]) * 256 + ds[3]
    requires |ps| == 4 && forall i :: 0 <= i < 4 ==> ps[i] == Numeral(ds[i], 10)
    ensures V4Text(n) == ps[0] + "." + ps[1] + "." + ps[2] + "." + ps[3]
  {
    FourBytes(ds);
    DigitsOfValue(ds, 256);
    NumeralsAre(ds, 10, ps);
    V4Is(n, ds, ps);
    JoinFour(ps);
  }

  lemma V4Is(n: nat, ds: seq<nat>, ps: seq<string>)
    requires Digits(n, 256, 4) == ds && Numerals(ds, 10) == ps
    ensures V4Text(n) == Join(ps, '.')
  {}

  lemma FourBytes(ds: seq<nat>)
    requires |ds| == 4
    ensures Value(ds, 256) == ((ds[0] * 256 + ds[1]) * 256 + ds[2]) * 256 + ds[3]
  {
    ValueAppend([], ds[0], 256);
    ValueAppend([ds[0]], ds[1], 256);
    ValueAppend([ds[0], ds[1]], ds[2], 256);
    ValueAppend([ds[0], ds[1], ds[2]], ds[3], 256);
    assert [] + [ds[0]] == [ds[0]] && [ds[0]] + [ds[1]] == [ds[0], ds[1]];
    assert [ds[0], ds[1]] + [ds[2]] == [ds[0], ds[1], ds[2]] && [ds[0], ds[1], ds[2]] + [ds[3]] == ds;
  }

  lemma {:induction false} NumeralsAre(ds: seq<nat>, base: nat, ps: seq<string>)
    requires 2 <= base <= 16 && |ps| == |ds| && forall i :: 0 <= i < |ds| ==> ps[i] == Numeral(ds[i], base)
    ensures Numerals(ds, base) == ps
  {
    if ds != [] { NumeralsAre(ds[1..], base, ps[1..]); }
  }

  lemma JoinFour(ps: seq<string>)
    requires |ps| == 4
    ensures Join(ps, '.') == ps[0] + "." + ps[1] + "." + ps[2] + "." + ps[3]
  {
    var p, q, r, s := ps[0], ps[1], ps[2], ps[3];
    assert ps[1..] == [q, r, s] && [q, r, s][1..] == [r, s] && [r, s][1..] == [s];
    assert Join([r, s], '.') == r + "." + s;
    assert Join([q, r, s], '.') == q + "." + (r + "." + s);
    assert p + "." + (q + "." + (r + "." + s)) == p + "." + q + "." + r + "." + s;
  }

  /** Dotted decimal is read strictly: a text is read as an IPv4 address exactly if it is the one the
      address prints as. */
  lemma V4ReadsIff(s: string, a: nat)
    ensures ParseV4(s) == Some(a) <==> a < Pow(32) && s == V4Text(a)
  {
    if a < Pow(32) && s == V4Text(a) { V4Reads(a); }
    if ParseV4(s) == Some(a) {
      var parts := Split(s, '.');
      var ds := ReadOctets(parts).value;
      OctetsUnique(parts, ds);
      JoinSplit(s, '.');
      WholeText(a, ds, parts);
    }
  }

  lemma WholeText(a: nat, ds: seq<nat>, ps: seq<string>)
    requires |ds| == 4 && Below(ds, 256) && Numerals(ds, 10) == ps && a == Value(ds, 256)
    ensures a < Pow(32) && Join(ps, '.') == V4Text(a)
  {
    PowValues();
    DigitsOfValue(ds, 256);
    ValueBelow(ds, 8);
    V4Is(a, ds, ps);
  }

  lemma {:induction false} JoinSplit(s: string, c: char)
    ensures Join(Split(s, c), c) == s
  {
    if s != [] {
      var rest := Split(s[1..], c);
      JoinSplit(s[1..], c);
      assert s == [s[0]] + s[1..];
      if s[0] == c {
        assert ([""] + rest)[1..] == rest;
      } else {
        assert ([[s[0]] + rest[0]] + rest[1..])[1..] == rest[1..];
        assert [[s[0]] + rest[0]] + rest[1..] == [[s[0]] + rest[0]] + rest[1..];
      }
    }
  }

  lemma {:induction false} ValueBelow(ds: seq<nat>, k: nat)
    requires Below(ds, Pow(k))
    ensures Value(ds, Pow(k)) < Pow(k * |ds|)
  {
    if ds != [] {
      var front := ds[..|ds| - 1];
      ValueBelow(front, k);
      OneMore(k, |front|);
      PowSplit(k * |front|, k);
      Grows(Value(front, Pow(k)), ds[|front|], Pow(k), Pow(k * |front|));
    }
  }

  lemma OneMore(k: nat, n: nat)
    ensures k * (n + 1) == k * n + k && k * n >= 0
  {}

  lemma Grows(v: int, d: int, p: int, q: int)
    requires 0 <= d < p && v < q
    ensures v * p + d < q * p
  {
    MulMono(v + 1, q, p);
    assert (v + 1) * p == v * p + p;
  }

  lemma {:induction false} OctetsUnique(parts: seq<string>, ds: seq<nat>)
    requires ReadOctets(parts) == Some(ds)
    ensures |ds| == |parts| && Below(ds, 256) && Numerals(ds, 10) == parts
  {
    if parts != [] {
      OctetsUnique(parts[1..], ds[1..]);
      DecimalUnique(parts[0], ds[0]);
    }
  }

  /** Without leading zero a decimal number has one numeral. */
  lemma {:induction false} DecimalUnique(s: string, n: nat)
    requires ReadNumeral(s, 10) == Some(n) && (|s| > 1 ==> s[0] != '0')
    ensures s == Numeral(n, 10)
  {
    var front, c := s[..|s| - 1], s[|s| - 1];
    var d := DigitValue(c);
    DigitUnique(c, d);
    if |s| > 1 {
      var m := ReadNumeral(front, 10).value;
      assert front[0] == s[0];
      DecimalUnique(front, m);
      DecimalStep(s, front, m, d);
    }
  }

  lemma DecimalStep(s: string, front: string, m: nat, d: nat)
    requires front == Numeral(m, 10) && front[0] != '0' && d < 10 && s != [] && front == s[..|s| - 1]
    requires s[|s| - 1] == Digit(d)
    ensures s == Numeral(m * 10 + d, 10)
  {
    NoZero(front, m);
    NumeralAppend(m, d);
    assert s == front + [Digit(d)];
  }

  lemma NoZero(s: string, m: nat)
    requires s == Numeral(m, 10) && s[0] != '0'
    ensures m > 0
  {}

  lemma DigitUnique(c: char, d: int)
    requires d == DigitValue(c) && 0 <= d < 10
    ensures c == Digit(d)
  {}

  lemma NumeralAppend(m: nat, d: nat)
    requires m > 0 && d < 10
    ensures Numeral(m * 10 + d, 10) == Numeral(m, 10) + [Digit(d)]
  {
    DivOfSum(m, d, 10);
  }

  /** Groups i to j - 1 are zero. */
  predicate ZeroRun(gs: seq<nat>, i: int, j: int) {
    0 <= i <= j <= |gs| && forall k :: i <= k < j ==> gs[k] == 0
  }

  /** The text of eight groups: with the first of the longest zero runs left out, if it has two groups or
      more, and in full if there is none. */
  ghost predicate Compressed(gs: seq<nat>, s: string) {
    || (s == Hexes(gs) && !exists i, j :: i + 2 <= j && ZeroRun(gs, i, j))
    || (exists i, j :: i + 2 <= j && ZeroRun(gs, i, j) && s == Hexes(gs[..i]) + "::" + Hexes(gs[j..]) &&
                       forall k, l :: ZeroRun(gs, k, l) ==> l - k < j - i || (l - k == j - i && k >= i))
  }

  lemma {:induction false} RunCovers(gs: seq<nat>, k: nat, l: nat)
    requires k <= l && ZeroRun(gs, k, l)
    ensures l - k <= Run(gs, k)
    decreases l - k
  {
    if k < l { RunCovers(gs, k + 1, l); }
  }

  /** An IPv6 address is written as its eight groups in hexadecimal, compressed. */
  lemma V6Spelled(n: nat, gs: seq<nat>)
    requires |gs| == 8 && Below(gs, 0x1_0000) && n == Value(gs, 0x1_0000)
    ensures Compressed(gs, V6Text(n))
  {
    DigitsOfValue(gs, 0x1_0000);
    V6Is(n, gs);
    GroupsSpelled(gs, GroupsText(gs));
  }

  lemma V6Is(n: nat, gs: seq<nat>)
    requires |gs| == 8 && Digits(n, 0x1_0000, 8) == gs
    ensures V6Text(n) == GroupsText(gs)
  {}

  lemma GroupsSpelled(gs: seq<nat>, s: string)
    requires |gs| == 8 && s == GroupsText(gs)
    ensures Compressed(gs, s)
  {
    var b := Longest(gs, 0);
    var n := Run(gs, b);
    LongestCovers(gs, b, n);
    if n < 2 {
      forall i, j | i + 2 <= j ensures !ZeroRun(gs, i, j) {}
    } else {
      assert ZeroRun(gs, b, b + n);
    }
  }

  lemma LongestCovers(gs: seq<nat>, b: nat, n: nat)
    requires gs != [] && b == Longest(gs, 0) && n == Run(gs, b)
    ensures forall k, l :: ZeroRun(gs, k, l) && k < l ==> l - k < n || (l - k == n && k >= b)
  {
    forall k, l | ZeroRun(gs, k, l) && k < l ensures l - k < n || (l - k == n && k >= b) { RunCovers(gs, k, l); }
  }

  /** Whatever is read as an IPv6 address is one. */
  lemma V6Bounded(s: string)
    ensures ParseV6(s).Some? ==> ParseV6(s).value < Pow(128)
  {
    EightGroups(s);
    if ParseGroups(s).Some? { WordsBelow(ParseGroups(s).value); }
  }

  lemma WordsBelow(gs: seq<nat>)
    requires |gs| == 8 && Below(gs, 0x1_0000)
    ensures Value(gs, 0x1_0000) < Pow(128)
  {
    PowValues();
    ValueBelow(gs, 16);
  }

  lemma EightGroups(s: string)
    ensures ParseGroups(s).Some? ==> |ParseGroups(s).value| == 8 && Below(ParseGroups(s).value, 0x1_0000)
  {
    var i := FindDouble(s, ':');
    if i < 0 {
      SideBelow(s);
    } else {
      SideBelow(s[..i]);
      SideBelow(s[i + 2..]);
      FilledBelow(Side(s[..i]), Side(s[i + 2..]));
    }
  }

  lemma FilledBelow(left: Option<seq<nat>>, right: Option<seq<nat>>)
    requires (left.Some? ==> Below(left.value, 0x1_0000)) && (right.Some? ==> Below(right.value, 0x1_0000))
    ensures var gs := Filled(left, right); gs.Some? ==> |gs.value| == 8 && Below(gs.value, 0x1_0000)
  {
    if left.Some? && right.Some? && |left.value| + |right.value| < 8 {
      var zs := Zeros(8 - |left.value| - |right.value|);
      forall i | 0 <= i < |zs| ensures zs[i] == 0 { assert zs[i] in zs; }
    }
  }

  lemma SideBelow(s: string)
    ensures Side(s).Some? ==> Below(Side(s).value, 0x1_0000)
  {
    if s != [] { GroupsBelow(Split(s, ':')); }
  }

  lemma {:induction false} GroupsBelow(parts: seq<string>)
    ensures ReadGroups(parts).Some? ==> Below(ReadGroups(parts).value, 0x1_0000)
  {
    if parts != [] {
      if ReadGroup(parts[0]).Some? {
        NumeralBelow(parts[0], 16);
        PowMono(4 * |parts[0]|, 16);
        PowValues();
      }
      GroupsBelow(parts[1..]);
    }
  }

  lemma {:induction false} NumeralBelow(s: string, base: nat)
    requires base == 16 && ReadNumeral(s, base).Some?
    ensures ReadNumeral(s, base).value < Pow(4 * |s|)
  {
    assert Pow(4) == 16;
    if |s| > 1 {
      var front := s[..|s| - 1];
      NumeralBelow(front, base);
      PowSplit(4 * |front|, 4);
      assert 4 * |front| + 4 == 4 * |s|;
    }
  }

  /** A double colon stands for one zero group at least. */
  lemma DoubleRefused(l: seq<nat>, r: seq<nat>)
    requires Below(l, 0x1_0000) && Below(r, 0x1_0000) && |l| + |r| >= 8
    ensures ParseV6(Hexes(l) + "::" + Hexes(r)) == None
  {
    SideReads(l);
    SideReads(r);
    Texts.Cut(Hexes(l), Hexes(r));
  }

  // ---------------------------------------------------------------- names

  /** The text ends in two colons. */
  predicate Open(text: string) {
    |text| >= 2 && text[|text| - 2] == ':' && text[|text| - 1] == ':'
  }

  /** The name is the text with every separator as a dash, and behind it a zero exactly if the text
      ends in two colons. So it ends in no dash, as no object's name may. */
  ghost predicate Spells(name: string, text: string) {
    && |name| == |text| + (if Open(text) then 1 else 0)
    && (forall i :: 0 <= i < |text| ==> name[i] == if text[i] == '.' || text[i] == ':' then '-' else text[i])
    && (Open(text) ==> name[|text|] == '0')
    && name != "" && name[|name| - 1] != '-'
  }

  lemma DashedSpells(v: Family, text: string)
    requires v != Unknown && TextShape(v, text) && (text[|text| - 1] == ':' ==> Open(text))
    ensures Spells(Dashed(text), text)
  {
    var n := ReplaceAll(text, Sep(v), '-');
    AllDashes(v, text);
    NoCount(text, '.');
    NoCount(text, ':');
    Suffixed(n);
    Dashing(text, n);
    AllSpelled(text, Sep(v), n, Dashed(text));
  }

  lemma Suffixed(n: string)
    ensures HasSuffix(n, "--") <==> |n| >= 2 && n[|n| - 2] == '-' && n[|n| - 1] == '-'
  {
    if |n| >= 2 { assert n[|n| - 2..] == [n[|n| - 2], n[|n| - 1]]; }
    assert "--" == ['-', '-'];
  }

  lemma Dashing(text: string, n: string)
    requires n == Replace(Replace(text, '.', '-', 3), ':', '-', 7)
    ensures Dashed(text) == if HasSuffix(n, "--") then n + "0" else n
  {}

  lemma AllSpelled(text: string, sep: char, n: string, name: string)
    requires text != "" && (sep == '.' || sep == ':') && n == ReplaceAll(text, sep, '-')
    requires forall i :: 0 <= i < |text| ==> text[i] != '-' && (text[i] == '.' || text[i] == ':' ==> text[i] == sep)
    requires text[|text| - 1] != '.' && (text[|text| - 1] == ':' ==> Open(text))
    requires name == if |n| >= 2 && n[|n| - 2] == '-' && n[|n| - 1] == '-' then n + "0" else n
    ensures Spells(name, text)
  {
    assert |n| >= 2 && n[|n| - 2] == '-' && n[|n| - 1] == '-' <==> Open(text);
  }

  /** A text ends in a colon only if it ends in two. */
  lemma EndsShut(v: Family, a: nat)
    requires v != Unknown && a < Pow(Bits(v))
    ensures var s := FamilyText(v, a); s != "" && (s[|s| - 1] == ':' ==> Open(s))
  {
    IPTextShape(v, a);
    if v == IPv6 { V6EndsShut(a); } else { OverText(V4Text(a)); }
  }

  lemma OverText(s: string)
    requires TextShape(IPv4, s)
    ensures s[|s| - 1] != ':'
  {
    assert s[|s| - 1] in s;
  }

  lemma V6EndsShut(a: nat)
    requires a < Pow(128)
    ensures var s := V6Text(a); s != "" && (s[|s| - 1] == ':' ==> Open(s))
  {
    var gs := Digits(a, 0x1_0000, 8);
    DigitsBelow(a, 0x1_0000, 8);
    var b := Longest(gs, 0);
    var n := Run(gs, b);
    if n < 2 { SideReads(gs); } else { OpenEndsShut(gs[..b], gs[b + n..]); }
  }

  lemma OpenEndsShut(l: seq<nat>, r: seq<nat>)
    requires Below(r, 0x1_0000)
    ensures var s := Hexes(l) + "::" + Hexes(r); s != "" && (s[|s| - 1] == ':' ==> Open(s))
  {
    SideReads(r);
    Colons(Hexes(l), Hexes(r));
  }

  /** The name of every address, of either family, is its text so spelled. */
  lemma IPNameSpells(v: Family, a: nat)
    requires v != Unknown && a < Pow(Bits(v))
    ensures Spells(IPToName(v, a), IPText(v, a))
  {
    var (w, b) := Unmapped(v, a);
    UnmappedFits(v, a);
    IPTextShape(w, b);
    EndsShut(w, b);
    DashedSpells(w, FamilyText(w, b));
  }

  /** So is that of every computed address that kept its bytes. */
  lemma ComputedNameSpells(v: Family, a: nat)
    requires v != Unknown && Lowest(v) <= a < Pow(Bits(v))
    ensures Spells(ComputedName(a), FamilyText(v, a))
  {
    FamilyCases(v, a);
    ComputedIs(a, v);
    IPTextShape(v, a);
    EndsShut(v, a);
    DashedSpells(v, FamilyText(v, a));
  }

  /** IPv4-mapped are the addresses whose upper 96 bits are 0xffff. */
  lemma MappedIff(v: Family, a: nat)
    ensures Mapped(v, a) <==> v == IPv6 && a / 0x1_0000_0000 == 0xffff
    ensures Mapped(v, a) ==> IPText(v, a) == V4Text(a % 0x1_0000_0000)
  {
    MappedRest(a);
  }

  lemma MappedRest(a: nat)
    ensures MAPPED <= a < MAPPED + 0x1_0000_0000 <==> a / 0x1_0000_0000 == 0xffff
    ensures a / 0x1_0000_0000 == 0xffff ==> a - MAPPED == a % 0x1_0000_0000
  {}

  /** An IPv4-mapped prefix prints as the IPv4 prefix of its last 32 bits. */
  lemma MappedCIDRText(base: nat, ones: nat)
    requires Mapped(IPv6, base)
    ensures CIDRText(IPv6, base, ones) ==
            V4Text(base % 0x1_0000_0000) + "/" + Numeral(if ones < 96 then 0 else ones - 96, 10)
  {
    MappedRest(base);
  }

  /** The name of a block of 2^k computed addresses that kept their bytes: its first address, a dash and
      the prefix length. */
  lemma BlockNameSpells(v: Family, r: Range, size: nat, k: nat, ones: nat)
    requires v != Unknown && 0 < k <= 32 && Lowest(v) <= r.lo < Pow(Bits(v)) && ones == Bits(v) - k
    requires size == Pow(k) && Mod(r.lo, size) == 0 && r.hi == r.lo + size - 1
    ensures NameOf([r]) == ReplaceAll(FamilyText(v, r.lo), Sep(v), '-') + "-" + Numeral(ones, 10)
  {
    var s := RangeText(r);
    KeptText(v, r, size, k, ones, s);
    OneText(r);
    NameOfText([r], s);
    BlockNameIs(v, r.lo, ones, s, NameOf([r]));
  }

  lemma KeptText(v: Family, r: Range, size: nat, k: nat, ones: nat, s: string)
    requires v != Unknown && 0 < k <= 32 && Lowest(v) <= r.lo < Pow(Bits(v)) && s == RangeText(r)
    requires size == Pow(k) && Mod(r.lo, size) == 0 && r.hi == r.lo + size - 1 && k + ones == MaskBits(v)
    ensures TextFits(v, r.lo, ones, s)
  {
    FamilyCases(v, r.lo);
    BlockText(r, size, k, v, ones, s);
  }

  lemma BlockNameIs(v: Family, a: nat, ones: nat, s: string, name: string)
    requires v != Unknown && a < Pow(Bits(v)) && TextFits(v, a, ones, s) && name == CIDRStringToName(s)
    ensures name == ReplaceAll(FamilyText(v, a), Sep(v), '-') + "-" + Numeral(ones, 10)
  {
    CIDRNameShape(v, a, ones);
  }
}
