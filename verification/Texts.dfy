/** Address texts: how they are printed (RFC 5952, section 4) and how they are read (RFC 4291,
    section 2.2, and dotted decimal). */
module Texts {
  import opened Wrappers
  import opened Pow2
  import opened Strings

  // ---------------------------------------------------------------- division

  function Div(a: nat, base: nat): (q: nat)
    requires base > 0
  {
    DivRange(a, base);
    a / base
  }

  function Mod(a: nat, base: nat): (d: nat)
    requires base > 0
    ensures d < base
  {
    a % base
  }

  lemma DivRange(a: nat, base: nat)
    requires base > 0
    ensures a / base >= 0
  {
    if a / base < 0 { MulMono(a / base, -1, base); }
  }

  lemma DivMod(a: nat, base: nat)
    requires base > 0
    ensures a == Div(a, base) * base + Mod(a, base)
  {}

  lemma DivSmaller(a: nat, base: nat)
    requires 2 <= base <= a
    ensures 0 < Div(a, base) < a
  {
    var q := Div(a, base);
    DivMod(a, base);
    if q >= a { MulMono(a, q, base); }
  }

  lemma DivBelow(a: nat, b: nat, c: nat)
    requires b > 0 && a < b * c
    ensures Div(a, b) < c
  {
    DivMod(a, b);
    if Div(a, b) >= c { MulMono(c, Div(a, b), b); }
  }

  // ---------------------------------------------------------------- numerals

  function Digit(d: int): char
    requires 0 <= d < 16
  {
    "0123456789abcdef"[d]
  }

  /** The value of a digit, or -1. */
  function DigitValue(c: char): int {
    if '0' <= c <= '9' then c as int - '0' as int
    else if 'a' <= c <= 'f' then c as int - 'a' as int + 10
    else if 'A' <= c <= 'F' then c as int - 'A' as int + 10
    else -1
  }

  /** Positional notation without leading zeros. */
  function Numeral(n: nat, base: nat): (s: string)
    requires 2 <= base <= 16
    ensures s != []
  {
    if n < base then [Digit(n)]
    else
      DivSmaller(n, base);
      Numeral(Div(n, base), base) + [Digit(Mod(n, base))]
  }

  function ReadNumeral(s: string, base: nat): Option<nat>
    requires 2 <= base <= 16
  {
    if s == [] then None
    else
      var d := DigitValue(s[|s| - 1]);
      if !(0 <= d < base) then None
      else if |s| == 1 then Some(d)
      else match ReadNumeral(s[..|s| - 1], base) case None => None case Some(n) => Some(n * base + d)
  }

  lemma DigitReads(d: int)
    requires 0 <= d < 16
    ensures DigitValue(Digit(d)) == d && DigitValue(Digit(d)) != -1
    ensures Digit(d) !in {'.', ':', '-', '/'} && (Digit(d) == '0' <==> d == 0)
  {}

  lemma ReadAppend(front: string, m: nat, d: int, base: nat)
    requires 2 <= base <= 16 && 0 <= d < base && front != [] && ReadNumeral(front, base) == Some(m)
    ensures ReadNumeral(front + [Digit(d)], base) == Some(m * base + d)
  {
    DigitReads(d);
    assert (front + [Digit(d)])[..|front|] == front;
  }

  predicate PlainChar(x: char) {
    x != '.' && x != ':' && x != '-' && x != '/'
  }

  predicate Plain(s: string) {
    forall i :: 0 <= i < |s| ==> PlainChar(s[i])
  }

  /** Numerals are read back, have no leading zero and use digits only. */
  lemma {:induction false} NumeralReads(n: nat, base: nat)
    requires 2 <= base <= 16
    ensures ReadNumeral(Numeral(n, base), base) == Some(n) && Plain(Numeral(n, base))
    ensures n > 0 ==> Numeral(n, base)[0] != '0'
    ensures n < base <==> |Numeral(n, base)| == 1
  {
    if n < base {
      DigitReads(n);
    } else {
      var q, d := Div(n, base), Mod(n, base);
      DivSmaller(n, base);
      DivMod(n, base);
      NumeralReads(q, base);
      DigitReads(d);
      ReadAppend(Numeral(q, base), q, d, base);
    }
  }

  lemma {:induction false} HexLength(n: nat, k: nat)
    requires k > 0 && n < Pow(4 * k)
    ensures |Numeral(n, 16)| <= k
  {
    if n >= 16 {
      assert Pow(4) == 16;
      if k > 1 {
        PowSplit(4, 4 * (k - 1));
        assert 4 + 4 * (k - 1) == 4 * k;
        DivBelow(n, 16, Pow(4 * (k - 1)));
        HexLength(Div(n, 16), k - 1);
      }
    }
  }

  lemma PowValues()
    ensures Pow(8) == 0x100 && Pow(16) == 0x1_0000
  {
    assert Pow(4) == 16;
    PowSplit(4, 4);
    PowSplit(8, 8);
  }

  // ---------------------------------------------------------------- digits of an address

  /** The n lowest digits of a, highest first. */
  function Digits(a: nat, base: nat, n: nat): (ds: seq<nat>)
    requires base > 0
    ensures |ds| == n
    decreases n
  {
    if n == 0 then [] else Digits(Div(a, base), base, n - 1) + [Mod(a, base)]
  }

  predicate Below(ds: seq<nat>, limit: nat) {
    forall i :: 0 <= i < |ds| ==> ds[i] < limit
  }

  lemma {:induction false} DigitsBelow(a: nat, base: nat, n: nat)
    requires base > 0
    ensures Below(Digits(a, base, n), base)
    decreases n
  {
    if n > 0 { DigitsBelow(Div(a, base), base, n - 1); }
  }

  function Value(ds: seq<nat>, base: nat): nat {
    if ds == [] then 0 else Value(ds[..|ds| - 1], base) * base + ds[|ds| - 1]
  }

  lemma ValueAppend(ds: seq<nat>, d: nat, base: nat)
    ensures Value(ds + [d], base) == Value(ds, base) * base + d
  {
    assert (ds + [d])[..|ds|] == ds;
  }

  lemma {:induction false} ValueOfDigits(a: nat, k: nat, n: nat)
    requires a < Pow(k * n)
    ensures Value(Digits(a, Pow(k), n), Pow(k)) == a
    decreases n
  {
    if n > 0 {
      var q := Div(a, Pow(k));
      DivMod(a, Pow(k));
      assert k * n == k + k * (n - 1);
      PowSplit(k, k * (n - 1));
      DivBelow(a, Pow(k), Pow(k * (n - 1)));
      ValueOfDigits(q, k, n - 1);
      ValueAppend(Digits(q, Pow(k), n - 1), Mod(a, Pow(k)), Pow(k));
    }
  }

  // ---------------------------------------------------------------- IPv4

  function Numerals(ds: seq<nat>, base: nat): (parts: seq<string>)
    requires 2 <= base <= 16
    ensures |parts| == |ds|
  {
    if ds == [] then [] else [Numeral(ds[0], base)] + Numerals(ds[1..], base)
  }

  function V4Text(a: nat): string {
    Join(Numerals(Digits(a, 256, 4), 10), '.')
  }

  /** One decimal octet without leading zero. */
  function ReadOctet(s: string): Option<nat> {
    match ReadNumeral(s, 10)
    case None => None
    case Some(n) => if n > 255 || (|s| > 1 && s[0] == '0') then None else Some(n)
  }

  function ReadOctets(parts: seq<string>): Option<seq<nat>> {
    if parts == [] then Some([])
    else match (ReadOctet(parts[0]), ReadOctets(parts[1..]))
         case (Some(d), Some(ds)) => Some([d] + ds)
         case _ => None
  }

  function ParseV4(s: string): Option<nat> {
    var parts := Split(s, '.');
    if |parts| != 4 then None
    else match ReadOctets(parts) case None => None case Some(ds) => Some(Value(ds, 256))
  }

  lemma OctetReads(d: nat)
    requires d < 256
    ensures ReadOctet(Numeral(d, 10)) == Some(d)
  {
    NumeralReads(d, 10);
  }

  lemma {:induction false} OctetsRead(ds: seq<nat>)
    requires Below(ds, 256)
    ensures ReadOctets(Numerals(ds, 10)) == Some(ds)
  {
    if ds != [] {
      OctetReads(ds[0]);
      OctetsRead(ds[1..]);
      assert [ds[0]] + ds[1..] == ds;
    }
  }

  lemma {:induction false} NumeralsClean(ds: seq<nat>, base: nat, c: char)
    requires 2 <= base <= 16 && c in {'.', ':', '-', '/'}
    ensures Clean(Numerals(ds, base), c)
  {
    if ds != [] {
      NumeralReads(ds[0], base);
      NumeralsClean(ds[1..], base, c);
    }
  }

  lemma V4Reads(a: nat)
    requires a < Pow(32)
    ensures ParseV4(V4Text(a)) == Some(a)
  {
    var ds := Digits(a, 256, 4);
    NumeralsClean(ds, 10, '.');
    SplitJoin(Numerals(ds, 10), '.');
    DigitsBelow(a, 256, 4);
    OctetsRead(ds);
    PowValues();
    ValueOfDigits(a, 8, 4);
  }

  // ---------------------------------------------------------------- IPv6

  /** The number of zero groups from position i on. */
  function Run(gs: seq<nat>, i: nat): (n: nat)
    requires i <= |gs|
    ensures i + n <= |gs| && forall j :: i <= j < i + n ==> gs[j] == 0
    ensures i + n < |gs| ==> gs[i + n] != 0
    decreases |gs| - i
  {
    if i == |gs| || gs[i] != 0 then 0 else 1 + Run(gs, i + 1)
  }

  /** Where the longest run starts, the first one of equals. */
  function Longest(gs: seq<nat>, i: nat): (b: nat)
    requires i < |gs|
    ensures i <= b < |gs|
    ensures forall j :: i <= j < |gs| ==> Run(gs, j) <= Run(gs, b)
    ensures forall j :: i <= j < b ==> Run(gs, j) < Run(gs, b)
    decreases |gs| - i
  {
    if i + 1 == |gs| then i
    else var b := Longest(gs, i + 1); if Run(gs, i) >= Run(gs, b) then i else b
  }

  function Hexes(gs: seq<nat>): string {
    Join(Numerals(gs, 16), ':')
  }

  /** The first longest run of at least two zero groups becomes "::". */
  function GroupsText(gs: seq<nat>): string
    requires |gs| == 8
  {
    var b := Longest(gs, 0);
    var n := Run(gs, b);
    if n < 2 then Hexes(gs) else Hexes(gs[..b]) + "::" + Hexes(gs[b + n..])
  }

  function V6Text(a: nat): string {
    GroupsText(Digits(a, 0x1_0000, 8))
  }

  function ReadGroup(s: string): Option<nat> {
    if |s| > 4 then None else ReadNumeral(s, 16)
  }

  function ReadGroups(parts: seq<string>): Option<seq<nat>> {
    if parts == [] then Some([])
    else match (ReadGroup(parts[0]), ReadGroups(parts[1..]))
         case (Some(d), Some(ds)) => Some([d] + ds)
         case _ => None
  }

  function Zeros(n: nat): (zs: seq<nat>)
    ensures |zs| == n && forall z :: z in zs ==> z == 0
  {
    if n == 0 then [] else [0] + Zeros(n - 1)
  }

  /** The groups on one side of "::". */
  function Side(s: string): Option<seq<nat>> {
    if s == [] then Some([]) else ReadGroups(Split(s, ':'))
  }

  function ParseGroups(s: string): Option<seq<nat>> {
    var i := FindDouble(s, ':');
    if i < 0 then
      match Side(s) case Some(gs) => (if |gs| == 8 then Some(gs) else None) case None => None
    else Filled(Side(s[..i]), Side(s[i + 2..]))
  }

  /** Both sides with at least one zero group in between. */
  function Filled(left: Option<seq<nat>>, right: Option<seq<nat>>): Option<seq<nat>> {
    match (left, right)
    case (Some(l), Some(r)) => if |l| + |r| < 8 then Some(l + Zeros(8 - |l| - |r|) + r) else None
    case _ => None
  }

  function ParseV6(s: string): Option<nat> {
    match ParseGroups(s) case None => None case Some(gs) => Some(Value(gs, 0x1_0000))
  }

  lemma GroupReads(g: nat)
    requires g < 0x1_0000
    ensures ReadGroup(Numeral(g, 16)) == Some(g)
  {
    PowValues();
    HexLength(g, 4);
    NumeralReads(g, 16);
  }

  lemma {:induction false} GroupsRead(gs: seq<nat>)
    requires Below(gs, 0x1_0000)
    ensures ReadGroups(Numerals(gs, 16)) == Some(gs)
  {
    if gs != [] {
      GroupReads(gs[0]);
      GroupsRead(gs[1..]);
      assert [gs[0]] + gs[1..] == gs;
    }
  }

  /** A side of the text: read back, no double colon, no colon at its ends. */
  lemma SideReads(gs: seq<nat>)
    requires Below(gs, 0x1_0000)
    ensures Side(Hexes(gs)) == Some(gs) && FindDouble(Hexes(gs), ':') == -1
    ensures gs == [] <==> Hexes(gs) == []
    ensures gs != [] ==> Hexes(gs)[0] != ':' && Hexes(gs)[|Hexes(gs)| - 1] != ':'
    ensures Count(Hexes(gs), ':') == if gs == [] then 0 else |gs| - 1
  {
    if gs != [] {
      NumeralsClean(gs, 16, ':');
      JoinShape(Numerals(gs, 16), ':');
      SplitJoin(Numerals(gs, 16), ':');
      GroupsRead(gs);
    }
  }

  lemma DoubleReads(l: seq<nat>, r: seq<nat>)
    requires |l| + |r| < 8 && Below(l, 0x1_0000) && Below(r, 0x1_0000)
    ensures ParseGroups(Hexes(l) + "::" + Hexes(r)) == Some(l + Zeros(8 - |l| - |r|) + r)
  {
    SideReads(l);
    SideReads(r);
    Cut(Hexes(l), Hexes(r));
    ParseOpen(Hexes(l) + "::" + Hexes(r), |Hexes(l)|, l, r);
  }

  lemma ParseOpen(s: string, i: nat, l: seq<nat>, r: seq<nat>)
    requires i + 2 <= |s| && FindDouble(s, ':') == i && Side(s[..i]) == Some(l) && Side(s[i + 2..]) == Some(r)
    requires |l| + |r| < 8
    ensures ParseGroups(s) == Some(l + Zeros(8 - |l| - |r|) + r)
  {
    FilledIs(l, r);
    assert ParseGroups(s) == Filled(Some(l), Some(r));
  }

  lemma FilledIs(l: seq<nat>, r: seq<nat>)
    requires |l| + |r| < 8
    ensures Filled(Some(l), Some(r)) == Some(l + Zeros(8 - |l| - |r|) + r)
  {}

  lemma Cut(a: string, b: string)
    requires FindDouble(a, ':') == -1 && (a != [] ==> a[|a| - 1] != ':')
    ensures var s := a + "::" + b; FindDouble(s, ':') == |a| && s[..|a|] == a && s[|a| + 2..] == b
  {
    FindAcross(a, b, ':');
    Colons(a, b);
  }

  lemma Colons(a: string, b: string)
    ensures a + "::" + b == a + [':', ':'] + b
    ensures (a + "::" + b)[..|a|] == a && (a + "::" + b)[|a| + 2..] == b
  {
    assert "::" == [':', ':'];
  }

  lemma RunIsZeros(gs: seq<nat>, b: nat, n: nat)
    requires b + n <= |gs| && forall j :: b <= j < b + n ==> gs[j] == 0
    ensures gs == gs[..b] + Zeros(n) + gs[b + n..]
  {
    assert gs[b..b + n] == Zeros(n) by {
      forall j | 0 <= j < n ensures gs[b..b + n][j] == Zeros(n)[j] { assert Zeros(n)[j] in Zeros(n); }
    }
  }

  lemma GroupsTextReads(gs: seq<nat>)
    requires |gs| == 8 && Below(gs, 0x1_0000)
    ensures ParseGroups(GroupsText(gs)) == Some(gs)
    ensures HasSuffix(GroupsText(gs), "::") ==> ParseGroups(GroupsText(gs) + "0") == Some(gs)
  {
    var b := Longest(gs, 0);
    var n := Run(gs, b);
    if n < 2 {
      SideReads(gs);
      NotOpen(Hexes(gs));
    } else {
      CompressedReads(gs, b, n);
    }
  }

  lemma NotOpen(s: string)
    requires s != [] && s[|s| - 1] != ':'
    ensures !HasSuffix(s, "::")
  {
    assert |s| >= 2 ==> s[|s| - 2..][1] == s[|s| - 1];
  }

  /** Any run of zeros may be left out; behind a text that ends open a zero may be added. */
  lemma CompressedReads(gs: seq<nat>, b: nat, n: nat)
    requires |gs| == 8 && Below(gs, 0x1_0000) && n >= 2 && b + n <= 8 && forall j :: b <= j < b + n ==> gs[j] == 0
    ensures var s := Hexes(gs[..b]) + "::" + Hexes(gs[b + n..]);
            ParseGroups(s) == Some(gs) && (HasSuffix(s, "::") ==> ParseGroups(s + "0") == Some(gs))
  {
    var l, r := gs[..b], gs[b + n..];
    RunIsZeros(gs, b, n);
    DoubleReads(l, r);
    if HasSuffix(Hexes(l) + "::" + Hexes(r), "::") {
      EndsOpen(l, r);
      AddedZero(gs, b);
    }
  }

  lemma AddedZero(gs: seq<nat>, b: nat)
    requires |gs| == 8 && Below(gs, 0x1_0000) && b <= 6 && forall j :: b <= j < 8 ==> gs[j] == 0
    ensures ParseGroups(Hexes(gs[..b]) + "::" + Hexes([]) + "0") == Some(gs)
  {
    RunIsZeros(gs, b, 7 - b);
    DoubleReads(gs[..b], [0]);
    assert gs[7..] == [0];
    assert Hexes([0]) == "0";
    assert Hexes(gs[..b]) + "::" + Hexes([]) + "0" == Hexes(gs[..b]) + "::" + "0";
  }

  /** Only an empty right hand side ends in a double colon. */
  lemma EndsOpen(l: seq<nat>, r: seq<nat>)
    requires HasSuffix(Hexes(l) + "::" + Hexes(r), "::") && Below(r, 0x1_0000)
    ensures r == []
  {
    SideReads(r);
    var s := Hexes(l) + "::" + Hexes(r);
    if r != [] { NotOpen(s); }
  }

  lemma V6Reads(a: nat)
    requires a < Pow(128)
    ensures ParseV6(V6Text(a)) == Some(a)
    ensures HasSuffix(V6Text(a), "::") ==> ParseV6(V6Text(a) + "0") == Some(a)
  {
    PowValues();
    DigitsBelow(a, 0x1_0000, 8);
    GroupsTextReads(Digits(a, 0x1_0000, 8));
    ValueOfDigits(a, 16, 8);
  }
}
