// One line of the file: what the printer writes and what the parser reads.
module ConfigLines {
  import opened Prelude
  import opened Numbers
  import opened Scanf
  import opened Printf
  import opened Config

  // ---- Printing: each format string denotes "name = value\n" --------------------

  lemma LineOfText(prefix: string, v: string)
    requires '%' !in prefix
    ensures Matches(prefix + "%s\n", [Str(v)]) && Format(prefix + "%s\n", [Str(v)]) == prefix + v + "\n"
  {
    Newline();
    FormatPlain('s', "\n", Str(v), []);
    assert ['%', 's'] + "\n" == "%s\n" && [Str(v)] + [] == [Str(v)];
    FormatText(prefix, "%s\n", [Str(v)]);
    assert prefix + (v + "\n") == prefix + v + "\n";
  }

  lemma Newline()
    ensures Matches("\n", []) && Format("\n", []) == "\n"
  {
    assert "\n"[1..] == "";
  }

  lemma LineOfInt(prefix: string, n: nat)
    requires '%' !in prefix && n < 0x8000_0000
    ensures Matches(prefix + "%d\n", [Int(n)]) && Format(prefix + "%d\n", [Int(n)]) == prefix + Dec(n) + "\n"
  {
    hide Dec, Pad;
    Newline();
    FormatPlain('d', "\n", Int(n), []);
    PadNothing(Dec(n));
    assert ['%', 'd'] + "\n" == "%d\n" && [Int(n)] + [] == [Int(n)];
    FormatText(prefix, "%d\n", [Int(n)]);
    assert prefix + (Dec(n) + "\n") == prefix + Dec(n) + "\n";
  }

  lemma LineOfNothing(text: string)
    requires '%' !in text
    ensures Matches(text, []) && Format(text, []) == text
  {
    FormatText(text, "", []);
    assert text + "" == text;
  }

  // "%u" and a separator before more format.
  lemma UnsignedThen(v: nat, sep: string, rest: string, args: seq<Arg>)
    requires v < UINT_LIMIT && '%' !in sep && Matches(rest, args)
    ensures Matches("%u" + (sep + rest), [Int(v)] + args)
    ensures Format("%u" + (sep + rest), [Int(v)] + args) == Dec(v) + (sep + Format(rest, args))
  {
    hide Dec, Pad;
    FormatText(sep, rest, args);
    FormatPlain('u', sep + rest, Int(v), args);
    PadNothing(Dec(v));
    assert ['%', 'u'] + (sep + rest) == "%u" + (sep + rest);
  }

  lemma IpText(ip: nat)
    ensures Matches(IP_DIRECTIVES, IpArgs(ip)) && Format(IP_DIRECTIVES, IpArgs(ip)) == PrintIp(ip) + "\n"
  {
    hide Dec, Format, Matches;
    var a, b, c, d := ip / 0x100_0000 % 256, ip / 0x1_0000 % 256, ip / 0x100 % 256, ip % 256;
    EmptyFormat();
    UnsignedThen(d, "\n", "", []);
    UnsignedThen(c, ".", "%u" + ("\n" + ""), [Int(d)] + []);
    UnsignedThen(b, ".", "%u" + ("." + ("%u" + ("\n" + ""))), [Int(c)] + ([Int(d)] + []));
    UnsignedThen(a, ".", "%u" + ("." + ("%u" + ("." + ("%u" + ("\n" + ""))))), [Int(b)] + ([Int(c)] + ([Int(d)] + [])));
    assert "%u" + ("." + ("%u" + ("." + ("%u" + ("." + ("%u" + ("\n" + ""))))))) == IP_DIRECTIVES;
    assert [Int(a)] + ([Int(b)] + ([Int(c)] + ([Int(d)] + []))) == IpArgs(ip);
    assert Dec(a) + ("." + (Dec(b) + ("." + (Dec(c) + ("." + (Dec(d) + ("\n" + ""))))))) == PrintIp(ip) + "\n";
  }

  lemma EmptyFormat()
    ensures Matches("", []) && Format("", []) == ""
  {
  }

  lemma ByteThen(v: nat, sep: string, rest: string, args: seq<Arg>)
    requires v < 256 && '%' !in sep && Matches(rest, args)
    ensures Matches("%02X" + (sep + rest), [Int(v)] + args)
    ensures Format("%02X" + (sep + rest), [Int(v)] + args) == PrintByte(v) + (sep + Format(rest, args))
  {
    hide Hex, Pad;
    FormatText(sep, rest, args);
    FormatHexByte(sep + rest, v, args);
  }

  ghost function MacFormat(m: seq<nat>): string {
    if m == [] then "" else "%02X" + ((if |m| == 1 then "\n" else ":") + MacFormat(m[1..]))
  }

  ghost function MacArgs(m: seq<nat>): seq<Arg> {
    if m == [] then [] else [Int(m[0])] + MacArgs(m[1..])
  }

  ghost function MacPrinted(m: seq<nat>): string {
    if m == [] then "" else PrintByte(m[0]) + ((if |m| == 1 then "\n" else ":") + MacPrinted(m[1..]))
  }

  lemma {:induction false} MacTextFrom(m: seq<nat>)
    requires forall i :: 0 <= i < |m| ==> m[i] < 256
    ensures Matches(MacFormat(m), MacArgs(m)) && Format(MacFormat(m), MacArgs(m)) == MacPrinted(m)
  {
    hide PrintByte, Format, Matches;
    if m == [] {
      EmptyFormat();
    } else {
      MacTextFrom(m[1..]);
      ByteThen(m[0], if |m| == 1 then "\n" else ":", MacFormat(m[1..]), MacArgs(m[1..]));
    }
  }

  lemma MacText(m: seq<nat>)
    requires |m| == 6 && forall i :: 0 <= i < 6 ==> m[i] < 256
    ensures var args := [Int(m[0]), Int(m[1]), Int(m[2]), Int(m[3]), Int(m[4]), Int(m[5])];
            Matches(MAC_DIRECTIVES, args) && Format(MAC_DIRECTIVES, args) == PrintMac(m) + "\n"
  {
    hide PrintByte, Format, Matches;
    MacTextFrom(m);
    var m1, m2, m3, m4, m5 := m[1..], m[2..], m[3..], m[4..], m[5..];
    assert m1[1..] == m2 && m2[1..] == m3 && m3[1..] == m4 && m4[1..] == m5 && m5[1..] == [];
    MacArgsIs(m);
    MacFormatIs(m);
    SixDirectives();
    PrintedPieces(m, m1, m2, m3, m4, m5);
  }

  lemma MacArgsIs(m: seq<nat>)
    requires |m| == 6
    ensures MacArgs(m) == [Int(m[0]), Int(m[1]), Int(m[2]), Int(m[3]), Int(m[4]), Int(m[5])]
  {
    assert MacArgs(m[6..]) == [];
    assert MacArgs(m[5..]) == [Int(m[5])] by { assert m[5..][1..] == m[6..]; }
    assert MacArgs(m[4..]) == [Int(m[4]), Int(m[5])] by { assert m[4..][1..] == m[5..]; }
    assert MacArgs(m[3..]) == [Int(m[3]), Int(m[4]), Int(m[5])] by { assert m[3..][1..] == m[4..]; }
    assert MacArgs(m[2..]) == [Int(m[2]), Int(m[3]), Int(m[4]), Int(m[5])] by { assert m[2..][1..] == m[3..]; }
    assert m[1..][1..] == m[2..];
  }

  ghost function HexPairs(n: nat): string {
    if n == 0 then "" else "%02X" + ((if n == 1 then "\n" else ":") + HexPairs(n - 1))
  }

  lemma {:induction false} MacFormatIs(m: seq<nat>)
    ensures MacFormat(m) == HexPairs(|m|)
  {
    if m != [] { MacFormatIs(m[1..]); }
  }

  lemma LastPairs()
    ensures HexPairs(2) == "%02X:%02X\n"
  {
  }

  lemma TwoMore(n: nat)
    requires n > 0
    ensures HexPairs(n + 2) == "%02X:%02X:" + HexPairs(n)
  {
    assert HexPairs(n + 1) == "%02X" + (":" + HexPairs(n));
  }

  lemma SixDirectives()
    ensures HexPairs(6) == MAC_DIRECTIVES
  {
    hide HexPairs;
    TwoMore(2);
    TwoMore(4);
    LastPairs();
  }

  lemma PrintedPieces(m: seq<nat>, m1: seq<nat>, m2: seq<nat>, m3: seq<nat>, m4: seq<nat>, m5: seq<nat>)
    requires |m| == 6 && m[1..] == m1 && m1[1..] == m2 && m2[1..] == m3 && m3[1..] == m4 && m4[1..] == m5 && m5[1..] == []
    ensures MacPrinted(m) == PrintMac(m) + "\n"
  {
    hide PrintByte, PrintMac;
    var p0, p1, p2, p3, p4, p5 := PrintByte(m[0]), PrintByte(m[1]), PrintByte(m[2]), PrintByte(m[3]), PrintByte(m[4]), PrintByte(m[5]);
    assert MacPrinted([]) == "";
    assert MacPrinted(m5) == p5 + "\n";
    assert MacPrinted(m4) == p4 + (":" + (p5 + "\n"));
    assert MacPrinted(m3) == p3 + (":" + MacPrinted(m4));
    assert MacPrinted(m2) == p2 + (":" + MacPrinted(m3));
    assert MacPrinted(m1) == p1 + (":" + MacPrinted(m2));
    MacJoin(p0, p1, p2, p3, p4, p5);
    PrintMacIs(m);
  }

  lemma PrintMacIs(m: seq<nat>)
    requires |m| == 6
    ensures PrintMac(m) == PrintByte(m[0]) + ":" + PrintByte(m[1]) + ":" + PrintByte(m[2]) + ":"
                           + PrintByte(m[3]) + ":" + PrintByte(m[4]) + ":" + PrintByte(m[5])
  {
  }

  lemma MacJoin(p0: string, p1: string, p2: string, p3: string, p4: string, p5: string)
    ensures p0 + (":" + (p1 + (":" + (p2 + (":" + (p3 + (":" + (p4 + (":" + (p5 + "\n"))))))))))
         == p0 + ":" + p1 + ":" + p2 + ":" + p3 + ":" + p4 + ":" + p5 + "\n"
  {
  }

  predicate IsNameChar(c: char) { c == '_' || '0' <= c <= '9' || 'a' <= c <= 'z' }

  predicate IsName(s: string) {
    7 <= |s| <= 18 && forall i :: 0 <= i < |s| ==> IsNameChar(s[i])
  }

  lemma NameChars(k: Key)
    ensures IsName(Name(k))
  {
    if Ordinal(k) < 6 { ShortNames(k); } else if Ordinal(k) < 11 { PortNames(k); } else { OtherNames(k); }
  }

  lemma ShortNames(k: Key)
    requires Ordinal(k) < 6
    ensures IsName(Name(k))
  {
    match k case _ =>
  }

  lemma PortNames(k: Key)
    requires 6 <= Ordinal(k) < 11
    ensures IsName(Name(k))
  {
    match k case _ =>
  }

  lemma OtherNames(k: Key)
    requires 11 <= Ordinal(k)
    ensures IsName(Name(k))
  {
    match k case _ =>
  }

  ghost function Prefix(k: Key): string {
    Name(k) + " = "
  }

  lemma PrefixPlain(k: Key)
    ensures '%' !in Prefix(k)
  {
    hide Name;
    NameChars(k);
  }

  // format_key prints the key's line.
  lemma FormatKeyIs(k: Key, c: Node)
    requires Typed(c)
    ensures Matches(KeyFormat(k, c), KeyArgs(k, c)) && Format(KeyFormat(k, c), KeyArgs(k, c)) == KeyLine(k, c)
  {
    hide Name, Format, Matches, PrintIp, PrintMac, Dec;
    PrefixPlain(k);
    var p := Prefix(k);
    match k
    case NodeAddr =>
      if c.addrMode == ADDR_MODE_DHCP || c.ip == 0 {
        LineOfNothing(p + "0\n");
      } else {
        IpLine(p, c.ip);
      }
    case Netmask => IpLine(p, c.netmask);
    case Gateway => IpLine(p, c.gateway);
    case MacAddr =>
      MacText(c.mac);
      FormatText(p, MAC_DIRECTIVES, KeyArgs(k, c));
    case HoldTime => LineOfInt(p, c.holdTime);
    case Universe0 => LineOfInt(p, c.port0.universe);
    case Universe1 => LineOfInt(p, c.port1.universe);
    case Contrast => LineOfInt(p, c.contrast);
    case Monitor0 => LineOfInt(p, c.monitor0);
    case Monitor1 => LineOfInt(p, c.monitor1);
    case _ => LineOfText(p, ValueText(k, c));
  }

  lemma IpLine(p: string, ip: nat)
    requires '%' !in p
    ensures Matches(p + IP_DIRECTIVES, IpArgs(ip)) && Format(p + IP_DIRECTIVES, IpArgs(ip)) == p + PrintIp(ip) + "\n"
  {
    hide Format, Matches, PrintIp;
    IpText(ip);
    FormatText(p, IP_DIRECTIVES, IpArgs(ip));
    assert p + (PrintIp(ip) + "\n") == p + PrintIp(ip) + "\n";
  }
}
