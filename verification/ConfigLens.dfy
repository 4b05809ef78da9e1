// Saving and loading form a lens between the file's text and the configuration.
module ConfigLens {
  import opened Prelude
  import opened Numbers
  import opened Scanf
  import opened Printf
  import opened Stdio
  import opened Config
  import opened ConfigLines
  import opened ConfigParse

  // ---- Cutting text into lines ------------------------------------------------------

  // A piece the splitter can cut off: short enough, with no newline but its last character.
  predicate Chunk(l: string) {
    0 < |l| < LINE_SIZE && forall i :: 0 <= i < |l| - 1 ==> l[i] != '\n'
  }

  // A line the splitter gives back wherever it stands: ended by its only newline, or full.
  predicate Whole(l: string) {
    Chunk(l) && (l[|l| - 1] == '\n' || |l| == LINE_SIZE - 1)
  }

  predicate AllWhole(ls: seq<string>) {
    forall i :: 0 <= i < |ls| ==> Whole(ls[i])
  }

  lemma {:induction false} CutWhole(l: string, rest: string, n: nat)
    requires 0 < |l| <= n && (forall i :: 0 <= i < |l| - 1 ==> l[i] != '\n') && (l[|l| - 1] == '\n' || |l| == n)
    ensures ChunkLength(l + rest, n) == |l|
  {
    assert (l + rest)[0] == l[0] && (l + rest)[1..] == l[1..] + rest;
    if |l| > 1 { CutWhole(l[1..], rest, n - 1); }
  }

  lemma {:induction false} JoinAppend(a: seq<string>, b: seq<string>)
    ensures Join(a + b) == Join(a) + Join(b)
  {
    if a == [] {
      assert a + b == b;
    } else {
      assert (a + b)[1..] == a[1..] + b;
      JoinAppend(a[1..], b);
    }
  }

  // What cutting yields: only the last piece may be incomplete.
  predicate Neat(ls: seq<string>) {
    && (forall i :: 0 <= i < |ls| ==> Chunk(ls[i]))
    && (forall i :: 0 <= i < |ls| - 1 ==> Whole(ls[i]))
  }

  // Cutting undoes joining.
  lemma {:induction false} LinesOfJoin(ls: seq<string>)
    requires Neat(ls)
    ensures Lines(Join(ls)) == ls
  {
    if |ls| == 1 {
      assert Join(ls) == ls[0] && ls == [ls[0]];
      ChunkLengthIs(ls[0], LINE_SIZE - 1, |ls[0]|);
      assert ls[0][..|ls[0]|] == ls[0] && ls[0][|ls[0]|..] == "";
    } else if ls != [] {
      CutWhole(ls[0], Join(ls[1..]), LINE_SIZE - 1);
      assert Join(ls)[..|ls[0]|] == ls[0] && Join(ls)[|ls[0]|..] == Join(ls[1..]);
      LinesOfJoin(ls[1..]);
    }
  }

  // Joining undoes cutting.
  lemma {:induction false} JoinOfLines(text: string)
    ensures Join(Lines(text)) == text
    decreases |text|
  {
    if text != "" { JoinOfLines(text[ChunkLength(text, LINE_SIZE - 1)..]); }
  }

  lemma {:induction false} ChunkShape(text: string, n: nat)
    ensures var k := ChunkLength(text, n);
            && (forall i :: 0 <= i < k - 1 ==> text[i] != '\n')
            && (k == |text| || k == n || (k > 0 && text[k - 1] == '\n'))
  {
    if text != "" && n > 0 && text[0] != '\n' { ChunkShape(text[1..], n - 1); }
  }

  lemma {:induction false} LinesNeat(text: string)
    ensures Neat(Lines(text))
    decreases |text|
  {
    if text != "" {
      var k := ChunkLength(text, LINE_SIZE - 1);
      ChunkShape(text, LINE_SIZE - 1);
      LinesNeat(text[k..]);
      assert Chunk(text[..k]) && (text[k..] != "" ==> Whole(text[..k]));
      assert Lines(text) == [text[..k]] + Lines(text[k..]);
    }
  }

  // The text is empty or its last line is complete.
  predicate Closed(text: string) {
    AllWhole(Lines(text))
  }

  lemma {:induction false} NewlineCloses(text: string)
    requires text == "" || text[|text| - 1] == '\n'
    ensures Closed(text)
    decreases |text|
  {
    if text != "" {
      var k := ChunkLength(text, LINE_SIZE - 1);
      ChunkShape(text, LINE_SIZE - 1);
      NewlineCloses(text[k..]);
      assert Whole(text[..k]);
      assert Lines(text) == [text[..k]] + Lines(text[k..]);
    }
  }

  // ---- Printed lines ------------------------------------------------------------------

  // No name breaks its line.
  predicate OneLine(c: Node) {
    '\n' !in c.hostname && '\n' !in c.port0.labelText && '\n' !in c.port1.labelText
  }

  // A printed value other than a name with a newline in it.
  predicate Short(v: string) {
    |v| <= 17 && '\n' !in v && '\0' !in v
  }

  lemma DecShort(n: nat)
    requires n < UINT_LIMIT
    ensures Short(Dec(n))
    ensures n < 256 ==> |Dec(n)| <= 3
    ensures n < 0x1_0000 ==> |Dec(n)| <= 5
  {
    hide Dec;
    ValueOfDec(n);
    assert Pow10(3) == 1000 && Pow10(5) == 100000 && Pow10(10) == 10000000000;
    DecLength(n, 10);
    if n < 0x1_0000 { DecLength(n, 5); }
    if n < 256 { DecLength(n, 3); }
    assert forall i :: 0 <= i < |Dec(n)| ==> IsDigit(Dec(n)[i]);
  }

  lemma IpShort(ip: nat)
    ensures Short(PrintIp(ip)) && |PrintIp(ip)| <= 15
  {
    hide Dec;
    DecShort(ip / 0x100_0000 % 256);
    DecShort(ip / 0x1_0000 % 256);
    DecShort(ip / 0x100 % 256);
    DecShort(ip % 256);
  }

  lemma MacShort(m: seq<nat>)
    requires |m| == 6 && forall j :: 0 <= j < 6 ==> m[j] < 256
    ensures Short(PrintMac(m))
  {
    hide PrintByte;
    MacClean(m);
    ByteChars(m[0]); ByteChars(m[1]); ByteChars(m[2]); ByteChars(m[3]); ByteChars(m[4]); ByteChars(m[5]);
  }

  lemma ValueShort(k: Key, c: Node)
    requires Typed(c)
    ensures |ValueText(k, c)| <= 17 && '\0' !in ValueText(k, c)
    ensures OneLine(c) ==> Short(ValueText(k, c))
  {
    hide Dec, PrintIp, PrintMac;
    match k
    case NodeAddr => IpShort(c.ip);
    case MacAddr => MacShort(c.mac);
    case Netmask => IpShort(c.netmask);
    case Gateway => IpShort(c.gateway);
    case HoldTime => DecShort(c.holdTime);
    case Universe0 => DecShort(c.port0.universe);
    case Universe1 => DecShort(c.port1.universe);
    case Contrast => DecShort(c.contrast);
    case Monitor0 => DecShort(c.monitor0);
    case Monitor1 => DecShort(c.monitor1);
    case _ =>
  }

  lemma KeyLineWhole(k: Key, c: Node)
    requires Typed(c)
    ensures '\0' !in KeyLine(k, c) && |KeyLine(k, c)| <= 40
    ensures OneLine(c) ==> Whole(KeyLine(k, c))
  {
    hide Name, ValueText;
    NameChars(k);
    ValueShort(k, c);
  }

  lemma KeyLineParses(k: Key, c: Node)
    requires Typed(c) && OneLine(c)
    ensures ParseLine(KeyLine(k, c)) == Some((Name(k), Trim(UpToCr(ValueText(k, c)))))
    ensures LineKey(KeyLine(k, c)) == Some(k)
  {
    hide Name, ValueText, ParseLine, KeyOf;
    ValueShort(k, c);
    ParsePrinted(k, ValueText(k, c));
    KeyOfName(Name(k), k);
  }

  // ---- One field ----------------------------------------------------------------------

  // The configuration as the file can hold it.
  function Canon(c: Node): Node {
    c.(hostname := Trim(UpToCr(c.hostname)),
       ip := if c.addrMode == ADDR_MODE_DHCP then 0 else c.ip,
       port0 := CanonPort(c.port0), port1 := CanonPort(c.port1),
       protocol := ParseProtocol(ProtocolName(c.protocol)),
       addrMode := ParseAddrMode(AddrModeName(c.addrMode)),
       backlight := ParseBacklight(BacklightName(c.backlight)),
       monitor0 := Clamp(c.monitor0, 0, 512), monitor1 := Clamp(c.monitor1, 0, 512))
  }

  function CanonPort(p: Port): Port {
    Port(ParseMode(ModeName(p.mode)), PROTO_SACN, p.universe, Trim(UpToCr(p.labelText)))
  }

  // The field a key sets is the same in both.
  predicate Same(k: Key, a: Node, b: Node) {
    match k
    case NodeAddr => a.ip == b.ip
    case HostName => a.hostname == b.hostname
    case MacAddr => a.mac == b.mac
    case Netmask => a.netmask == b.netmask
    case Gateway => a.gateway == b.gateway
    case Protocol => a.protocol == b.protocol
    case HoldTime => a.holdTime == b.holdTime
    case Universe0 => a.port0.universe == b.port0.universe
    case Universe1 => a.port1.universe == b.port1.universe
    case Mode0 => a.port0.mode == b.port0.mode
    case Mode1 => a.port1.mode == b.port1.mode
    case Label1 => a.port0.labelText == b.port0.labelText
    case Label2 => a.port1.labelText == b.port1.labelText
    case AddrMode => a.addrMode == b.addrMode
    case Contrast => a.contrast == b.contrast
    case Backlight => a.backlight == b.backlight
    case Monitor0 => a.monitor0 == b.monitor0
    case Monitor1 => a.monitor1 == b.monitor1
  }

  predicate SamePorts(a: Node, b: Node) {
    a.port0.protocol == b.port0.protocol && a.port1.protocol == b.port1.protocol
  }

  lemma SameTrans(k: Key, a: Node, b: Node, c: Node)
    requires Same(k, a, b) && Same(k, b, c)
    ensures Same(k, a, c)
  {
  }

  lemma SameAll(a: Node, b: Node)
    requires (forall k :: Same(k, a, b)) && SamePorts(a, b)
    ensures a == b
  {
    SamePort0(a, b);
    SamePort1(a, b);
    SameRest(a, b);
  }

  lemma SameRest(a: Node, b: Node)
    requires forall k :: Same(k, a, b)
    ensures a.hostname == b.hostname && a.ip == b.ip && a.netmask == b.netmask && a.gateway == b.gateway && a.mac == b.mac
    ensures a.protocol == b.protocol && a.holdTime == b.holdTime && a.addrMode == b.addrMode && a.contrast == b.contrast
    ensures a.backlight == b.backlight && a.monitor0 == b.monitor0 && a.monitor1 == b.monitor1
  {
    assert Same(NodeAddr, a, b) && Same(HostName, a, b) && Same(MacAddr, a, b) && Same(Netmask, a, b) && Same(Gateway, a, b);
    assert Same(Protocol, a, b) && Same(HoldTime, a, b) && Same(AddrMode, a, b);
    assert Same(Contrast, a, b) && Same(Backlight, a, b) && Same(Monitor0, a, b) && Same(Monitor1, a, b);
  }

  lemma SamePort0(a: Node, b: Node)
    requires Same(Universe0, a, b) && Same(Mode0, a, b) && Same(Label1, a, b) && SamePorts(a, b)
    ensures a.port0 == b.port0
  {
  }

  lemma SamePort1(a: Node, b: Node)
    requires Same(Universe1, a, b) && Same(Mode1, a, b) && Same(Label2, a, b) && SamePorts(a, b)
    ensures a.port1 == b.port1
  {
  }

  // A line changes the field of its key and no other.
  lemma ApplyOthers(c: Node, k: Key, v: string, other: Key)
    requires |c.mac| == 6 && other != k
    ensures Same(other, Apply(c, k, v), c) && SamePorts(Apply(c, k, v), c)
  {
    hide ParseIp, AtoiValue, ParseMacFrom, ParseMode, ParseProtocol, ParseAddrMode, ParseBacklight;
  }

  lemma NameLength(s: string)
    ensures |Trim(UpToCr(s))| <= |s|
  {
    SkipLength(UpToCr(s));
    RightLength(SkipBlanks(UpToCr(s)));
  }

  lemma {:induction false} SkipLength(s: string)
    ensures |SkipBlanks(s)| <= |s|
  {
    if s != "" && IsBlank(s[0]) { SkipLength(s[1..]); }
  }

  lemma {:induction false} RightLength(s: string)
    ensures |TrimRight(s)| <= |s|
  {
    if s != "" && IsBlank(s[|s| - 1]) { RightLength(s[..|s| - 1]); }
  }

  // A printed value parses to the canonical field.
  lemma ApplyPrinted(c0: Node, k: Key, c: Node)
    requires |c0.mac| == 6 && Typed(c) && OneLine(c)
    ensures Same(k, Apply(c0, k, Trim(UpToCr(ValueText(k, c)))), Canon(c))
  {
    hide ParseIp, AtoiValue, ParseMacFrom, Dec, PrintIp, PrintMac, Trim, UpToCr;
    match k
    case NodeAddr => if c.addrMode == ADDR_MODE_DHCP || c.ip == 0 { CleanValue("0"); } else { IpField(c.ip); }
    case HostName => NameLength(c.hostname);
    case MacAddr => MacClean(c.mac); CleanValue(PrintMac(c.mac)); ParsePrintedMac(c.mac, c0.mac);
    case Netmask => IpField(c.netmask);
    case Gateway => IpField(c.gateway);
    case Protocol => CleanNames(); CleanValue(ProtocolName(c.protocol));
    case HoldTime => DecClean(c.holdTime);
    case Universe0 => DecClean(c.port0.universe);
    case Universe1 => DecClean(c.port1.universe);
    case Mode0 => CleanNames(); CleanValue(ModeName(c.port0.mode));
    case Mode1 => CleanNames(); CleanValue(ModeName(c.port1.mode));
    case Label1 => NameLength(c.port0.labelText);
    case Label2 => NameLength(c.port1.labelText);
    case AddrMode => CleanNames(); CleanValue(AddrModeName(c.addrMode));
    case Contrast => DecClean(c.contrast);
    case Backlight => CleanNames(); CleanValue(BacklightName(c.backlight));
    case Monitor0 => DecClean(c.monitor0);
    case Monitor1 => DecClean(c.monitor1);
  }

  lemma IpField(ip: nat)
    requires ip < UINT_LIMIT
    ensures Trim(UpToCr(PrintIp(ip))) == PrintIp(ip) && ParseIp(PrintIp(ip)) == ip && PrintIp(ip) != "0"
  {
    hide PrintIp, ParseIp;
    IpClean(ip);
    CleanValue(PrintIp(ip));
    ParsePrintedIp(ip);
  }

  lemma CleanNames()
    ensures forall m: int :: Clean(ModeName(m)) && Clean(ProtocolName(m))
    ensures forall m: nat :: Clean(AddrModeName(m)) && Clean(BacklightName(m))
  {
  }
}
