// The configuration file as its readers know it: what each line of any file sets, what
// holds without it, and the text a save leaves.
module FileFormat {
  import opened Prelude
  import opened Numbers
  import opened Scanf
  import opened Stdio
  import opened Config
  import opened ConfigParse
  import opened ConfigLens
  import opened ConfigTheorems
  import opened ConfigGlue

  // ---- What a value means ----------------------------------------------------------------

  function Nearest(n: int, lo: int, hi: int): int {
    if n < lo then lo else if n > hi then hi else n
  }

  function First(v: string, n: nat): string {
    v[..if |v| < n then |v| else n]
  }

  function ModeOf(v: string): int {
    if v in {"rx", "RX"} then 2 else if v in {"off", "OFF"} then 0 else 1
  }

  function ProtocolOf(v: string): int {
    if v in {"sacn", "sACN"} then 1 else if v in {"artnet", "Art-Net"} then 2 else if v in {"shownet", "ShowNet"} then 3 else 0
  }

  function AddrModeOf(v: string): int {
    if v == "dhcp" then 1 else if v == "dhcp_static" then 2 else 0
  }

  function BacklightOf(v: string): int {
    if v == "off" then 0 else if v == "auto" then 2 else 1
  }

  // The field of a key is what the value says.
  ghost predicate Says(k: Key, v: string, r: Node) {
    match k
    case NodeAddr => r.ip == ParseIp(v)
    case HostName => r.hostname == First(v, 15)
    case MacAddr => exists prior: seq<nat> :: |prior| == 6 && r.mac == ParseMacFrom(v, 0, prior)
    case Netmask => r.netmask == ParseIp(v)
    case Gateway => r.gateway == ParseIp(v)
    case Protocol => r.protocol == ProtocolOf(v)
    case HoldTime => r.holdTime == AtoiValue(v) % 0x1_0000
    case Universe0 => r.port0.universe == AtoiValue(v) % 0x1_0000
    case Universe1 => r.port1.universe == AtoiValue(v) % 0x1_0000
    case Mode0 => r.port0.mode == ModeOf(v)
    case Mode1 => r.port1.mode == ModeOf(v)
    case Label1 => r.port0.labelText == First(v, 8)
    case Label2 => r.port1.labelText == First(v, 8)
    case AddrMode => r.addrMode == AddrModeOf(v)
    case Contrast => r.contrast == Nearest(AtoiValue(v), 0, 255)
    case Backlight => r.backlight == BacklightOf(v)
    case Monitor0 => r.monitor0 == Nearest(AtoiValue(v), 0, 512)
    case Monitor1 => r.monitor1 == Nearest(AtoiValue(v), 0, 512)
  }

  // The field of a key no line of the file carries.
  ghost predicate Unset(k: Key, r: Node) {
    match k
    case NodeAddr => r.ip == 0
    case HostName => r.hostname == "SN110"
    case MacAddr => r.mac == [0, 0, 0, 0, 0, 0]
    case Netmask => r.netmask == 0
    case Gateway => r.gateway == 0
    case Protocol => r.protocol == 1
    case HoldTime => r.holdTime == 5
    case Universe0 => r.port0.universe == 1
    case Universe1 => r.port1.universe == 2
    case Mode0 => r.port0.mode == 1
    case Mode1 => r.port1.mode == 1
    case Label1 => r.port0.labelText == ""
    case Label2 => r.port1.labelText == ""
    case AddrMode => r.addrMode == if r.ip == 0 then 1 else 0
    case Contrast => r.contrast == 128
    case Backlight => r.backlight == 1
    case Monitor0 => r.monitor0 == 0
    case Monitor1 => r.monitor1 == 0
  }

  lemma ZeroAddress()
    ensures ParseIp("0") == 0
  {
    var d, t := ParseIpNeeds("0");
    DottedLong(d, t);
  }

  lemma DottedLong(d: seq<string>, t: string)
    ensures Numerals(d) ==> |Dotted(d, t)| >= 7
  {
  }

  lemma SpellingsMean(v: string)
    ensures ParseMode(v) == ModeOf(v) && ParseProtocol(v) == ProtocolOf(v) && ParseAddrMode(v) == AddrModeOf(v) && ParseBacklight(v) == BacklightOf(v)
  {
  }

  lemma ApplySays(c: Node, k: Key, v: string)
    requires |c.mac| == 6
    ensures Says(k, v, Apply(c, k, v))
  {
    hide ParseIp, AtoiValue, ParseMacFrom, ParseMode, ParseProtocol, ParseAddrMode, ParseBacklight;
    ZeroAddress();
    SpellingsMean(v);
  }

  lemma SaysSame(k: Key, v: string, a: Node, b: Node)
    requires Says(k, v, a) && Same(k, b, a)
    ensures Says(k, v, b)
  {
    hide ParseIp, AtoiValue, ParseMacFrom;
  }

  // ---- Loading any file ------------------------------------------------------------------

  // The key and value of a line as config_load sees it, up to a NUL.
  function Entry(line: string): Option<(string, string)> {
    ParseLine(CString(line))
  }

  ghost predicate Carries(line: string, k: Key) {
    Entry(line).Some? && Entry(line).value.0 == Name(k)
  }

  lemma LineLoads(c: Node, line: string, k: Key)
    requires |c.mac| == 6
    ensures Carries(line, k) ==> LoadLine(c, line) == Apply(c, k, Entry(line).value.1)
    ensures !Carries(line, k) ==> Same(k, LoadLine(c, line), c)
  {
    hide ParseLine, KeyOf, Apply, Name, Same;
    match Entry(line)
    case None => SameRefl(k, c);
    case Some(kv) =>
      KeyOfName(kv.0, k);
      if !Carries(line, k) {
        match KeyOf(kv.0)
        case None => SameRefl(k, c);
        case Some(other) => ApplyOthers(c, other, kv.1, k);
      }
  }

  lemma {:induction false} NotCarried(c: Node, ls: seq<string>, k: Key)
    requires |c.mac| == 6 && forall i :: 0 <= i < |ls| ==> !Carries(ls[i], k)
    ensures Same(k, LoadLines(c, ls), c)
    decreases |ls|
  {
    hide LoadLine, Carries, Same;
    if ls == [] {
      SameRefl(k, c);
    } else {
      LineLoads(c, ls[0], k);
      NotCarried(LoadLine(c, ls[0]), ls[1..], k);
      SameTrans(k, LoadLines(c, ls), LoadLine(c, ls[0]), c);
    }
  }

  // Line i is the last that carries the key.
  ghost predicate LastCarrying(ls: seq<string>, k: Key, i: int) {
    0 <= i < |ls| && Carries(ls[i], k) && forall j :: i < j < |ls| ==> !Carries(ls[j], k)
  }

  lemma Inferring(c: Node, k: Key)
    ensures k != AddrMode || c.addrMode != 255 ==> Same(k, InferAddrMode(c), c)
    ensures c.addrMode == 255 ==> Unset(AddrMode, InferAddrMode(c))
  {
  }

  lemma SetHere(ls: seq<string>, k: Key, i: int)
    requires LastCarrying(ls, k, i)
    ensures Entry(ls[i]).Some? && Says(k, Entry(ls[i]).value.1, LoadLines(Defaults(), ls))
  {
    hide LoadLines, LoadLine, Same, Says, Entry, Name;
    var front, behind := ls[..i], ls[i + 1..];
    assert Carries(ls[i], k);
    var v := Entry(ls[i]).value.1;
    var c := LoadLines(Defaults(), front);
    assert ls == front + ([ls[i]] + behind);
    LoadJoin(Defaults(), front, [ls[i]] + behind);
    LoadJoin(c, [ls[i]], behind);
    ConfigGlue.LoadOneLine(c, ls[i]);
    LineLoads(c, ls[i], k);
    ApplySays(c, k, v);
    NotCarried(Apply(c, k, v), behind, k);
    SaysSame(k, v, Apply(c, k, v), LoadLines(Defaults(), ls));
  }

  // The last line that carries a key sets its field, whatever else the file holds.
  lemma LastLineWins(text: string, k: Key, i: int)
    requires LastCarrying(Lines(text), k, i)
    ensures Entry(Lines(text)[i]).Some? && Says(k, Entry(Lines(text)[i]).value.1, LoadText(text))
  {
    hide Lines, LoadLines, Carries, Same, Says, InferAddrMode, Entry;
    SetHere(Lines(text), k, i);
    var v, r := Entry(Lines(text)[i]).value.1, LoadLines(Defaults(), Lines(text));
    if k == AddrMode { Named(k, v, r); }
    Inferring(r, k);
    SaysSame(k, v, r, LoadText(text));
  }

  // A MAC address is read over the one the lines in front of it leave: bytes its value does
  // not reach stay theirs.
  lemma MacOverlaid(text: string, i: int)
    requires LastCarrying(Lines(text), MacAddr, i)
    ensures Entry(Lines(text)[i]).Some?
    ensures LoadText(text).mac == ParseMacFrom(Entry(Lines(text)[i]).value.1, 0, LoadText(Join(Lines(text)[..i])).mac)
  {
    hide Lines, LoadLines, LoadLine, Entry, Name, ParseMacFrom, Carries;
    var ls := Lines(text);
    var front, behind := ls[..i], ls[i + 1..];
    LinesNeat(text);
    LinesOfJoin(front);
    var c := LoadLines(Defaults(), front);
    assert ls == front + ([ls[i]] + behind);
    LoadJoin(Defaults(), front, [ls[i]] + behind);
    LoadJoin(c, [ls[i]], behind);
    ConfigGlue.LoadOneLine(c, ls[i]);
    assert Entry(ls[i]).Some? by { CarriesEntry(ls[i], MacAddr); }
    LineLoads(c, ls[i], MacAddr);
    NotCarried(LoadLine(c, ls[i]), behind, MacAddr);
  }

  lemma CarriesEntry(line: string, k: Key)
    requires Carries(line, k)
    ensures Entry(line).Some?
  {
  }

  // Without such a line the field has its default; the address mode is then DHCP exactly
  // when the address is 0.
  lemma UnsetLine(text: string, k: Key)
    requires forall i :: 0 <= i < |Lines(text)| ==> !Carries(Lines(text)[i], k)
    ensures Unset(k, LoadText(text))
  {
    hide Lines, LoadLines, Carries, InferAddrMode;
    NotCarried(Defaults(), Lines(text), k);
    var r := LoadLines(Defaults(), Lines(text));
    Inferring(r, k);
    if k != AddrMode { SameTrans(k, InferAddrMode(r), r, Defaults()); }
  }

  lemma Named(k: Key, v: string, r: Node)
    requires Says(k, v, r) && k == AddrMode
    ensures r.addrMode != 255
  {
  }

  // ---- Cutting and reading -----------------------------------------------------------------

  // A file is cut behind every newline, and behind 255 characters without one.
  lemma FirstCut(text: string) returns (k: nat)
    requires text != ""
    ensures 0 < k <= |text| && k <= 255 && (text[k - 1] == '\n' || k == 255 || k == |text|)
    ensures forall i :: 0 <= i < k - 1 ==> text[i] != '\n'
    ensures Lines(text) == [text[..k]] + Lines(text[k..])
  {
    k := ChunkLength(text, 255);
    ChunkShape(text, 255);
  }

  // The saver reads 2047 bytes of the old file, and of these what stands before a NUL.
  lemma FirstRead(prior: string) returns (n: nat)
    ensures n <= |prior| && n <= 2047 && (n == |prior| || n == 2047 || prior[n] == '\0') && '\0' !in prior[..n]
    ensures Existing(prior) == prior[..n]
  {
    var read := prior[..if |prior| < 2047 then |prior| else 2047];
    assert read == Truncate(prior, 2047);
    n := StringEnds(read);
    assert read[..n] == prior[..n];
  }

  lemma {:induction false} StringEnds(s: string) returns (n: nat)
    ensures n <= |s| && CString(s) == s[..n] && '\0' !in s[..n] && (n == |s| || s[n] == '\0')
  {
    n := 0;
    if s != "" && s[0] != '\0' {
      n := StringEnds(s[1..]);
      assert s[..n + 1] == [s[0]] + s[1..][..n];
      n := n + 1;
    }
  }

  // ---- The text of a save ------------------------------------------------------------------

  function ModeText(m: int): string { if m == 2 then "rx" else if m == 0 then "off" else "tx" }

  function ProtocolText(p: int): string { if p == 1 then "sacn" else if p == 2 then "artnet" else if p == 3 then "shownet" else "none" }

  function AddrModeText(m: int): string { if m == 1 then "dhcp" else if m == 2 then "dhcp_static" else "static" }

  function BacklightText(m: int): string { if m == 0 then "off" else if m == 2 then "auto" else "on" }

  function AddressText(c: Node): string { if c.addrMode == 1 || c.ip == 0 then "0" else PrintIp(c.ip) }

  // The line of every key, in the order of the list.
  function Written(c: Node): (ls: seq<string>)
    requires Typed(c)
    ensures |ls| == 18
  {
    ["nodeaddr = " + AddressText(c) + "\n",
     "hostname = " + c.hostname + "\n",
     "macaddr = " + PrintMac(c.mac) + "\n",
     "netmask = " + PrintIp(c.netmask) + "\n",
     "gateway = " + PrintIp(c.gateway) + "\n",
     "protocol = " + ProtocolText(c.protocol) + "\n",
     "dmx_holdtime = " + Dec(c.holdTime) + "\n",
     "sacn_universe_0 = " + Dec(c.port0.universe) + "\n",
     "sacn_universe_1 = " + Dec(c.port1.universe) + "\n",
     "dmx_port0_mode = " + ModeText(c.port0.mode) + "\n",
     "dmx_port1_mode = " + ModeText(c.port1.mode) + "\n",
     "dmx1_label = " + c.port0.labelText + "\n",
     "dmx2_label = " + c.port1.labelText + "\n",
     "addr_mode = " + AddrModeText(c.addrMode) + "\n",
     "lcd_contrast = " + Dec(c.contrast) + "\n",
     "lcd_backlight = " + BacklightText(c.backlight) + "\n",
     "dmx_slot_monitor_0 = " + Dec(c.monitor0) + "\n",
     "dmx_slot_monitor_1 = " + Dec(c.monitor1) + "\n"]
  }

  lemma Prefixes0()
    ensures "nodeaddr" + " = " == "nodeaddr = " && "hostname" + " = " == "hostname = " && "macaddr" + " = " == "macaddr = "
    ensures "netmask" + " = " == "netmask = " && "gateway" + " = " == "gateway = " && "protocol" + " = " == "protocol = "
    ensures "dmx_holdtime" + " = " == "dmx_holdtime = " && "sacn_universe_0" + " = " == "sacn_universe_0 = "
    ensures "sacn_universe_1" + " = " == "sacn_universe_1 = "
  {
  }

  lemma Prefixes1()
    ensures "dmx_port0_mode" + " = " == "dmx_port0_mode = " && "dmx_port1_mode" + " = " == "dmx_port1_mode = "
    ensures "dmx1_label" + " = " == "dmx1_label = " && "dmx2_label" + " = " == "dmx2_label = " && "addr_mode" + " = " == "addr_mode = "
    ensures "lcd_contrast" + " = " == "lcd_contrast = " && "lcd_backlight" + " = " == "lcd_backlight = "
    ensures "dmx_slot_monitor_0" + " = " == "dmx_slot_monitor_0 = " && "dmx_slot_monitor_1" + " = " == "dmx_slot_monitor_1 = "
  {
  }

  // The line written for a key, wherever it stands in a file.
  lemma WrittenLine(c: Node, k: Key)
    requires Typed(c)
    ensures KeyLine(k, c) == Written(c)[Ordinal(k)] && MANAGED[Ordinal(k)] == k
  {
    if Ordinal(k) < 9 { WrittenFirst(c, k); } else { WrittenLast(c, k); }
  }

  lemma WrittenFirst(c: Node, k: Key)
    requires Typed(c) && Ordinal(k) < 9
    ensures KeyLine(k, c) == Written(c)[Ordinal(k)] && MANAGED[Ordinal(k)] == k
  {
    hide PrintIp, PrintMac, Dec;
    Prefixes0();
    match k case _ =>
  }

  lemma WrittenLast(c: Node, k: Key)
    requires Typed(c) && Ordinal(k) >= 9
    ensures KeyLine(k, c) == Written(c)[Ordinal(k)] && MANAGED[Ordinal(k)] == k
  {
    hide PrintIp, PrintMac, Dec;
    Prefixes1();
    match k case _ =>
  }

  lemma {:induction false} AllMissing(c: Node, keys: seq<Key>)
    requires Typed(c)
    ensures |MissingLines(c, keys, [])| == |keys| && forall i :: 0 <= i < |keys| ==> MissingLines(c, keys, [])[i] == KeyLine(keys[i], c)
  {
    hide KeyLine;
    if keys != [] {
      HasKeyNone(keys[0]);
      AllMissing(c, keys[1..]);
    }
  }

  lemma OnlyAppended(c: Node, keys: seq<Key>, strict: bool)
    requires Typed(c)
    ensures SaveText(c, keys, strict, "") == Join(MissingLines(c, keys, []))
  {
    hide MissingLines;
    assert Lines(Existing("")) == [] && RewriteLines(c, keys, strict, []) == [];
    assert [] + MissingLines(c, keys, []) == MissingLines(c, keys, []);
  }

  lemma ListOrder(i: nat)
    requires i < 18
    ensures |MANAGED| == 18 && Ordinal(MANAGED[i]) == i
  {
  }

  // Saved without an old file, the configuration is these lines; the Strand save writes
  // the first twelve.
  lemma FreshFile(c: Node)
    requires Typed(c)
    ensures SaveText(c, MANAGED, false, "") == Join(Written(c))
    ensures SaveText(c, STRAND, true, "") == Join(Written(c)[..12])
  {
    hide KeyLine, MissingLines, Written, SaveText;
    AllMissing(c, MANAGED);
    AllMissing(c, STRAND);
    forall i | 0 <= i < 18 ensures KeyLine(MANAGED[i], c) == Written(c)[i] {
      WrittenLine(c, MANAGED[i]);
      ListOrder(i);
    }
    assert MANAGED[..12] == STRAND;
    assert MissingLines(c, MANAGED, []) == Written(c);
    OnlyAppended(c, MANAGED, false);
    OnlyAppended(c, STRAND, true);
    assert MissingLines(c, STRAND, []) == Written(c)[..12] by {
      forall i | 0 <= i < 12 ensures STRAND[i] == MANAGED[i] { assert MANAGED[..12][i] == MANAGED[i]; }
    }
  }
}
