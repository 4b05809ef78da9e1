// The node configuration, its keys, and the text each key prints and parses.
module Config {
  import opened Prelude
  import opened Numbers
  import opened Scanf
  import opened Printf
  import opened Stdio

  const DMX_MODE_OFF := 0
  const DMX_MODE_TX := 1
  const DMX_MODE_RX := 2
  const PROTO_NONE := 0
  const PROTO_SACN := 1
  const PROTO_ARTNET := 2
  const PROTO_SHOWNET := 3
  const ADDR_MODE_STATIC := 0
  const ADDR_MODE_DHCP := 1
  const ADDR_MODE_DHCP_STATIC := 2
  const ADDR_MODE_SENTINEL := 255
  const LCD_BACKLIGHT_OFF := 0
  const LCD_BACKLIGHT_ON := 1
  const LCD_BACKLIGHT_AUTO := 2

  datatype Port = Port(mode: int, protocol: int, universe: nat, labelText: string)

  datatype Node = Node(hostname: string, ip: nat, netmask: nat, gateway: nat, mac: seq<nat>,
                       port0: Port, port1: Port, protocol: int, holdTime: nat,
                       addrMode: nat, contrast: nat, backlight: nat, monitor0: nat, monitor1: nat)

  // The ranges of the C field types: NUL-terminated char arrays and unsigned integers.
  predicate PortTyped(p: Port) {
    p.universe < 0x1_0000 && |p.labelText| <= 8 && '\0' !in p.labelText
  }

  predicate Typed(c: Node) {
    && |c.hostname| <= 15 && '\0' !in c.hostname
    && c.ip < UINT_LIMIT && c.netmask < UINT_LIMIT && c.gateway < UINT_LIMIT
    && |c.mac| == 6 && (forall i :: 0 <= i < 6 ==> c.mac[i] < 256)
    && PortTyped(c.port0) && PortTyped(c.port1)
    && c.holdTime < 0x1_0000 && c.addrMode < 256 && c.contrast < 256 && c.backlight < 256
    && c.monitor0 < 0x1_0000 && c.monitor1 < 0x1_0000
  }

  function Defaults(): (c: Node)
    ensures Typed(c)
  {
    Node("SN110", 0, 0, 0, [0, 0, 0, 0, 0, 0],
         Port(DMX_MODE_TX, PROTO_SACN, 1, ""), Port(DMX_MODE_TX, PROTO_SACN, 2, ""), PROTO_SACN, 5,
         ADDR_MODE_SENTINEL, 128, LCD_BACKLIGHT_ON, 0, 0)
  }

  // ---- Keys --------------------------------------------------------------------

  datatype Key = NodeAddr | HostName | MacAddr | Netmask | Gateway | Protocol | HoldTime | Universe0 | Universe1
               | Mode0 | Mode1 | Label1 | Label2 | AddrMode | Contrast | Backlight | Monitor0 | Monitor1

  function Name(k: Key): (s: string) {
    match k
    case NodeAddr => "nodeaddr"
    case HostName => "hostname"
    case MacAddr => "macaddr"
    case Netmask => "netmask"
    case Gateway => "gateway"
    case Protocol => "protocol"
    case HoldTime => "dmx_holdtime"
    case Universe0 => "sacn_universe_0"
    case Universe1 => "sacn_universe_1"
    case Mode0 => "dmx_port0_mode"
    case Mode1 => "dmx_port1_mode"
    case Label1 => "dmx1_label"
    case Label2 => "dmx2_label"
    case AddrMode => "addr_mode"
    case Contrast => "lcd_contrast"
    case Backlight => "lcd_backlight"
    case Monitor0 => "dmx_slot_monitor_0"
    case Monitor1 => "dmx_slot_monitor_1"
  }

  const MANAGED: seq<Key> := [NodeAddr, HostName, MacAddr, Netmask, Gateway, Protocol, HoldTime, Universe0, Universe1,
                              Mode0, Mode1, Label1, Label2, AddrMode, Contrast, Backlight, Monitor0, Monitor1]

  const STRAND: seq<Key> := [NodeAddr, HostName, MacAddr, Netmask, Gateway, Protocol, HoldTime, Universe0, Universe1,
                             Mode0, Mode1, Label1]

  // The chain of strcmp calls over the known keys.
  function KeyIn(keys: seq<Key>, s: string): Option<Key> {
    if keys == [] then None else if s == Name(keys[0]) then Some(keys[0]) else KeyIn(keys[1..], s)
  }

  function KeyOf(s: string): Option<Key> {
    KeyIn(MANAGED, s)
  }

  // What tells the eighteen names apart: their length and one character.
  ghost function Rank(s: string): int {
    if |s| == 7 then (if s[0] == 'm' then 2 else if s[0] == 'n' then 3 else 4)
    else if |s| == 8 then (if s[0] == 'n' then 0 else if s[0] == 'h' then 1 else 5)
    else if |s| == 9 then 13
    else if |s| == 10 then (if s[3] == '1' then 11 else 12)
    else if |s| == 12 then (if s[0] == 'd' then 6 else 14)
    else if |s| == 13 then 15
    else if |s| == 14 then (if s[8] == '0' then 9 else 10)
    else if |s| == 15 then (if s[14] == '0' then 7 else 8)
    else if |s| == 18 then (if s[17] == '0' then 16 else 17)
    else 18
  }

  ghost function Ordinal(k: Key): int {
    match k
    case NodeAddr => 0 case HostName => 1 case MacAddr => 2 case Netmask => 3 case Gateway => 4 case Protocol => 5
    case HoldTime => 6 case Universe0 => 7 case Universe1 => 8 case Mode0 => 9 case Mode1 => 10 case Label1 => 11
    case Label2 => 12 case AddrMode => 13 case Contrast => 14 case Backlight => 15 case Monitor0 => 16 case Monitor1 => 17
  }

  lemma RankOfName(k: Key)
    ensures Rank(Name(k)) == Ordinal(k)
  {
    match k case _ =>
  }

  lemma NameInjective(a: Key, b: Key)
    ensures Name(a) == Name(b) ==> a == b
  {
    RankOfName(a);
    RankOfName(b);
  }

  lemma {:induction false} KeyInIs(keys: seq<Key>, s: string, k: Key)
    ensures KeyIn(keys, s) == Some(k) ==> s == Name(k)
    ensures k in keys && s == Name(k) ==> KeyIn(keys, s) == Some(k)
  {
    if keys != [] {
      NameInjective(k, keys[0]);
      KeyInIs(keys[1..], s, k);
    }
  }

  // Names and keys correspond one to one.
  lemma KeyOfName(s: string, k: Key)
    ensures KeyOf(s) == Some(k) <==> s == Name(k)
  {
    assert k == MANAGED[Ordinal(k)];
    KeyInIs(MANAGED, s, k);
  }

  // ---- trim ----------------------------------------------------------------------

  function TrimRight(s: string): string {
    if s != "" && IsBlank(s[|s| - 1]) then TrimRight(s[..|s| - 1]) else s
  }

  function Trim(s: string): string {
    TrimRight(SkipBlanks(s))
  }

  // ---- Parsing values ------------------------------------------------------------

  // The number four dotted bytes denote; 0 unless there are four of at most 255.
  function ParseIp(s: string): (ip: nat)
    ensures ip < UINT_LIMIT
  {
    var outs := Scan("%u.%u.%u.%u", s);
    if Matched(outs) != 4 || |outs| != 4 || !outs[0].UInt? || !outs[1].UInt? || !outs[2].UInt? || !outs[3].UInt? then 0
    else if outs[0].u > 255 || outs[1].u > 255 || outs[2].u > 255 || outs[3].u > 255 then 0
    else outs[0].u * 0x100_0000 + outs[1].u * 0x1_0000 + outs[2].u * 0x100 + outs[3].u
  }

  function HexValue(c: char): (v: int)
    ensures -1 <= v < 16
  {
    if '0' <= c <= '9' then c as int - '0' as int
    else if 'a' <= c <= 'f' then c as int - 'a' as int + 10
    else if 'A' <= c <= 'F' then c as int - 'A' as int + 10
    else -1
  }

  // One or two hex digits: how many, and their value; none is a failure.
  function HexByte(s: string): (r: (nat, nat))
    ensures r.0 <= 2 && r.0 <= |s| && r.1 < 256
  {
    if s == "" || HexValue(s[0]) < 0 then (0, 0)
    else if |s| == 1 || HexValue(s[1]) < 0 then (1, HexValue(s[0]))
    else (2, 16 * HexValue(s[0]) + HexValue(s[1]))
  }

  // parse_mac from byte i on: bytes are stored as they are read, also before a failure.
  function ParseMacFrom(s: string, i: nat, mac: seq<nat>): (m: seq<nat>)
    requires |mac| == 6 && i <= 6
    ensures |m| == 6
    decreases 6 - i
  {
    if i == 6 then mac
    else
      var b := HexByte(s);
      if b.0 == 0 then mac
      else
        var stored := mac[i := b.1];
        var rest := s[b.0..];
        if i < 5 then
          if rest == "" || rest[0] != ':' then stored else ParseMacFrom(rest[1..], i + 1, stored)
        else stored
  }

  function ParseMode(s: string): int {
    if s == "tx" || s == "TX" then DMX_MODE_TX
    else if s == "rx" || s == "RX" then DMX_MODE_RX
    else if s == "off" || s == "OFF" then DMX_MODE_OFF
    else DMX_MODE_TX
  }

  function ModeName(m: int): string {
    if m == DMX_MODE_TX then "tx" else if m == DMX_MODE_RX then "rx" else if m == DMX_MODE_OFF then "off" else "tx"
  }

  function ParseProtocol(s: string): int {
    if s == "sacn" || s == "sACN" then PROTO_SACN
    else if s == "artnet" || s == "Art-Net" then PROTO_ARTNET
    else if s == "shownet" || s == "ShowNet" then PROTO_SHOWNET
    else PROTO_NONE
  }

  function ProtocolName(p: int): string {
    if p == PROTO_SACN then "sacn" else if p == PROTO_ARTNET then "artnet" else if p == PROTO_SHOWNET then "shownet" else "none"
  }

  function ParseAddrMode(s: string): nat {
    if s == "dhcp" then ADDR_MODE_DHCP
    else if s == "static" then ADDR_MODE_STATIC
    else if s == "dhcp_static" then ADDR_MODE_DHCP_STATIC
    else ADDR_MODE_STATIC
  }

  function AddrModeName(m: nat): string {
    if m == ADDR_MODE_DHCP then "dhcp" else if m == ADDR_MODE_STATIC then "static"
    else if m == ADDR_MODE_DHCP_STATIC then "dhcp_static" else "static"
  }

  function ParseBacklight(s: string): nat {
    if s == "off" then LCD_BACKLIGHT_OFF
    else if s == "on" then LCD_BACKLIGHT_ON
    else if s == "auto" then LCD_BACKLIGHT_AUTO
    else LCD_BACKLIGHT_ON
  }

  function BacklightName(m: nat): string {
    if m == LCD_BACKLIGHT_OFF then "off" else if m == LCD_BACKLIGHT_ON then "on"
    else if m == LCD_BACKLIGHT_AUTO then "auto" else "on"
  }

  function Clamp(v: int, lo: int, hi: int): (r: int)
    requires lo <= hi
    ensures lo <= r <= hi && (lo <= v <= hi ==> r == v)
  {
    if v < lo then lo else if v > hi then hi else v
  }

  // Conversion of an int to uint16_t.
  function ToUint16(v: int): (r: nat)
    ensures r < 0x1_0000 && (0 <= v < 0x1_0000 ==> r == v)
  {
    v % 0x1_0000
  }

  // strncpy(field, v, n) into a zeroed field of n + 1 bytes.
  function Truncate(v: string, n: nat): (s: string)
    ensures |s| <= n && s <= v
  {
    if |v| > n then v[..n] else v
  }

  // ---- Loading -------------------------------------------------------------------

  // One managed line: the field it sets.
  function Apply(c: Node, k: Key, v: string): (r: Node)
    requires |c.mac| == 6
    ensures |r.mac| == 6
  {
    match k
    case NodeAddr => c.(ip := if v == "0" then 0 else ParseIp(v))
    case HostName => c.(hostname := Truncate(v, 15))
    case MacAddr => c.(mac := ParseMacFrom(v, 0, c.mac))
    case Netmask => c.(netmask := ParseIp(v))
    case Gateway => c.(gateway := ParseIp(v))
    case Protocol => c.(protocol := ParseProtocol(v))
    case HoldTime => c.(holdTime := ToUint16(AtoiValue(v)))
    case Universe0 => c.(port0 := c.port0.(universe := ToUint16(AtoiValue(v))))
    case Universe1 => c.(port1 := c.port1.(universe := ToUint16(AtoiValue(v))))
    case Label1 => c.(port0 := c.port0.(labelText := Truncate(v, 8)))
    case Label2 => c.(port1 := c.port1.(labelText := Truncate(v, 8)))
    case Mode0 => c.(port0 := c.port0.(mode := ParseMode(v)))
    case Mode1 => c.(port1 := c.port1.(mode := ParseMode(v)))
    case AddrMode => c.(addrMode := ParseAddrMode(v))
    case Contrast => c.(contrast := Clamp(AtoiValue(v), 0, 255))
    case Backlight => c.(backlight := ParseBacklight(v))
    case Monitor0 => c.(monitor0 := Clamp(AtoiValue(v), 0, 512))
    case Monitor1 => c.(monitor1 := Clamp(AtoiValue(v), 0, 512))
  }

  // The C string a buffer holds: everything before the first NUL.
  function CString(s: string): (t: string)
    ensures '\0' !in t && t <= s
    ensures '\0' !in s ==> t == s
  {
    if s == "" || s[0] == '\0' then "" else [s[0]] + CString(s[1..])
  }

  const LINE_FORMAT := "%63[^=]=%191[^\n\r]"

  // Key and value of a line, trimmed; none for comments, blank lines and lines without both.
  function ParseLine(line: string): Option<(string, string)> {
    if line == "" || line[0] == '#' || line[0] == '\n' || line[0] == '\r' then None
    else
      var outs := Scan(LINE_FORMAT, line);
      if Matched(outs) == 2 && |outs| == 2 && outs[0].Text? && outs[1].Text? then Some((Trim(outs[0].t), Trim(outs[1].t)))
      else None
  }

  function LoadLine(c: Node, line: string): (r: Node)
    requires |c.mac| == 6
    ensures |r.mac| == 6
  {
    hide ParseLine, KeyOf, Apply;
    match ParseLine(CString(line))
    case None => c
    case Some(kv) => match KeyOf(kv.0) case None => c case Some(k) => Apply(c, k, kv.1)
  }

  function LoadLines(c: Node, lines: seq<string>): (r: Node)
    requires |c.mac| == 6
    ensures |r.mac| == 6
    decreases |lines|
  {
    if lines == [] then c else LoadLines(LoadLine(c, lines[0]), lines[1..])
  }

  // Lines as both the loader and the saver cut them: at most 255 characters each.
  const LINE_SIZE := 256

  function Lines(text: string): (ls: seq<string>) {
    if text == "" then [] else
      var k := ChunkLength(text, LINE_SIZE - 1);
      [text[..k]] + Lines(text[k..])
  }

  // Backward compatibility: an unset address mode follows from the address.
  function InferAddrMode(c: Node): Node {
    if c.addrMode == ADDR_MODE_SENTINEL then c.(addrMode := if c.ip == 0 then ADDR_MODE_DHCP else ADDR_MODE_STATIC) else c
  }

  function LoadText(text: string): Node {
    InferAddrMode(LoadLines(Defaults(), Lines(text)))
  }

  // ---- Saving --------------------------------------------------------------------

  const IP_DIRECTIVES := "%u.%u.%u.%u\n"
  const MAC_DIRECTIVES := "%02X:%02X:%02X:%02X:%02X:%02X\n"

  function IpArgs(ip: nat): seq<Arg> {
    [Int(ip / 0x100_0000 % 256), Int(ip / 0x1_0000 % 256), Int(ip / 0x100 % 256), Int(ip % 256)]
  }

  // The format string of a key: its name, " = ", and the directives of its value.
  function KeyFormat(k: Key, c: Node): string {
    Name(k) + " = " + Directives(k, c)
  }

  function Directives(k: Key, c: Node): string {
    match k
    case NodeAddr => if c.addrMode == ADDR_MODE_DHCP || c.ip == 0 then "0\n" else IP_DIRECTIVES
    case MacAddr => MAC_DIRECTIVES
    case Netmask => IP_DIRECTIVES
    case Gateway => IP_DIRECTIVES
    case HoldTime => "%d\n"
    case Universe0 => "%d\n"
    case Universe1 => "%d\n"
    case Contrast => "%d\n"
    case Monitor0 => "%d\n"
    case Monitor1 => "%d\n"
    case _ => "%s\n"
  }

  function KeyArgs(k: Key, c: Node): seq<Arg>
    requires Typed(c)
  {
    match k
    case NodeAddr => if c.addrMode == ADDR_MODE_DHCP || c.ip == 0 then [] else IpArgs(c.ip)
    case HostName => [Str(c.hostname)]
    case MacAddr => [Int(c.mac[0]), Int(c.mac[1]), Int(c.mac[2]), Int(c.mac[3]), Int(c.mac[4]), Int(c.mac[5])]
    case Netmask => IpArgs(c.netmask)
    case Gateway => IpArgs(c.gateway)
    case Protocol => [Str(ProtocolName(c.protocol))]
    case HoldTime => [Int(c.holdTime)]
    case Universe0 => [Int(c.port0.universe)]
    case Universe1 => [Int(c.port1.universe)]
    case Mode0 => [Str(ModeName(c.port0.mode))]
    case Mode1 => [Str(ModeName(c.port1.mode))]
    case Label1 => [Str(c.port0.labelText)]
    case Label2 => [Str(c.port1.labelText)]
    case AddrMode => [Str(AddrModeName(c.addrMode))]
    case Contrast => [Int(c.contrast)]
    case Backlight => [Str(BacklightName(c.backlight))]
    case Monitor0 => [Int(c.monitor0)]
    case Monitor1 => [Int(c.monitor1)]
  }

  function PrintIp(ip: nat): string {
    Dec(ip / 0x100_0000 % 256) + "." + Dec(ip / 0x1_0000 % 256) + "." + Dec(ip / 0x100 % 256) + "." + Dec(ip % 256)
  }

  function PrintByte(b: nat): string {
    Pad(Hex(b, true), 2, true)
  }

  function PrintMac(mac: seq<nat>): string
    requires |mac| == 6
  {
    PrintByte(mac[0]) + ":" + PrintByte(mac[1]) + ":" + PrintByte(mac[2]) + ":"
    + PrintByte(mac[3]) + ":" + PrintByte(mac[4]) + ":" + PrintByte(mac[5])
  }

  // The value text a key is saved with.
  function ValueText(k: Key, c: Node): string
    requires Typed(c)
  {
    match k
    case NodeAddr => if c.addrMode == ADDR_MODE_DHCP || c.ip == 0 then "0" else PrintIp(c.ip)
    case HostName => c.hostname
    case MacAddr => PrintMac(c.mac)
    case Netmask => PrintIp(c.netmask)
    case Gateway => PrintIp(c.gateway)
    case Protocol => ProtocolName(c.protocol)
    case HoldTime => Dec(c.holdTime)
    case Universe0 => Dec(c.port0.universe)
    case Universe1 => Dec(c.port1.universe)
    case Mode0 => ModeName(c.port0.mode)
    case Mode1 => ModeName(c.port1.mode)
    case Label1 => c.port0.labelText
    case Label2 => c.port1.labelText
    case AddrMode => AddrModeName(c.addrMode)
    case Contrast => Dec(c.contrast)
    case Backlight => BacklightName(c.backlight)
    case Monitor0 => Dec(c.monitor0)
    case Monitor1 => Dec(c.monitor1)
  }

  function KeyLine(k: Key, c: Node): string
    requires Typed(c)
  {
    Name(k) + " = " + ValueText(k, c) + "\n"
  }

  // The key of a line, when it has one.
  function LineKey(line: string): Option<Key> {
    match ParseLine(line)
    case None => None
    case Some(kv) => KeyOf(kv.0)
  }

  // One old line in the new file: rewritten, dropped or kept.
  function RewriteLine(c: Node, keys: seq<Key>, strict: bool, line: string): seq<string>
    requires Typed(c)
  {
    match LineKey(line)
    case Some(k) => if k in keys then [KeyLine(k, c)] else if strict then [] else [line]
    case None => [line]
  }

  function RewriteLines(c: Node, keys: seq<Key>, strict: bool, lines: seq<string>): seq<string>
    requires Typed(c)
  {
    if lines == [] then [] else RewriteLine(c, keys, strict, lines[0]) + RewriteLines(c, keys, strict, lines[1..])
  }

  predicate HasKey(lines: seq<string>, k: Key) {
    exists i :: 0 <= i < |lines| && LineKey(lines[i]) == Some(k)
  }

  // Lines for the keys no old line carries, in list order.
  function MissingLines(c: Node, keys: seq<Key>, lines: seq<string>): seq<string>
    requires Typed(c)
  {
    if keys == [] then []
    else (if HasKey(lines, keys[0]) then [] else [KeyLine(keys[0], c)]) + MissingLines(c, keys[1..], lines)
  }

  function SaveLines(c: Node, keys: seq<Key>, strict: bool, lines: seq<string>): seq<string>
    requires Typed(c)
  {
    RewriteLines(c, keys, strict, lines) + MissingLines(c, keys, lines)
  }

  function Join(lines: seq<string>): string {
    if lines == [] then "" else lines[0] + Join(lines[1..])
  }

  // What the saver reads back of the old file: 2047 bytes, up to a NUL.
  function Existing(prior: string): string {
    CString(Truncate(prior, 2047))
  }

  function SaveText(c: Node, keys: seq<Key>, strict: bool, prior: string): string
    requires Typed(c)
  {
    Join(SaveLines(c, keys, strict, Lines(Existing(prior))))
  }
}
