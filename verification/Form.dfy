// The configuration form: percent decoding (section 2.1 of RFC 3986) and the
// key=value&key=value body applied to the configuration.
module Form {
  import opened Prelude
  import opened Numbers
  import opened Scanf
  import opened Stdio
  import opened Config
  import opened ConfigLens
  import opened ConfigParse
  import opened ConfigTheorems
  import opened ConfigRange
  import opened ConfigGlue
  import opened FileFormat

  // ---- url_decode ----------------------------------------------------------------------

  predicate IsEscape(s: string) {
    |s| >= 3 && s[0] == '%' && HexValue(s[1]) >= 0 && HexValue(s[2]) >= 0
  }

  function EscapeChar(s: string): char
    requires IsEscape(s)
  {
    (16 * HexValue(s[1]) + HexValue(s[2])) as char
  }

  // At most `room` decoded characters.
  function UrlDecode(s: string, room: nat): (t: string)
    ensures |t| <= room
    decreases |s|
  {
    if s == "" || room == 0 then ""
    else if IsEscape(s) then [EscapeChar(s)] + UrlDecode(s[3..], room - 1)
    else [if s[0] == '+' then ' ' else s[0]] + UrlDecode(s[1..], room - 1)
  }

  // A character as '%' and its two hex digits, each of either case.
  predicate EscapeOf(raw: string, c: char) {
    |raw| >= 3 && raw[0] == '%' && c as int < 256 && Shows(raw[1], c as int / 16) && Shows(raw[2], c as int % 16)
  }

  // Two hex digits follow the percent sign.
  predicate DigitsFollow(raw: string) {
    |raw| >= 3 && IsHex(raw[1]) && IsHex(raw[2])
  }

  // Any way of writing a text with escapes, '+' for a space, and every other character as
  // itself; a percent sign without two hex digits behind it stands for itself too.
  ghost predicate Encodes(raw: string, text: string)
    decreases |raw|
  {
    if raw == "" || text == "" then raw == text
    else
      || (EscapeOf(raw, text[0]) && Encodes(raw[3..], text[1..]))
      || (raw[0] == '+' && text[0] == ' ' && Encodes(raw[1..], text[1..]))
      || (raw[0] != '+' && (raw[0] != '%' || !DigitsFollow(raw)) && raw[0] == text[0] && Encodes(raw[1..], text[1..]))
  }

  lemma EscapeIs(raw: string, c: char)
    ensures IsEscape(raw) <==> raw != "" && raw[0] == '%' && DigitsFollow(raw)
    ensures EscapeOf(raw, c) ==> IsEscape(raw) && EscapeChar(raw) == c
  {
    hide HexValue, IsHex, Shows;
    if |raw| >= 3 {
      HexIs(raw[1]);
      HexIs(raw[2]);
    }
    if EscapeOf(raw, c) {
      ShownValue(raw[1], c as int / 16);
      ShownValue(raw[2], c as int % 16);
    }
  }

  lemma HexIs(c: char)
    ensures IsHex(c) <==> HexValue(c) >= 0
    ensures HexValue(c) >= 0 ==> Shows(c, HexValue(c))
  {
  }

  // Decoding inverts every such encoding, cut to the room there is.
  lemma {:induction false} DecodeInverts(raw: string, text: string, room: nat)
    requires Encodes(raw, text)
    ensures UrlDecode(raw, room) == Truncate(text, room)
    decreases |raw|
  {
    hide EscapeOf, EscapeChar;
    if raw != "" && text != "" && room > 0 {
      EscapeIs(raw, text[0]);
      DecodeInverts(if IsEscape(raw) then raw[3..] else raw[1..], text[1..], room - 1);
      assert Truncate(text, room) == [text[0]] + Truncate(text[1..], room - 1);
    }
  }

  lemma EscapedIs(raw: string)
    requires IsEscape(raw)
    ensures EscapeOf(raw, EscapeChar(raw))
  {
    hide HexValue, Shows, IsHex;
    HexIs(raw[1]);
    HexIs(raw[2]);
  }

  // Every text encodes just what it decodes to.
  lemma {:induction false} DecodeExactly(raw: string, text: string)
    ensures Encodes(raw, text) <==> UrlDecode(raw, |raw|) == text
    decreases |raw|
  {
    hide EscapeOf, EscapeChar, DigitsFollow;
    if raw != "" && text != "" {
      var n := if IsEscape(raw) then 3 else 1;
      EscapeIs(raw, text[0]);
      if IsEscape(raw) { EscapedIs(raw); }
      RoomIs(raw[n..], |raw| - 1);
      DecodeExactly(raw[n..], text[1..]);
      Headed(if IsEscape(raw) then EscapeChar(raw) else if raw[0] == '+' then ' ' else raw[0], UrlDecode(raw[n..], |raw| - 1), text);
    }
  }

  lemma Headed(h: char, rest: string, text: string)
    requires text != ""
    ensures [h] + rest == text <==> h == text[0] && rest == text[1..]
  {
    assert ([h] + rest)[1..] == rest && text == [text[0]] + text[1..];
  }

  // A text has no more characters than its encoding.
  lemma {:induction false} RoomIs(raw: string, room: nat)
    requires |raw| <= room
    ensures UrlDecode(raw, room) == UrlDecode(raw, |raw|)
    decreases |raw|
  {
    hide EscapeChar;
    if raw != "" {
      var n := if IsEscape(raw) then 3 else 1;
      RoomIs(raw[n..], room - 1);
      RoomIs(raw[n..], |raw| - 1);
    }
  }

  // url_decode into a buffer of maxlen characters.
  method UrlDecodeInto(dst: array<char>, src: string, maxlen: nat) returns (i: nat)
    requires 0 < maxlen <= dst.Length
    modifies dst
    ensures i < maxlen && dst[..i] == UrlDecode(src, maxlen - 1) && dst[i] == '\0'
  {
    hide UrlDecode, HexValue;
    i := 0;
    var p := 0;
    ghost var all := UrlDecode(src, maxlen - 1);
    assert src[0..] == src;
    while p < |src| && i < maxlen - 1
      invariant 0 <= p <= |src| && i <= maxlen - 1
      invariant all == dst[..i] + UrlDecode(src[p..], maxlen - 1 - i)
      decreases |src| - p
    {
      ghost var before := dst[..i];
      DecodeStep(src, p, maxlen - 1 - i);
      if src[p] == '%' && p + 2 < |src| && HexValue(src[p + 1]) >= 0 && HexValue(src[p + 2]) >= 0 {
        dst[i] := (16 * HexValue(src[p + 1]) + HexValue(src[p + 2])) as char;
        p := p + 3;
      } else {
        dst[i] := if src[p] == '+' then ' ' else src[p];
        p := p + 1;
      }
      assert dst[..i + 1] == before + [dst[i]];
      i := i + 1;
    }
    DecodeEnd(src[p..], maxlen - 1 - i);
    dst[i] := '\0';
  }

  lemma DecodeEnd(src: string, room: nat)
    requires src == "" || room == 0
    ensures UrlDecode(src, room) == ""
  {
  }

  lemma DecodeStep(src: string, p: nat, room: nat)
    requires p < |src| && room > 0
    ensures UrlDecode(src[p..], room)
         == if src[p] == '%' && p + 2 < |src| && HexValue(src[p + 1]) >= 0 && HexValue(src[p + 2]) >= 0
            then [(16 * HexValue(src[p + 1]) + HexValue(src[p + 2])) as char] + UrlDecode(src[p + 3..], room - 1)
            else [if src[p] == '+' then ' ' else src[p]] + UrlDecode(src[p + 1..], room - 1)
  {
    assert src[p..][1..] == src[p + 1..];
    if p + 2 < |src| { assert src[p..][1] == src[p + 1] && src[p..][2] == src[p + 2] && src[p..][3..] == src[p + 3..]; }
  }

  // ---- parse_formdata --------------------------------------------------------------------

  datatype FormKey = FHostname | FIpAddr | FNetmask | FGateway | FProtocol | FMode0 | FMode1 | FUniverse0 | FUniverse1
                   | FLabel0 | FLabel1 | FHoldTime | FAddrMode | FContrast | FBacklight | FMonitor0 | FMonitor1

  function FormName(k: FormKey): string {
    match k
    case FHostname => "hostname"
    case FIpAddr => "ipaddr"
    case FNetmask => "netmask"
    case FGateway => "gateway"
    case FProtocol => "protocol"
    case FMode0 => "port0_mode"
    case FMode1 => "port1_mode"
    case FUniverse0 => "port0_universe"
    case FUniverse1 => "port1_universe"
    case FLabel0 => "port0_label"
    case FLabel1 => "port1_label"
    case FHoldTime => "dmx_hold_time"
    case FAddrMode => "addr_mode"
    case FContrast => "lcd_contrast"
    case FBacklight => "lcd_backlight"
    case FMonitor0 => "slot_monitor_0"
    case FMonitor1 => "slot_monitor_1"
  }

  const FORM_KEYS: seq<FormKey> := [FHostname, FIpAddr, FNetmask, FGateway, FProtocol, FMode0, FMode1, FUniverse0, FUniverse1,
                                    FLabel0, FLabel1, FHoldTime, FAddrMode, FContrast, FBacklight, FMonitor0, FMonitor1]

  // The chain of strcmp calls over the field names.
  function FormKeyIn(keys: seq<FormKey>, s: string): Option<FormKey> {
    if keys == [] then None else if s == FormName(keys[0]) then Some(keys[0]) else FormKeyIn(keys[1..], s)
  }

  function SetField(c: Node, k: FormKey, v: string): Node {
    match k
    case FHostname => c.(hostname := Truncate(v, 15))
    case FIpAddr => c.(ip := ParseIp(v))
    case FNetmask => c.(netmask := ParseIp(v))
    case FGateway => c.(gateway := ParseIp(v))
    case FProtocol => c.(protocol := ParseProtocol(v))
    case FMode0 => c.(port0 := c.port0.(mode := ParseMode(v)))
    case FMode1 => c.(port1 := c.port1.(mode := ParseMode(v)))
    case FUniverse0 => c.(port0 := c.port0.(universe := Clamp(AtoiValue(v), 1, 63999)))
    case FUniverse1 => c.(port1 := c.port1.(universe := Clamp(AtoiValue(v), 1, 63999)))
    case FLabel0 => c.(port0 := c.port0.(labelText := Truncate(v, 8)))
    case FLabel1 => c.(port1 := c.port1.(labelText := Truncate(v, 8)))
    case FHoldTime => c.(holdTime := Clamp(AtoiValue(v), 0, 300))
    case FAddrMode => c.(addrMode := ParseAddrMode(v))
    case FContrast => c.(contrast := Clamp(AtoiValue(v), 0, 255))
    case FBacklight => c.(backlight := ParseBacklight(v))
    case FMonitor0 => c.(monitor0 := Clamp(AtoiValue(v), 0, 512))
    case FMonitor1 => c.(monitor1 := Clamp(AtoiValue(v), 0, 512))
  }

  // What tells the seventeen names apart: their length and one character.
  ghost function FormRank(s: string): int {
    if |s| == 6 then 1
    else if |s| == 7 then (if s[0] == 'n' then 2 else 3)
    else if |s| == 8 then (if s[0] == 'h' then 0 else 4)
    else if |s| == 9 then 12
    else if |s| == 10 then (if s[4] == '0' then 5 else 6)
    else if |s| == 11 then (if s[4] == '0' then 9 else 10)
    else if |s| == 12 then 13
    else if |s| == 13 then (if s[0] == 'd' then 11 else 14)
    else if |s| == 14 then (if s[0] == 'p' then (if s[4] == '0' then 7 else 8) else if s[13] == '0' then 15 else 16)
    else 17
  }

  ghost function FormOrdinal(k: FormKey): int {
    match k
    case FHostname => 0 case FIpAddr => 1 case FNetmask => 2 case FGateway => 3 case FProtocol => 4 case FMode0 => 5
    case FMode1 => 6 case FUniverse0 => 7 case FUniverse1 => 8 case FLabel0 => 9 case FLabel1 => 10 case FHoldTime => 11
    case FAddrMode => 12 case FContrast => 13 case FBacklight => 14 case FMonitor0 => 15 case FMonitor1 => 16
  }

  lemma FormNamesDiffer(a: FormKey, b: FormKey)
    ensures FormName(a) == FormName(b) ==> a == b
  {
    FormRankOfName(a);
    FormRankOfName(b);
  }

  lemma FormRankOfName(k: FormKey)
    ensures FormRank(FormName(k)) == FormOrdinal(k)
  {
    match k case _ =>
  }

  lemma {:induction false} FormKeyFoundIn(keys: seq<FormKey>, k: FormKey)
    requires k in keys
    ensures FormKeyIn(keys, FormName(k)) == Some(k)
  {
    FormNamesDiffer(k, keys[0]);
    if k != keys[0] { FormKeyFoundIn(keys[1..], k); }
  }

  // Every field name selects its own field.
  lemma FormKeyFound(k: FormKey)
    ensures FormKeyIn(FORM_KEYS, FormName(k)) == Some(k)
  {
    assert k == FORM_KEYS[FormOrdinal(k)];
    FormKeyFoundIn(FORM_KEYS, k);
  }

  // The names the page uses.
  lemma FormNames()
    ensures forall i :: 0 <= i < |FORM_KEYS| ==> FormName(FORM_KEYS[i]) == FormNameList()[i]
    ensures forall k :: FORM_KEYS[FormOrdinal(k)] == k
  {
  }

  function FormNameList(): (names: seq<string>)
    ensures |names| == 17
  {
    ["hostname", "ipaddr", "netmask", "gateway", "protocol", "port0_mode", "port1_mode", "port0_universe", "port1_universe",
     "port0_label", "port1_label", "dmx_hold_time", "addr_mode", "lcd_contrast", "lcd_backlight", "slot_monitor_0", "slot_monitor_1"]
  }

  // One field of the form; an unknown name changes nothing.
  function Update(c: Node, key: string, v: string): Node {
    match FormKeyIn(FORM_KEYS, key)
    case None => c
    case Some(k) => SetField(c, k, v)
  }

  function After(s: string, sep: char): string {
    if s != "" && s[0] == sep then s[1..] else s
  }

  // The first field of a body: its key, its raw value, and what follows.
  function FirstField(body: string): (f: (string, string, string))
    requires body != ""
    ensures |f.2| < |body|
  {
    var n := Span(body, "=", true, 63);
    var rest := After(body[n..], '=');
    var m := Span(rest, "&", true, 191);
    (body[..n], rest[..m], After(rest[m..], '&'))
  }

  function ParseFields(c: Node, body: string): Node
    decreases |body|
  {
    if body == "" then c
    else
      var f := FirstField(body);
      ParseFields(Update(c, f.0, CString(UrlDecode(f.1, 191))), f.2)
  }

  // DHCP zeroes every address, wherever the field stood.
  function ZeroUnderDhcp(c: Node): Node {
    if c.addrMode == ADDR_MODE_DHCP then c.(ip := 0, netmask := 0, gateway := 0) else c
  }

  function ParseForm(c: Node, body: string): Node {
    ZeroUnderDhcp(ParseFields(c, body))
  }

  // Collect characters up to a separator or the buffer's limit.
  method Collect(body: string, p: nat, sep: char, limit: nat) returns (s: string, end: nat)
    requires p <= |body|
    ensures end == p + Span(body[p..], [sep], true, limit) && end <= |body| && s == body[p..end]
  {
    s, end := "", p;
    while end < |body| && body[end] != sep && end - p < limit
      invariant p <= end <= |body| && end - p <= limit && s == body[p..end]
      invariant forall i :: 0 <= i < end - p ==> InClass(body[p..][i], [sep], true)
    {
      assert body[p..][end - p] == body[end];
      s := s + [body[end]];
      end := end + 1;
    }
    if end < |body| { assert body[p..][end - p] == body[end]; }
    SpanIs(body[p..], [sep], true, limit, end - p);
  }

  method ParseFormdata(body: string, c: Node) returns (r: Node)
    ensures r == ParseForm(c, body)
  {
    hide Update, UrlDecode, CString, Span;
    r := c;
    var p := 0;
    assert body[0..] == body;
    while p < |body|
      invariant 0 <= p <= |body| && ParseFields(r, body[p..]) == ParseFields(c, body)
      decreases |body| - p
    {
      var key, e := Collect(body, p, '=', 63);
      var v := if e < |body| && body[e] == '=' then e + 1 else e;
      var raw, a := Collect(body, v, '&', 191);
      var next := if a < |body| && body[a] == '&' then a + 1 else a;
      FieldAt(body, p, e, v, a, next);
      var val := new char[192];
      var n := UrlDecodeInto(val, raw, 192);
      CStringOf(val[..], n);
      r := Update(r, key, CString(val[..]));
      p := next;
    }
    if r.addrMode == ADDR_MODE_DHCP { r := r.(ip := 0, netmask := 0, gateway := 0); }
  }

  lemma {:induction false} CStringOf(s: string, n: nat)
    requires n < |s| && s[n] == '\0'
    ensures CString(s) == CString(s[..n])
  {
    if n > 0 && s[0] != '\0' {
      assert s[..n][1..] == s[1..][..n - 1];
      CStringOf(s[1..], n - 1);
    }
  }

  lemma AfterAt(body: string, i: nat, j: nat, sep: char)
    requires i <= |body| && j == if i < |body| && body[i] == sep then i + 1 else i
    ensures After(body[i..], sep) == body[j..]
  {
  }

  lemma FieldParts(s: string, n: nat, rest: string, m: nat)
    requires s != "" && n == Span(s, "=", true, 63) && rest == After(s[n..], '=') && m == Span(rest, "&", true, 191)
    ensures FirstField(s) == (s[..n], rest[..m], After(rest[m..], '&'))
  {
    hide Span, After;
  }

  lemma FieldAt(body: string, p: nat, e: nat, v: nat, a: nat, next: nat)
    requires p < |body| && e == p + Span(body[p..], "=", true, 63) && e <= |body|
    requires v == if e < |body| && body[e] == '=' then e + 1 else e
    requires a == v + Span(body[v..], "&", true, 191) && a <= |body|
    requires next == if a < |body| && body[a] == '&' then a + 1 else a
    ensures p < next <= |body| && FirstField(body[p..]) == (body[p..e], body[v..a], body[next..])
  {
    hide Span, After;
    var s, rest := body[p..], body[v..];
    var n, m := e - p, a - v;
    SliceOf(body, p, e);
    AfterAt(body, e, v, '=');
    assert n == Span(s, "=", true, 63) && s[..n] == body[p..e] && After(s[n..], '=') == rest;
    SliceOf(body, v, a);
    AfterAt(body, a, next, '&');
    assert m == Span(rest, "&", true, 191) && rest[..m] == body[v..a] && After(rest[m..], '&') == body[next..];
    FieldParts(s, n, rest, m);
  }

  // ---- Encoded bodies ----------------------------------------------------------------------

  datatype Field = Field(key: string, raw: string, value: string)

  // A field the parser's buffers hold, however its value is escaped.
  ghost predicate WellFormed(f: Field) {
    && |f.key| <= 63 && '=' !in f.key
    && |f.raw| <= 191 && '&' !in f.raw
    && Encodes(f.raw, f.value) && |f.value| <= 191 && '\0' !in f.value
  }

  function Body(fs: seq<Field>): string {
    if fs == [] then ""
    else fs[0].key + "=" + fs[0].raw + (if |fs| == 1 then "" else "&" + Body(fs[1..]))
  }

  // The updates in order.
  function UpdateAll(c: Node, fs: seq<Field>): Node
    decreases |fs|
  {
    if fs == [] then c else UpdateAll(Update(c, fs[0].key, fs[0].value), fs[1..])
  }

  lemma SpanKey(key: string, rest: string)
    requires |key| <= 63 && '=' !in key
    ensures Span(key + ("=" + rest), "=", true, 63) == |key|
  {
    SpanIs(key + ("=" + rest), "=", true, 63, |key|);
  }

  lemma SpanRaw(raw: string, rest: string)
    requires |raw| <= 191 && '&' !in raw && (rest == "" || rest[0] == '&')
    ensures Span(raw + rest, "&", true, 191) == |raw|
  {
    SpanIs(raw + rest, "&", true, 191, |raw|);
  }

  lemma SplitField(key: string, raw: string, rest: string)
    requires |key| <= 63 && '=' !in key && |raw| <= 191 && '&' !in raw && (rest == "" || rest[0] == '&')
    ensures FirstField(key + ("=" + (raw + rest))) == (key, raw, After(rest, '&'))
  {
    hide Span;
    var tail := "=" + (raw + rest);
    var body := key + tail;
    SpanKey(key, raw + rest);
    assert body[..|key|] == key && body[|key|..] == tail;
    assert tail[1..] == raw + rest;
    assert After(tail, '=') == raw + rest;
    SpanRaw(raw, rest);
    assert (raw + rest)[..|raw|] == raw && (raw + rest)[|raw|..] == rest;
  }

  lemma BodyStarts(fs: seq<Field>)
    requires fs != []
    ensures Body(fs) == fs[0].key + ("=" + (fs[0].raw + (if |fs| == 1 then "" else "&" + Body(fs[1..]))))
  {
    Regroup(fs[0].key, "=", fs[0].raw, if |fs| == 1 then "" else "&" + Body(fs[1..]));
  }

  lemma Regroup(a: string, b: string, c: string, d: string)
    ensures a + b + c + d == a + (b + (c + d))
  {
  }

  lemma BehindField(next: string)
    ensures After("", '&') == "" && After("&" + next, '&') == next
  {
  }

  lemma FirstOfBody(fs: seq<Field>)
    requires fs != [] && WellFormed(fs[0])
    ensures Body(fs) != "" && FirstField(Body(fs)) == (fs[0].key, fs[0].raw, if |fs| == 1 then "" else Body(fs[1..]))
  {
    hide FirstField, Encodes, After, Body;
    var f := fs[0];
    var rest := if |fs| == 1 then "" else "&" + Body(fs[1..]);
    BodyStarts(fs);
    SplitField(f.key, f.raw, rest);
    BehindField(if |fs| == 1 then "" else Body(fs[1..]));
  }

  lemma {:induction false} ParseEncodedFields(c: Node, fs: seq<Field>)
    requires forall i :: 0 <= i < |fs| ==> WellFormed(fs[i])
    ensures ParseFields(c, Body(fs)) == UpdateAll(c, fs)
    decreases |fs|
  {
    hide Update, FirstField, UrlDecode, Encodes;
    if fs != [] {
      var f := fs[0];
      FirstOfBody(fs);
      DecodeInverts(f.raw, f.value, 191);
      ParseEncodedFields(Update(c, f.key, f.value), fs[1..]);
      if |fs| == 1 { assert Body(fs[1..]) == ""; }
    }
  }

  // Parsing an encoded body applies its updates in order, then zeroes the addresses under DHCP.
  lemma ParseEncodedForm(c: Node, fs: seq<Field>)
    requires forall i :: 0 <= i < |fs| ==> WellFormed(fs[i])
    ensures ParseForm(c, Body(fs)) == ZeroUnderDhcp(UpdateAll(c, fs))
  {
    ParseEncodedFields(c, fs);
  }

  // ---- What a body forces and what it leaves ------------------------------------------------

  // The body has a field of this name.
  predicate Posts(body: string, k: FormKey)
    decreases |body|
  {
    body != "" && (FormKeyIn(FORM_KEYS, FirstField(body).0) == Some(k) || Posts(FirstField(body).2, k))
  }

  predicate FieldInRange(k: FormKey, c: Node) {
    match k
    case FProtocol => PROTO_NONE <= c.protocol <= PROTO_SHOWNET
    case FMode0 => c.port0.mode in {DMX_MODE_OFF, DMX_MODE_TX, DMX_MODE_RX}
    case FMode1 => c.port1.mode in {DMX_MODE_OFF, DMX_MODE_TX, DMX_MODE_RX}
    case FUniverse0 => 1 <= c.port0.universe <= 63999
    case FUniverse1 => 1 <= c.port1.universe <= 63999
    case FHoldTime => c.holdTime <= 300
    case FAddrMode => NamedAddrMode(c.addrMode)
    case FContrast => c.contrast <= 255
    case FBacklight => c.backlight in {LCD_BACKLIGHT_OFF, LCD_BACKLIGHT_ON, LCD_BACKLIGHT_AUTO}
    case FMonitor0 => c.monitor0 <= 512
    case FMonitor1 => c.monitor1 <= 512
    case _ => true
  }

  predicate FieldKept(k: FormKey, a: Node, b: Node) {
    match k
    case FHostname => a.hostname == b.hostname
    case FIpAddr => a.ip == b.ip
    case FNetmask => a.netmask == b.netmask
    case FGateway => a.gateway == b.gateway
    case FProtocol => a.protocol == b.protocol
    case FMode0 => a.port0.mode == b.port0.mode
    case FMode1 => a.port1.mode == b.port1.mode
    case FUniverse0 => a.port0.universe == b.port0.universe
    case FUniverse1 => a.port1.universe == b.port1.universe
    case FLabel0 => a.port0.labelText == b.port0.labelText
    case FLabel1 => a.port1.labelText == b.port1.labelText
    case FHoldTime => a.holdTime == b.holdTime
    case FAddrMode => a.addrMode == b.addrMode
    case FContrast => a.contrast == b.contrast
    case FBacklight => a.backlight == b.backlight
    case FMonitor0 => a.monitor0 == b.monitor0
    case FMonitor1 => a.monitor1 == b.monitor1
  }

  predicate IsAddress(k: FormKey) { k.FIpAddr? || k.FNetmask? || k.FGateway? }

  lemma SetForces(c: Node, k: FormKey, v: string, other: FormKey)
    ensures FieldInRange(k, SetField(c, k, v))
    ensures other != k ==> FieldKept(other, SetField(c, k, v), c)
  {
    hide ParseIp, AtoiValue, ParseMode, ParseProtocol, ParseAddrMode, ParseBacklight, Truncate;
    ParsersEnumerate(v);
  }

  lemma KeptInRange(k: FormKey, a: Node, b: Node, c: Node)
    requires FieldKept(k, a, b)
    ensures FieldInRange(k, b) ==> FieldInRange(k, a)
    ensures FieldKept(k, b, c) ==> FieldKept(k, a, c)
  {
  }

  lemma UpdateForces(c: Node, key: string, v: string, k: FormKey)
    ensures FormKeyIn(FORM_KEYS, key) == Some(k) ==> FieldInRange(k, Update(c, key, v))
    ensures FormKeyIn(FORM_KEYS, key) != Some(k) ==> FieldKept(k, Update(c, key, v), c)
  {
    hide SetField, FieldInRange, FormKeyIn;
    if FormKeyIn(FORM_KEYS, key).Some? { SetForces(c, FormKeyIn(FORM_KEYS, key).value, v, k); }
  }

  // A posted field ends up in range, a field not posted keeps its value.
  lemma {:induction false} FieldsForce(c: Node, body: string, k: FormKey)
    ensures Posts(body, k) ==> FieldInRange(k, ParseFields(c, body))
    ensures !Posts(body, k) ==> FieldKept(k, ParseFields(c, body), c)
    decreases |body|
  {
    hide Update, UrlDecode, FirstField, CString, FieldInRange, FieldKept, FormKeyIn;
    if body != "" {
      var f := FirstField(body);
      var v := CString(UrlDecode(f.1, 191));
      UpdateForces(c, f.0, v, k);
      FieldsForce(Update(c, f.0, v), f.2, k);
      if !Posts(f.2, k) { KeptInRange(k, ParseFields(c, body), Update(c, f.0, v), c); }
    } else {
      KeptSame(k, c);
    }
  }

  lemma KeptSame(k: FormKey, c: Node)
    ensures FieldKept(k, c, c)
  {
  }

  lemma SetKeepsTypes(c: Node, k: FormKey, v: string)
    requires Typed(c) && '\0' !in v
    ensures Typed(SetField(c, k, v)) && (Enumerated(c) ==> Enumerated(SetField(c, k, v)))
  {
    hide ParseIp, AtoiValue, ParseMode, ParseProtocol, ParseAddrMode, ParseBacklight;
    ParsersEnumerate(v);
  }

  lemma UpdateKeepsTypes(c: Node, key: string, v: string)
    requires Typed(c) && '\0' !in v
    ensures Typed(Update(c, key, v)) && (Enumerated(c) ==> Enumerated(Update(c, key, v)))
  {
    hide SetField, Enumerated, FormKeyIn, Typed;
    if FormKeyIn(FORM_KEYS, key).Some? { SetKeepsTypes(c, FormKeyIn(FORM_KEYS, key).value, v); }
  }

  lemma {:induction false} FieldsKeepTypes(c: Node, body: string)
    requires Typed(c)
    ensures Typed(ParseFields(c, body)) && (Enumerated(c) ==> Enumerated(ParseFields(c, body)))
    decreases |body|
  {
    hide Update, UrlDecode, FirstField, CString, Enumerated, Typed;
    if body != "" {
      var f := FirstField(body);
      var v := CString(UrlDecode(f.1, 191));
      UpdateKeepsTypes(c, f.0, v);
      FieldsKeepTypes(Update(c, f.0, v), f.2);
    }
  }

  // Whatever configuration a body is posted over, every posted field ends up in its range
  // and every other keeps its value, except that DHCP leaves no address.
  lemma FormInRange(c: Node, body: string)
    requires Typed(c)
    ensures var r := ParseForm(c, body);
            && Typed(r) && (Enumerated(c) ==> Enumerated(r))
            && (forall k :: Posts(body, k) ==> FieldInRange(k, r))
            && (forall k :: !Posts(body, k) && (r.addrMode != ADDR_MODE_DHCP || !IsAddress(k)) ==> FieldKept(k, r, c))
            && (r.addrMode == ADDR_MODE_DHCP ==> r.ip == 0 && r.netmask == 0 && r.gateway == 0)
  {
    hide ParseFields, Posts, Enumerated, FieldInRange, FieldKept;
    var p := ParseFields(c, body);
    FieldsKeepTypes(c, body);
    ZeroedKeeps(p);
    forall k ensures (Posts(body, k) ==> FieldInRange(k, ZeroUnderDhcp(p)))
                     && (!Posts(body, k) && (p.addrMode != ADDR_MODE_DHCP || !IsAddress(k)) ==> FieldKept(k, ZeroUnderDhcp(p), c)) {
      FieldsForce(c, body, k);
      ZeroedField(p, k);
      if p.addrMode != ADDR_MODE_DHCP || !IsAddress(k) { KeptInRange(k, ZeroUnderDhcp(p), p, c); }
    }
  }

  lemma ZeroedKeeps(p: Node)
    ensures Typed(p) ==> Typed(ZeroUnderDhcp(p))
    ensures Enumerated(p) ==> Enumerated(ZeroUnderDhcp(p))
  {
  }

  lemma ZeroedField(p: Node, k: FormKey)
    ensures p.addrMode != ADDR_MODE_DHCP || !IsAddress(k) ==> FieldKept(k, ZeroUnderDhcp(p), p)
    ensures IsAddress(k) ==> FieldInRange(k, ZeroUnderDhcp(p))
  {
  }

  // ---- What a body says ----------------------------------------------------------------------

  // The fields a body is cut into: name and decoded value, up to a NUL.
  function FieldsOf(body: string): seq<(string, string)>
    decreases |body|
  {
    if body == "" then []
    else
      var f := FirstField(body);
      [(f.0, CString(UrlDecode(f.1, 191)))] + FieldsOf(f.2)
  }

  // An encoded body is cut into the fields it encodes.
  lemma {:induction false} EncodedFields(fs: seq<Field>)
    requires forall i :: 0 <= i < |fs| ==> WellFormed(fs[i])
    ensures |FieldsOf(Body(fs))| == |fs| && forall i :: 0 <= i < |fs| ==> FieldsOf(Body(fs))[i] == (fs[i].key, fs[i].value)
  {
    hide FirstField, UrlDecode, Encodes;
    if fs != [] {
      FirstOfBody(fs);
      DecodeInverts(fs[0].raw, fs[0].value, 191);
      EncodedFields(fs[1..]);
      if |fs| == 1 { assert Body(fs[1..]) == ""; }
    }
  }

  // The field of the configuration is what the posted value says, within its range.
  ghost predicate FieldSays(k: FormKey, v: string, r: Node) {
    match k
    case FHostname => r.hostname == First(v, 15)
    case FIpAddr => r.ip == ParseIp(v)
    case FNetmask => r.netmask == ParseIp(v)
    case FGateway => r.gateway == ParseIp(v)
    case FProtocol => r.protocol == ProtocolOf(v)
    case FMode0 => r.port0.mode == ModeOf(v)
    case FMode1 => r.port1.mode == ModeOf(v)
    case FUniverse0 => r.port0.universe == Nearest(AtoiValue(v), 1, 63999)
    case FUniverse1 => r.port1.universe == Nearest(AtoiValue(v), 1, 63999)
    case FLabel0 => r.port0.labelText == First(v, 8)
    case FLabel1 => r.port1.labelText == First(v, 8)
    case FHoldTime => r.holdTime == Nearest(AtoiValue(v), 0, 300)
    case FAddrMode => r.addrMode == AddrModeOf(v)
    case FContrast => r.contrast == Nearest(AtoiValue(v), 0, 255)
    case FBacklight => r.backlight == BacklightOf(v)
    case FMonitor0 => r.monitor0 == Nearest(AtoiValue(v), 0, 512)
    case FMonitor1 => r.monitor1 == Nearest(AtoiValue(v), 0, 512)
  }

  lemma SetSays(c: Node, k: FormKey, v: string)
    ensures FieldSays(k, v, SetField(c, k, v))
  {
    hide ParseIp, AtoiValue, ParseMode, ParseProtocol, ParseAddrMode, ParseBacklight;
    SpellingsMean(v);
  }

  lemma SaysKept(k: FormKey, v: string, a: Node, b: Node)
    requires FieldSays(k, v, a) && FieldKept(k, b, a)
    ensures FieldSays(k, v, b)
  {
    hide ParseIp, AtoiValue;
  }

  // Field j is the last of its name.
  ghost predicate LastOf(fields: seq<(string, string)>, name: string, j: int) {
    0 <= j < |fields| && fields[j].0 == name && forall i :: j < i < |fields| ==> fields[i].0 != name
  }

  lemma {:induction false} NotPosted(c: Node, body: string, k: FormKey)
    requires forall i :: 0 <= i < |FieldsOf(body)| ==> FieldsOf(body)[i].0 != FormName(k)
    ensures FieldKept(k, ParseFields(c, body), c)
    decreases |body|
  {
    hide Update, UrlDecode, FirstField, CString, FieldKept, FormName;
    if body == "" {
      KeptSame(k, c);
    } else {
      var f := FirstField(body);
      var v := CString(UrlDecode(f.1, 191));
      assert FieldsOf(body)[0] == (f.0, v);
      assert forall i :: 0 <= i < |FieldsOf(f.2)| ==> FieldsOf(f.2)[i] == FieldsOf(body)[i + 1];
      OtherName(f.0, k);
      UpdateForces(c, f.0, v, k);
      NotPosted(Update(c, f.0, v), f.2, k);
      KeptInRange(k, ParseFields(c, body), Update(c, f.0, v), c);
    }
  }

  lemma {:induction false} OnlyItsName(keys: seq<FormKey>, s: string, k: FormKey)
    ensures FormKeyIn(keys, s) == Some(k) ==> s == FormName(k)
  {
    if keys != [] { OnlyItsName(keys[1..], s, k); }
  }

  lemma OtherName(s: string, k: FormKey)
    ensures FormKeyIn(FORM_KEYS, s) == Some(k) <==> s == FormName(k)
  {
    hide FormName;
    OnlyItsName(FORM_KEYS, s, k);
    FormKeyFound(k);
  }

  lemma {:induction false} LastSets(c: Node, body: string, k: FormKey, j: int)
    requires LastOf(FieldsOf(body), FormName(k), j)
    ensures FieldSays(k, FieldsOf(body)[j].1, ParseFields(c, body))
    decreases |body|
  {
    hide UrlDecode, FirstField, CString, FieldKept, FieldSays, FormName, SetField;
    var f := FirstField(body);
    var v := CString(UrlDecode(f.1, 191));
    var rest := FieldsOf(f.2);
    assert FieldsOf(body) == [(f.0, v)] + rest;
    var next := Update(c, f.0, v);
    assert forall i :: 0 <= i < |rest| ==> rest[i] == FieldsOf(body)[i + 1];
    if j > 0 {
      LastSets(next, f.2, k, j - 1);
    } else {
      OtherName(f.0, k);
      SetSays(c, k, v);
      NotPosted(next, f.2, k);
      SaysKept(k, v, next, ParseFields(next, f.2));
    }
  }

  // Whatever the body, the last field of a name decides, except that DHCP leaves no address.
  lemma LastFieldWins(c: Node, body: string, k: FormKey, j: int)
    requires LastOf(FieldsOf(body), FormName(k), j)
    ensures var r := ParseForm(c, body);
            if IsAddress(k) && r.addrMode == 1 then r.ip == 0 && r.netmask == 0 && r.gateway == 0 else FieldSays(k, FieldsOf(body)[j].1, r)
  {
    hide ParseFields, FieldsOf, FieldSays, FieldKept;
    LastSets(c, body, k, j);
    ZeroedField(ParseFields(c, body), k);
    if !(IsAddress(k) && ParseForm(c, body).addrMode == 1) { SaysKept(k, FieldsOf(body)[j].1, ParseFields(c, body), ParseForm(c, body)); }
  }

  // The value a form shows for a field.
  function FormText(k: FormKey, d: Node): string {
    match k
    case FHostname => d.hostname
    case FIpAddr => PrintIp(d.ip)
    case FNetmask => PrintIp(d.netmask)
    case FGateway => PrintIp(d.gateway)
    case FProtocol => ProtocolText(d.protocol)
    case FMode0 => ModeText(d.port0.mode)
    case FMode1 => ModeText(d.port1.mode)
    case FUniverse0 => Dec(d.port0.universe)
    case FUniverse1 => Dec(d.port1.universe)
    case FLabel0 => d.port0.labelText
    case FLabel1 => d.port1.labelText
    case FHoldTime => Dec(d.holdTime)
    case FAddrMode => AddrModeText(d.addrMode)
    case FContrast => Dec(d.contrast)
    case FBacklight => BacklightText(d.backlight)
    case FMonitor0 => Dec(d.monitor0)
    case FMonitor1 => Dec(d.monitor1)
  }

  // A configuration a form can show and set.
  predicate Postable(d: Node) {
    && Typed(d) && 0 <= d.protocol <= 3 && 0 <= d.port0.mode <= 2 && 0 <= d.port1.mode <= 2
    && 1 <= d.port0.universe <= 63999 && 1 <= d.port1.universe <= 63999 && d.holdTime <= 300
    && d.addrMode <= 2 && d.backlight <= 2 && d.monitor0 <= 512 && d.monitor1 <= 512
    && (d.addrMode == 1 ==> d.ip == 0 && d.netmask == 0 && d.gateway == 0)
  }

  lemma ShownSays(k: FormKey, d: Node, r: Node)
    requires Postable(d) && FieldSays(k, FormText(k, d), r)
    ensures FieldKept(k, r, d)
  {
    hide ParseIp, PrintIp, AtoiValue, Dec;
    match k
    case FIpAddr => ParsePrintedIp(d.ip);
    case FNetmask => ParsePrintedIp(d.netmask);
    case FGateway => ParsePrintedIp(d.gateway);
    case FUniverse0 => AtoiOfDec(d.port0.universe);
    case FUniverse1 => AtoiOfDec(d.port1.universe);
    case FHoldTime => AtoiOfDec(d.holdTime);
    case FContrast => AtoiOfDec(d.contrast);
    case FMonitor0 => AtoiOfDec(d.monitor0);
    case FMonitor1 => AtoiOfDec(d.monitor1);
    case _ =>
  }

  // Field j posts what the form shows for the last time.
  ghost predicate ShownAt(body: string, k: FormKey, d: Node, j: int) {
    LastOf(FieldsOf(body), FormName(k), j) && FieldsOf(body)[j].1 == FormText(k, d)
  }

  ghost predicate Shown(body: string, k: FormKey, d: Node) {
    exists j :: ShownAt(body, k, d, j)
  }

  // Posting every field of a configuration as a form shows it, in any order, over any
  // other configuration gives that configuration, but for what no form posts.
  lemma PostedWhole(c: Node, d: Node, body: string)
    requires Postable(d) && forall k :: Shown(body, k, d)
    ensures ParseForm(c, body) == d.(mac := c.mac, port0 := d.port0.(protocol := c.port0.protocol), port1 := d.port1.(protocol := c.port1.protocol))
  {
    hide ParseForm, FieldsOf, FormText, FieldSays, ShownAt, Typed, FieldKept;
    var r := ParseForm(c, body);
    forall k ensures FieldKept(k, r, d) {
      assert Shown(body, FAddrMode, d) && Shown(body, k, d);
      var j :| ShownAt(body, k, d, j);
      Mode(c, d, body);
      ShownField(c, d, body, k, j);
    }
    NotInForm(c, body);
    KeptAll(c, d, r);
  }

  lemma ShownField(c: Node, d: Node, body: string, k: FormKey, j: int)
    requires Postable(d) && ShownAt(body, k, d, j)
    requires ParseForm(c, body).addrMode == d.addrMode || k == FAddrMode
    ensures FieldKept(k, ParseForm(c, body), d)
  {
    hide ParseForm, FieldsOf, FormText, FieldSays, Typed;
    LastFieldWins(c, body, k, j);
    if FieldSays(k, FormText(k, d), ParseForm(c, body)) { ShownSays(k, d, ParseForm(c, body)); }
  }

  lemma Mode(c: Node, d: Node, body: string)
    requires Postable(d) && Shown(body, FAddrMode, d)
    ensures ParseForm(c, body).addrMode == d.addrMode
  {
    hide ParseForm, ShownAt, Postable;
    var j :| ShownAt(body, FAddrMode, d, j);
    ShownField(c, d, body, FAddrMode, j);
  }

  // What no form posts is kept.
  lemma {:induction false} NotInFields(c: Node, body: string)
    ensures var r := ParseFields(c, body);
            r.mac == c.mac && r.port0.protocol == c.port0.protocol && r.port1.protocol == c.port1.protocol
    decreases |body|
  {
    hide UrlDecode, FirstField, CString, FormKeyIn, ParseIp, AtoiValue, ParseMode, ParseProtocol, ParseAddrMode, ParseBacklight;
    if body != "" {
      var f := FirstField(body);
      NotInFields(Update(c, f.0, CString(UrlDecode(f.1, 191))), f.2);
    }
  }

  lemma NotInForm(c: Node, body: string)
    ensures var r := ParseForm(c, body);
            r.mac == c.mac && r.port0.protocol == c.port0.protocol && r.port1.protocol == c.port1.protocol
  {
    hide ParseFields;
    NotInFields(c, body);
  }

  lemma KeptAll(c: Node, d: Node, r: Node)
    requires forall k :: FieldKept(k, r, d)
    requires r.mac == c.mac && r.port0.protocol == c.port0.protocol && r.port1.protocol == c.port1.protocol
    ensures r == d.(mac := c.mac, port0 := d.port0.(protocol := c.port0.protocol), port1 := d.port1.(protocol := c.port1.protocol))
  {
    KeptRest(d, r);
    KeptPort0(d, r);
    KeptPort1(d, r);
  }

  lemma KeptRest(d: Node, r: Node)
    requires forall k :: FieldKept(k, r, d)
    ensures r.hostname == d.hostname && r.ip == d.ip && r.netmask == d.netmask && r.gateway == d.gateway && r.protocol == d.protocol
    ensures r.holdTime == d.holdTime && r.addrMode == d.addrMode && r.contrast == d.contrast && r.backlight == d.backlight
    ensures r.monitor0 == d.monitor0 && r.monitor1 == d.monitor1
  {
    assert FieldKept(FHostname, r, d) && FieldKept(FIpAddr, r, d) && FieldKept(FNetmask, r, d) && FieldKept(FGateway, r, d);
    assert FieldKept(FProtocol, r, d) && FieldKept(FHoldTime, r, d) && FieldKept(FAddrMode, r, d) && FieldKept(FContrast, r, d);
    assert FieldKept(FBacklight, r, d) && FieldKept(FMonitor0, r, d) && FieldKept(FMonitor1, r, d);
  }

  lemma KeptPort0(d: Node, r: Node)
    requires FieldKept(FMode0, r, d) && FieldKept(FUniverse0, r, d) && FieldKept(FLabel0, r, d)
    ensures r.port0 == d.port0.(protocol := r.port0.protocol)
  {
  }

  lemma KeptPort1(d: Node, r: Node)
    requires FieldKept(FMode1, r, d) && FieldKept(FUniverse1, r, d) && FieldKept(FLabel1, r, d)
    ensures r.port1 == d.port1.(protocol := r.port1.protocol)
  {
  }

  // ---- Form to file ---------------------------------------------------------------------------

  // Saving what a form made of any configuration with named values, over a saveable file,
  // and loading it returns it exactly when its names survive and its address mode is
  // named, as it is when it was before or the form sets it.
  lemma FormSaved(c: Node, body: string, prior: string)
    requires Typed(c) && Enumerated(c) && Saveable(Existing(prior))
    ensures var r := ParseForm(c, body);
            && Typed(r)
            && (LoadText(SaveText(r, MANAGED, false, prior)) == Stored(r) <==> NamesKept(r) && NamedAddrMode(r.addrMode))
            && (NamedAddrMode(r.addrMode) <==> NamedAddrMode(c.addrMode) || Posts(body, FAddrMode))
  {
    hide ParseForm, NamesKept, Enumerated, LoadText, SaveText, Saveable, Posts, Typed;
    FormInRange(c, body);
    var r := ParseForm(c, body);
    assert if Posts(body, FAddrMode) then FieldInRange(FAddrMode, r) else FieldKept(FAddrMode, r, c);
    PutGetExactly(r, prior);
  }

  // A configuration without a MAC address gets that of the network interface.
  function WithMac(c: Node, mac: seq<nat>): Node {
    if c.mac == [0, 0, 0, 0, 0, 0] then c.(mac := mac) else c
  }

  predicate IsMac(mac: seq<nat>) {
    |mac| == 6 && forall i :: 0 <= i < 6 ==> mac[i] < 256
  }

  // Form to file, as the program runs it: load the file, complete the address, apply the
  // body, save over the file.  For every saveable file and every body the next load
  // returns the result exactly when its names survive.
  lemma FormToFile(text: string, mac: seq<nat>, body: string)
    requires Saveable(Existing(text)) && IsMac(mac)
    ensures var c := LoadText(text); var r := ParseForm(WithMac(c, mac), body);
            && Typed(r) && (LoadText(SaveText(r, MANAGED, false, text)) == Stored(r) <==> NamesKept(r))
            && r.mac == if forall i :: 0 <= i < 6 ==> c.mac[i] == 0 then mac else c.mac
  {
    hide ParseForm, NamesKept, LoadText, SaveText, Saveable, Posts;
    LoadedIsLoadable(text);
    var c := LoadText(text);
    FormSaved(WithMac(c, mac), body, text);
    NotInForm(WithMac(c, mac), body);
    ZeroMac(c.mac);
  }

  lemma ZeroMac(mac: seq<nat>)
    requires |mac| == 6
    ensures mac == [0, 0, 0, 0, 0, 0] <==> forall i :: 0 <= i < 6 ==> mac[i] == 0
  {
    if forall i :: 0 <= i < 6 ==> mac[i] == 0 { assert mac == [0, 0, 0, 0, 0, 0]; }
  }

  // Without a file the defaults leave the address mode unset: then the form has to set it.
  lemma FormToNewFile(mac: seq<nat>, body: string)
    requires IsMac(mac)
    ensures var r := ParseForm(WithMac(Defaults(), mac), body);
            Typed(r) && (LoadText(SaveText(r, MANAGED, false, "")) == Stored(r) <==> NamesKept(r) && Posts(body, FAddrMode))
  {
    hide ParseForm, NamesKept, LoadText, SaveText, Saveable, Posts;
    EmptySaveable();
    FormSaved(WithMac(Defaults(), mac), body, "");
  }

  lemma EmptySaveable()
    ensures Existing("") == "" && Saveable("")
  {
    NewlineCloses("");
    ClosedIsUnglued(MANAGED, false, "");
  }
}
