// What every loaded configuration satisfies, whatever the file says.
module ConfigRange {
  import opened Prelude
  import opened Numbers
  import opened Scanf
  import opened Config
  import opened ConfigLens
  import opened ConfigParse
  import opened ConfigTheorems

  predicate Loadable(c: Node) {
    Typed(c) && Enumerated(c) && NamedAddrMode(c.addrMode)
  }

  lemma {:induction false} MacBytes(s: string, i: nat, mac: seq<nat>)
    requires |mac| == 6 && i <= 6 && forall j :: 0 <= j < 6 ==> mac[j] < 256
    ensures forall j :: 0 <= j < 6 ==> ParseMacFrom(s, i, mac)[j] < 256
    decreases 6 - i
  {
    hide HexByte;
    if i < 5 {
      var b := HexByte(s);
      var rest := s[b.0..];
      if b.0 > 0 && rest != "" && rest[0] == ':' { MacBytes(rest[1..], i + 1, mac[i := b.1]); }
    }
  }

  lemma ParsedNulFree(line: string)
    requires '\0' !in line
    ensures ParseLine(line).Some? ==> '\0' !in ParseLine(line).value.1
  {
    hide ParseLine, Trim, Span;
    LineFormatIs(line);
    if line != "" {
      var n := Span(line, "=", true, 63);
      if n < |line| { TrimKeepsOut(line[n + 1..][..Span(line[n + 1..], "\n\r", true, 191)], '\0'); }
    }
  }

  lemma ParsersEnumerate(v: string)
    ensures ParseMode(v) in {DMX_MODE_OFF, DMX_MODE_TX, DMX_MODE_RX}
    ensures PROTO_NONE <= ParseProtocol(v) <= PROTO_SHOWNET
    ensures NamedAddrMode(ParseAddrMode(v))
    ensures ParseBacklight(v) in {LCD_BACKLIGHT_OFF, LCD_BACKLIGHT_ON, LCD_BACKLIGHT_AUTO}
  {
  }

  lemma ApplyKeeps(c: Node, k: Key, v: string)
    requires Typed(c) && Enumerated(c) && '\0' !in v
    ensures Typed(Apply(c, k, v)) && Enumerated(Apply(c, k, v))
    ensures SamePorts(Apply(c, k, v), c)
    ensures Apply(c, k, v).addrMode == c.addrMode || NamedAddrMode(Apply(c, k, v).addrMode)
  {
    hide ParseIp, AtoiValue, ParseMacFrom, ParseMode, ParseProtocol, ParseAddrMode, ParseBacklight;
    ParsersEnumerate(v);
    MacBytes(v, 0, c.mac);
  }

  lemma LoadLineKeeps(c: Node, line: string)
    requires Typed(c) && Enumerated(c)
    ensures Typed(LoadLine(c, line)) && Enumerated(LoadLine(c, line))
    ensures SamePorts(LoadLine(c, line), c)
    ensures LoadLine(c, line).addrMode == c.addrMode || NamedAddrMode(LoadLine(c, line).addrMode)
  {
    hide ParseLine, KeyOf, Apply, Enumerated, NamedAddrMode;
    ParsedNulFree(CString(line));
    match ParseLine(CString(line))
    case None =>
    case Some(kv) => if KeyOf(kv.0).Some? { ApplyKeeps(c, KeyOf(kv.0).value, kv.1); }
  }

  lemma {:induction false} LoadLinesKeep(c: Node, ls: seq<string>)
    requires Typed(c) && Enumerated(c)
    ensures Typed(LoadLines(c, ls)) && Enumerated(LoadLines(c, ls))
    ensures SamePorts(LoadLines(c, ls), c)
    ensures LoadLines(c, ls).addrMode == c.addrMode || NamedAddrMode(LoadLines(c, ls).addrMode)
    decreases |ls|
  {
    hide LoadLine, Enumerated, NamedAddrMode;
    if ls != [] {
      LoadLineKeeps(c, ls[0]);
      LoadLinesKeep(LoadLine(c, ls[0]), ls[1..]);
    }
  }

  // Whatever a file holds, the configuration loaded from it fits its fields, and its
  // enumerations and monitors are in range.
  lemma LoadedIsLoadable(text: string)
    ensures Loadable(LoadText(text)) && ConfigTheorems.Stored(LoadText(text)) == LoadText(text)
  {
    hide LoadLines, Lines;
    LoadLinesKeep(Defaults(), Lines(text));
  }
}
