// config.c as it runs: loops over buffers, arrays and FILE objects.
module ConfigStore {
  import opened Prelude
  import opened Numbers
  import opened Scanf
  import opened Printf
  import opened Stdio
  import opened Config
  import opened ConfigLines
  import opened ConfigLens
  import opened ConfigTheorems
  import opened ConfigRange

  // ---- trim --------------------------------------------------------------------------

  lemma {:induction false} SkipIs(s: string, n: nat)
    requires n <= |s| && (forall i :: 0 <= i < n ==> IsBlank(s[i])) && (n < |s| ==> !IsBlank(s[n]))
    ensures SkipBlanks(s) == s[n..]
  {
    if n > 0 { SkipIs(s[1..], n - 1); }
  }

  lemma {:induction false} RightIs(s: string, n: nat)
    requires n <= |s| && (forall i :: n <= i < |s| ==> IsBlank(s[i])) && (n > 0 ==> !IsBlank(s[n - 1]))
    ensures TrimRight(s) == s[..n]
  {
    if n < |s| {
      RightIs(s[..|s| - 1], n);
      assert s[..|s| - 1][..n] == s[..n];
    } else {
      assert s[..n] == s;
    }
  }

  lemma {:induction false} CStringIs(s: string, n: nat)
    requires n < |s| && s[n] == '\0' && '\0' !in s[..n]
    ensures CString(s) == s[..n]
  {
    if n > 0 {
      assert s[..n][0] == s[0] && s[1..][..n - 1] == s[..n][1..];
      CStringIs(s[1..], n - 1);
    }
  }

  // trim: the string left in the buffer from the returned position on.
  method TrimBuffer(str: array<char>, len: nat) returns (start: nat)
    requires len < str.Length && str[len] == '\0' && '\0' !in str[..len]
    modifies str
    ensures start <= len && CString(str[start..]) == Trim(old(str[..len]))
  {
    hide SkipBlanks, TrimRight, CString;
    ghost var text := str[..len];
    start := 0;
    while IsBlank(str[start])
      invariant 0 <= start <= len && forall i :: 0 <= i < start ==> IsBlank(text[i])
      decreases len - start
    {
      assert text[start] == str[start];
      start := start + 1;
    }
    SkipIs(text, start);
    ghost var rest := text[start..];
    assert start < len ==> text[start] == str[start] && !IsBlank(text[start]);
    if str[start] == '\0' {
      RightIs(rest, 0);
      CStringIs(str[start..], 0);
      return;
    }
    var end := len - 1;
    while end > start && IsBlank(str[end])
      invariant start <= end < len && forall i :: end < i < len ==> IsBlank(text[i])
    {
      assert text[end] == str[end];
      end := end - 1;
    }
    assert text[end] == str[end] && !IsBlank(text[end]);
    RightIs(rest, end + 1 - start);
    str[end + 1] := '\0';
    assert str[start..][..end + 1 - start] == rest[..end + 1 - start];
    CStringIs(str[start..], end + 1 - start);
  }

  // A buffer holding a C string, trimmed in place.
  method TrimCopy(s: string) returns (t: string)
    requires '\0' !in s
    ensures t == Trim(s)
  {
    var buf := new char[|s| + 1](i requires 0 <= i <= |s| => if i < |s| then s[i] else '\0');
    assert buf[..|s|] == s;
    var start := TrimBuffer(buf, |s|);
    t := CString(buf[start..]);
  }

  // ---- parse_mac -----------------------------------------------------------------------

  // -1 when no hex digit stands at p.
  method ParseHexByte(s: string, p: nat) returns (val: int, next: nat)
    requires p <= |s|
    ensures next == p + HexByte(s[p..]).0
    ensures val == if HexByte(s[p..]).0 == 0 then -1 else HexByte(s[p..]).1
  {
    val, next := 0, p;
    var digits := 0;
    while digits < 2 && next < |s| && HexValue(s[next]) >= 0
      invariant 0 <= digits <= 2 && next == p + digits <= |s| && 0 <= val
      invariant digits >= 1 ==> HexValue(s[p]) >= 0
      invariant digits == 2 ==> HexValue(s[p + 1]) >= 0
      invariant val == (if digits == 0 then 0 else if digits == 1 then HexValue(s[p]) else 16 * HexValue(s[p]) + HexValue(s[p + 1]))
      decreases 2 - digits
    {
      val := 16 * val + HexValue(s[next]);
      next := next + 1;
      digits := digits + 1;
    }
    if digits == 0 { val := -1; }
  }

  lemma MacStep(s: string, p: nat, i: nat, mac: seq<nat>)
    requires p <= |s| && i < 6 && |mac| == 6
    ensures var b := HexByte(s[p..]); var next := p + b.0;
            && next <= |s|
            && (b.0 == 0 ==> ParseMacFrom(s[p..], i, mac) == mac)
            && (b.0 > 0 && (i == 5 || next == |s| || s[next] != ':') ==> ParseMacFrom(s[p..], i, mac) == mac[i := b.1])
            && (b.0 > 0 && i < 5 && next < |s| && s[next] == ':' ==>
                  ParseMacFrom(s[p..], i, mac) == ParseMacFrom(s[next + 1..], i + 1, mac[i := b.1]))
  {
    hide HexByte;
    var next := p + HexByte(s[p..]).0;
    assert s[p..][HexByte(s[p..]).0..] == s[next..];
    assert next < |s| ==> s[next..][0] == s[next] && s[next..][1..] == s[next + 1..];
  }

  // An address: n groups of one or two hex digits, with colons between them.  What
  // follows the last group does not matter.
  predicate HexGroups(s: string, n: nat)
    decreases n, 1
  {
    n == 0 || HexGroup(s, 1, n) || HexGroup(s, 2, n)
  }

  // The first of n groups has w digits.
  predicate HexGroup(s: string, w: nat, n: nat)
    requires n > 0
    decreases n, 0
  {
    && w <= |s| && (forall i :: 0 <= i < w ==> HexValue(s[i]) >= 0)
    && (n == 1 || (w < |s| && s[w] == ':' && HexGroups(s[w + 1..], n - 1)))
  }

  lemma HexGroupsStep(s: string, p: nat, i: nat)
    requires p <= |s| && i < 6
    ensures var b := HexByte(s[p..]); var next := p + b.0;
            && next <= |s|
            && (HexGroups(s[p..], 6 - i) <==>
                  b.0 > 0 && (i == 5 || (next < |s| && s[next] == ':' && HexGroups(s[next + 1..], 5 - i))))
  {
    var t := s[p..];
    if |t| > 1 { assert t[2..] == s[p + 2..] && t[1 + 1..] == s[p + 1 + 1..]; }
    if |t| > 2 { assert t[2 + 1..] == s[p + 2 + 1..]; }
  }

  // 0 exactly for a well-formed address; bytes read before a failure stay stored.
  method ParseMac(s: string, mac: array<nat>) returns (rc: int)
    requires mac.Length == 6
    modifies mac
    ensures mac[..] == ParseMacFrom(s, 0, old(mac[..]))
    ensures rc == if HexGroups(s, 6) then 0 else -1
  {
    hide HexByte, ParseMacFrom, HexGroups;
    var p, i := 0, 0;
    assert s[0..] == s;
    while i < 6
      invariant 0 <= i < 6 && 0 <= p <= |s|
      invariant HexGroups(s, 6) <==> HexGroups(s[p..], 6 - i)
      invariant ParseMacFrom(s, 0, old(mac[..])) == ParseMacFrom(s[p..], i, mac[..])
      decreases 6 - i
    {
      MacStep(s, p, i, mac[..]);
      HexGroupsStep(s, p, i);
      var val, next := ParseHexByte(s, p);
      if val < 0 { return -1; }
      ghost var before := mac[..];
      var stored: nat := val;
      mac[i] := stored;
      assert mac[..] == before[i := stored];
      if i == 5 { return 0; }
      if next == |s| || s[next] != ':' { return -1; }
      p := next + 1;
      i := i + 1;
    }
    return 0;
  }

  // ---- config_load ---------------------------------------------------------------------

  method ApplyLine(c: Node, line: string) returns (r: Node)
    requires |c.mac| == 6
    ensures r == LoadLine(c, line)
  {
    hide Scan, Matched, Trim, KeyOf, Apply;
    var text := CString(line);
    if text == "" || text[0] == '#' || text[0] == '\n' || text[0] == '\r' { return c; }
    var matched, outs := Sscanf(text, LINE_FORMAT);
    if matched != 2 || |outs| != 2 || !outs[0].Text? || !outs[1].Text? { return c; }
    ScanTexts(LINE_FORMAT, text, '\0');
    var k := TrimCopy(outs[0].t);
    var v := TrimCopy(outs[1].t);
    var key := KeyOf(k);
    if key.None? { return c; }
    r := Apply(c, key.value, v);
  }

  // 0 and the configuration the file denotes, or -1 and the defaults without a file.
  method ConfigLoad(disk: DiskFile) returns (rc: int, config: Node)
    modifies disk`present, disk`content
    ensures disk.present == old(disk.present) && disk.content == old(disk.content)
    ensures rc == if disk.present then 0 else -1
    ensures config == if disk.present then LoadText(disk.content) else Defaults()
    ensures Typed(config)
  {
    hide LoadLine, Lines, ChunkLength, Typed, InferAddrMode, MiniFile.Unread;
    config := Defaults();
    var f := Fopen(disk, 'r');
    if f == null { return -1, config; }
    ghost var text := disk.content;
    LoadedIsLoadable(text);
    ghost var rest := f.Unread();
    var more := true;
    while more
      invariant f.Valid() && f.mode == 'r' && f.disk == disk && fresh(f) && fresh(f.buf) && |config.mac| == 6
      invariant disk.content == text && disk.present
      invariant more ==> rest == f.Unread()
      invariant LoadLines(config, Lines(rest)) == LoadLines(Defaults(), Lines(text))
      invariant !more ==> rest == ""
      decreases more, |rest|
    {
      var line;
      more, line := f.Fgets(LINE_SIZE);
      LinesStep(rest);
      if more {
        config := ApplyLine(config, line);
        rest := rest[|line|..];
      } else {
        NoChunk(rest);
        rest := "";
      }
    }
    LinesStep(rest);
    Inferred(config);
    if config.addrMode == ADDR_MODE_SENTINEL {
      config := config.(addrMode := if config.ip == 0 then ADDR_MODE_DHCP else ADDR_MODE_STATIC);
    }
    var _ := f.Fclose();
    rc := 0;
  }

  lemma Inferred(c: Node)
    ensures InferAddrMode(c)
         == if c.addrMode == ADDR_MODE_SENTINEL then c.(addrMode := if c.ip == 0 then ADDR_MODE_DHCP else ADDR_MODE_STATIC) else c
  {
  }

  lemma LinesStep(text: string)
    ensures text == "" ==> Lines(text) == []
    ensures text != "" ==> var k := ChunkLength(text, LINE_SIZE - 1);
              Lines(text) != [] && Lines(text)[0] == text[..k] && Lines(text)[1..] == Lines(text[k..])
  {
  }

  lemma NoChunk(text: string)
    requires text[..ChunkLength(text, LINE_SIZE - 1)] == ""
    ensures text == ""
  {
  }

  // ---- _config_save_internal -------------------------------------------------------------

  // snprintf into a line buffer: the key's line as a C string.
  method FormatKey(k: Key, c: Node) returns (line: string)
    requires Typed(c)
    ensures line == KeyLine(k, c)
  {
    hide Format, Matches, KeyFormat, KeyArgs, KeyLine;
    FormatKeyIs(k, c);
    KeyLineWhole(k, c);
    var buf := new char[LINE_SIZE];
    var n := Vsnprintf(buf, LINE_SIZE, KeyFormat(k, c), KeyArgs(k, c));
    assert buf[..n] == KeyLine(k, c)[..n] && KeyLine(k, c)[..n] == KeyLine(k, c);
    CStringIs(buf[..], n);
    line := CString(buf[..]);
  }

  predicate Unrepeated(keys: seq<Key>) {
    forall i, j :: 0 <= i < j < |keys| ==> keys[i] != keys[j]
  }

  // Length of the line at p: strchr, strlen, then the buffer's limit.
  method LineLength(text: string, p: nat) returns (len: nat)
    requires p < |text|
    ensures len == ChunkLength(text[p..], LINE_SIZE - 1) && 0 < len <= |text| - p
  {
    var eol := p;
    while eol < |text| && text[eol] != '\n'
      invariant p <= eol <= |text| && forall i :: 0 <= i < eol - p ==> text[p..][i] != '\n'
    {
      assert text[p..][eol - p] == text[eol];
      eol := eol + 1;
    }
    len := if eol < |text| then eol - p + 1 else eol - p;
    assert eol < |text| ==> text[p..][eol - p] == '\n';
    if len >= LINE_SIZE { len := LINE_SIZE - 1; }
    ChunkLengthIs(text[p..], LINE_SIZE - 1, len);
  }

  // The index of a key in a list, or the list's length.
  method FindKey(keys: seq<Key>, name: string) returns (i: nat)
    ensures i <= |keys|
    ensures match KeyOf(name) case Some(k) => (i < |keys| ==> keys[i] == k) && (i == |keys| <==> k !in keys) case None => i == |keys|
  {
    i := 0;
    while i < |keys| && name != Name(keys[i])
      invariant 0 <= i <= |keys| && forall j :: 0 <= j < i ==> KeyOf(name) != Some(keys[j])
    {
      KeyOfName(name, keys[i]);
      i := i + 1;
    }
    if i < |keys| { KeyOfName(name, keys[i]); }
  }

  // One old line: written rewritten, verbatim, or not at all; the key it carried, if listed.
  method RewriteInto(f: MiniFile, c: Node, keys: seq<Key>, strict: bool, line: string, written: array<bool>)
    requires f.Valid() && f.mode == 'w' && Typed(c) && '\0' !in line && line != "" && written.Length == |keys|
    requires f.buf as object != written
    modifies f`bufPos, f.buf, f.disk`content, written
    ensures f.Valid() && f.Written() == old(f.Written()) + Join(RewriteLine(c, keys, strict, line))
    ensures forall i :: 0 <= i < |keys| ==> (written[i] ==> old(written[i]) || LineKey(line) == Some(keys[i]))
    ensures forall i :: 0 <= i < |keys| ==> old(written[i]) ==> written[i]
    ensures LineKey(line).Some? && LineKey(line).value in keys ==> exists i :: 0 <= i < |keys| && written[i] && keys[i] == LineKey(line).value
  {
    hide KeyLine, KeyOf, Trim, Scan, Matched;
    if line[0] != '#' && line[0] != '\n' && line[0] != '\r' {
      var matched, outs := Sscanf(line, LINE_FORMAT);
      if matched == 2 && |outs| == 2 && outs[0].Text? && outs[1].Text? {
        ScanTexts(LINE_FORMAT, line, '\0');
        var name := TrimCopy(outs[0].t);
        assert LineKey(line) == KeyOf(name);
        var i := FindKey(keys, name);
        if i < |keys| && KeyOf(name).Some? {
          var text := FormatKey(keys[i], c);
          var _ := f.Fputs(text);
          written[i] := true;
          JoinOne(text);
          return;
        }
        if strict {
          var j := FindKey(MANAGED, name);
          if KeyOf(name).Some? { AllManaged(KeyOf(name).value); }
          if j < |MANAGED| && KeyOf(name).Some? {
            JoinNone(f.Written());
            return;
          }
        }
      }
    }
    JoinOne(line);
    var _ := f.Fwrite(line, 1, |line|);
  }

  lemma JoinOne(line: string)
    ensures Join([line]) == line
  {
    assert [line][1..] == [];
  }

  lemma JoinNone(s: string)
    ensures s + Join([]) == s
  {
  }

  // The loop over the old text: every line in turn.
  method RewriteAll(f: MiniFile, c: Node, keys: seq<Key>, strict: bool, text: string, written: array<bool>)
    requires f.Valid() && f.mode == 'w' && Typed(c) && '\0' !in text && written.Length == |keys| && Unrepeated(keys)
    requires f.buf as object != written && forall i :: 0 <= i < |keys| ==> !written[i]
    modifies f`bufPos, f.buf, f.disk`content, written
    ensures f.Valid() && f.Written() == old(f.Written()) + Join(RewriteLines(c, keys, strict, Lines(text)))
    ensures forall i :: 0 <= i < |keys| ==> (written[i] <==> HasKey(Lines(text), keys[i]))
  {
    hide KeyLine, LineKey, Lines, ChunkLength, RewriteLine, RewriteLines, HasKey, Join;
    ghost var out := f.Written();
    ghost var done: seq<string> := [];
    var p := 0;
    assert text[0..] == text && [] + Lines(text) == Lines(text);
    Start(c, keys, strict, out);
    while p < |text|
      invariant 0 <= p <= |text| && f.Valid()
      invariant done + Lines(text[p..]) == Lines(text)
      invariant f.Written() == out + Join(RewriteLines(c, keys, strict, done))
      invariant forall i :: 0 <= i < |keys| ==> (written[i] <==> HasKey(done, keys[i]))
    {
      var len := LineLength(text, p);
      var line := text[p..p + len];
      LinesStep(text[p..]);
      assert text[p..][..len] == line && text[p..][len..] == text[p + len..];
      RewriteInto(f, c, keys, strict, line, written);
      ghost var next := done + [line];
      RewriteSnoc(c, keys, strict, done, line, out);
      forall i | 0 <= i < |keys| ensures written[i] <==> HasKey(next, keys[i]) {
        HasKeyAppend(done, [line], keys[i]);
        HasKeyOne(line, keys[i]);
      }
      assert next + Lines(text[p + len..]) == done + Lines(text[p..]);
      done := next;
      p := p + len;
    }
    LinesStep(text[p..]);
    assert done == Lines(text);
  }

  lemma Start(c: Node, keys: seq<Key>, strict: bool, out: string)
    requires Typed(c)
    ensures out + Join(RewriteLines(c, keys, strict, [])) == out
    ensures forall k :: !HasKey([], k)
  {
  }

  lemma RewriteSnoc(c: Node, keys: seq<Key>, strict: bool, done: seq<string>, line: string, out: string)
    requires Typed(c)
    ensures out + Join(RewriteLines(c, keys, strict, done)) + Join(RewriteLine(c, keys, strict, line))
         == out + Join(RewriteLines(c, keys, strict, done + [line]))
  {
    hide RewriteLine;
    RewriteAppend(c, keys, strict, done, [line]);
    RewriteSingle(c, keys, strict, line);
    JoinAppend(RewriteLines(c, keys, strict, done), RewriteLine(c, keys, strict, line));
  }

  // Step 3: the keys no old line carried.
  method AppendMissing(f: MiniFile, c: Node, keys: seq<Key>, ghost lines: seq<string>, written: array<bool>)
    requires f.Valid() && f.mode == 'w' && Typed(c) && written.Length == |keys| && f.buf as object != written
    requires forall i :: 0 <= i < |keys| ==> (written[i] <==> HasKey(lines, keys[i]))
    modifies f`bufPos, f.buf, f.disk`content
    ensures f.Valid() && f.Written() == old(f.Written()) + Join(MissingLines(c, keys, lines))
  {
    hide KeyLine, HasKey, Join, MissingLines;
    ghost var whole := f.Written() + Join(MissingLines(c, keys, lines));
    assert keys[0..] == keys;
    for i := 0 to |keys|
      invariant f.Valid() && whole == f.Written() + Join(MissingLines(c, keys[i..], lines))
      invariant forall j :: 0 <= j < |keys| ==> (written[j] <==> HasKey(lines, keys[j]))
    {
      MissingStep(c, keys, lines, i, f.Written());
      if !written[i] {
        var text := FormatKey(keys[i], c);
        var _ := f.Fputs(text);
      }
    }
    MissingEnd(c, keys[|keys|..], lines, f.Written());
  }

  lemma MissingStep(c: Node, keys: seq<Key>, lines: seq<string>, i: nat, out: string)
    requires Typed(c) && i < |keys|
    ensures out + Join(MissingLines(c, keys[i..], lines))
         == (if HasKey(lines, keys[i]) then out else out + KeyLine(keys[i], c)) + Join(MissingLines(c, keys[i + 1..], lines))
  {
    hide KeyLine, HasKey;
    assert keys[i..][1..] == keys[i + 1..];
    var rest := MissingLines(c, keys[i + 1..], lines);
    if HasKey(lines, keys[i]) {
      assert MissingLines(c, keys[i..], lines) == rest;
    } else {
      assert MissingLines(c, keys[i..], lines)[1..] == rest;
    }
  }

  lemma MissingEnd(c: Node, keys: seq<Key>, lines: seq<string>, out: string)
    requires Typed(c) && keys == []
    ensures out + Join(MissingLines(c, keys, lines)) == out
  {
  }

  // fopen, one fread of at most `limit` bytes, fclose; nothing without a file.
  method ReadBack(disk: DiskFile, limit: nat) returns (n: nat, data: string)
    modifies disk`present, disk`content
    ensures disk.present == old(disk.present) && disk.content == old(disk.content)
    ensures data == if disk.present then Truncate(disk.content, limit) else ""
    ensures n == |data|
  {
    hide MiniFile.Unread;
    n, data := 0, "";
    var f := Fopen(disk, 'r');
    if f != null {
      n, data := f.Fread(1, limit);
      var _ := f.Fclose();
    }
  }

  // Preserve-and-merge save of the listed keys; -1 and an untouched file when it cannot
  // be opened for writing.
  method ConfigSaveInternal(disk: DiskFile, c: Node, keys: seq<Key>, strict: bool) returns (rc: int)
    requires Typed(c) && Unrepeated(keys) && |keys| <= 20
    modifies disk`present, disk`content
    ensures rc == if disk.writable then 0 else -1
    ensures if disk.writable then disk.present && disk.content == SaveText(c, keys, strict, if old(disk.present) then old(disk.content) else "")
            else disk.present == old(disk.present) && disk.content == old(disk.content)
  {
    hide KeyLine, RewriteLines, MissingLines, Lines, HasKey, Join, MiniFile.Unread, MiniFile.Written;
    var _, data := ReadBack(disk, 2047);
    var existing := CString(data);
    assert existing == Existing(if old(disk.present) then old(disk.content) else "");
    var f := Fopen(disk, 'w');
    if f == null { return -1; }
    var written := new bool[|keys|](i => false);
    RewriteAll(f, c, keys, strict, existing, written);
    AppendMissing(f, c, keys, Lines(existing), written);
    JoinAppend(RewriteLines(c, keys, strict, Lines(existing)), MissingLines(c, keys, Lines(existing)));
    var _ := f.Fclose();
    return 0;
  }

  lemma ListsUnrepeated()
    ensures Unrepeated(MANAGED) && Unrepeated(STRAND)
  {
    forall i | 0 <= i < |MANAGED| ensures Ordinal(MANAGED[i]) == i {
    }
    forall i | 0 <= i < |STRAND| ensures Ordinal(STRAND[i]) == i {
    }
  }

  method ConfigSave(disk: DiskFile, c: Node) returns (rc: int)
    requires Typed(c)
    modifies disk`present, disk`content
    ensures rc == if disk.writable then 0 else -1
    ensures if disk.writable then disk.present && disk.content == SaveText(c, MANAGED, false, if old(disk.present) then old(disk.content) else "")
            else disk.present == old(disk.present) && disk.content == old(disk.content)
  {
    ListsUnrepeated();
    rc := ConfigSaveInternal(disk, c, MANAGED, false);
  }

  const STRAND_MAX_SIZE := 2048

  // -2 when the file written is too large for the flash, 0 otherwise.
  method ConfigSaveStrand(disk: DiskFile, c: Node) returns (rc: int)
    requires Typed(c)
    modifies disk`present, disk`content
    ensures if disk.writable then disk.present && disk.content == SaveText(c, STRAND, true, if old(disk.present) then old(disk.content) else "")
            else disk.present == old(disk.present) && disk.content == old(disk.content)
    ensures rc == if !disk.writable then -1 else if |disk.content| <= 2048 then 0 else -2
  {
    hide SaveText;
    ListsUnrepeated();
    rc := ConfigSaveInternal(disk, c, STRAND, true);
    if rc != 0 { return; }
    var n, _ := ReadBack(disk, STRAND_MAX_SIZE + 1);
    if n > STRAND_MAX_SIZE { return -2; }
    return 0;
  }
}
