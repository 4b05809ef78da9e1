// The main results about the configuration store.
module ConfigTheorems {
  import opened Prelude
  import opened Numbers
  import opened Scanf
  import opened Printf
  import opened Stdio
  import opened Config
  import opened ConfigLines
  import opened ConfigParse
  import opened ConfigLens

  // ---- Loading a file whose managed lines were printed from c -----------------------

  ghost predicate PrintedFrom(c: Node, ls: seq<string>)
    requires Typed(c)
  {
    && (forall i :: 0 <= i < |ls| ==> '\0' !in ls[i])
    && (forall i :: 0 <= i < |ls| ==> LineKey(ls[i]).Some? ==> ParseLine(ls[i]) == ParseLine(KeyLine(LineKey(ls[i]).value, c)))
  }

  lemma LoadOne(c: Node, c0: Node, line: string)
    requires |c0.mac| == 6 && Typed(c) && OneLine(c) && PrintedFrom(c, [line])
    ensures var r := LoadLine(c0, line);
            && SamePorts(r, c0)
            && forall k :: (LineKey(line) == Some(k) || Same(k, c0, Canon(c))) ==> Same(k, r, Canon(c))
  {
    hide ParseLine, KeyOf, Apply, Canon, KeyLine, Same, ValueText;
    assert [line][0] == line;
    if LineKey(line).Some? {
      var k := LineKey(line).value;
      KeyLineParses(k, c);
      KeyOfName(Name(k), k);
      var v := Trim(UpToCr(ValueText(k, c)));
      assert LoadLine(c0, line) == Apply(c0, k, v);
      ApplyPrinted(c0, k, c);
      forall other | other != k && Same(other, c0, Canon(c)) ensures Same(other, Apply(c0, k, v), Canon(c)) {
        ApplyOthers(c0, k, v, other);
        SameTrans(other, Apply(c0, k, v), c0, Canon(c));
      }
      ApplyOthers(c0, k, v, if k == NodeAddr then HostName else NodeAddr);
    }
  }

  lemma {:induction false} LoadPrinted(c: Node, c0: Node, ls: seq<string>)
    requires |c0.mac| == 6 && Typed(c) && OneLine(c) && PrintedFrom(c, ls)
    ensures SamePorts(LoadLines(c0, ls), c0)
    ensures forall k :: (HasKey(ls, k) || Same(k, c0, Canon(c))) ==> Same(k, LoadLines(c0, ls), Canon(c))
    decreases |ls|
  {
    hide LineKey, LoadLine, KeyLine, Same, Canon;
    if ls != [] {
      assert PrintedFrom(c, [ls[0]]) && PrintedFrom(c, ls[1..]);
      LoadOne(c, c0, ls[0]);
      var c1 := LoadLine(c0, ls[0]);
      LoadPrinted(c, c1, ls[1..]);
      forall k | HasKey(ls, k) || Same(k, c0, Canon(c)) ensures HasKey(ls[1..], k) || Same(k, c1, Canon(c)) {
        if HasKey(ls, k) {
          var i :| 0 <= i < |ls| && LineKey(ls[i]) == Some(k);
          if i > 0 { assert ls[1..][i - 1] == ls[i]; }
        }
      }
      SamePortsTrans(LoadLines(c0, ls), c1, c0);
    }
  }

  lemma SamePortsTrans(a: Node, b: Node, c: Node)
    requires SamePorts(a, b) && SamePorts(b, c)
    ensures SamePorts(a, c)
  {
  }

  // ---- The shape of a saved file -------------------------------------------------------

  predicate Foreign(keys: seq<Key>, line: string) {
    LineKey(line).None? || LineKey(line).value !in keys
  }

  lemma HasKeyAppend(a: seq<string>, b: seq<string>, k: Key)
    ensures HasKey(a + b, k) <==> HasKey(a, k) || HasKey(b, k)
  {
    hide LineKey;
    if HasKey(a, k) {
      var i :| 0 <= i < |a| && LineKey(a[i]) == Some(k);
      assert (a + b)[i] == a[i];
    }
    if HasKey(b, k) {
      var i :| 0 <= i < |b| && LineKey(b[i]) == Some(k);
      assert (a + b)[|a| + i] == b[i];
    }
  }

  lemma HasKeyHead(ls: seq<string>, k: Key)
    requires ls != []
    ensures HasKey(ls, k) <==> LineKey(ls[0]) == Some(k) || HasKey(ls[1..], k)
  {
    hide LineKey;
    assert ls == [ls[0]] + ls[1..];
    HasKeyAppend([ls[0]], ls[1..], k);
    assert HasKey([ls[0]], k) <==> LineKey(ls[0]) == Some(k) by { assert [ls[0]][0] == ls[0]; }
  }

  // Where a line of the new file comes from.
  ghost predicate FromSave(c: Node, keys: seq<Key>, strict: bool, prior: seq<string>, line: string)
    requires Typed(c)
  {
    || (exists k :: k in keys && line == KeyLine(k, c))
    || (line in prior && Foreign(keys, line) && (strict ==> LineKey(line).None?))
  }

  lemma {:induction false} RewriteFrom(c: Node, keys: seq<Key>, strict: bool, ls: seq<string>, line: string)
    requires Typed(c) && line in RewriteLines(c, keys, strict, ls)
    ensures FromSave(c, keys, strict, ls, line)
  {
    hide LineKey, KeyLine;
    if ls != [] && line !in RewriteLine(c, keys, strict, ls[0]) { RewriteFrom(c, keys, strict, ls[1..], line); }
  }

  lemma {:induction false} MissingFrom(c: Node, keys: seq<Key>, ls: seq<string>, line: string)
    requires Typed(c)
    ensures line in MissingLines(c, keys, ls) ==> exists k :: k in keys && line == KeyLine(k, c)
  {
    hide LineKey, KeyLine, HasKey;
    if keys != [] {
      MissingFrom(c, keys[1..], ls, line);
      if line in MissingLines(c, keys[1..], ls) {
        var k :| k in keys[1..] && line == KeyLine(k, c);
        assert k in keys;
      }
    }
  }

  lemma SaveFrom(c: Node, keys: seq<Key>, strict: bool, ls: seq<string>, line: string)
    requires Typed(c) && line in SaveLines(c, keys, strict, ls)
    ensures FromSave(c, keys, strict, ls, line)
  {
    hide LineKey, KeyLine;
    if line in RewriteLines(c, keys, strict, ls) { RewriteFrom(c, keys, strict, ls, line); } else { MissingFrom(c, keys, ls, line); }
  }

  lemma {:induction false} RewriteKeeps(c: Node, keys: seq<Key>, strict: bool, ls: seq<string>, k: Key)
    requires Typed(c) && OneLine(c) && k in keys
    ensures HasKey(RewriteLines(c, keys, strict, ls), k) <==> HasKey(ls, k)
  {
    hide LineKey, KeyLine;
    if ls != [] {
      var head := RewriteLine(c, keys, strict, ls[0]);
      RewriteKeeps(c, keys, strict, ls[1..], k);
      HasKeyAppend(head, RewriteLines(c, keys, strict, ls[1..]), k);
      HasKeyHead(ls, k);
      RewriteOne(c, keys, strict, ls[0], k);
    }
  }

  lemma RewriteOne(c: Node, keys: seq<Key>, strict: bool, line: string, k: Key)
    requires Typed(c) && OneLine(c) && k in keys
    ensures HasKey(RewriteLine(c, keys, strict, line), k) <==> LineKey(line) == Some(k)
  {
    hide LineKey, KeyLine, HasKey;
    HasKeyOne(line, k);
    HasKeyNone(k);
    if LineKey(line).Some? && LineKey(line).value in keys {
      KeyLineParses(LineKey(line).value, c);
      HasKeyOne(KeyLine(LineKey(line).value, c), k);
    }
  }

  lemma HasKeyOne(line: string, k: Key)
    ensures HasKey([line], k) <==> LineKey(line) == Some(k)
  {
    hide LineKey;
    assert [line][0] == line;
  }

  lemma HasKeyNone(k: Key)
    ensures !HasKey([], k)
  {
  }

  lemma {:induction false} MissingHas(c: Node, keys: seq<Key>, ls: seq<string>, k: Key)
    requires Typed(c) && OneLine(c) && k in keys && !HasKey(ls, k)
    ensures HasKey(MissingLines(c, keys, ls), k)
  {
    hide LineKey, KeyLine, HasKey;
    if keys[0] == k {
      KeyLineParses(k, c);
      var out := MissingLines(c, keys, ls);
      assert out[0] == KeyLine(k, c);
      HasKeyHead(out, k);
    } else {
      MissingHas(c, keys[1..], ls, k);
      HasKeyAppend(if HasKey(ls, keys[0]) then [] else [KeyLine(keys[0], c)], MissingLines(c, keys[1..], ls), k);
    }
  }

  // Every key of the list is in the new file.
  lemma SaveHas(c: Node, keys: seq<Key>, strict: bool, ls: seq<string>, k: Key)
    requires Typed(c) && OneLine(c) && k in keys
    ensures HasKey(SaveLines(c, keys, strict, ls), k)
  {
    hide LineKey, KeyLine, HasKey;
    HasKeyAppend(RewriteLines(c, keys, strict, ls), MissingLines(c, keys, ls), k);
    if HasKey(ls, k) { RewriteKeeps(c, keys, strict, ls, k); } else { MissingHas(c, keys, ls, k); }
  }

  predicate NulFree(ls: seq<string>) {
    forall i :: 0 <= i < |ls| ==> '\0' !in ls[i]
  }

  lemma {:induction false} LinesNulFree(text: string)
    requires '\0' !in text
    ensures NulFree(Lines(text))
    decreases |text|
  {
    if text != "" { LinesNulFree(text[ChunkLength(text, LINE_SIZE - 1)..]); }
  }

  lemma {:induction false} RewriteAppend(c: Node, keys: seq<Key>, strict: bool, a: seq<string>, b: seq<string>)
    requires Typed(c)
    ensures RewriteLines(c, keys, strict, a + b) == RewriteLines(c, keys, strict, a) + RewriteLines(c, keys, strict, b)
  {
    hide RewriteLine;
    if a == [] {
      assert a + b == b;
    } else {
      assert (a + b)[1..] == a[1..] + b;
      RewriteAppend(c, keys, strict, a[1..], b);
    }
  }

  lemma RewriteSingle(c: Node, keys: seq<Key>, strict: bool, line: string)
    requires Typed(c)
    ensures RewriteLines(c, keys, strict, [line]) == RewriteLine(c, keys, strict, line)
  {
    hide RewriteLine;
    assert [line][1..] == [];
    assert RewriteLines(c, keys, strict, []) == [];
  }

  // Whether a save keeps a line as it is.
  predicate Kept(keys: seq<Key>, strict: bool, line: string) {
    LineKey(line).None? || (LineKey(line).value !in keys && !strict)
  }

  // Every appended line starts on its own: the old text's last line is complete or is
  // not kept, or no key is missing.
  predicate Unglued(keys: seq<Key>, strict: bool, text: string) {
    var ls := Lines(text);
    ls == [] || Whole(ls[|ls| - 1]) || !Kept(keys, strict, ls[|ls| - 1]) || forall k :: k in keys ==> HasKey(ls, k)
  }

  lemma ClosedIsUnglued(keys: seq<Key>, strict: bool, text: string)
    requires Closed(text)
    ensures Unglued(keys, strict, text)
  {
  }

  lemma {:induction false} NoneMissing(c: Node, keys: seq<Key>, ls: seq<string>)
    requires Typed(c)
    ensures MissingLines(c, keys, ls) == [] <==> forall k :: k in keys ==> HasKey(ls, k)
  {
    hide HasKey, KeyLine;
    if keys != [] {
      NoneMissing(c, keys[1..], ls);
      assert keys == [keys[0]] + keys[1..];
    }
  }

  lemma SavedWhole(c: Node, keys: seq<Key>, strict: bool, ls: seq<string>)
    requires Typed(c) && OneLine(c)
    ensures AllWhole(MissingLines(c, keys, ls))
    ensures AllWhole(ls) ==> AllWhole(RewriteLines(c, keys, strict, ls))
  {
    hide LineKey, KeyLine, Whole, RewriteLines, MissingLines, HasKey;
    var missing, kept := MissingLines(c, keys, ls), RewriteLines(c, keys, strict, ls);
    forall i | 0 <= i < |missing| ensures Whole(missing[i]) {
      MissingFrom(c, keys, ls, missing[i]);
      var k :| k in keys && missing[i] == KeyLine(k, c);
      KeyLineWhole(k, c);
    }
    forall i | 0 <= i < |kept| && AllWhole(ls) ensures Whole(kept[i]) {
      RewriteFrom(c, keys, strict, ls, kept[i]);
      if k :| k in keys && kept[i] == KeyLine(k, c) { KeyLineWhole(k, c); }
    }
  }

  lemma NeatParts(a: seq<string>, mid: seq<string>, b: seq<string>)
    requires AllWhole(a) && AllWhole(b) && |mid| <= 1 && (mid == [] || Chunk(mid[0]))
    ensures Neat(a + mid + b) <==> mid == [] || Whole(mid[0]) || b == []
  {
    hide Whole, Chunk;
    WholeChunks(a);
    WholeChunks(b);
    if mid != [] { assert (a + mid + b)[|a|] == mid[0]; }
  }

  lemma WholeChunks(a: seq<string>)
    requires AllWhole(a)
    ensures forall i :: 0 <= i < |a| ==> Chunk(a[i])
  {
  }

  lemma SaveNeat(c: Node, keys: seq<Key>, strict: bool, text: string)
    requires Typed(c) && OneLine(c)
    ensures Neat(SaveLines(c, keys, strict, Lines(text))) <==> Unglued(keys, strict, text)
  {
    hide LineKey, KeyLine, Whole, Chunk, Lines, RewriteLines, MissingLines, HasKey;
    var ls := Lines(text);
    LinesNeat(text);
    NoneMissing(c, keys, ls);
    SavedWhole(c, keys, strict, ls);
    var missing := MissingLines(c, keys, ls);
    if ls == [] {
      RewriteNothing(c, keys, strict);
      NeatParts([], [], missing);
      assert [] + [] + missing == [] + missing;
    } else {
      var init, last := ls[..|ls| - 1], ls[|ls| - 1];
      assert ls == init + [last];
      RewriteAppend(c, keys, strict, init, [last]);
      RewriteSingle(c, keys, strict, last);
      SavedWhole(c, keys, strict, init);
      LastWhole(c, keys, strict, last);
      NeatParts(RewriteLines(c, keys, strict, init), RewriteLine(c, keys, strict, last), missing);
    }
  }

  lemma RewriteNothing(c: Node, keys: seq<Key>, strict: bool)
    requires Typed(c)
    ensures RewriteLines(c, keys, strict, []) == []
  {
  }

  lemma LastWhole(c: Node, keys: seq<Key>, strict: bool, last: string)
    requires Typed(c) && OneLine(c) && Chunk(last)
    ensures var mid := RewriteLine(c, keys, strict, last);
            |mid| <= 1 && (mid == [] || Chunk(mid[0])) && (mid == [] || Whole(mid[0]) <==> Whole(last) || !Kept(keys, strict, last))
  {
    hide LineKey, KeyLine, Chunk;
    if LineKey(last).Some? { KeyLineWhole(LineKey(last).value, c); }
  }

  // A saved file is cut into the lines it was written as, exactly when nothing is glued.
  lemma SavedLinesExactly(c: Node, keys: seq<Key>, strict: bool, prior: string)
    requires Typed(c) && OneLine(c)
    ensures Lines(SaveText(c, keys, strict, prior)) == SaveLines(c, keys, strict, Lines(Existing(prior)))
            <==> Unglued(keys, strict, Existing(prior))
  {
    hide Existing, Lines, SaveLines, Unglued, Neat;
    SaveNeat(c, keys, strict, Existing(prior));
    LinesNeat(SaveText(c, keys, strict, prior));
    if Unglued(keys, strict, Existing(prior)) { LinesOfJoin(SaveLines(c, keys, strict, Lines(Existing(prior)))); }
  }

  lemma SavedLines(c: Node, keys: seq<Key>, strict: bool, prior: string)
    requires Typed(c) && OneLine(c) && Unglued(keys, strict, Existing(prior))
    ensures Lines(SaveText(c, keys, strict, prior)) == SaveLines(c, keys, strict, Lines(Existing(prior)))
    ensures NulFree(SaveLines(c, keys, strict, Lines(Existing(prior))))
  {
    hide LineKey, KeyLine, Existing, Lines, SaveLines, Unglued;
    var ls := Lines(Existing(prior));
    var out := SaveLines(c, keys, strict, ls);
    SavedLinesExactly(c, keys, strict, prior);
    ExistingNulFree(prior);
    LinesNulFree(Existing(prior));
    forall i | 0 <= i < |out| ensures '\0' !in out[i] {
      SaveFrom(c, keys, strict, ls, out[i]);
      if k :| k in keys && out[i] == KeyLine(k, c) { KeyLineWhole(k, c); }
    }
  }

  lemma ExistingNulFree(prior: string)
    ensures '\0' !in Existing(prior)
  {
  }

  // ---- Put-get -----------------------------------------------------------------------

  lemma AllManaged(k: Key)
    ensures k in MANAGED
  {
    assert k == MANAGED[Ordinal(k)];
  }

  // A file that has every key, each on lines that parse as printed from c, loads as the
  // canonical form of c.
  lemma LoadsBack(c: Node, out: seq<string>)
    requires Typed(c) && OneLine(c) && PrintedFrom(c, out) && forall k :: HasKey(out, k)
    ensures InferAddrMode(LoadLines(Defaults(), out)) == Canon(c)
  {
    hide PrintedFrom, HasKey, Canon, Same;
    LoadPrinted(c, Defaults(), out);
    CanonPorts(c);
    SameAll(LoadLines(Defaults(), out), Canon(c));
  }

  // Loading what was saved gives the configuration in canonical form, over any old file
  // to which nothing is glued.
  lemma PutGet(c: Node, prior: string)
    requires Typed(c) && OneLine(c) && Unglued(MANAGED, false, Existing(prior))
    ensures LoadText(SaveText(c, MANAGED, false, prior)) == Canon(c)
  {
    hide LineKey, KeyLine, Existing, Lines, SaveLines, SaveText, HasKey, Canon, Same, Unglued;
    var ls := Lines(Existing(prior));
    var out := SaveLines(c, MANAGED, false, ls);
    SavedLines(c, MANAGED, false, prior);
    forall i | 0 <= i < |out| && LineKey(out[i]).Some? ensures out[i] == KeyLine(LineKey(out[i]).value, c) {
      SavedParses(c, ls, out[i]);
    }
    forall k ensures HasKey(out, k) {
      AllManaged(k);
      SaveHas(c, MANAGED, false, ls, k);
    }
    LoadsBack(c, out);
  }

  lemma SavedParses(c: Node, ls: seq<string>, line: string)
    requires Typed(c) && OneLine(c)
    ensures line in SaveLines(c, MANAGED, false, ls) && LineKey(line).Some? ==> line == KeyLine(LineKey(line).value, c)
  {
    hide LineKey, KeyLine, SaveLines, ValueText, ParseLine;
    if line in SaveLines(c, MANAGED, false, ls) && LineKey(line).Some? {
      AllManaged(LineKey(line).value);
      SaveFrom(c, MANAGED, false, ls, line);
      var k :| k in MANAGED && line == KeyLine(k, c);
      KeyLineParses(k, c);
    }
  }

  lemma CanonPorts(c: Node)
    ensures Canon(c).port0.protocol == PROTO_SACN && Canon(c).port1.protocol == PROTO_SACN
    ensures Canon(c).addrMode != ADDR_MODE_SENTINEL
  {
  }

  // ---- Exactly when put-get returns the configuration ---------------------------------

  // A name the file gives back: on one line, no carriage return, no blank at either end.
  predicate NameKept(v: string) {
    Clean(v) && '\n' !in v
  }

  predicate NamesKept(c: Node) {
    NameKept(c.hostname) && NameKept(c.port0.labelText) && NameKept(c.port1.labelText)
  }

  // The enumerations hold named values and the slot monitors are clamped.
  predicate Enumerated(c: Node) {
    && c.port0.mode in {DMX_MODE_OFF, DMX_MODE_TX, DMX_MODE_RX} && c.port1.mode in {DMX_MODE_OFF, DMX_MODE_TX, DMX_MODE_RX}
    && PROTO_NONE <= c.protocol <= PROTO_SHOWNET
    && c.backlight in {LCD_BACKLIGHT_OFF, LCD_BACKLIGHT_ON, LCD_BACKLIGHT_AUTO}
    && c.monitor0 <= 512 && c.monitor1 <= 512
  }

  predicate NamedAddrMode(m: nat) {
    m in {ADDR_MODE_STATIC, ADDR_MODE_DHCP, ADDR_MODE_DHCP_STATIC}
  }

  // What a caller can check before saving.
  predicate Valid(c: Node) {
    NamesKept(c) && Enumerated(c) && NamedAddrMode(c.addrMode) && (c.addrMode == ADDR_MODE_DHCP ==> c.ip == 0)
  }

  // Everything but the ports' protocol, which no key stores.
  function Stored(c: Node): Node {
    c.(port0 := c.port0.(protocol := PROTO_SACN), port1 := c.port1.(protocol := PROTO_SACN))
  }

  lemma TrimEnds(s: string)
    ensures Trim(s) == "" || (!IsBlank(Trim(s)[0]) && !IsBlank(Trim(s)[|Trim(s)| - 1]))
  {
    SkipEnds(s);
    RightEnds(SkipBlanks(s));
  }

  lemma {:induction false} SkipEnds(s: string)
    ensures SkipBlanks(s) == "" || !IsBlank(SkipBlanks(s)[0])
  {
    if s != "" && IsBlank(s[0]) { SkipEnds(s[1..]); }
  }

  lemma {:induction false} RightEnds(s: string)
    requires s == "" || !IsBlank(s[0])
    ensures TrimRight(s) == "" || (!IsBlank(TrimRight(s)[0]) && !IsBlank(TrimRight(s)[|TrimRight(s)| - 1]))
  {
    if s != "" && IsBlank(s[|s| - 1]) { RightEnds(s[..|s| - 1]); }
  }

  lemma {:induction false} CrCut(s: string, n: nat)
    requires |s| <= n && '\r' in s
    ensures Span(s, "\r", true, n) < |s|
  {
    if s[0] != '\r' { CrCut(s[1..], n - 1); }
  }

  lemma CleanExactly(v: string)
    ensures Trim(UpToCr(v)) == v <==> Clean(v)
  {
    hide Trim, Span;
    if Clean(v) { CleanValue(v); }
    if Trim(UpToCr(v)) == v {
      TrimEnds(UpToCr(v));
      if '\r' in v {
        CrCut(v, |v|);
        TrimShrinks(UpToCr(v));
      }
    }
  }

  lemma TrimShrinks(s: string)
    ensures |Trim(s)| <= |s|
  {
    SkipLength(s);
    RightLength(SkipBlanks(s));
  }

  lemma CanonExactly(c: Node)
    requires Typed(c) && OneLine(c)
    ensures Canon(c) == Stored(c) <==> Valid(c)
  {
    hide Trim, UpToCr, Clean;
    CleanExactly(c.hostname);
    CleanExactly(c.port0.labelText);
    CleanExactly(c.port1.labelText);
  }

  // ---- Loaded names stay on one line --------------------------------------------------

  lemma {:induction false} SpanStops(s: string, limit: nat)
    ensures '\n' !in s[..Span(s, "\n\r", true, limit)]
  {
    if s != "" && limit > 0 && s[0] !in "\n\r" {
      SpanStops(s[1..], limit - 1);
      assert s[..Span(s, "\n\r", true, limit)] == [s[0]] + s[1..][..Span(s[1..], "\n\r", true, limit - 1)];
    }
  }

  lemma {:induction false} SkipSuffix(s: string, c: char)
    requires c !in s
    ensures c !in SkipBlanks(s)
  {
    if s != "" && IsBlank(s[0]) { SkipSuffix(s[1..], c); }
  }

  lemma {:induction false} RightPrefix(s: string, c: char)
    requires c !in s
    ensures c !in TrimRight(s)
  {
    if s != "" && IsBlank(s[|s| - 1]) { RightPrefix(s[..|s| - 1], c); }
  }

  lemma ParsedOnOneLine(line: string)
    ensures ParseLine(line).Some? ==> '\n' !in ParseLine(line).value.1
  {
    hide ParseLine, Trim, Span;
    LineFormatIs(line);
    if line != "" {
      var n := Span(line, "=", true, 63);
      if n < |line| {
        SpanStops(line[n + 1..], 191);
        TrimKeepsOut(line[n + 1..][..Span(line[n + 1..], "\n\r", true, 191)], '\n');
      }
    }
  }

  lemma TrimKeepsOut(s: string, c: char)
    requires c !in s
    ensures c !in Trim(s)
  {
    SkipSuffix(s, c);
    RightPrefix(SkipBlanks(s), c);
  }

  lemma LoadLineOneLine(c: Node, line: string)
    requires |c.mac| == 6 && OneLine(c)
    ensures OneLine(LoadLine(c, line))
  {
    hide ParseLine, KeyOf, ParseIp, AtoiValue, ParseMacFrom;
    ParsedOnOneLine(CString(line));
  }

  lemma {:induction false} LoadLinesOneLine(c: Node, ls: seq<string>)
    requires |c.mac| == 6 && OneLine(c)
    ensures OneLine(LoadLines(c, ls))
    decreases |ls|
  {
    if ls != [] {
      LoadLineOneLine(c, ls[0]);
      LoadLinesOneLine(LoadLine(c, ls[0]), ls[1..]);
    }
  }

  // Whatever the file says, no loaded name contains a newline.
  lemma LoadedOnOneLine(text: string)
    ensures OneLine(LoadText(text))
  {
    hide LoadLines, Lines;
    LoadLinesOneLine(Defaults(), Lines(text));
  }
}
