// Saving over an old file whose last line is incomplete: the first appended key is glued
// to it.  Exactly which old files every valid configuration survives.
module ConfigGlue {
  import opened Prelude
  import opened Numbers
  import opened Scanf
  import opened Printf
  import opened Stdio
  import opened Config
  import opened ConfigLines
  import opened ConfigParse
  import opened ConfigLens
  import opened ConfigTheorems
  import opened ConfigRange
  import opened ConfigSaves

  // ---- The first appended key ------------------------------------------------------------

  function FirstMissing(keys: seq<Key>, ls: seq<string>): Option<Key> {
    if keys == [] then None else if HasKey(ls, keys[0]) then FirstMissing(keys[1..], ls) else Some(keys[0])
  }

  // The appended lines start with the first missing key.
  lemma {:induction false} FirstMissingIs(c: Node, keys: seq<Key>, ls: seq<string>) returns (rest: seq<Key>)
    requires Typed(c) && (forall i, j :: 0 <= i < j < |keys| ==> keys[i] != keys[j])
    ensures FirstMissing(keys, ls).None? <==> forall k :: k in keys ==> HasKey(ls, k)
    ensures match FirstMissing(keys, ls)
      case None => true
      case Some(k) => k in keys && !HasKey(ls, k) && k !in rest && MissingLines(c, keys, ls) == [KeyLine(k, c)] + MissingLines(c, rest, ls)
  {
    hide HasKey, KeyLine;
    if keys == [] {
      rest := [];
    } else if HasKey(ls, keys[0]) {
      assert keys == [keys[0]] + keys[1..];
      rest := FirstMissingIs(c, keys[1..], ls);
      assert MissingLines(c, keys, ls) == MissingLines(c, keys[1..], ls);
    } else {
      rest := keys[1..];
    }
  }

  lemma ManagedUnrepeated()
    ensures forall i, j :: 0 <= i < j < |MANAGED| ==> MANAGED[i] != MANAGED[j]
  {
    forall i | 0 <= i < |MANAGED| ensures Ordinal(MANAGED[i]) == i {
    }
  }

  predicate AllBlank(s: string) { forall i :: 0 <= i < |s| ==> IsBlank(s[i]) }

  // The last line holds only blanks, few enough that the key glued behind them still
  // fits the 63 characters a key is read from.
  predicate BlankTail(text: string) {
    var ls := Lines(text);
    var k := FirstMissing(MANAGED, ls);
    ls != [] && k.Some? && AllBlank(ls[|ls| - 1]) && |ls[|ls| - 1]| + |Name(k.value)| + 1 <= 63
  }

  // The old files over which put-get holds.
  predicate Saveable(text: string) {
    Unglued(MANAGED, false, text) || BlankTail(text)
  }

  // ---- Which key a longer line has ---------------------------------------------------------

  // The line is the key and an equals sign, and no value: not a line of that key.
  ghost predicate EndsInKey(last: string, k: Key) {
    1 < |last| <= 64 && last[|last| - 1] == '=' && '=' !in last[..|last| - 1] && Trim(last[..|last| - 1]) == Name(k)
  }

  // A line without a key that gets one from what is glued to it has no equals sign
  // before its end.
  lemma ExtendedKey(last: string, t: string, k: Key)
    requires last != "" && '\n' !in last
    ensures LineKey(last).None? && LineKey(last + t) == Some(k) ==> |last| <= 64 && ('=' !in last || EndsInKey(last, k))
  {
    hide ParseLine, KeyOf, Trim, Span, Name;
    var line := last + t;
    if LineKey(last).None? && LineKey(line) == Some(k) {
      var n := Span(line, "=", true, 63);
      LineFormatIs(line);
      LineFormatIs(last);
      SpanFacts(line, "=", true, 63);
      assert line[n] == '=';
      if n < |last| {
        assert forall i :: 0 <= i < n ==> last[i] == line[i];
        SpanIs(last, "=", true, 63, n);
        ValueFollows(last, t, n);
        assert line[..n] == last[..n];
        KeyOfName(Trim(last[..n]), k);
      } else {
        assert forall i :: 0 <= i < |last| ==> last[i] == line[i] && line[i] != '=';
      }
    }
  }

  // The value read behind position n starts with what the shorter line has there.
  lemma ValueFollows(last: string, t: string, n: nat)
    requires n < |last| && '\n' !in last
    ensures n + 1 < |last| ==> (Span((last + t)[n + 1..], "\n\r", true, 191) == 0 <==> Span(last[n + 1..], "\n\r", true, 191) == 0)
  {
    if n + 1 < |last| {
      assert (last + t)[n + 1..][0] == last[n + 1..][0];
    }
  }

  lemma {:induction false} SkipBlank(s: string, t: string)
    requires AllBlank(s)
    ensures SkipBlanks(s + t) == SkipBlanks(t)
  {
    if s == "" {
      assert s + t == t;
    } else {
      assert (s + t)[1..] == s[1..] + t;
      SkipBlank(s[1..], t);
    }
  }

  lemma {:induction false} SkipInside(s: string, t: string)
    requires !AllBlank(s)
    ensures SkipBlanks(s + t) == SkipBlanks(s) + t && SkipBlanks(s) != "" && !IsBlank(SkipBlanks(s)[0])
  {
    if IsBlank(s[0]) {
      assert (s + t)[1..] == s[1..] + t;
      SkipInside(s[1..], t);
    }
  }

  // Behind blanks a name is still that name; behind anything else it is not.
  lemma TrimGlued(last: string, k: Key)
    ensures Trim(last + (Name(k) + " ")) == Name(k) <==> AllBlank(last)
  {
    hide Name, AllBlank, SkipBlanks, TrimRight;
    NameChars(k);
    NameTrims(k);
    if AllBlank(last) {
      SkipBlank(last, Name(k) + " ");
    } else {
      SkipInside(last, Name(k) + " ");
      var u := SkipBlanks(last) + Name(k);
      assert u + " " == SkipBlanks(last) + (Name(k) + " ");
      assert IsNameChar(Name(k)[|Name(k)| - 1]) && u[|u| - 1] == Name(k)[|Name(k)| - 1];
      TrimRightOnce(u);
    }
  }

  lemma TrimRightOnce(u: string)
    requires u != "" && !IsBlank(u[|u| - 1])
    ensures TrimRight(u + " ") == u
  {
    assert (u + " ")[..|u|] == u;
  }

  // A key's line glued to an incomplete one without an equals sign keeps its key
  // exactly when only a few blanks stand before it.
  lemma GluedKey(last: string, k: Key, v: string)
    requires last != "" && '=' !in last && '\n' !in last && '\n' !in v && |v| <= 100
    ensures var line := last + (Name(k) + " = " + v + "\n");
            if AllBlank(last) && |last| + |Name(k)| + 1 <= 63
            then ParseLine(line) == Some((Name(k), Trim(UpToCr(v))))
            else LineKey(line) != Some(k)
  {
    hide Name, Trim, Span, UpToCr, AllBlank, ParseLine, KeyOf, Fields;
    NameChars(k);
    BlankFirst(v);
    var key := last + (Name(k) + " ");
    var line := key + ("=" + ((" " + v) + "\n"));
    assert line == last + (Name(k) + " = " + v + "\n");
    LineFormatIs(line);
    assert line[0] == last[0];
    if |key| <= 63 {
      FieldsOf(key, " " + v);
      TrimGlued(last, k);
      KeyOfName(Trim(key), k);
      if AllBlank(last) { BlankLine(last); }
    } else {
      LongKey(key, (" " + v) + "\n");
    }
  }

  lemma BlankLine(last: string)
    requires last != "" && AllBlank(last)
    ensures last[0] != '#' && last[0] != '\n' && last[0] != '\r'
  {
  }

  lemma LongKey(key: string, t: string)
    requires '=' !in key && |key| > 63
    ensures Fields(key + ("=" + t)).None?
  {
    var line := key + ("=" + t);
    assert forall i :: 0 <= i < 64 ==> line[i] == key[i];
    SpanIs(line, "=", true, 63, 63);
  }

  // A proper end of a key's line is not a line of that key.
  lemma LineEnd(k: Key, v: string, d: nat)
    requires 0 < d < |Name(k) + " = " + v + "\n"| && '=' !in v
    ensures LineKey((Name(k) + " = " + v + "\n")[d..]) != Some(k)
  {
    hide Name, Trim, Span, ParseLine, KeyOf;
    NameChars(k);
    var line := Name(k) + " = " + v + "\n";
    var end := line[d..];
    LineFormatIs(end);
    SpanFacts(end, "=", true, 63);
    var n := Span(end, "=", true, 63);
    if LineKey(end) == Some(k) {
      assert line[d + n] == '=';
      assert d + n == |Name(k)| + 1;
      KeyOfName(Trim(end[..n]), k);
      assert end[n - 1] == line[d + n - 1] == ' ';
      TrimDropsEnd(end[..n]);
    }
  }

  lemma TrimDropsEnd(s: string)
    requires s != "" && IsBlank(s[|s| - 1])
    ensures |Trim(s)| < |s|
  {
    hide SkipBlanks, TrimRight;
    SkipIsEnd(s);
    var u := SkipBlanks(s);
    if u != "" {
      assert u[|u| - 1] == s[|s| - 1];
      DropsBlank(u);
    } else {
      assert TrimRight(u) == "" by { EmptyTrim(); }
    }
  }

  lemma EmptyTrim()
    ensures TrimRight("") == ""
  {
  }

  lemma DropsBlank(u: string)
    requires u != "" && IsBlank(u[|u| - 1])
    ensures |TrimRight(u)| < |u|
  {
    RightLength(u[..|u| - 1]);
  }

  lemma {:induction false} SkipIsEnd(s: string)
    ensures |SkipBlanks(s)| <= |s| && SkipBlanks(s) == s[|s| - |SkipBlanks(s)|..]
  {
    if s != "" && IsBlank(s[0]) { SkipIsEnd(s[1..]); }
  }

  // ---- The glued line as the loader cuts it -------------------------------------------------

  // A line of more than 255 characters is cut in two.
  function Pieces(line: string): seq<string>
    requires |line| < 2 * LINE_SIZE
  {
    if |line| < LINE_SIZE then [line] else [line[..LINE_SIZE - 1], line[LINE_SIZE - 1..]]
  }

  lemma PiecesWhole(last: string, l: string)
    requires Chunk(last) && !Whole(last) && Whole(l) && l[|l| - 1] == '\n'
    ensures |last| < LINE_SIZE - 1 && '\n' !in last && AllWhole(Pieces(last + l)) && Join(Pieces(last + l)) == last + l
    ensures '\0' !in last && '\0' !in l ==> NulFree(Pieces(last + l))
  {
    assert forall i :: 0 <= i < |last| ==> last[i] != '\n';
    var g := last + l;
    if |g| < LINE_SIZE {
      assert [g][1..] == [] && Join([g]) == g + "";
    } else {
      var a, b := g[..LINE_SIZE - 1], g[LINE_SIZE - 1..];
      assert [a, b][1..] == [b] && [b][1..] == [];
      assert Join([b]) == b + "" == b && Join([a, b]) == a + b == g;
    }
  }

  // No piece of a glued line is a line of the key, unless blanks alone or the key's own
  // "key=" stand before it.
  lemma PiecesKey(last: string, k: Key, c: Node, p: string)
    requires Typed(c) && OneLine(c) && Chunk(last) && !Whole(last)
    requires |last| + |KeyLine(k, c)| < LINE_SIZE || '=' !in ValueText(k, c)
    requires |last + KeyLine(k, c)| < 2 * LINE_SIZE && p in Pieces(last + KeyLine(k, c))
    ensures LineKey(last).None? && LineKey(p) == Some(k) ==>
              && p == last + KeyLine(k, c) && |p| < LINE_SIZE
              && (EndsInKey(last, k) || (AllBlank(last) && |last| + |Name(k)| + 1 <= 63))
  {
    hide LineKey, ValueText, Name, EndsInKey, AllBlank;
    var line := KeyLine(k, c);
    var g := last + line;
    KeyLineWhole(k, c);
    ValueShort(k, c);
    assert '\n' !in last;
    if |g| < LINE_SIZE {
      ExtendedKey(last, line, k);
      if '=' !in last { GluedKey(last, k, ValueText(k, c)); }
    } else {
      var cut := LINE_SIZE - 1 - |last|;
      assert g[..LINE_SIZE - 1] == last + line[..cut] && g[LINE_SIZE - 1..] == line[cut..];
      if p == g[..LINE_SIZE - 1] {
        ExtendedKey(last, line[..cut], k);
      } else {
        LineEnd(k, ValueText(k, c), cut);
      }
    }
  }

  // What saving writes when the first missing key is glued to the last line.
  datatype Glued = Glued(k: Key, front: seq<string>, last: string, behind: seq<string>)

  ghost predicate GluedInto(g: Glued, c: Node, prior: string)
    requires Typed(c)
  {
    var ls := Lines(Existing(prior));
    && FirstMissing(MANAGED, ls) == Some(g.k) && ls != [] && g.last == ls[|ls| - 1]
    && Chunk(g.last) && !Whole(g.last) && LineKey(g.last).None? && '\0' !in g.last
    && AllWhole(g.front) && AllWhole(g.behind) && NulFree(g.front) && NulFree(g.behind)
    && !HasKey(g.front, g.k) && !HasKey(g.behind, g.k)
    && SaveLines(c, MANAGED, false, ls) == g.front + [g.last] + ([KeyLine(g.k, c)] + g.behind)
  }

  lemma GluedSave(c: Node, prior: string) returns (g: Glued)
    requires Typed(c) && OneLine(c) && !Unglued(MANAGED, false, Existing(prior))
    ensures GluedInto(g, c, prior)
  {
    hide LineKey, KeyLine, HasKey, MissingLines, Existing, Lines, RewriteLines, Whole, Chunk;
    var ls := Lines(Existing(prior));
    var init, last := ls[..|ls| - 1], ls[|ls| - 1];
    assert ls == init + [last];
    ManagedUnrepeated();
    var rest := FirstMissingIs(c, MANAGED, ls);
    var k := FirstMissing(MANAGED, ls).value;
    g := Glued(k, RewriteLines(c, MANAGED, false, init), last, MissingLines(c, rest, ls));
    KeptLast(c, init, last);
    ExistingNulFree(prior);
    LinesNulFree(Existing(prior));
    LinesNeat(Existing(prior));
    SavedWhole(c, MANAGED, false, init);
    RewriteKeeps(c, MANAGED, false, init, k);
    HasKeyAppend(init, [last], k);
    RewriteNulFree(c, init);
    OnlyMissing(c, rest, ls, k);
  }

  lemma KeptLast(c: Node, init: seq<string>, last: string)
    requires Typed(c) && Kept(MANAGED, false, last)
    ensures LineKey(last).None?
    ensures RewriteLines(c, MANAGED, false, init + [last]) == RewriteLines(c, MANAGED, false, init) + [last]
  {
    hide RewriteLines, LineKey, KeyLine;
    if LineKey(last).Some? { AllManaged(LineKey(last).value); }
    RewriteAppend(c, MANAGED, false, init, [last]);
    RewriteSingle(c, MANAGED, false, last);
  }

  lemma RewriteNulFree(c: Node, ls: seq<string>)
    requires Typed(c) && NulFree(ls)
    ensures NulFree(RewriteLines(c, MANAGED, false, ls))
  {
    hide RewriteLines, LineKey, KeyLine;
    var out := RewriteLines(c, MANAGED, false, ls);
    forall i | 0 <= i < |out| ensures '\0' !in out[i] {
      RewriteFrom(c, MANAGED, false, ls, out[i]);
      if k :| k in MANAGED && out[i] == KeyLine(k, c) { KeyLineWhole(k, c); }
    }
  }

  lemma {:induction false} LoadUntouched(c0: Node, ls: seq<string>, k: Key)
    requires |c0.mac| == 6 && NulFree(ls) && !HasKey(ls, k)
    ensures Same(k, LoadLines(c0, ls), c0)
    decreases |ls|
  {
    hide ParseLine, Apply, Same, LineKey, HasKey;
    if ls != [] {
      HasKeyHead(ls, k);
      LoadLineUntouched(c0, ls[0], k);
      LoadUntouched(LoadLine(c0, ls[0]), ls[1..], k);
      SameTrans(k, LoadLines(c0, ls), LoadLine(c0, ls[0]), c0);
    } else {
      SameRefl(k, c0);
    }
  }

  lemma LoadLineUntouched(c0: Node, line: string, k: Key)
    requires |c0.mac| == 6 && '\0' !in line
    ensures LineKey(line) != Some(k) ==> Same(k, LoadLine(c0, line), c0)
  {
    hide ParseLine, Apply, Same, KeyOf;
    SameRefl(k, c0);
    if LineKey(line).Some? && LineKey(line) != Some(k) { ApplyOthers(c0, LineKey(line).value, ParseLine(line).value.1, k); }
  }

  lemma SameRefl(k: Key, a: Node)
    ensures Same(k, a, a)
  {
  }

  lemma OnlyMissing(c: Node, keys: seq<Key>, ls: seq<string>, k: Key)
    requires Typed(c) && OneLine(c) && k !in keys
    ensures !HasKey(MissingLines(c, keys, ls), k) && NulFree(MissingLines(c, keys, ls)) && AllWhole(MissingLines(c, keys, ls))
  {
    hide LineKey, KeyLine, MissingLines, Whole;
    var out := MissingLines(c, keys, ls);
    forall i | 0 <= i < |out| ensures LineKey(out[i]) != Some(k) && '\0' !in out[i] && Whole(out[i]) {
      MissingFrom(c, keys, ls, out[i]);
      var other :| other in keys && out[i] == KeyLine(other, c);
      KeyLineParses(other, c);
      KeyLineWhole(other, c);
    }
  }

  // The lines of the saved file: the glued line stands in one or two pieces between
  // the lines before it and the keys appended after it.
  lemma GluedLines(g: Glued, c: Node, prior: string)
    requires Typed(c) && OneLine(c) && GluedInto(g, c, prior)
    ensures |g.last + KeyLine(g.k, c)| < 2 * LINE_SIZE
    ensures var pieces := Pieces(g.last + KeyLine(g.k, c));
            NulFree(pieces) && Lines(SaveText(c, MANAGED, false, prior)) == g.front + pieces + g.behind
  {
    hide LineKey, KeyLine, HasKey, Existing, Lines, SaveLines, Whole, Pieces, FirstMissing;
    var line := KeyLine(g.k, c);
    KeyLineWhole(g.k, c);
    KeyLineEnds(g.k, c);
    LastShort(g.last);
    PiecesWhole(g.last, line);
    var pieces := Pieces(g.last + line);
    JoinGlued(g.front, g.last, line, pieces, g.behind);
    WholeNeat(g.front, pieces, g.behind);
    LinesOfJoin(g.front + pieces + g.behind);
  }

  lemma LastShort(last: string)
    requires Chunk(last)
    ensures |last| < LINE_SIZE
  {
  }

  lemma WholeNeat(a: seq<string>, b: seq<string>, c: seq<string>)
    requires AllWhole(a) && AllWhole(b) && AllWhole(c)
    ensures Neat(a + b + c)
  {
    hide Whole, Chunk;
    WholeChunks(a);
    WholeChunks(b);
    WholeChunks(c);
  }

  lemma JoinGlued(front: seq<string>, last: string, line: string, pieces: seq<string>, behind: seq<string>)
    requires Join(pieces) == last + line
    ensures Join(front + [last] + ([line] + behind)) == Join(front + pieces + behind)
  {
    hide Join;
    JoinAppend(front + [last], [line] + behind);
    JoinAppend(front, [last]);
    JoinAppend([line], behind);
    JoinAppend(front + pieces, behind);
    JoinAppend(front, pieces);
    JoinSingle(last);
    JoinSingle(line);
    assert Join(front) + last + (line + Join(behind)) == Join(front) + (last + line) + Join(behind);
  }

  lemma JoinSingle(l: string)
    ensures Join([l]) == l
  {
    assert [l][1..] == [];
  }

  // ---- Blanks do no harm -------------------------------------------------------------------

  lemma PutGetBlank(c: Node, prior: string)
    requires Typed(c) && OneLine(c)
    ensures !Unglued(MANAGED, false, Existing(prior)) && BlankTail(Existing(prior)) ==> LoadText(SaveText(c, MANAGED, false, prior)) == Canon(c)
  {
    hide LineKey, KeyLine, HasKey, Existing, Lines, SaveLines, SaveText, Unglued, Canon, AllWhole, Name, FirstMissing, AllBlank;
    if !Unglued(MANAGED, false, Existing(prior)) && BlankTail(Existing(prior)) {
      var g := GluedSave(c, prior);
      GluedLines(g, c, prior);
      var line := KeyLine(g.k, c);
      KeyLineWhole(g.k, c);
      assert Pieces(g.last + line) == [g.last + line];
      BlankParses(g.last, g.k, c);
      GluedPrinted(g, c, prior);
      forall k ensures HasKey(g.front + [g.last + line] + g.behind, k) { GluedHas(g, c, prior, k); }
      LoadsBack(c, g.front + [g.last + line] + g.behind);
    }
  }

  lemma BlankParses(last: string, k: Key, c: Node)
    requires Typed(c) && OneLine(c) && last != "" && AllBlank(last) && |last| + |Name(k)| + 1 <= 63
    ensures ParseLine(last + KeyLine(k, c)) == ParseLine(KeyLine(k, c)) && LineKey(last + KeyLine(k, c)) == Some(k)
  {
    hide ValueText, Name, ParseLine, KeyOf;
    BlankPlain(last);
    ValueShort(k, c);
    GluedKey(last, k, ValueText(k, c));
    KeyLineParses(k, c);
  }

  lemma BlankPlain(last: string)
    requires AllBlank(last)
    ensures '=' !in last && '\n' !in last
  {
  }

  lemma GluedPrinted(g: Glued, c: Node, prior: string)
    requires Typed(c) && OneLine(c) && GluedInto(g, c, prior)
    ensures ParseLine(g.last + KeyLine(g.k, c)) == ParseLine(KeyLine(g.k, c)) && LineKey(g.last + KeyLine(g.k, c)) == Some(g.k) ==>
              PrintedFrom(c, g.front + [g.last + KeyLine(g.k, c)] + g.behind)
  {
    hide LineKey, KeyLine, HasKey, Existing, Lines, SaveLines, AllWhole, FirstMissing, ParseLine;
    var line, ls := KeyLine(g.k, c), Lines(Existing(prior));
    var saved := g.front + [g.last] + ([line] + g.behind);
    var out := g.front + [g.last + line] + g.behind;
    KeyLineWhole(g.k, c);
    if ParseLine(g.last + line) == ParseLine(line) && LineKey(g.last + line) == Some(g.k) {
      forall i | 0 <= i < |out| ensures '\0' !in out[i] && (LineKey(out[i]).Some? ==> ParseLine(out[i]) == ParseLine(KeyLine(LineKey(out[i]).value, c))) {
        if i < |g.front| {
          assert out[i] == g.front[i] == saved[i];
        } else if i > |g.front| {
          assert out[i] == g.behind[i - |g.front| - 1] == saved[i + 1];
        }
        SavedParses(c, ls, out[i]);
      }
    }
  }

  lemma GluedHas(g: Glued, c: Node, prior: string, k: Key)
    requires Typed(c) && OneLine(c) && GluedInto(g, c, prior)
    ensures LineKey(g.last + KeyLine(g.k, c)) == Some(g.k) ==> HasKey(g.front + [g.last + KeyLine(g.k, c)] + g.behind, k)
  {
    hide LineKey, KeyLine, HasKey, Existing, Lines, SaveLines, AllWhole, FirstMissing;
    var line := KeyLine(g.k, c);
    AllManaged(k);
    SaveHas(c, MANAGED, false, Lines(Existing(prior)), k);
    HasKeyAppend(g.front + [g.last], [line] + g.behind, k);
    HasKeyAppend(g.front, [g.last], k);
    HasKeyAppend([line], g.behind, k);
    HasKeyOne(g.last, k);
    KeyLineParses(g.k, c);
    HasKeyOne(line, k);
    HasKeyAppend(g.front + [g.last + line], g.behind, k);
    HasKeyAppend(g.front, [g.last + line], k);
    HasKeyOne(g.last + line, k);
  }

  // Over every saveable old file, saving and loading returns the configuration exactly
  // when it is valid.
  lemma PutGetExactly(c: Node, prior: string)
    requires Typed(c) && Saveable(Existing(prior))
    ensures LoadText(SaveText(c, MANAGED, false, prior)) == ConfigTheorems.Stored(c) <==> Valid(c)
  {
    hide LoadText, SaveText, Canon, Valid, Unglued, BlankTail, OneLine;
    if OneLine(c) {
      if Unglued(MANAGED, false, Existing(prior)) { PutGet(c, prior); } else { PutGetBlank(c, prior); }
      CanonExactly(c);
    } else {
      LoadedOnOneLine(SaveText(c, MANAGED, false, prior));
      ValidOneLine(c);
    }
  }

  lemma ValidOneLine(c: Node)
    ensures Valid(c) ==> OneLine(c)
    ensures OneLine(ConfigTheorems.Stored(c)) <==> OneLine(c)
  {
  }

  // ---- Anything else swallows the key -------------------------------------------------------

  // Over an old file that is not saveable, the first missing key loads as its default,
  // or, behind an old "key=", as whatever the key's own line parses to as a value.
  lemma Swallowed(c: Node, prior: string) returns (k: Key)
    requires Typed(c) && OneLine(c)
    ensures !Saveable(Existing(prior)) ==>
              var ls := Lines(Existing(prior)); var loaded := LoadLines(Defaults(), Lines(SaveText(c, MANAGED, false, prior)));
              && FirstMissing(MANAGED, ls) == Some(k)
              && (|ls[|ls| - 1]| + |KeyLine(k, c)| < LINE_SIZE || '=' !in ValueText(k, c) ==>
                    Same(k, loaded, Defaults()) || (EndsInKey(ls[|ls| - 1], k) && SwallowedValue(loaded, k, c)))
  {
    hide LineKey, KeyLine, HasKey, Existing, Lines, SaveLines, SaveText, Unglued, AllWhole, Name, FirstMissing, AllBlank, LoadLines, Same,
      EndsInKey, SwallowedValue, ValueText, Pieces;
    if Saveable(Existing(prior)) { return NodeAddr; }
    var g := GluedSave(c, prior);
    k := g.k;
    GluedLines(g, c, prior);
    var line := KeyLine(k, c);
    KeyLineWhole(k, c);
    var pieces := Pieces(g.last + line);
    if |g.last| + |line| < LINE_SIZE || '=' !in ValueText(k, c) {
      if p :| p in pieces && LineKey(p) == Some(k) {
        PiecesKey(g.last, k, c, p);
        PiecesOne(p);
        SwallowedLine(g, c, prior);
      } else {
        forall i | 0 <= i < |pieces| ensures LineKey(pieces[i]) != Some(k) {}
        NoKey(pieces, k);
        HasKeyAppend(g.front + pieces, g.behind, k);
        HasKeyAppend(g.front, pieces, k);
        NulFreeJoin(g.front, pieces, g.behind);
        LoadUntouched(Defaults(), g.front + pieces + g.behind, k);
      }
    }
  }

  lemma PiecesOne(line: string)
    requires |line| < LINE_SIZE
    ensures Pieces(line) == [line]
  {
  }

  lemma NoKey(ls: seq<string>, k: Key)
    requires forall i :: 0 <= i < |ls| ==> LineKey(ls[i]) != Some(k)
    ensures !HasKey(ls, k)
  {
  }

  lemma NulFreeJoin(a: seq<string>, b: seq<string>, c: seq<string>)
    requires NulFree(a) && NulFree(b) && NulFree(c)
    ensures NulFree(a + b + c)
  {
  }

  // The key's field holds what its own line, name and all, parses to.
  ghost predicate SwallowedValue(a: Node, k: Key, c: Node)
    requires Typed(c)
  {
    exists c0: Node :: |c0.mac| == 6 && Same(k, c0, Defaults()) && Same(k, a, Apply(c0, k, Trim(UpToCr(Name(k) + " = " + ValueText(k, c)))))
  }

  lemma SwallowedLine(g: Glued, c: Node, prior: string)
    requires Typed(c) && OneLine(c) && GluedInto(g, c, prior)
    ensures EndsInKey(g.last, g.k) && LineKey(g.last + KeyLine(g.k, c)) == Some(g.k) ==>
              SwallowedValue(LoadLines(Defaults(), g.front + [g.last + KeyLine(g.k, c)] + g.behind), g.k, c)
  {
    hide LineKey, KeyLine, HasKey, Existing, Lines, SaveLines, AllWhole, Name, FirstMissing, Same, ValueText, Apply, LoadLine, Trim, UpToCr, EndsInKey;
    var c0 := LoadLines(Defaults(), g.front);
    var line := g.last + KeyLine(g.k, c);
    KeyLineWhole(g.k, c);
    LoadUntouched(Defaults(), g.front, g.k);
    SwallowedParse(g.last, g.k, c);
    LoadKeyed(c0, line, g.k);
    LoadJoin(Defaults(), g.front + [line], g.behind);
    LoadJoin(Defaults(), g.front, [line]);
    LoadOneLine(c0, line);
    LoadUntouched(LoadLine(c0, line), g.behind, g.k);
  }

  lemma {:induction false} LoadJoin(c: Node, a: seq<string>, b: seq<string>)
    requires |c.mac| == 6
    ensures LoadLines(c, a + b) == LoadLines(LoadLines(c, a), b)
    decreases |a|
  {
    hide LoadLine;
    if a == [] {
      assert a + b == b;
    } else {
      assert (a + b)[1..] == a[1..] + b;
      LoadJoin(LoadLine(c, a[0]), a[1..], b);
    }
  }

  lemma LoadOneLine(c: Node, line: string)
    requires |c.mac| == 6
    ensures LoadLines(c, [line]) == LoadLine(c, line)
  {
    hide LoadLine;
    assert [line][1..] == [];
  }

  lemma LoadKeyed(c: Node, line: string, k: Key)
    requires |c.mac| == 6 && '\0' !in line
    ensures LineKey(line) == Some(k) ==> ParseLine(line).Some? && LoadLine(c, line) == Apply(c, k, ParseLine(line).value.1)
  {
    hide ParseLine, KeyOf, Apply;
  }

  lemma SwallowedParse(last: string, k: Key, c: Node)
    requires Typed(c) && OneLine(c) && '\n' !in last
    ensures EndsInKey(last, k) && LineKey(last + KeyLine(k, c)) == Some(k) ==> ParseLine(last + KeyLine(k, c)).value.1 == Trim(UpToCr(Name(k) + " = " + ValueText(k, c)))
  {
    hide Name, ValueText, Trim, UpToCr, Span, KeyOf, ParseLine;
    NameChars(k);
    ValueShort(k, c);
    if EndsInKey(last, k) && LineKey(last + KeyLine(k, c)) == Some(k) {
      var key, val := last[..|last| - 1], Name(k) + " = " + ValueText(k, c);
      var line := last + KeyLine(k, c);
      assert line == key + ("=" + (val + "\n"));
      FieldsOf(key, val);
      LineFormatIs(line);
    }
  }

  // ---- Exactly which old files ------------------------------------------------------------

  // A valid configuration that differs from the defaults in every field.
  function Witness(): (c: Node)
    ensures Typed(c) && Valid(c) && OneLine(c) && ConfigTheorems.Stored(c) == c
  {
    Node("x", 1, 1, 1, [17, 17, 17, 17, 17, 17],
         Port(DMX_MODE_RX, PROTO_SACN, 7, "x"), Port(DMX_MODE_RX, PROTO_SACN, 7, "x"), PROTO_ARTNET, 7,
         ADDR_MODE_DHCP_STATIC, 7, LCD_BACKLIGHT_AUTO, 7, 7)
  }

  // A value that reads back as it stands, without an equals sign.
  predicate Plain(v: string) {
    v != "" && !IsBlank(v[|v| - 1]) && '\r' !in v && '=' !in v
  }

  lemma WitnessPlain(k: Key)
    ensures Plain(ValueText(k, Witness()))
  {
    hide PrintIp, PrintMac;
    OneIp();
    OnesMac();
    assert Dec(7) == "7";
    match k case _ =>
  }

  lemma OneIp()
    ensures PrintIp(1) == "0.0.0.1"
  {
    assert Dec(0) == "0" && Dec(1) == "1";
  }

  lemma OnesMac()
    ensures Plain(PrintMac([17, 17, 17, 17, 17, 17]))
  {
    ByteDigits(17);
    assert PrintByte(17) == "11";
  }

  // What a text that starts with a letter other than a hex digit parses to.
  lemma LetterIsNothing(s: string, mac: seq<nat>)
    requires s != "" && 'a' <= s[0] <= 'z' && |mac| == 6
    ensures ParseIp(s) == 0 && AtoiValue(s) == 0
    ensures 'f' < s[0] ==> ParseMacFrom(s, 0, mac) == mac
  {
    hide Scan, Value;
    var fmt := "%u.%u.%u.%u";
    assert fmt[1..][0] == 'u' && DigitRun(fmt[1..]) == 0;
    assert DigitRun(s) == 0 && s[0..] == s && fmt[0..] == fmt;
    ValueNothing(s);
    NumberStep(fmt, s, 0, 0, 1, 0, 0, 0);
  }

  lemma SwallowedIsName(k: Key)
    ensures Trim(UpToCr(Name(k) + " = " + ValueText(k, Witness()))) == Name(k) + " = " + ValueText(k, Witness())
  {
    hide ValueText, Name, Trim, UpToCr, Witness;
    WitnessPlain(k);
    NameChars(k);
    var v := ValueText(k, Witness());
    var s := Name(k) + " = " + v;
    assert IsNameChar(Name(k)[0]) && s[0] == Name(k)[0] && s[|s| - 1] == v[|v| - 1];
    CleanValue(s);
  }

  lemma NameStarts(k: Key)
    ensures 'a' <= Name(k)[0] <= 'z' && |Name(k)| >= 7 && (k == MacAddr ==> Name(k)[0] == 'm') && (k == AddrMode ==> |Name(k)| == 9)
  {
  }

  lemma WitnessNotDefault(k: Key, a: Node)
    requires Same(k, a, Defaults())
    ensures InferAddrMode(a) != Witness()
  {
    match k case _ =>
  }

  lemma WitnessNotName(k: Key, c0: Node, s: string)
    requires |c0.mac| == 6 && Same(k, c0, Defaults())
    requires |s| >= 11 && (k == AddrMode ==> |s| >= 13)
    ensures ParseIp(s) == 0 && AtoiValue(s) == 0 && (k == MacAddr ==> ParseMacFrom(s, 0, c0.mac) == c0.mac) ==>
              !Same(k, Apply(c0, k, s), Witness())
    ensures k == AddrMode ==> Apply(c0, k, s).addrMode == ADDR_MODE_STATIC
  {
    hide ParseIp, AtoiValue, ParseMacFrom, ParseMode, ParseProtocol, ParseBacklight, ParseAddrMode;
    LongIsNothing(s);
  }

  lemma SameInferred(k: Key, a: Node, b: Node)
    requires Same(k, a, b) && !Same(k, b, Witness()) && (k == AddrMode ==> b.addrMode == ADDR_MODE_STATIC)
    ensures InferAddrMode(a) != Witness()
  {
    hide Witness;
  }

  // A text longer than every named value parses to the fallback.
  lemma LongIsNothing(s: string)
    requires |s| >= 11
    ensures ParseMode(s) == DMX_MODE_TX && ParseProtocol(s) == PROTO_NONE && ParseBacklight(s) == LCD_BACKLIGHT_ON
    ensures |s| >= 13 ==> ParseAddrMode(s) == ADDR_MODE_STATIC
  {
  }

  // The witness comes back from neither the default nor its own line as a value.
  lemma WitnessLost(k: Key, a: Node)
    requires Same(k, a, Defaults()) || SwallowedValue(a, k, Witness())
    ensures InferAddrMode(a) != Witness()
  {
    hide ValueText, Name, Trim, UpToCr, ParseIp, AtoiValue, ParseMacFrom, Same, Apply, Witness, InferAddrMode;
    if Same(k, a, Defaults()) {
      WitnessNotDefault(k, a);
    } else {
      var s := Name(k) + " = " + ValueText(k, Witness());
      SwallowedIsName(k);
      NameStarts(k);
      WitnessPlain(k);
      assert s[0] == Name(k)[0] && |s| >= |Name(k)| + 4;
      var c0: Node :| |c0.mac| == 6 && Same(k, c0, Defaults()) && Same(k, a, Apply(c0, k, s));
      LetterIsNothing(s, c0.mac);
      WitnessNotName(k, c0, s);
      SameInferred(k, a, Apply(c0, k, s));
    }
  }

  // Every valid configuration survives a save over an old file and a load if and only if
  // the file is saveable: nothing is glued to its last line, or only to a few blanks.
  lemma PutGetOver(prior: string)
    ensures (forall c: Node :: Typed(c) && Valid(c) ==> LoadText(SaveText(c, MANAGED, false, prior)) == ConfigTheorems.Stored(c))
            <==> Saveable(Existing(prior))
  {
    hide LoadLines, SaveText, Saveable, Valid, Existing, Lines, Same, KeyLine, ValueText, Witness, EndsInKey, SwallowedValue;
    if Saveable(Existing(prior)) {
      forall c: Node | Typed(c) && Valid(c) ensures LoadText(SaveText(c, MANAGED, false, prior)) == ConfigTheorems.Stored(c) {
        PutGetExactly(c, prior);
      }
    } else {
      WitnessFails(prior);
    }
  }

  lemma WitnessFails(prior: string)
    ensures !Saveable(Existing(prior)) ==> LoadText(SaveText(Witness(), MANAGED, false, prior)) != Witness()
  {
    hide LoadLines, SaveText, Saveable, Valid, Existing, Lines, Same, KeyLine, ValueText, Witness, EndsInKey, SwallowedValue;
    if !Saveable(Existing(prior)) {
      var k := Swallowed(Witness(), prior);
      WitnessPlain(k);
      WitnessLost(k, LoadLines(Defaults(), Lines(SaveText(Witness(), MANAGED, false, prior))));
    }
  }

  // ---- Reading a file and writing it back -------------------------------------------------

  // Saving what was loaded from a saveable file and loading it again gives it back
  // exactly when the loaded names survive and DHCP comes without an address.
  lemma GetPut(text: string)
    requires Saveable(Existing(text))
    ensures var c := LoadText(text);
            && Typed(c)
            && (LoadText(SaveText(c, MANAGED, false, text)) == c <==> NamesKept(c) && (c.addrMode == ADDR_MODE_DHCP ==> c.ip == 0))
  {
    hide LoadText, SaveText, Saveable, NamesKept, Typed;
    LoadedIsLoadable(text);
    PutGetExactly(LoadText(text), text);
  }

  // Over a file that fits the saver's read and is empty or ends in a newline, put-get,
  // put-put and the Strand projection hold.
  lemma CompleteFile(c1: Node, c2: Node, prior: string)
    requires Typed(c1) && Typed(c2) && '\0' !in prior && |prior| <= 2047
    requires prior == "" || prior[|prior| - 1] == '\n'
    ensures LoadText(SaveText(c1, MANAGED, false, prior)) == ConfigTheorems.Stored(c1) <==> Valid(c1)
    ensures OneLine(c1) && |SaveText(c1, MANAGED, false, prior)| <= 2047 ==>
              SaveText(c2, MANAGED, false, SaveText(c1, MANAGED, false, prior)) == SaveText(c2, MANAGED, false, prior)
    ensures OneLine(c1) ==> StrandOnly(c1, Lines(SaveText(c1, STRAND, true, prior)))
  {
    hide LoadText, SaveText, Unglued, Existing, Lines, Valid, OneLine, StrandOnly, Closed;
    ExistingWhole(prior);
    NewlineCloses(prior);
    ClosedIsUnglued(MANAGED, false, prior);
    ClosedIsUnglued(STRAND, true, prior);
    PutGetExactly(c1, prior);
    if OneLine(c1) {
      if |SaveText(c1, MANAGED, false, prior)| <= 2047 { PutPut(c1, c2, MANAGED, false, prior); }
      StrandProjection(c1, prior);
    }
  }

  // ---- Single files ------------------------------------------------------------------------

  // A file that is one short line without its newline and without a key.
  lemma LoneLine(t: string)
    requires 0 < |t| < 200 && '\n' !in t && '\0' !in t && LineKey(t).None?
    ensures Existing(t) == t && Lines(t) == [t] && !Unglued(MANAGED, false, t) && FirstMissing(MANAGED, [t]) == Some(NodeAddr)
  {
    hide LineKey, Existing, HasKey;
    ExistingWhole(t);
    ChunkLengthIs(t, LINE_SIZE - 1, |t|);
    assert t[..|t|] == t && t[|t|..] == "";
    assert Lines(t) == [t];
    HasKeyOne(t, NodeAddr);
    assert MANAGED[0] == NodeAddr;
  }

  lemma BootKey()
    ensures LineKey("boottest = 1").None?
  {
    hide ParseLine, KeyOf, Span, Trim;
    var t := "boottest = 1";
    LineFormatIs(t);
    SpanIs(t, "=", true, 63, 9);
    assert t[..9] == "boottest" + " ";
    assert " "[0] == ' ' && "boottest"[..1][0] == 'b' && "boottest"[7..][0] == 't';
    TrimOf("", "boottest", " ");
    assert "" + "boottest" + " " == t[..9];
    var k := KeyOf("boottest");
    if k.Some? {
      KeyOfName("boottest", k.value);
      NotBoot(k.value);
    }
  }

  lemma NotBoot(k: Key)
    ensures Name(k) != "boottest"
  {
    match k case _ =>
  }

  // One file over which put-get fails: an unknown key without its newline.  The node
  // address appended first becomes part of its value.
  lemma BootFile()
    ensures !Saveable(Existing("boottest = 1"))
    ensures Witness().ip == 1 && LoadText(SaveText(Witness(), MANAGED, false, "boottest = 1")).ip == 0
  {
    hide LineKey, Existing, Lines, Unglued, FirstMissing, LoadLines, SaveText, Name, SwallowedValue, ValueText;
    var t := "boottest = 1";
    BootKey();
    LoneLine(t);
    assert !IsBlank(t[0]);
    var k := Swallowed(Witness(), t);
    WitnessPlain(k);
    assert t[|t| - 1] == '1';
  }

  // And one that does no harm: two blanks.
  lemma BlankFile()
    ensures Saveable(Existing("  ")) && !Unglued(MANAGED, false, Existing("  "))
  {
    hide ParseLine, Existing, Lines, Unglued, FirstMissing, Span;
    LineFormatIs("  ");
    SpanIs("  ", "=", true, 63, 2);
    LoneLine("  ");
  }

  // A file whose configuration does not survive: its host name is cut at fifteen
  // characters, behind a blank that the next load trims.
  lemma TruncatedName()
    ensures var text := "hostname = abcdefghijklmn o\n"; var c := LoadText(text);
            && c.hostname == "abcdefghijklmn " && Typed(c) && Saveable(Existing(text))
            && LoadText(SaveText(c, MANAGED, false, text)) != c
  {
    hide LoadText, SaveText, Existing, Unglued, BlankTail, Closed, Typed;
    var text := "hostname = abcdefghijklmn o\n";
    ExistingWhole(text);
    NewlineCloses(text);
    ClosedIsUnglued(MANAGED, false, text);
    LongName();
    GetPut(text);
  }

  // A file that names the host keeps fifteen characters of the name.
  lemma HostFile(v: string)
    requires NameKept(v) && '\0' !in v && |v| <= 100
    ensures LoadText(Name(HostName) + " = " + v + "\n").hostname == Truncate(v, 15)
  {
    hide Name, ParseLine, KeyOf, Trim, UpToCr, LoadLine;
    var text := Name(HostName) + " = " + v + "\n";
    NameChars(HostName);
    ParsePrinted(HostName, v);
    KeyOfName(Name(HostName), HostName);
    CleanValue(v);
    WholeLine(text);
    LoadOneLine(Defaults(), text);
    LoadKeyed(Defaults(), text, HostName);
  }

  lemma WholeLine(text: string)
    requires Whole(text)
    ensures Lines(text) == [text]
  {
    LinesOfJoin([text]);
    JoinSingle(text);
  }

  lemma LongName()
    ensures LoadText("hostname = abcdefghijklmn o\n").hostname == "abcdefghijklmn "
  {
    hide LoadText;
    var v := "abcdefghijklmn o";
    HostFile(v);
    assert Name(HostName) + " = " + v + "\n" == "hostname = abcdefghijklmn o\n";
    assert v[..15] == "abcdefghijklmn ";
  }
}
