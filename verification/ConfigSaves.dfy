// Saving twice, what a save leaves alone, and the Strand-compatible save.
module ConfigSaves {
  import opened Prelude
  import opened Numbers
  import opened Scanf
  import opened Printf
  import opened Stdio
  import opened Config
  import opened ConfigLines
  import opened ConfigParse
  import opened ConfigLens
  import opened ConfigTheorems

  // ---- Put-put -----------------------------------------------------------------------

  // Rewriting what was rewritten with other values.
  lemma RewriteTwiceOne(c1: Node, c2: Node, keys: seq<Key>, strict: bool, line: string)
    requires Typed(c1) && Typed(c2) && OneLine(c1)
    ensures RewriteLines(c2, keys, strict, RewriteLine(c1, keys, strict, line)) == RewriteLine(c2, keys, strict, line)
  {
    hide LineKey, KeyLine;
    RewriteSingle(c2, keys, strict, line);
    if LineKey(line).Some? && LineKey(line).value in keys {
      var k := LineKey(line).value;
      KeyLineParses(k, c1);
      RewriteSingle(c2, keys, strict, KeyLine(k, c1));
    }
  }

  lemma {:induction false} RewriteTwice(c1: Node, c2: Node, keys: seq<Key>, strict: bool, ls: seq<string>)
    requires Typed(c1) && Typed(c2) && OneLine(c1)
    ensures RewriteLines(c2, keys, strict, RewriteLines(c1, keys, strict, ls)) == RewriteLines(c2, keys, strict, ls)
  {
    hide RewriteLine;
    if ls != [] {
      RewriteTwiceOne(c1, c2, keys, strict, ls[0]);
      RewriteTwice(c1, c2, keys, strict, ls[1..]);
      RewriteAppend(c2, keys, strict, RewriteLine(c1, keys, strict, ls[0]), RewriteLines(c1, keys, strict, ls[1..]));
    }
  }

  lemma {:induction false} RewriteMissing(c1: Node, c2: Node, keys: seq<Key>, strict: bool, todo: seq<Key>, ls: seq<string>)
    requires Typed(c1) && Typed(c2) && OneLine(c1) && forall k :: k in todo ==> k in keys
    ensures RewriteLines(c2, keys, strict, MissingLines(c1, todo, ls)) == MissingLines(c2, todo, ls)
  {
    hide LineKey, KeyLine, HasKey, RewriteLines;
    if todo == [] {
      RewriteNothing(c2, keys, strict);
    } else {
      RewriteMissing(c1, c2, keys, strict, todo[1..], ls);
      if !HasKey(ls, todo[0]) {
        RewriteFirst(c1, c2, keys, strict, todo[0], MissingLines(c1, todo[1..], ls));
      } else {
        assert MissingLines(c1, todo, ls) == MissingLines(c1, todo[1..], ls);
      }
    }
  }

  lemma RewriteFirst(c1: Node, c2: Node, keys: seq<Key>, strict: bool, k: Key, rest: seq<string>)
    requires Typed(c1) && Typed(c2) && OneLine(c1) && k in keys
    ensures RewriteLines(c2, keys, strict, [KeyLine(k, c1)] + rest) == [KeyLine(k, c2)] + RewriteLines(c2, keys, strict, rest)
  {
    hide LineKey, KeyLine, RewriteLines;
    KeyLineParses(k, c1);
    RewriteSingle(c2, keys, strict, KeyLine(k, c1));
    RewriteAppend(c2, keys, strict, [KeyLine(k, c1)], rest);
  }

  lemma SaveLinesTwice(c1: Node, c2: Node, keys: seq<Key>, strict: bool, ls: seq<string>)
    requires Typed(c1) && Typed(c2) && OneLine(c1)
    ensures SaveLines(c2, keys, strict, SaveLines(c1, keys, strict, ls)) == SaveLines(c2, keys, strict, ls)
  {
    hide HasKey, RewriteLines, MissingLines;
    RewriteAppend(c2, keys, strict, RewriteLines(c1, keys, strict, ls), MissingLines(c1, keys, ls));
    RewriteTwice(c1, c2, keys, strict, ls);
    RewriteMissing(c1, c2, keys, strict, keys, ls);
    forall k | k in keys ensures HasKey(SaveLines(c1, keys, strict, ls), k) { SaveHas(c1, keys, strict, ls, k); }
    NoneMissing(c2, keys, SaveLines(c1, keys, strict, ls));
  }

  lemma ExistingWhole(text: string)
    requires '\0' !in text && |text| <= 2047
    ensures Existing(text) == text
  {
  }

  lemma {:induction false} JoinNulFree(ls: seq<string>)
    requires NulFree(ls)
    ensures '\0' !in Join(ls)
  {
    if ls != [] {
      assert '\0' !in ls[0];
      JoinNulFree(ls[1..]);
    }
  }

  // Saving c1 and then c2 leaves the file that saving c2 alone leaves, byte for
  // byte, as long as the intermediate file fits the saver's read.
  lemma PutPut(c1: Node, c2: Node, keys: seq<Key>, strict: bool, prior: string)
    requires Typed(c1) && Typed(c2) && OneLine(c1) && Unglued(keys, strict, Existing(prior))
    requires |SaveText(c1, keys, strict, prior)| <= 2047
    ensures SaveText(c2, keys, strict, SaveText(c1, keys, strict, prior)) == SaveText(c2, keys, strict, prior)
  {
    hide Existing, Lines, SaveLines;
    var first := SaveText(c1, keys, strict, prior);
    SavedLines(c1, keys, strict, prior);
    JoinNulFree(SaveLines(c1, keys, strict, Lines(Existing(prior))));
    ExistingWhole(first);
    SaveLinesTwice(c1, c2, keys, strict, Lines(Existing(prior)));
  }

  // Saving again changes nothing.
  lemma SaveIdempotent(c: Node, keys: seq<Key>, strict: bool, prior: string)
    requires Typed(c) && OneLine(c) && Unglued(keys, strict, Existing(prior)) && |SaveText(c, keys, strict, prior)| <= 2047
    ensures SaveText(c, keys, strict, SaveText(c, keys, strict, prior)) == SaveText(c, keys, strict, prior)
  {
    hide SaveText;
    PutPut(c, c, keys, strict, prior);
  }

  // ---- Unmanaged content ---------------------------------------------------------------

  // Comments, blank lines and lines of unknown keys.
  function Unknown(ls: seq<string>): seq<string> {
    if ls == [] then []
    else (if LineKey(ls[0]).None? then [ls[0]] else []) + Unknown(ls[1..])
  }

  lemma {:induction false} UnknownAppend(a: seq<string>, b: seq<string>)
    ensures Unknown(a + b) == Unknown(a) + Unknown(b)
  {
    hide LineKey;
    if a == [] {
      assert a + b == b;
    } else {
      assert (a + b)[1..] == a[1..] + b;
      UnknownAppend(a[1..], b);
    }
  }

  lemma UnknownSingle(line: string)
    ensures Unknown([line]) == if LineKey(line).None? then [line] else []
  {
    hide LineKey;
    assert [line][1..] == [];
    assert Unknown([]) == [];
  }

  lemma UnknownOne(c: Node, keys: seq<Key>, strict: bool, line: string)
    requires Typed(c) && OneLine(c)
    ensures Unknown(RewriteLine(c, keys, strict, line)) == if LineKey(line).None? then [line] else []
  {
    hide LineKey, KeyLine;
    UnknownSingle(line);
    if LineKey(line).Some? && LineKey(line).value in keys {
      KeyLineParses(LineKey(line).value, c);
      UnknownSingle(KeyLine(LineKey(line).value, c));
    }
    assert Unknown([]) == [];
  }

  lemma {:induction false} UnknownRewrite(c: Node, keys: seq<Key>, strict: bool, ls: seq<string>)
    requires Typed(c) && OneLine(c)
    ensures Unknown(RewriteLines(c, keys, strict, ls)) == Unknown(ls)
  {
    hide LineKey, RewriteLine;
    if ls != [] {
      UnknownOne(c, keys, strict, ls[0]);
      UnknownRewrite(c, keys, strict, ls[1..]);
      UnknownAppend(RewriteLine(c, keys, strict, ls[0]), RewriteLines(c, keys, strict, ls[1..]));
    }
  }

  lemma {:induction false} UnknownMissing(c: Node, keys: seq<Key>, ls: seq<string>)
    requires Typed(c) && OneLine(c)
    ensures Unknown(MissingLines(c, keys, ls)) == []
  {
    hide LineKey, KeyLine, HasKey;
    if keys != [] {
      UnknownMissing(c, keys[1..], ls);
      if !HasKey(ls, keys[0]) {
        KeyLineParses(keys[0], c);
        UnknownSingle(KeyLine(keys[0], c));
        UnknownAppend([KeyLine(keys[0], c)], MissingLines(c, keys[1..], ls));
      } else {
        assert MissingLines(c, keys, ls) == MissingLines(c, keys[1..], ls);
      }
    }
  }

  // The comment, blank and unknown-key lines of a file are the same lines in the same
  // order after either kind of save, exactly when no appended line is glued to one.
  lemma UnmanagedKept(c: Node, keys: seq<Key>, strict: bool, prior: string)
    requires Typed(c) && OneLine(c) && (strict || keys == MANAGED)
    ensures Unknown(Lines(SaveText(c, keys, strict, prior))) == Unknown(Lines(Existing(prior)))
            <==> Unglued(keys, strict, Existing(prior))
  {
    hide Existing, Lines, SaveText, RewriteLines, MissingLines, Unknown, Unglued;
    var ls := Lines(Existing(prior));
    if Unglued(keys, strict, Existing(prior)) {
      SavedLines(c, keys, strict, prior);
      UnknownRewrite(c, keys, strict, ls);
      UnknownMissing(c, keys, ls);
      UnknownAppend(RewriteLines(c, keys, strict, ls), MissingLines(c, keys, ls));
    } else {
      GluedLoses(c, keys, strict, prior);
    }
  }

  lemma {:induction false} UnknownMember(ls: seq<string>, line: string)
    ensures line in Unknown(ls) <==> line in ls && LineKey(line).None?
  {
    hide LineKey;
    if ls != [] {
      assert ls == [ls[0]] + ls[1..];
      UnknownMember(ls[1..], line);
    }
  }

  lemma {:induction false} JoinEnd(ls: seq<string>, line: string)
    requires line != ""
    ensures Join(ls + [line]) != "" && Join(ls + [line])[|Join(ls + [line])| - 1] == line[|line| - 1]
  {
    if ls == [] {
      assert [line][1..] == [] && Join([line]) == line;
    } else {
      assert (ls + [line])[1..] == ls[1..] + [line];
      JoinEnd(ls[1..], line);
    }
  }

  // A file to which a key was appended ends in a complete line.
  lemma AppendedCloses(c: Node, keys: seq<Key>, strict: bool, prior: string)
    requires Typed(c)
    ensures MissingLines(c, keys, Lines(Existing(prior))) != [] ==> Closed(SaveText(c, keys, strict, prior))
  {
    hide Existing, Lines, RewriteLines, MissingLines, Closed, KeyLine;
    var ls := Lines(Existing(prior));
    var missing := MissingLines(c, keys, ls);
    if missing != [] {
      var end := missing[|missing| - 1];
      MissingFrom(c, keys, ls, end);
      var k :| k in keys && end == KeyLine(k, c);
      var front := RewriteLines(c, keys, strict, ls) + missing[..|missing| - 1];
      assert SaveLines(c, keys, strict, ls) == front + [end];
      KeyLineEnds(k, c);
      JoinEnd(front, end);
      NewlineCloses(SaveText(c, keys, strict, prior));
    }
  }

  // The kept incomplete line is gone: every line of the new file is complete.
  lemma GluedLoses(c: Node, keys: seq<Key>, strict: bool, prior: string)
    requires Typed(c) && OneLine(c) && (strict || keys == MANAGED) && !Unglued(keys, strict, Existing(prior))
    ensures Unknown(Lines(SaveText(c, keys, strict, prior))) != Unknown(Lines(Existing(prior)))
  {
    hide Existing, Lines, MissingLines, SaveText, Unknown, LineKey, HasKey, Whole;
    var ls := Lines(Existing(prior));
    var last := ls[|ls| - 1];
    if LineKey(last).Some? { AllManaged(LineKey(last).value); }
    NoneMissing(c, keys, ls);
    AppendedCloses(c, keys, strict, prior);
    UnknownMember(ls, last);
    UnknownMember(Lines(SaveText(c, keys, strict, prior)), last);
  }

  lemma KeyLineEnds(k: Key, c: Node)
    requires Typed(c)
    ensures KeyLine(k, c) != "" && KeyLine(k, c)[|KeyLine(k, c)| - 1] == '\n'
  {
    hide Name, ValueText;
  }

  // ---- The Strand save -----------------------------------------------------------------

  // Only Strand keys and unknown lines, every Strand key with its current value.
  ghost predicate StrandOnly(c: Node, out: seq<string>)
    requires Typed(c)
  {
    && (forall i :: 0 <= i < |out| && LineKey(out[i]).Some? ==>
          LineKey(out[i]).value in STRAND && out[i] == KeyLine(LineKey(out[i]).value, c))
    && (forall k :: k in STRAND ==> HasKey(out, k))
  }

  lemma StrandProjection(c: Node, prior: string)
    requires Typed(c) && OneLine(c) && Unglued(STRAND, true, Existing(prior))
    ensures StrandOnly(c, Lines(SaveText(c, STRAND, true, prior)))
  {
    hide LineKey, KeyLine, Existing, Lines, SaveLines, SaveText, HasKey;
    var ls := Lines(Existing(prior));
    SavedLines(c, STRAND, true, prior);
    var out := SaveLines(c, STRAND, true, ls);
    forall i | 0 <= i < |out| && LineKey(out[i]).Some? ensures LineKey(out[i]).value in STRAND && out[i] == KeyLine(LineKey(out[i]).value, c) {
      SaveFrom(c, STRAND, true, ls, out[i]);
      var k :| k in STRAND && out[i] == KeyLine(k, c);
      KeyLineParses(k, c);
    }
    forall k | k in STRAND ensures HasKey(out, k) { SaveHas(c, STRAND, true, ls, k); }
  }

  // Longest line a key can print.
  function LineLimit(k: Key): nat {
    match k
    case NodeAddr => 27 case HostName => 27 case MacAddr => 28 case Netmask => 26 case Gateway => 26
    case Protocol => 19 case HoldTime => 21 case Universe0 => 24 case Universe1 => 24
    case Mode0 => 21 case Mode1 => 21 case Label1 => 22 case Label2 => 22 case AddrMode => 24
    case Contrast => 19 case Backlight => 21 case Monitor0 => 27 case Monitor1 => 27
  }

  function TotalLimit(keys: seq<Key>, i: nat): nat
    decreases |keys| - i
  {
    if i >= |keys| then 0 else LineLimit(keys[i]) + TotalLimit(keys, i + 1)
  }

  lemma KeyLineLimit(k: Key, c: Node)
    requires Typed(c) && OneLine(c)
    ensures |KeyLine(k, c)| <= LineLimit(k)
  {
    hide Dec, PrintIp, PrintMac;
    match k
    case NodeAddr => IpShort(c.ip);
    case MacAddr => MacClean(c.mac);
    case Netmask => IpShort(c.netmask);
    case Gateway => IpShort(c.gateway);
    case HoldTime => DecShort(c.holdTime);
    case Universe0 => DecShort(c.port0.universe);
    case Universe1 => DecShort(c.port1.universe);
    case Contrast => DecShort(c.contrast);
    case Monitor0 => DecShort(c.monitor0);
    case Monitor1 => DecShort(c.monitor1);
    case _ =>
  }

  lemma {:induction false} EmptyFileSave(c: Node, keys: seq<Key>, i: nat)
    requires Typed(c) && OneLine(c) && i <= |keys|
    ensures |Join(MissingLines(c, keys[i..], []))| <= TotalLimit(keys, i)
    decreases |keys| - i
  {
    hide KeyLine, LineLimit;
    if i < |keys| {
      KeyLineLimit(keys[i], c);
      EmptyFileSave(c, keys, i + 1);
      HasKeyNone(keys[i]);
      assert keys[i..][1..] == keys[i + 1..];
      assert MissingLines(c, keys[i..], [])[1..] == MissingLines(c, keys[i + 1..], []);
    }
  }

  lemma StrandTotal()
    ensures TotalLimit(STRAND, 0) == 286
  {
    assert TotalLimit(STRAND, 12) == 0;
    assert TotalLimit(STRAND, 11) == 22 && TotalLimit(STRAND, 10) == 43 && TotalLimit(STRAND, 9) == 64;
    assert TotalLimit(STRAND, 8) == 88 && TotalLimit(STRAND, 7) == 112 && TotalLimit(STRAND, 6) == 133;
    assert TotalLimit(STRAND, 5) == 152 && TotalLimit(STRAND, 4) == 178 && TotalLimit(STRAND, 3) == 204;
    assert TotalLimit(STRAND, 2) == 232 && TotalLimit(STRAND, 1) == 259;
  }

  // From an empty file the Strand save is at most 286 bytes, far below the 2048 the flash takes.
  lemma StrandFromEmpty(c: Node)
    requires Typed(c) && OneLine(c)
    ensures |SaveText(c, STRAND, true, "")| <= 286
  {
    hide MissingLines;
    assert Lines(Existing("")) == [];
    assert SaveLines(c, STRAND, true, []) == MissingLines(c, STRAND, []);
    EmptyFileSave(c, STRAND, 0);
    assert STRAND[0..] == STRAND;
    StrandTotal();
  }
}
