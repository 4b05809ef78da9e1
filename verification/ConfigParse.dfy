// Reading a printed line back: the key, the value, and the number or address it holds.
module ConfigParse {
  import opened Prelude
  import opened Numbers
  import opened Scanf
  import opened Printf
  import opened Config
  import opened ConfigLines

  // ---- The line format ------------------------------------------------------------

  lemma SpanPlain(s: string, t: string, chars: string, limit: nat)
    requires (forall i :: 0 <= i < |s| ==> s[i] !in chars) && |s| <= limit
    requires t == "" || t[0] in chars || |s| == limit
    ensures Span(s + t, chars, true, limit) == |s|
  {
    SpanIs(s + t, chars, true, limit, |s|);
  }

  // The key and value texts of a line, or none: what the format string means.
  function Fields(line: string): Option<(string, string)> {
    var n := Span(line, "=", true, 63);
    if n == 0 || n == |line| || line[n] != '=' then None
    else
      var v := Span(line[n + 1..], "\n\r", true, 191);
      if v == 0 then None else Some((line[..n], line[n + 1..][..v]))
  }

  // "%<digits>[^<chars>]" and more format.
  lemma CutDirective(digits: string, chars: string, after: string, str: string)
    requires AllDigits(digits) && digits != "" && Value(digits) > 0 && |chars| <= 63 && ']' !in chars && str != ""
    ensures var k := Span(str, chars, true, Value(digits));
            Scan(ClassFormat(digits, true, chars, after), str) == [Text(str[..k])] + Scan(after, str[k..])
  {
    hide Scan, Span, Value, ClassFormat;
    SpanFacts(str, chars, true, Value(digits));
    ClassDirective(digits, true, chars, after, str, Span(str, chars, true, Value(digits)));
  }

  lemma {:induction false} SpanFacts(s: string, chars: string, negate: bool, limit: nat)
    ensures var n := Span(s, chars, negate, limit);
            && (forall i :: 0 <= i < n ==> InClass(s[i], chars, negate))
            && (n == |s| || n == limit || !InClass(s[n], chars, negate))
  {
    if s != "" && limit > 0 && InClass(s[0], chars, negate) { SpanFacts(s[1..], chars, negate, limit - 1); }
  }

  lemma KeyDirective(line: string)
    requires line != ""
    ensures var n := Span(line, "=", true, 63);
            Scan(LINE_FORMAT, line) == [Text(line[..n])] + Scan("=%191[^\n\r]", line[n..])
  {
    hide Scan, Span;
    assert Value("63") == 63 by { assert "63"[..1] == "6" && "6"[..0] == ""; }
    assert LINE_FORMAT == ClassFormat("63", true, "=", "=%191[^\n\r]");
    CutDirective("63", "=", "=%191[^\n\r]", line);
  }

  lemma ValueDirective(str: string)
    requires str != ""
    ensures Scan("%191[^\n\r]", str) == [Text(str[..Span(str, "\n\r", true, 191)])]
  {
    hide Scan, Span;
    assert Value("191") == 191 by { assert "191"[..2] == "19" && "19"[..1] == "1" && "1"[..0] == ""; }
    assert "%191[^\n\r]" == ClassFormat("191", true, "\n\r", "");
    CutDirective("191", "\n\r", "", str);
    assert Scan("", str[Span(str, "\n\r", true, 191)..]) == [] by { ScanNothing(str[Span(str, "\n\r", true, 191)..]); }
  }

  lemma ScanNothing(str: string)
    ensures Scan("", str) == []
  {
  }

  lemma EqualsDirective(str: string)
    ensures Scan("=%191[^\n\r]", str) == if str == "" || str[0] != '=' then [] else Scan("%191[^\n\r]", str[1..])
  {
    assert "=%191[^\n\r]"[1..] == "%191[^\n\r]";
  }

  // What the key/value format of config_load and the saver accepts.
  lemma LineFormatIs(line: string)
    ensures ParseLine(line) == if line == "" || line[0] == '#' || line[0] == '\n' || line[0] == '\r' then None
                               else match Fields(line) case None => None case Some(kv) => Some((Trim(kv.0), Trim(kv.1)))
  {
    hide Scan, Span, Trim, Matched;
    if line != "" {
      var n := Span(line, "=", true, 63);
      KeyDirective(line);
      EqualsDirective(line[n..]);
      if n < |line| && line[n] == '=' {
        assert line[n..][1..] == line[n + 1..];
        if line[n + 1..] != "" {
          ValueDirective(line[n + 1..]);
          var v := Span(line[n + 1..], "\n\r", true, 191);
          assert Scan(LINE_FORMAT, line) == [Text(line[..n]), Text(line[n + 1..][..v])];
          MatchedPair(line[..n], line[n + 1..][..v]);
        } else {
          ScanEmpty("%191[^\n\r]");
          MatchedOne(line[..n]);
        }
      } else {
        MatchedOne(line[..n]);
      }
    }
  }

  lemma MatchedOne(a: string)
    ensures Matched([Text(a)]) < 2 && [Text(a)] + [] == [Text(a)]
  {
    assert [Text(a)][1..] == [];
    assert Matched([Text(a)][1..]) == 0;
  }

  lemma MatchedPair(a: string, b: string)
    ensures Matched([Text(a), Text(b)]) == 2 <==> a != "" && b != ""
  {
    assert [Text(a), Text(b)][1..] == [Text(b)];
    assert [Text(b)][1..] == [];
    assert Matched([Text(b)][1..]) == 0;
  }

  lemma ScanEmpty(fmt: string)
    ensures Scan(fmt, "") == [] && Span("", "\n\r", true, 191) == 0
  {
  }

  // ---- Printed lines parse back ---------------------------------------------------

  // A value as the parser sees it: up to a carriage return, without surrounding blanks.
  function UpToCr(s: string): string {
    s[..Span(s, "\r", true, |s|)]
  }

  // Spaces and tabs.
  predicate Blanks(s: string) {
    forall i :: 0 <= i < |s| ==> s[i] == ' ' || s[i] == '\t'
  }

  // trim takes off just the spaces and tabs around a text.
  lemma TrimOf(pre: string, s: string, post: string)
    requires Blanks(pre) && Blanks(post) && (s != "" ==> !Blanks(s[..1]) && !Blanks(s[|s| - 1..]))
    ensures Trim(pre + s + post) == s
  {
    hide TrimRight;
    SkipsBlanks(pre, s + post);
    assert pre + s + post == pre + (s + post);
    if s == "" {
      SkipsBlanks(post, "");
      assert post + "" == post && s + post == post && "" + "" == "";
      RightBlanks("", "");
    } else {
      assert SkipBlanks(s + post) == s + post;
      RightBlanks(s, post);
    }
  }

  lemma {:induction false} SkipsBlanks(pre: string, s: string)
    requires Blanks(pre)
    ensures SkipBlanks(pre + s) == SkipBlanks(s)
  {
    if pre == "" {
      assert pre + s == s;
    } else {
      assert (pre + s)[1..] == pre[1..] + s;
      SkipsBlanks(pre[1..], s);
    }
  }

  lemma {:induction false} RightBlanks(s: string, post: string)
    requires Blanks(post) && (s == "" ==> post == "") && (s != "" ==> s[|s| - 1] != ' ' && s[|s| - 1] != '\t')
    ensures TrimRight(s + post) == s
  {
    if post == "" {
      assert s + post == s;
    } else {
      assert (s + post)[..|s + post| - 1] == s + post[..|post| - 1];
      RightBlanks(s, post[..|post| - 1]);
    }
  }

  lemma NameTrims(k: Key)
    ensures Trim(Name(k) + " ") == Name(k)
  {
    hide Name;
    NameChars(k);
    assert " "[0] == ' ' && "" + Name(k) + " " == Name(k) + " ";
    assert IsNameChar(Name(k)[..1][0]) && IsNameChar(Name(k)[|Name(k)| - 1..][0]);
    TrimOf("", Name(k), " ");
  }

  lemma {:induction false} SpanTwo(s: string, limit: nat)
    requires '\n' !in s && |s| < limit
    ensures Span(s + "\n", "\n\r", true, limit) == Span(s, "\r", true, |s|)
  {
    if s == "" {
      assert s + "\n" == "\n";
    } else {
      assert (s + "\n")[1..] == s[1..] + "\n";
      if s[0] != '\r' { SpanTwo(s[1..], limit - 1); }
    }
  }

  lemma BlankFirst(s: string)
    ensures UpToCr(" " + s) == " " + UpToCr(s) && Trim(" " + UpToCr(s)) == Trim(UpToCr(s))
  {
    assert (" " + s)[1..] == s;
    assert (" " + UpToCr(s))[1..] == UpToCr(s);
    assert Span(" " + s, "\r", true, 1 + |s|) == 1 + Span(s, "\r", true, |s|);
  }

  // A printed line gives back its key and its trimmed value, whatever follows a name character.
  lemma ParsePrinted(k: Key, v: string)
    requires '\n' !in v && |v| <= 100
    ensures ParseLine(Name(k) + " = " + v + "\n") == Some((Name(k), Trim(UpToCr(v))))
  {
    hide Name, Trim, Span, UpToCr;
    NameChars(k);
    NameTrims(k);
    BlankFirst(v);
    var key := Name(k) + " ";
    var line := key + ("=" + ((" " + v) + "\n"));
    assert line == Name(k) + " = " + v + "\n";
    FieldsOf(key, " " + v);
    LineFormatIs(line);
  }

  lemma FieldsOf(key: string, val: string)
    requires key != "" && '=' !in key && |key| <= 63 && '\n' !in val && |val| < 191 && val != "" && val[0] != '\r'
    ensures Fields(key + ("=" + (val + "\n"))) == Some((key, UpToCr(val)))
  {
    hide Span;
    var rest := "=" + (val + "\n");
    var line := key + rest;
    SpanPlain(key, rest, "=", 63);
    assert line[..|key|] == key && line[|key|] == '=' && line[|key| + 1..] == val + "\n";
    SpanTwo(val, 191);
    SpanFirst(val);
    PrefixOf(val, "\n");
  }

  lemma SpanFirst(s: string)
    requires s != "" && s[0] != '\r'
    ensures Span(s, "\r", true, |s|) > 0
  {
  }

  lemma PrefixOf(s: string, t: string)
    ensures (s + t)[..Span(s, "\r", true, |s|)] == UpToCr(s)
  {
    hide Span;
  }

  // ---- Values -----------------------------------------------------------------------

  predicate Clean(v: string) {
    '\r' !in v && (v == "" || (!IsBlank(v[0]) && !IsBlank(v[|v| - 1])))
  }

  lemma CleanValue(v: string)
    requires Clean(v)
    ensures Trim(UpToCr(v)) == v
  {
    SpanIs(v, "\r", true, |v|, |v|);
    assert UpToCr(v) == v;
  }

  lemma DecClean(n: nat)
    ensures Clean(Dec(n)) && Trim(UpToCr(Dec(n))) == Dec(n)
    ensures n < 0x8000_0000 ==> AtoiValue(Trim(UpToCr(Dec(n)))) == n
  {
    hide Dec;
    ValueOfDec(n);
    var s := Dec(n);
    assert IsDigit(s[0]) && IsDigit(s[|s| - 1]);
    CleanValue(s);
    if n < 0x8000_0000 { AtoiOfDec(n); }
  }

  // %u reads all the digits there are, modulo 2^32.
  lemma UnsignedScan(rest: string, d: string, t: string)
    requires d != "" && AllDigits(d) && (t == "" || !IsDigit(t[0]))
    ensures Scan("%u" + rest, d + t) == [UInt(Value(d) % 0x1_0000_0000)] + Scan(rest, t)
  {
    hide Value, Scan;
    var fmt, str := "%u" + rest, d + t;
    assert fmt[1..] == "u" + rest && fmt[1..][0..] == fmt[1..] && fmt[1..][1..] == rest;
    assert str[..|d|] == d && str[|d|..] == t;
    DigitRunIs(str, |d|);
    ValueNothing(fmt[1..]);
    NumberStep(fmt, str, 0, 0, 1, 0, |d|, Value(d) % 0x1_0000_0000);
    assert fmt[0..] == fmt && str[0..] == str && fmt[2..] == rest;
  }

  lemma UnsignedNone(rest: string, t: string)
    requires t == "" || !IsDigit(t[0])
    ensures Scan("%u" + rest, t) == []
  {
    hide Value;
    if t != "" {
      assert ("%u" + rest)[1..] == "u" + rest;
      DigitRunIs("u" + rest, 0);
      DigitRunIs(t, 0);
    }
  }

  // Four texts with dots between them.
  function Dotted(d: seq<string>, t: string): string
    requires |d| == 4
  {
    d[0] + ("." + (d[1] + ("." + (d[2] + ("." + (d[3] + t))))))
  }

  ghost predicate Numerals(d: seq<string>) {
    |d| == 4 && forall i :: 0 <= i < 4 ==> d[i] != "" && AllDigits(d[i])
  }

  // The values sscanf stores for four numerals.
  ghost function Wrapped(d: seq<string>): (n: seq<nat>)
    requires Numerals(d)
    ensures |n| == 4
  {
    seq(4, i requires 0 <= i < 4 => Value(d[i]) % 0x1_0000_0000)
  }

  lemma IpFormat()
    ensures "%u.%u.%u.%u" == "%u" + ("." + ("%u" + ("." + ("%u" + ("." + ("%u" + ""))))))
  {
  }

  lemma DotScan(rest: string, t: string)
    ensures Scan("." + rest, "." + t) == Scan(rest, t)
  {
    LiteralScan('.', rest, "." + t);
    assert ['.'] + rest == "." + rest && ("." + t)[1..] == t;
  }

  lemma DottedScan(d: seq<string>, t: string)
    requires Numerals(d) && (t == "" || !IsDigit(t[0]))
    ensures Scan("%u.%u.%u.%u", Dotted(d, t)) == [UInt(Wrapped(d)[0]), UInt(Wrapped(d)[1]), UInt(Wrapped(d)[2]), UInt(Wrapped(d)[3])]
  {
    hide Value, Scan;
    IpFormat();
    var f3 := "%u" + "";
    var f2 := "%u" + ("." + f3);
    var f1 := "%u" + ("." + f2);
    var t3 := d[3] + t;
    var t2 := d[2] + ("." + t3);
    var t1 := d[1] + ("." + t2);
    UnsignedScan("." + f1, d[0], "." + t1);
    DotScan(f1, t1);
    UnsignedScan("." + f2, d[1], "." + t2);
    DotScan(f2, t2);
    UnsignedScan("." + f3, d[2], "." + t3);
    DotScan(f3, t3);
    UnsignedScan("", d[3], t);
    ScanNothing(t);
  }

  // parse_ip on four numerals with dots between them, whatever follows: their bytes, most
  // significant first, or 0 when one of them exceeds 255.
  lemma ParseIpOf(d: seq<string>, t: string)
    requires Numerals(d) && (t == "" || !IsDigit(t[0]))
    ensures var n := Wrapped(d);
            ParseIp(Dotted(d, t)) == if n[0] <= 255 && n[1] <= 255 && n[2] <= 255 && n[3] <= 255
                                     then n[0] * 0x100_0000 + n[1] * 0x1_0000 + n[2] * 0x100 + n[3] else 0
  {
    hide Scan, Matched, Value;
    DottedScan(d, t);
    MatchedFour(Scan("%u.%u.%u.%u", Dotted(d, t)));
  }

  lemma NumeralFirst(s: string) returns (d: string, t: string)
    ensures s == d + t && AllDigits(d) && (t == "" || !IsDigit(t[0]))
  {
    d, t := s[..DigitRun(s)], s[DigitRun(s)..];
  }

  // One numeral, and the dot and the text behind it if the scan goes on.
  lemma NumeralAndDot(rest: string, s: string) returns (d: string, t: string)
    ensures AllDigits(d)
    ensures d == "" ==> Scan("%u" + ("." + rest), s) == []
    ensures d != "" ==> Scan("%u" + ("." + rest), s) == [UInt(Value(d) % 0x1_0000_0000)] + (if s == d + ("." + t) then Scan(rest, t) else [])
  {
    hide Value, Scan;
    var u;
    d, u := NumeralFirst(s);
    t := if u == "" then "" else u[1..];
    LiteralScan('.', rest, u);
    assert ['.'] + rest == "." + rest;
    if d == "" { UnsignedNone("." + rest, s); } else { UnsignedScan("." + rest, d, u); }
    if u != "" && u[0] == '.' { assert u == "." + t; } else { assert s == d + ("." + t) ==> u == "." + t by { Behind(d, u, "." + t); } }
  }

  lemma Behind(d: string, u: string, v: string)
    ensures d + u == d + v ==> u == v
  {
    if d + u == d + v { assert u == (d + u)[|d|..] == (d + v)[|d|..] == v; }
  }

  // Only four numerals with dots between them are an address.
  lemma ParseIpNeeds(s: string) returns (d: seq<string>, t: string)
    ensures ParseIp(s) != 0 ==> Numerals(d) && (t == "" || !IsDigit(t[0])) && s == Dotted(d, t)
  {
    hide Value, Scan;
    IpFormat();
    var f3 := "%u" + "";
    var f2 := "%u" + ("." + f3);
    var f1 := "%u" + ("." + f2);
    var d0, t0 := NumeralAndDot(f1, s);
    var d1, t1 := NumeralAndDot(f2, t0);
    var d2, t2 := NumeralAndDot(f3, t1);
    var d3;
    d3, t := NumeralFirst(t2);
    if d3 == "" { UnsignedNone("", t2); } else { UnsignedScan("", d3, t); ScanNothing(t); }
    d := [d0, d1, d2, d3];
  }

  // parse_ip inverts the printed dotted form, for every address.
  lemma ParsePrintedIp(ip: nat)
    requires ip < UINT_LIMIT
    ensures ParseIp(PrintIp(ip)) == ip
  {
    hide *;
    var n := IpBytes(ip);
    var d := [Dec(n[0]), Dec(n[1]), Dec(n[2]), Dec(n[3])];
    DecNumerals(d, n);
    DotsIs(Dec(n[0]), Dec(n[1]), Dec(n[2]), Dec(n[3]));
    ParseIpOf(d, "");
    PrintedBytes(ip);
  }

  function IpBytes(ip: nat): (n: seq<nat>)
    requires ip < UINT_LIMIT
    ensures |n| == 4 && n[0] < 256 && n[1] < 256 && n[2] < 256 && n[3] < 256
    ensures n[0] * 0x100_0000 + n[1] * 0x1_0000 + n[2] * 0x100 + n[3] == ip
  {
    Octets(ip);
    [ip / 0x100_0000 % 256, ip / 0x1_0000 % 256, ip / 0x100 % 256, ip % 256]
  }

  lemma PrintedBytes(ip: nat)
    requires ip < UINT_LIMIT
    ensures var n := IpBytes(ip); PrintIp(ip) == Dec(n[0]) + "." + Dec(n[1]) + "." + Dec(n[2]) + "." + Dec(n[3])
  {
    hide Dec;
  }

  lemma DecNumerals(d: seq<string>, n: seq<nat>)
    requires |d| == 4 && |n| == 4 && forall i :: 0 <= i < 4 ==> d[i] == Dec(n[i]) && n[i] < 256
    ensures Numerals(d) && Wrapped(d) == n
  {
    hide Dec, Value;
    forall i | 0 <= i < 4 ensures d[i] != "" && AllDigits(d[i]) && Value(d[i]) == n[i] { ValueOfDec(n[i]); }
    WrappedIs(d, n);
  }

  lemma WrappedIs(d: seq<string>, n: seq<nat>)
    requires Numerals(d) && |n| == 4 && forall i :: 0 <= i < 4 ==> Value(d[i]) == n[i] < 256
    ensures Wrapped(d) == n
  {
    hide Value;
  }

  lemma DotsIs(a: string, b: string, c: string, d: string)
    ensures a + "." + b + "." + c + "." + d == Dotted([a, b, c, d], "")
  {
  }

  lemma MatchedFour(outs: seq<Conv>)
    requires |outs| == 4 && forall i :: 0 <= i < 4 ==> outs[i].UInt?
    ensures Matched(outs) == 4
  {
    assert Matched(outs[4..]) == 0;
    assert outs[3..][1..] == outs[4..] && outs[2..][1..] == outs[3..] && outs[1..][1..] == outs[2..];
    assert Matched(outs[3..]) == 1;
    assert Matched(outs[2..]) == 2;
    assert Matched(outs[1..]) == 3;
  }

  lemma Octets(ip: nat)
    requires ip < UINT_LIMIT
    ensures ip / 0x100_0000 % 256 * 0x100_0000 + ip / 0x1_0000 % 256 * 0x1_0000 + ip / 0x100 % 256 * 0x100 + ip % 256 == ip
  {
    var q1 := ip / 0x100;
    var q2 := q1 / 0x100;
    assert ip / 0x1_0000 == q2 && ip / 0x100_0000 == q2 / 0x100;
    assert ip == ip % 0x100 + 0x100 * q1 && q1 == q1 % 0x100 + 0x100 * q2 && q2 == q2 % 0x100 + 0x100 * (q2 / 0x100);
  }

  lemma IpClean(ip: nat)
    ensures Clean(PrintIp(ip))
    ensures PrintIp(ip) != "0"
  {
    hide Dec;
    var a, b, c, d := ip / 0x100_0000 % 256, ip / 0x1_0000 % 256, ip / 0x100 % 256, ip % 256;
    DecClean(a); DecClean(b); DecClean(c); DecClean(d);
    assert PrintIp(ip)[0] == Dec(a)[0] && PrintIp(ip)[|PrintIp(ip)| - 1] == Dec(d)[|Dec(d)| - 1];
  }

  predicate IsHex(c: char) { '0' <= c <= '9' || 'a' <= c <= 'f' || 'A' <= c <= 'F' }

  // Either case of a digit has its value, and nothing else has one.
  lemma HexValueOf(d: nat, upper: bool, c: char)
    requires d < 16
    ensures HexValue(HexDigit(d, upper)) == d && IsHex(HexDigit(d, upper))
    ensures !IsHex(c) ==> HexValue(c) == -1
  {
  }

  lemma ByteDigits(b: nat)
    requires b < 256
    ensures PrintByte(b) == [HexDigit(b / 16, true), HexDigit(b % 16, true)]
  {
    if b < 16 {
      assert Hex(b, true) == [HexDigit(b, true)] && Fill(1, '0') == "0";
      assert HexDigit(0, true) == '0';
    } else {
      assert Hex(b / 16, true) == [HexDigit(b / 16, true)];
    }
  }

  // A hex digit of either case.
  predicate Shows(c: char, d: nat)
    requires d < 16
  {
    c == HexDigit(d, false) || c == HexDigit(d, true)
  }

  // A byte written with one or two hex digits.
  predicate Renders(g: string, b: nat) {
    || (|g| == 1 && b < 16 && Shows(g[0], b))
    || (|g| == 2 && b < 256 && Shows(g[0], b / 16) && Shows(g[1], b % 16))
  }

  // Groups with colons between them.
  ghost function Colons(gs: seq<string>): string {
    if gs == [] then "" else gs[0] + (if |gs| == 1 then "" else ":" + Colons(gs[1..]))
  }

  // What follows does not add a digit to the last group.
  ghost predicate Ends(g: string, t: string) {
    |g| == 2 || t == "" || !IsHex(t[0])
  }

  lemma RenderedByte(g: string, b: nat, t: string)
    requires Renders(g, b) && Ends(g, t)
    ensures HexByte(g + t) == (|g|, b) && 0 < |g| <= 2 && (g + t)[|g|..] == t
  {
    hide HexDigit, HexValue, IsHex;
    var s := g + t;
    assert s[0] == g[0];
    if |g| == 1 {
      ShownValue(g[0], b);
      if t != "" {
        HexValueOf(0, false, t[0]);
        assert s[1] == t[0];
      }
    } else {
      ShownValue(g[0], b / 16);
      ShownValue(g[1], b % 16);
      assert s[1] == g[1];
    }
  }

  lemma ShownValue(c: char, d: nat)
    requires d < 16 && Shows(c, d)
    ensures HexValue(c) == d && IsHex(c)
  {
    HexValueOf(d, false, c);
    HexValueOf(d, true, c);
  }

  lemma NoByte(t: string)
    requires t == "" || !IsHex(t[0])
    ensures HexByte(t).0 == 0
  {
    if t != "" { HexValueOf(0, false, t[0]); }
  }

  // No further group follows: not a first digit, or not a colon with a digit behind it.
  ghost predicate NoMore(n: nat, t: string) {
    if n == 0 then t == "" || !IsHex(t[0]) else !(|t| >= 2 && t[0] == ':' && IsHex(t[1]))
  }

  lemma ParseGroup(s: string, n: nat, b: nat, i: nat, prior: seq<nat>)
    requires n <= |s| && HexByte(s) == (n, b) && n > 0 && i < 6 && |prior| == 6
    ensures var stored, rest := prior[i := b], s[n..];
            ParseMacFrom(s, i, prior) == if i < 5 && rest != "" && rest[0] == ':' then ParseMacFrom(rest[1..], i + 1, stored) else stored
  {
    hide HexByte;
  }

  lemma NoGroup(t: string, i: nat, prior: seq<nat>)
    requires i <= 6 && |prior| == 6 && (i == 6 || t == "" || !IsHex(t[0]))
    ensures ParseMacFrom(t, i, prior) == prior
  {
    hide HexByte;
    if i < 6 { NoByte(t); }
  }

  lemma {:induction false} ParseGroups(gs: seq<string>, m: seq<nat>, t: string, i: nat, prior: seq<nat>)
    requires |gs| == |m| <= 6 - i && |prior| == 6 && i <= 6 && forall j :: 0 <= j < |m| ==> Renders(gs[j], m[j])
    requires gs != [] ==> Ends(gs[|gs| - 1], t)
    requires i + |gs| < 6 ==> NoMore(if gs == [] then 0 else 1, t)
    ensures ParseMacFrom(Colons(gs) + t, i, prior) == prior[..i] + m + prior[i + |m|..]
    decreases 6 - i
  {
    hide HexByte, Renders, Ends, ParseMacFrom, IsHex;
    if gs == [] {
      assert Colons(gs) + t == t;
      NoGroup(t, i, prior);
    } else {
      var rest := if |gs| == 1 then t else ":" + (Colons(gs[1..]) + t);
      assert Colons(gs) + t == gs[0] + rest;
      EndsAtColon(gs[0], rest);
      RenderedByte(gs[0], m[0], rest);
      var stored := prior[i := m[0]];
      ParseGroup(gs[0] + rest, |gs[0]|, m[0], i, prior);
      if |gs| > 1 {
        assert rest[1..] == Colons(gs[1..]) + t;
        ParseGroups(gs[1..], m[1..], t, i + 1, stored);
      } else if i < 5 && t != "" && t[0] == ':' {
        NoGroup(t[1..], i + 1, stored);
      }
      OneStored(prior, m, i);
    }
  }

  lemma OneStored(prior: seq<nat>, m: seq<nat>, i: nat)
    requires m != [] && i + |m| <= |prior|
    ensures var stored := prior[i := m[0]];
            prior[..i] + m + prior[i + |m|..] == stored[..i + 1] + m[1..] + stored[i + 1 + |m[1..]|..]
  {
    assert prior[..i] + m == prior[i := m[0]][..i + 1] + m[1..];
  }

  lemma EndsAtColon(g: string, rest: string)
    ensures rest != "" && rest[0] == ':' ==> Ends(g, rest)
  {
  }

  // parse_mac over any field: the bytes of up to six groups, in digits of either case, are
  // stored, and the bytes no group was read for keep their value.
  lemma ParseMacOf(gs: seq<string>, m: seq<nat>, t: string, prior: seq<nat>)
    requires |gs| == |m| <= 6 && |prior| == 6 && forall j :: 0 <= j < |m| ==> Renders(gs[j], m[j])
    requires gs != [] ==> Ends(gs[|gs| - 1], t)
    requires |gs| < 6 ==> NoMore(|gs|, t)
    ensures ParseMacFrom(Colons(gs) + t, 0, prior) == m + prior[|m|..]
  {
    hide Renders, Ends;
    ParseGroups(gs, m, t, 0, prior);
    assert prior[..0] + m == m;
  }

  // parse_mac inverts the printed address, whatever the field held before.
  lemma ParsePrintedMac(m: seq<nat>, prior: seq<nat>)
    requires |m| == 6 && |prior| == 6 && forall j :: 0 <= j < 6 ==> m[j] < 256
    ensures ParseMacFrom(PrintMac(m), 0, prior) == m
  {
    hide PrintByte, ParseMacFrom, Renders, Ends;
    var gs := [PrintByte(m[0]), PrintByte(m[1]), PrintByte(m[2]), PrintByte(m[3]), PrintByte(m[4]), PrintByte(m[5])];
    PrintByteRenders(m[0]); PrintByteRenders(m[1]); PrintByteRenders(m[2]);
    PrintByteRenders(m[3]); PrintByteRenders(m[4]); PrintByteRenders(m[5]);
    ColonsIs(gs);
    ParseMacOf(gs, m, "", prior);
    assert Colons(gs) + "" == PrintMac(m);
  }

  lemma PrintByteRenders(b: nat)
    requires b < 256
    ensures Renders(PrintByte(b), b) && Ends(PrintByte(b), "")
  {
    ByteDigits(b);
  }

  lemma ColonsIs(gs: seq<string>)
    requires |gs| == 6
    ensures Colons(gs) == gs[0] + ":" + gs[1] + ":" + gs[2] + ":" + gs[3] + ":" + gs[4] + ":" + gs[5]
  {
    assert Colons(gs[5..]) == gs[5] by { assert gs[5..][0] == gs[5]; }
    assert Colons(gs[4..]) == gs[4] + (":" + gs[5]) by { assert gs[4..][1..] == gs[5..]; }
    assert Colons(gs[3..]) == gs[3] + (":" + Colons(gs[4..])) by { assert gs[3..][1..] == gs[4..]; }
    assert Colons(gs[2..]) == gs[2] + (":" + Colons(gs[3..])) by { assert gs[2..][1..] == gs[3..]; }
    assert Colons(gs[1..]) == gs[1] + (":" + Colons(gs[2..])) by { assert gs[1..][1..] == gs[2..]; }
    MacGroups(gs[0], gs[1], gs[2], gs[3], gs[4], gs[5]);
  }

  lemma MacGroups(p0: string, p1: string, p2: string, p3: string, p4: string, p5: string)
    ensures p0 + (":" + (p1 + (":" + (p2 + (":" + (p3 + (":" + (p4 + (":" + p5)))))))))
         == p0 + ":" + p1 + ":" + p2 + ":" + p3 + ":" + p4 + ":" + p5
  {
  }

  lemma MacClean(m: seq<nat>)
    requires |m| == 6 && forall j :: 0 <= j < 6 ==> m[j] < 256
    ensures Clean(PrintMac(m)) && |PrintMac(m)| == 17
  {
    hide PrintByte;
    ByteChars(m[0]); ByteChars(m[1]); ByteChars(m[2]); ByteChars(m[3]); ByteChars(m[4]); ByteChars(m[5]);
  }

  lemma ByteChars(b: nat)
    requires b < 256
    ensures |PrintByte(b)| == 2 && forall i :: 0 <= i < 2 ==> '0' <= PrintByte(b)[i] <= 'F'
  {
    ByteDigits(b);
    HexChar(b / 16);
    HexChar(b % 16);
  }

  lemma HexChar(d: nat)
    requires d < 16
    ensures '0' <= HexDigit(d, true) <= 'F'
  {
  }
}
