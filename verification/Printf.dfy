// vsnprintf of the firmware's C library: the text a format denotes, and the
// loop that stores as much of it as fits.
module Printf {
  import opened Prelude
  import opened Numbers
  import opened Scanf

  datatype Arg = Int(i: int) | Str(s: string) | Null | Chr(c: char)

  // A directive after '%': zero flag, width, conversion character, remaining format.
  datatype Directive = Directive(zero: bool, width: nat, conv: char, rest: string)

  predicate Complete(f: string) {
    var g := if f != "" && f[0] == '0' then f[1..] else f;
    DigitRun(g) < |g|
  }

  function ParseDirective(f: string): (d: Directive)
    requires Complete(f)
    ensures |d.rest| < |f|
  {
    var zero := f[0] == '0';
    var g := if zero then f[1..] else f;
    var n := DigitRun(g);
    Directive(zero, Value(g[..n]), g[n], g[n + 1..])
  }

  predicate TakesArg(conv: char) { conv in "duxXpsc" }

  // The argument va_arg reads has the type the conversion asks for.
  predicate Fits(conv: char, a: Arg) {
    if conv == 'd' then a.Int? && -0x8000_0000 <= a.i < 0x8000_0000
    else if conv == 's' then a.Str? || a.Null?
    else if conv == 'c' then a.Chr?
    else a.Int? && 0 <= a.i < UINT_LIMIT
  }

  // The format's directives are complete and the arguments match them.
  predicate Matches(fmt: string, args: seq<Arg>)
    decreases |fmt|
  {
    if fmt == "" then true
    else if fmt[0] != '%' then Matches(fmt[1..], args)
    else
      Complete(fmt[1..]) &&
      var d := ParseDirective(fmt[1..]);
      if TakesArg(d.conv) then args != [] && Fits(d.conv, args[0]) && Matches(d.rest, args[1..])
      else Matches(d.rest, args)
  }

  function Pad(s: string, width: nat, zero: bool): string {
    if width > |s| then Fill(width - |s|, if zero then '0' else ' ') + s else s
  }

  lemma PadNothing(s: string)
    ensures Pad(s, 0, false) == s
  {
  }

  function Convert(d: Directive, a: Arg): string
    requires TakesArg(d.conv) && Fits(d.conv, a)
  {
    match d.conv
    case 'd' => if a.i < 0 then "-" + Pad(Dec(-a.i), d.width, d.zero) else Pad(Dec(a.i), d.width, d.zero)
    case 'u' => Pad(Dec(a.i), d.width, d.zero)
    case 'x' => Pad(Hex(a.i, false), d.width, d.zero)
    case 'X' => Pad(Hex(a.i, true), d.width, d.zero)
    case 'p' => "0x" + Hex(a.i, false)
    case 'c' => [a.c]
    case _ => if a.Null? then "(null)" else a.s
  }

  function Bare(conv: char): string {
    if conv == '%' then "%" else ['%', conv]
  }

  // The whole text the format denotes, however small the buffer.
  function Format(fmt: string, args: seq<Arg>): string
    requires Matches(fmt, args)
    decreases |fmt|
  {
    if fmt == "" then ""
    else if fmt[0] != '%' then [fmt[0]] + Format(fmt[1..], args)
    else
      var d := ParseDirective(fmt[1..]);
      if TakesArg(d.conv) then Convert(d, args[0]) + Format(d.rest, args[1..])
      else Bare(d.conv) + Format(d.rest, args)
  }

  // ---- Formats with literal text and simple directives ------------------------

  lemma {:induction false} FormatText(text: string, rest: string, args: seq<Arg>)
    requires '%' !in text && Matches(rest, args)
    ensures Matches(text + rest, args) && Format(text + rest, args) == text + Format(rest, args)
  {
    if text == "" {
      assert text + rest == rest;
    } else {
      assert (text + rest)[1..] == text[1..] + rest;
      FormatText(text[1..], rest, args);
    }
  }

  // A directive without flag or width, such as %u, %d or %s.
  lemma FormatPlain(conv: char, rest: string, a: Arg, args: seq<Arg>)
    requires TakesArg(conv) && Fits(conv, a) && Matches(rest, args)
    ensures Matches(['%', conv] + rest, [a] + args)
    ensures Format(['%', conv] + rest, [a] + args) == Convert(Directive(false, 0, conv, rest), a) + Format(rest, args)
  {
    var fmt := ['%', conv] + rest;
    assert fmt[1..] == [conv] + rest;
    assert !IsDigit(conv);
    assert DigitRun(fmt[1..]) == 0;
    assert ParseDirective(fmt[1..]) == Directive(false, 0, conv, rest) by {
      assert fmt[1..][1..] == rest;
      ValueNothing(fmt[1..]);
    }
    assert ([a] + args)[1..] == args;
  }

  // The format behind '%': a zero flag, a width, a conversion.
  ghost function DirectiveText(zero: bool, width: string, conv: char, rest: string): string {
    "%" + ((if zero then "0" else "") + (width + ([conv] + rest)))
  }

  // A width does not begin with a zero, which would be the flag.
  ghost predicate IsWidth(zero: bool, width: string) {
    AllDigits(width) && (!zero && width != "" ==> width[0] != '0')
  }

  lemma DirectiveParsed(zero: bool, width: string, conv: char, rest: string)
    requires IsWidth(zero, width) && !IsDigit(conv)
    ensures var f := DirectiveText(zero, width, conv, rest)[1..];
            Complete(f) && ParseDirective(f) == Directive(zero, Value(width), conv, rest)
  {
    hide Value, DigitRun;
    var g := width + ([conv] + rest);
    var f := (if zero then "0" else "") + g;
    AfterPercent(f);
    assert g[..|width|] == width && g[|width|] == conv && g[|width| + 1..] == rest;
    DigitRunIs(g, |width|);
    assert (if f[0] == '0' then f[1..] else f) == g by { FlagOff(zero, width, conv, g, f); }
    ParsedParts(f, g, |width|);
  }

  lemma AfterPercent(f: string)
    ensures ("%" + f)[1..] == f
  {
  }

  lemma FlagOff(zero: bool, width: string, conv: char, g: string, f: string)
    requires IsWidth(zero, width) && !IsDigit(conv) && |g| > |width| && g[..|width|] == width && g[|width|] == conv
    requires f == (if zero then "0" else "") + g
    ensures f != "" && (f[0] == '0' <==> zero) && (if f[0] == '0' then f[1..] else f) == g
  {
    if zero { assert f[1..] == g; } else { assert f == g && (width != "" ==> g[0] == width[0]); }
  }

  lemma ParsedParts(f: string, g: string, n: nat)
    requires f != "" && g == (if f[0] == '0' then f[1..] else f) && n == DigitRun(g) && n < |g|
    ensures Complete(f) && ParseDirective(f) == Directive(f[0] == '0', Value(g[..n]), g[n], g[n + 1..])
  {
    hide Value, DigitRun;
  }

  lemma FormatDirective(zero: bool, width: string, conv: char, rest: string, a: Arg, args: seq<Arg>)
    requires IsWidth(zero, width) && !IsDigit(conv) && Matches(rest, args) && (TakesArg(conv) ==> Fits(conv, a))
    ensures var fmt, d := DirectiveText(zero, width, conv, rest), Directive(zero, Value(width), conv, rest);
            && (TakesArg(conv) ==> Matches(fmt, [a] + args) && Format(fmt, [a] + args) == Convert(d, a) + Format(rest, args))
            && (!TakesArg(conv) ==> Matches(fmt, args) && Format(fmt, args) == Bare(conv) + Format(rest, args))
  {
    hide Value, DirectiveText, Convert, TakesArg, Fits, ParseDirective, Complete;
    DirectiveParsed(zero, width, conv, rest);
    DirectiveStarts(zero, width, conv, rest);
    assert ([a] + args)[0] == a && ([a] + args)[1..] == args;
  }

  lemma DirectiveStarts(zero: bool, width: string, conv: char, rest: string)
    ensures DirectiveText(zero, width, conv, rest) != "" && DirectiveText(zero, width, conv, rest)[0] == '%'
  {
  }

  // A number: the minus sign of %d, zeros or spaces up to the width, and the numeral.
  lemma NumberDirective(zero: bool, width: string, conv: char, rest: string, v: int, args: seq<Arg>) returns (sign: string, fill: string, digits: string)
    requires IsWidth(zero, width) && conv in "duxX" && Fits(conv, Int(v)) && Matches(rest, args)
    ensures Matches(DirectiveText(zero, width, conv, rest), [Int(v)] + args)
    ensures Format(DirectiveText(zero, width, conv, rest), [Int(v)] + args) == sign + fill + digits + Format(rest, args)
    ensures sign == if v < 0 then "-" else ""
    ensures digits == if conv == 'd' || conv == 'u' then Dec(if v < 0 then -v else v) else InBase(v, 16, conv == 'X')
    ensures |fill| == (if Value(width) > |digits| then Value(width) - |digits| else 0) && forall i :: 0 <= i < |fill| ==> fill[i] == if zero then '0' else ' '
  {
    hide Dec, Hex, InBase, Value, DirectiveText, Format, Matches, Convert, Fits, TakesArg;
    NumberTakesArg(conv);
    FormatDirective(zero, width, conv, rest, Int(v), args);
    sign, fill, digits := NumberConverted(Directive(zero, Value(width), conv, rest), v);
  }

  lemma NumberTakesArg(conv: char)
    requires conv in "duxX"
    ensures TakesArg(conv) && !IsDigit(conv)
  {
  }

  lemma NumberConverted(d: Directive, v: int) returns (sign: string, fill: string, digits: string)
    requires d.conv in "duxX" && Fits(d.conv, Int(v))
    ensures TakesArg(d.conv) && Convert(d, Int(v)) == sign + fill + digits
    ensures sign == if v < 0 then "-" else ""
    ensures digits == if d.conv == 'd' || d.conv == 'u' then Dec(if v < 0 then -v else v) else InBase(v, 16, d.conv == 'X')
    ensures |fill| == (if d.width > |digits| then d.width - |digits| else 0) && forall i :: 0 <= i < |fill| ==> fill[i] == if d.zero then '0' else ' '
  {
    hide Dec, Hex, InBase;
    if d.conv == 'x' || d.conv == 'X' { HexIsInBase(v, d.conv == 'X'); }
    sign := if v < 0 then "-" else "";
    digits := if d.conv == 'd' || d.conv == 'u' then Dec(if v < 0 then -v else v) else InBase(v, 16, d.conv == 'X');
    fill := if d.width > |digits| then Fill(d.width - |digits|, if d.zero then '0' else ' ') else "";
    assert sign + fill + digits == sign + (fill + digits);
  }

  // %p, %s, %c ignore flag and width; %% is a percent sign, and a directive of no known
  // kind prints itself without flag and width.
  lemma OtherDirective(zero: bool, width: string, conv: char, rest: string, a: Arg, args: seq<Arg>)
    requires IsWidth(zero, width) && conv !in "duxX" && !IsDigit(conv) && Matches(rest, args)
    requires conv in "psc" ==> Fits(conv, a)
    ensures var fmt := DirectiveText(zero, width, conv, rest);
            var text := if conv == 'p' then "0x" + InBase(a.i, 16, false)
                        else if conv == 's' then (if a == Null then "(null)" else a.s)
                        else if conv == 'c' then [a.c] else if conv == '%' then "%" else ['%', conv];
            var all := if conv in "psc" then [a] + args else args;
            Matches(fmt, all) && Format(fmt, all) == text + Format(rest, args)
  {
    hide Hex, InBase, Value, DirectiveText, Format, Matches;
    FormatDirective(zero, width, conv, rest, a, args);
    if conv == 'p' { HexIsInBase(a.i, false); }
  }

  // %02X
  lemma FormatHexByte(rest: string, v: nat, args: seq<Arg>)
    requires v < 256 && Matches(rest, args)
    ensures Matches("%02X" + rest, [Int(v)] + args)
    ensures Format("%02X" + rest, [Int(v)] + args) == Pad(Hex(v, true), 2, true) + Format(rest, args)
  {
    hide Hex, Pad, Format, Matches;
    assert Value("2") == 2 by { assert "2"[..0] == ""; }
    FormatDirective(true, "2", 'X', rest, Int(v), args);
    assert DirectiveText(true, "2", 'X', rest) == "%02X" + rest;
  }

  // ---- The loop ------------------------------------------------------------------

  // What a buffer of the given size holds after the characters of out were put.
  ghost predicate Stored(stored: seq<char>, size: nat, out: string) {
    && 0 < size <= |stored|
    && stored[..Min(|out|, size - 1)] == out[..Min(|out|, size - 1)]
  }

  // The PUT macro.
  method Put(buf: array<char>, size: nat, pos: nat, c: char, ghost out: string)
    requires Stored(buf[..], size, out) && pos == |out|
    modifies buf
    ensures Stored(buf[..], size, out + [c])
    ensures forall k :: Min(pos + 1, size - 1) <= k < buf.Length ==> buf[k] == old(buf[k])
  {
    if pos < size - 1 { buf[pos] := c; }
  }

  method PutAll(buf: array<char>, size: nat, pos: nat, s: string, ghost out: string) returns (end: nat)
    requires Stored(buf[..], size, out) && pos == |out|
    modifies buf
    ensures Stored(buf[..], size, out + s) && end == |out + s|
    ensures forall k :: Min(end, size - 1) <= k < buf.Length ==> buf[k] == old(buf[k])
  {
    end := pos;
    assert out + s[..0] == out;
    for i := 0 to |s|
      invariant end == pos + i && Stored(buf[..], size, out + s[..i])
      invariant forall k :: Min(end, size - 1) <= k < buf.Length ==> buf[k] == old(buf[k])
    {
      Put(buf, size, end, s[i], out + s[..i]);
      assert out + s[..i] + [s[i]] == out + s[..i + 1];
      end := end + 1;
    }
    assert s[..|s|] == s;
  }

  // A number through _utoa, padded to the width.
  method PutNumber(buf: array<char>, size: nat, pos: nat, val: nat, base: nat, upper: bool, width: nat, zero: bool, ghost out: string)
    returns (end: nat)
    requires Stored(buf[..], size, out) && pos == |out|
    requires val < UINT_LIMIT && (base == 10 || base == 16)
    modifies buf
    ensures var text := Pad(if base == 10 then Dec(val) else Hex(val, upper), width, zero);
            Stored(buf[..], size, out + text) && end == |out + text|
    ensures forall k :: Min(end, size - 1) <= k < buf.Length ==> buf[k] == old(buf[k])
  {
    hide Dec, Hex;
    var tmp := new char[24];
    var len := Utoa(val, tmp, base, upper);
    ghost var digits := if base == 10 then Dec(val) else Hex(val, upper);
    end := pos;
    ghost var before := out;
    if width > len {
      var fill := Fill(width - len, if zero then '0' else ' ');
      end := PutAll(buf, size, end, fill, out);
      before := out + fill;
    }
    end := PutAll(buf, size, end, tmp[..len], before);
    assert before + digits == out + Pad(digits, width, zero);
  }

  method PutConversion(buf: array<char>, size: nat, pos: nat, d: Directive, a: Arg, ghost out: string) returns (end: nat)
    requires Stored(buf[..], size, out) && pos == |out| && TakesArg(d.conv) && Fits(d.conv, a)
    modifies buf
    ensures Stored(buf[..], size, out + Convert(d, a)) && end == |out + Convert(d, a)|
    ensures forall k :: Min(end, size - 1) <= k < buf.Length ==> buf[k] == old(buf[k])
  {
    hide Pad, Dec, Hex, Stored;
    match d.conv
    case 'd' =>
      if a.i < 0 {
        end := PutAll(buf, size, pos, "-", out);
        end := PutNumber(buf, size, end, -a.i, 10, false, d.width, d.zero, out + "-");
        assert out + "-" + Pad(Dec(-a.i), d.width, d.zero) == out + Convert(d, a);
      } else {
        end := PutNumber(buf, size, pos, a.i, 10, false, d.width, d.zero, out);
      }
    case 'u' => end := PutNumber(buf, size, pos, a.i, 10, false, d.width, d.zero, out);
    case 'x' => end := PutNumber(buf, size, pos, a.i, 16, false, d.width, d.zero, out);
    case 'X' => end := PutNumber(buf, size, pos, a.i, 16, true, d.width, d.zero, out);
    case 'p' =>
      end := PutAll(buf, size, pos, "0x", out);
      end := PutNumber(buf, size, end, a.i, 16, false, 0, false, out + "0x");
      assert out + "0x" + Hex(a.i, false) == out + Convert(d, a) && Pad(Hex(a.i, false), 0, false) == Hex(a.i, false) by { PadNothing(Hex(a.i, false)); }
    case 'c' => end := PutAll(buf, size, pos, [a.c], out);
    case _ => end := PutAll(buf, size, pos, if a.Null? then "(null)" else a.s, out);
  }

  // One directive of the format: the conversion, or the character itself.
  method PutDirective(buf: array<char>, size: nat, pos: nat, d: Directive, args: seq<Arg>, ghost out: string) returns (end: nat, ghost text: string)
    requires Stored(buf[..], size, out) && pos == |out|
    requires TakesArg(d.conv) ==> args != [] && Fits(d.conv, args[0])
    modifies buf
    ensures text == if TakesArg(d.conv) then Convert(d, args[0]) else Bare(d.conv)
    ensures Stored(buf[..], size, out + text) && end == |out + text|
    ensures forall k :: Min(end, size - 1) <= k < buf.Length ==> buf[k] == old(buf[k])
  {
    hide Convert, TakesArg, Stored, Fits;
    if TakesArg(d.conv) {
      text := Convert(d, args[0]);
      end := PutConversion(buf, size, pos, d, args[0], out);
    } else {
      text := Bare(d.conv);
      end := PutAll(buf, size, pos, Bare(d.conv), out);
    }
  }

  method FormatInto(buf: array<char>, size: nat, fmt: string, args: seq<Arg>) returns (pos: nat)
    requires 0 < size <= buf.Length && Matches(fmt, args)
    modifies buf
    ensures pos == |Format(fmt, args)| && Stored(buf[..], size, Format(fmt, args))
    ensures forall k :: Min(pos, size - 1) <= k < buf.Length ==> buf[k] == old(buf[k])
  {
    hide Convert, ParseDirective, Complete, TakesArg, Fits, Format, Matches, Stored;
    ghost var out := "";
    var f, a := 0, 0;
    pos := 0;
    assert fmt[0..] == fmt && args[0..] == args;
    StoredNothing(buf[..], size);
    while f < |fmt|
      invariant 0 <= f <= |fmt| && 0 <= a <= |args| && pos == |out| && Stored(buf[..], size, out)
      invariant Matches(fmt[f..], args[a..]) && out + Format(fmt[f..], args[a..]) == Format(fmt, args)
      invariant forall k :: Min(pos, size - 1) <= k < buf.Length ==> buf[k] == old(buf[k])
    {
      ghost var text;
      if fmt[f] != '%' {
        TextStep(fmt, f, args[a..]);
        text := [fmt[f]];
        Put(buf, size, pos, fmt[f], out);
        f, pos := f + 1, pos + 1;
      } else {
        DirectiveStep(fmt, f, args, a);
        var d := ParseDirective(fmt[f + 1..]);
        pos, text := PutDirective(buf, size, pos, d, args[a..], out);
        if TakesArg(d.conv) { a := a + 1; }
        f := |fmt| - |d.rest|;
      }
      Regroup(out, text, Format(fmt[f..], args[a..]));
      out := out + text;
    }
    FormatEnd(fmt[f..], args[a..]);
    assert out == Format(fmt, args);
  }

  lemma Regroup(a: string, b: string, c: string)
    ensures a + (b + c) == a + b + c
  {
  }

  // vsnprintf: the NUL-terminated prefix that fits, and the full length.
  method Vsnprintf(buf: array<char>, size: nat, fmt: string, args: seq<Arg>) returns (n: nat)
    requires size <= buf.Length && Matches(fmt, args)
    modifies buf
    ensures size == 0 ==> n == 0 && buf[..] == old(buf[..])
    ensures size > 0 ==> n == |Format(fmt, args)|
    ensures size > 0 ==> var k := Min(n, size - 1); buf[..k] == Format(fmt, args)[..k] && buf[k] == '\0'
    ensures size > 0 ==> forall k :: Min(n, size - 1) < k < buf.Length ==> buf[k] == old(buf[k])
  {
    hide Format, Matches, Stored;
    if size == 0 { return 0; }
    n := FormatInto(buf, size, fmt, args);
    StoredPrefix(buf[..], size, Format(fmt, args));
    buf[Min(n, size - 1)] := '\0';
  }

  lemma StoredNothing(stored: seq<char>, size: nat)
    requires 0 < size <= |stored|
    ensures Stored(stored, size, "")
  {
  }

  lemma StoredPrefix(stored: seq<char>, size: nat, out: string)
    requires Stored(stored, size, out)
    ensures 0 < size <= |stored| && stored[..Min(|out|, size - 1)] == out[..Min(|out|, size - 1)]
  {
  }

  lemma FormatEnd(fmt: string, args: seq<Arg>)
    requires fmt == "" && Matches(fmt, args)
    ensures Format(fmt, args) == ""
  {
  }

  lemma TextStep(fmt: string, f: nat, args: seq<Arg>)
    requires f < |fmt| && fmt[f] != '%' && Matches(fmt[f..], args)
    ensures Matches(fmt[f + 1..], args) && Format(fmt[f..], args) == [fmt[f]] + Format(fmt[f + 1..], args)
  {
    assert fmt[f..][1..] == fmt[f + 1..];
  }

  lemma DirectiveStep(fmt: string, f: nat, args: seq<Arg>, a: nat)
    requires f < |fmt| && a <= |args| && fmt[f] == '%' && Matches(fmt[f..], args[a..])
    ensures Complete(fmt[f + 1..])
    ensures var d := ParseDirective(fmt[f + 1..]); var next := |fmt| - |d.rest|;
            && f < next <= |fmt|
            && (TakesArg(d.conv) ==> a < |args| && Fits(d.conv, args[a]) && Matches(fmt[next..], args[a + 1..])
                                     && Format(fmt[f..], args[a..]) == Convert(d, args[a]) + Format(fmt[next..], args[a + 1..]))
            && (!TakesArg(d.conv) ==> Matches(fmt[next..], args[a..])
                                      && Format(fmt[f..], args[a..]) == Bare(d.conv) + Format(fmt[next..], args[a..]))
  {
    hide Convert, TakesArg, Fits;
    assert fmt[f..][1..] == fmt[f + 1..];
    assert a < |args| ==> args[a..][0] == args[a] && args[a..][1..] == args[a + 1..];
    assert Complete(fmt[f + 1..]);
    RestIs(fmt, f + 1);
  }

  lemma RestIs(fmt: string, f: nat)
    requires f <= |fmt| && Complete(fmt[f..])
    ensures |ParseDirective(fmt[f..]).rest| <= |fmt| - f
    ensures fmt[|fmt| - |ParseDirective(fmt[f..]).rest|..] == ParseDirective(fmt[f..]).rest
  {
  }
}
