// atoi and the small sscanf of the firmware's C library. A C string is the
// Dafny string of its characters before the terminating NUL.
module Scanf {
  import opened Prelude
  import opened Numbers

  // Length of the longest prefix of decimal digits.
  function DigitRun(s: string): (n: nat)
    ensures n <= |s| && AllDigits(s[..n]) && (n < |s| ==> !IsDigit(s[n]))
  {
    if s == "" || !IsDigit(s[0]) then 0
    else
      var n := 1 + DigitRun(s[1..]);
      assert forall i :: 1 <= i < n ==> s[..n][i] == s[1..][..n - 1][i - 1];
      n
  }

  predicate IsBlank(c: char) { c == ' ' || c == '\t' }

  function SkipBlanks(s: string): string {
    if s != "" && IsBlank(s[0]) then SkipBlanks(s[1..]) else s
  }

  // Two's complement 32-bit value of an integer.
  function ToInt32(x: int): (r: int)
    ensures -0x8000_0000 <= r < 0x8000_0000
  {
    (x + 0x8000_0000) % 0x1_0000_0000 - 0x8000_0000
  }

  // The number a leading optionally signed decimal numeral denotes, 0 if none, as a 32-bit int.
  function AtoiValue(s: string): int {
    var t := SkipBlanks(s);
    var negative := t != "" && t[0] == '-';
    var digits := if t != "" && (t[0] == '-' || t[0] == '+') then t[1..] else t;
    var v: int := Value(digits[..DigitRun(digits)]);
    ToInt32(if negative then -v else v)
  }

  lemma ToInt32Step(v: int, d: nat)
    ensures ToInt32(10 * ToInt32(v) + d) == ToInt32(10 * v + d)
    ensures ToInt32(-ToInt32(v)) == ToInt32(-v)
  {
    var q := (v + 0x8000_0000) / 0x1_0000_0000;
    assert ToInt32(v) == v - 0x1_0000_0000 * q;
    assert 10 * ToInt32(v) + d == 10 * v + d - 0x1_0000_0000 * (10 * q);
    Shift(10 * v + d, -10 * q);
    Shift(-v, q);
  }

  lemma Shift(x: int, k: int)
    ensures ToInt32(x + 0x1_0000_0000 * k) == ToInt32(x)
  {
    var y := x + 0x8000_0000;
    var q := y / 0x1_0000_0000;
    assert y + 0x1_0000_0000 * k == 0x1_0000_0000 * (q + k) + y % 0x1_0000_0000;
  }

  lemma ValueSnoc(s: string, i: nat)
    requires i < |s| && AllDigits(s[..i + 1])
    ensures AllDigits(s[..i]) && Value(s[..i + 1]) == 10 * Value(s[..i]) + DigitValue(s[i])
  {
    assert s[..i + 1][..i] == s[..i];
    assert forall k :: 0 <= k < i ==> s[..i][k] == s[..i + 1][k];
  }

  lemma {:induction false} DigitRunIs(s: string, n: nat)
    requires n <= |s| && AllDigits(s[..n]) && (n < |s| ==> !IsDigit(s[n]))
    ensures DigitRun(s) == n
  {
    if n > 0 {
      assert s[..n][0] == s[0];
      assert s[1..][..n - 1] == s[..n][1..];
      DigitRunIs(s[1..], n - 1);
    }
  }

  // The digit loop of atoi: the accumulator wraps like a 32-bit int.
  method ReadDigits(s: string, first: nat) returns (val: int)
    requires first <= |s|
    ensures val == ToInt32(Value(s[first..][..DigitRun(s[first..])]))
  {
    hide Value, ToInt32, DigitRun;
    ghost var digits := s[first..];
    var i := first;
    val := 0;
    assert val == ToInt32(Value(digits[..0])) by { ValueNothing(digits); }
    while i < |s| && IsDigit(s[i])
      invariant first <= i <= |s| && AllDigits(digits[..i - first])
      invariant val == ToInt32(Value(digits[..i - first]))
    {
      ghost var k := i - first;
      assert digits[k] == s[i] && digits[..k + 1] == digits[..k] + [s[i]];
      ValueSnoc(digits, k);
      ToInt32Step(Value(digits[..k]), DigitValue(s[i]));
      val := ToInt32(10 * val + DigitValue(s[i]));
      i := i + 1;
    }
    DigitRunIs(digits, i - first);
  }

  lemma ValueNothing(s: string)
    ensures Value(s[..0]) == 0 && ToInt32(0) == 0
  {
  }

  method Atoi(s: string) returns (r: int)
    ensures r == AtoiValue(s)
  {
    hide ToInt32, DigitRun, Value;
    var i, negative := 0, false;
    while i < |s| && IsBlank(s[i])
      invariant 0 <= i <= |s| && SkipBlanks(s) == SkipBlanks(s[i..])
    {
      assert s[i..][1..] == s[i + 1..];
      i := i + 1;
    }
    assert SkipBlanks(s) == s[i..];
    if i < |s| && s[i] == '-' { negative := true; i := i + 1; } else if i < |s| && s[i] == '+' { i := i + 1; }
    var val := ReadDigits(s, i);
    ToInt32Step(Value(s[i..][..DigitRun(s[i..])]), 0);
    r := if negative then ToInt32(-val) else val;
  }

  // A printed int, sign included.
  function PrintedInt(v: int): string {
    if v < 0 then "-" + Dec(-v) else Dec(v)
  }

  function Signed(negative: bool, v: nat): int {
    if negative then -(v as int) else v
  }

  // Equal modulo 2^32.
  ghost predicate Wraps(r: int, v: int) {
    -0x8000_0000 <= r < 0x8000_0000 && (r - v) % 0x1_0000_0000 == 0
  }

  lemma Int32Wraps(x: int)
    ensures Wraps(ToInt32(x), x)
  {
    var y := x + 0x8000_0000;
    assert ToInt32(x) - x == -(0x1_0000_0000 * (y / 0x1_0000_0000));
    Shift(0, -(y / 0x1_0000_0000));
    Multiples(-(y / 0x1_0000_0000));
  }

  lemma Multiples(k: int)
    ensures 0x1_0000_0000 * k % 0x1_0000_0000 == 0
  {
  }

  lemma WrapsOnce(r: int, v: int)
    requires Wraps(r, v) && -0x8000_0000 <= v < 0x8000_0000
    ensures r == v
  {
  }

  // atoi skips spaces and tabs, takes one sign, and reads the digits up to the first other
  // character, wrapping at 32 bits; without digits it is 0.
  lemma AtoiOf(pre: string, sign: string, d: string, t: string)
    requires (forall i :: 0 <= i < |pre| ==> pre[i] == ' ' || pre[i] == '\t') && sign in {"", "-", "+"} && AllDigits(d)
    requires t == "" || !IsDigit(t[0])
    requires d == "" && sign == "" ==> t == "" || t[0] !in " \t-+"
    ensures Wraps(AtoiValue(pre + (sign + (d + t))), Signed(sign == "-", Value(d)))
  {
    hide Value, DigitRun, ToInt32;
    var u := sign + (d + t);
    SkipsPrefix(pre, u);
    assert (d + t)[..|d|] == d;
    DigitRunIs(d + t, |d|);
    if sign == "" {
      assert u == d + t;
      if d == "" { assert u == t; } else { assert u[0] == d[0] && IsDigit(d[0]); }
      assert SkipBlanks(u) == u;
    } else {
      assert u[0] == sign[0] && u[1..] == d + t;
    }
    Int32Wraps(Signed(sign == "-", Value(d)));
  }

  lemma {:induction false} SkipsPrefix(pre: string, s: string)
    requires forall i :: 0 <= i < |pre| ==> pre[i] == ' ' || pre[i] == '\t'
    ensures SkipBlanks(pre + s) == SkipBlanks(s)
  {
    if pre == "" {
      assert pre + s == s;
    } else {
      assert (pre + s)[1..] == pre[1..] + s;
      SkipsPrefix(pre[1..], s);
    }
  }

  // Reading back a printed int, whatever follows its digits.
  lemma AtoiOfPrinted(v: int, t: string)
    requires -0x8000_0000 <= v < 0x8000_0000 && (t == "" || !IsDigit(t[0]))
    ensures AtoiValue(PrintedInt(v) + t) == v
  {
    hide Dec, Value, AtoiValue, Wraps;
    var n: nat := if v < 0 then -v else v;
    var sign := if v < 0 then "-" else "";
    ValueOfDec(n);
    AtoiOf("", sign, Dec(n), t);
    assert PrintedInt(v) + t == "" + (sign + (Dec(n) + t));
    WrapsOnce(AtoiValue(PrintedInt(v) + t), v);
  }

  lemma AtoiOfDec(n: nat)
    requires n < 0x8000_0000
    ensures AtoiValue(Dec(n)) == n
  {
    AtoiOfPrinted(n, "");
    assert PrintedInt(n) + "" == Dec(n);
  }

  // ---- sscanf -----------------------------------------------------------------

  // What one conversion stores.
  datatype Conv = UInt(u: nat) | SInt(i: int) | Text(t: string)

  predicate InClass(c: char, chars: string, negate: bool) {
    if negate then c !in chars else c in chars
  }

  // Length of the longest prefix, of at most limit characters, inside a character class.
  function Span(s: string, chars: string, negate: bool, limit: nat): (n: nat)
    ensures n <= |s| && n <= limit
  {
    if s == "" || limit == 0 || !InClass(s[0], chars, negate) then 0 else 1 + Span(s[1..], chars, negate, limit - 1)
  }

  datatype Class = Class(chars: string, negate: bool, after: string)

  // What follows '[': an optional '^', at most 63 characters before ']', and the rest.
  function ParseClass(f: string): (cc: Class)
    ensures |cc.after| <= |f|
  {
    var negate := f != "" && f[0] == '^';
    var spec := if negate then f[1..] else f;
    var c := Span(spec, "]", true, 63);
    Class(spec[..c], negate, if c < |spec| && spec[c] == ']' then spec[c + 1..] else spec[c..])
  }

  const NO_WIDTH := 0x7FFF_FFFF

  // The assignments sscanf performs, in order; it stops at the first mismatch.
  function Scan(fmt: string, str: string): seq<Conv>
    decreases |fmt|
  {
    if fmt == "" || str == "" then []
    else if fmt[0] != '%' then
      if fmt[0] == str[0] then Scan(fmt[1..], str[1..]) else []
    else
      var n := DigitRun(fmt[1..]);
      var width := Value(fmt[1..][..n]);
      var f := fmt[1..][n..];
      if f == "" then []
      else if f[0] == 'u' || f[0] == 'd' then
        var negative := f[0] == 'd' && str[0] == '-';
        var rest := if negative then str[1..] else str;
        var k := DigitRun(rest);
        if k == 0 then []
        else
          var val := Value(rest[..k]) % 0x1_0000_0000;
          [if f[0] == 'u' then UInt(val) else SInt(ToInt32(if negative then -val else val))] + Scan(f[1..], rest[k..])
      else if f[0] == '[' then
        var cc := ParseClass(f[1..]);
        var k := Span(str, cc.chars, cc.negate, if width == 0 then NO_WIDTH else width);
        [Text(str[..k])] + Scan(cc.after, str[k..])
      else []
  }

  // sscanf's result: an empty class match is stored but not counted.
  function Matched(outs: seq<Conv>): nat {
    if outs == [] then 0 else (if outs[0] == Text("") then 0 else 1) + Matched(outs[1..])
  }

  lemma {:induction false} MatchedSnoc(outs: seq<Conv>, c: Conv)
    ensures Matched(outs + [c]) == Matched(outs) + if c == Text("") then 0 else 1
  {
    if outs != [] {
      assert (outs + [c])[1..] == outs[1..] + [c];
      MatchedSnoc(outs[1..], c);
    }
  }

  lemma {:induction false} SpanIs(s: string, chars: string, negate: bool, limit: nat, n: nat)
    requires n <= |s| && n <= limit
    requires forall i :: 0 <= i < n ==> InClass(s[i], chars, negate)
    requires n == |s| || n == limit || !InClass(s[n], chars, negate)
    ensures Span(s, chars, negate, limit) == n
  {
    if n > 0 { SpanIs(s[1..], chars, negate, limit - 1, n - 1); }
  }

  // A run of digits from position `first`: its end and its value modulo 2^32.
  method ReadRun(s: string, first: nat) returns (end: nat, val: nat)
    requires first <= |s|
    ensures end == first + DigitRun(s[first..])
    ensures val == Value(s[first..][..DigitRun(s[first..])]) % 0x1_0000_0000
  {
    hide Value, DigitRun;
    ghost var digits := s[first..];
    end, val := first, 0;
    ValueNothing(digits);
    while end < |s| && IsDigit(s[end])
      invariant first <= end <= |s| && AllDigits(digits[..end - first])
      invariant val == Value(digits[..end - first]) % 0x1_0000_0000
    {
      ghost var k := end - first;
      assert digits[k] == s[end] && digits[..k + 1] == digits[..k] + [s[end]];
      ValueSnoc(digits, k);
      WrapStep(Value(digits[..k]), DigitValue(s[end]));
      val := (val * 10 + DigitValue(s[end])) % 0x1_0000_0000;
      end := end + 1;
    }
    DigitRunIs(digits, end - first);
  }

  lemma WrapStep(v: nat, d: nat)
    ensures (v % 0x1_0000_0000 * 10 + d) % 0x1_0000_0000 == (10 * v + d) % 0x1_0000_0000
  {
    var q := v / 0x1_0000_0000;
    assert v % 0x1_0000_0000 * 10 + d == 10 * v + d - 0x1_0000_0000 * (10 * q);
  }

  // The field width digits of a directive (small enough not to wrap).
  method ReadWidth(fmt: string, first: nat) returns (end: nat, width: nat)
    requires first <= |fmt|
    ensures end == first + DigitRun(fmt[first..]) && width == Value(fmt[first..][..DigitRun(fmt[first..])])
  {
    hide Value, DigitRun;
    ghost var digits := fmt[first..];
    end, width := first, 0;
    ValueNothing(digits);
    while end < |fmt| && IsDigit(fmt[end])
      invariant first <= end <= |fmt| && AllDigits(digits[..end - first])
      invariant width == Value(digits[..end - first])
    {
      ghost var k := end - first;
      assert digits[k] == fmt[end] && digits[..k + 1] == digits[..k] + [fmt[end]];
      ValueSnoc(digits, k);
      width := width * 10 + DigitValue(fmt[end]);
      end := end + 1;
    }
    DigitRunIs(digits, end - first);
  }

  method ReadClass(s: string, first: nat, chars: string, negate: bool, limit: nat) returns (end: nat)
    requires first <= |s|
    ensures end == first + Span(s[first..], chars, negate, limit)
  {
    end := first;
    while end < |s| && end - first < limit
      invariant first <= end <= |s| && end - first <= limit
      invariant forall i :: 0 <= i < end - first ==> InClass(s[first..][i], chars, negate)
    {
      var inSet := false;
      for c := 0 to |chars|
        invariant inSet <==> s[end] in chars[..c]
      {
        if s[end] == chars[c] { inSet := true; }
      }
      assert chars[..|chars|] == chars;
      assert s[first..][end - first] == s[end];
      if inSet == negate { break; }
      end := end + 1;
    }
    SpanIs(s[first..], chars, negate, limit, end - first);
  }

  method Sscanf(str: string, fmt: string) returns (matched: nat, outs: seq<Conv>)
    ensures outs == Scan(fmt, str) && matched == Matched(outs)
  {
    hide Value, DigitRun, Span, Matched, ToInt32, ParseClass, Scan;
    outs, matched := [], 0;
    var f, j := 0, 0;
    MatchedNone();
    while f < |fmt| && j < |str|
      invariant 0 <= f <= |fmt| && 0 <= j <= |str|
      invariant outs + Scan(fmt[f..], str[j..]) == Scan(fmt, str)
      invariant matched == Matched(outs)
    {
      if fmt[f] != '%' {
        LiteralStep(fmt, str, f, j);
        if fmt[f] != str[j] { return; }
        f, j := f + 1, j + 1;
      } else {
        var d, width := ReadWidth(fmt, f + 1);
        if d < |fmt| && (fmt[d] == 'u' || fmt[d] == 'd') {
          var negative := fmt[d] == 'd' && str[j] == '-';
          var start := if negative then j + 1 else j;
          var end, val := ReadRun(str, start);
          NumberStep(fmt, str, f, j, d, start, end, val);
          if end == start { return; }
          var out := if fmt[d] == 'u' then UInt(val) else SInt(ToInt32(if negative then -(val as int) else val));
          MatchedSnoc(outs, out);
          Regroup(outs, out, Scan(fmt[d + 1..], str[end..]));
          outs, matched := outs + [out], matched + 1;
          f, j := d + 1, end;
        } else if d < |fmt| && fmt[d] == '[' {
          var negate := d + 1 < |fmt| && fmt[d + 1] == '^';
          var spec := if negate then d + 2 else d + 1;
          var close := ReadClass(fmt, spec, "]", true, 63);
          var chars := fmt[spec..close];
          var after := if close < |fmt| && fmt[close] == ']' then close + 1 else close;
          var end := ReadClass(str, j, chars, negate, if width == 0 then NO_WIDTH else width);
          var out := Text(str[j..end]);
          MatchedSnoc(outs, out);
          ParseClassAt(fmt, d + 1, negate, spec, close, after);
          ClassStep(fmt, str, f, j, d, width, Class(chars, negate, fmt[after..]), end);
          Regroup(outs, out, Scan(fmt[after..], str[end..]));
          if end > j { matched := matched + 1; }
          outs := outs + [out];
          f, j := after, end;
        } else {
          OtherStep(fmt, str, f, j, d);
          return;
        }
      }
    }
    EndStep(fmt, str, f, j);
  }

  lemma Regroup(a: seq<Conv>, b: Conv, c: seq<Conv>)
    ensures a + [b] + c == a + ([b] + c)
  {
  }

  lemma EndStep(fmt: string, str: string, f: nat, j: nat)
    requires f <= |fmt| && j <= |str| && (f == |fmt| || j == |str|)
    ensures Scan(fmt[f..], str[j..]) == []
  {
  }

  lemma LiteralStep(fmt: string, str: string, f: nat, j: nat)
    requires f < |fmt| && j < |str| && fmt[f] != '%'
    ensures Scan(fmt[f..], str[j..]) == if fmt[f] == str[j] then Scan(fmt[f + 1..], str[j + 1..]) else []
  {
    assert fmt[f..][1..] == fmt[f + 1..] && str[j..][1..] == str[j + 1..];
  }

  lemma OtherStep(fmt: string, str: string, f: nat, j: nat, d: nat)
    requires f < d <= |fmt| && j < |str| && fmt[f] == '%' && d == f + 1 + DigitRun(fmt[f + 1..])
    requires d == |fmt| || (fmt[d] != 'u' && fmt[d] != 'd' && fmt[d] != '[')
    ensures Scan(fmt[f..], str[j..]) == []
  {
    hide Value, DigitRun;
    assert fmt[f..][1..] == fmt[f + 1..];
    assert fmt[f + 1..][DigitRun(fmt[f + 1..])..] == fmt[d..];
  }

  lemma NumberStep(fmt: string, str: string, f: nat, j: nat, d: nat, start: nat, end: nat, val: nat)
    requires f < d < |fmt| && j < |str| && fmt[f] == '%' && (fmt[d] == 'u' || fmt[d] == 'd')
    requires d == f + 1 + DigitRun(fmt[f + 1..])
    requires start == if fmt[d] == 'd' && str[j] == '-' then j + 1 else j
    requires end == start + DigitRun(str[start..]) && val == Value(str[start..][..DigitRun(str[start..])]) % 0x1_0000_0000
    ensures Scan(fmt[f..], str[j..])
         == if end == start then []
            else [if fmt[d] == 'u' then UInt(val) else SInt(ToInt32(if start > j then -(val as int) else val))] + Scan(fmt[d + 1..], str[end..])
  {
    hide Value, DigitRun, ToInt32;
    assert fmt[f..][1..] == fmt[f + 1..];
    assert fmt[f + 1..][DigitRun(fmt[f + 1..])..] == fmt[d..];
    assert fmt[d..][1..] == fmt[d + 1..];
    assert start > j ==> str[j..][1..] == str[start..];
    assert str[start..][DigitRun(str[start..])..] == str[end..];
  }

  lemma MatchedNone()
    ensures Matched([]) == 0
  {
  }

  lemma ClassParts(f: string, spec: string, c: nat)
    requires spec == (if f != "" && f[0] == '^' then f[1..] else f) && c == Span(spec, "]", true, 63)
    ensures ParseClass(f) == Class(spec[..c], f != "" && f[0] == '^', if c < |spec| && spec[c] == ']' then spec[c + 1..] else spec[c..])
  {
    hide Span;
  }

  lemma ParseClassAt(fmt: string, at: nat, negate: bool, spec: nat, close: nat, after: nat)
    requires at <= spec <= |fmt|
    requires negate <==> at < |fmt| && fmt[at] == '^'
    requires spec == (if negate then at + 1 else at) && close == spec + Span(fmt[spec..], "]", true, 63)
    requires after == if close < |fmt| && fmt[close] == ']' then close + 1 else close
    ensures close <= |fmt| && after <= |fmt| && ParseClass(fmt[at..]) == Class(fmt[spec..close], negate, fmt[after..])
  {
    hide Span, ParseClass;
    CaretSkipped(fmt, at, spec);
    ClassParts(fmt[at..], fmt[spec..], close - spec);
    ClassEnds(fmt, spec, close, after);
  }

  lemma CaretSkipped(fmt: string, at: nat, spec: nat)
    requires at <= spec <= |fmt| && spec == if at < |fmt| && fmt[at] == '^' then at + 1 else at
    ensures var f := fmt[at..];
            fmt[spec..] == (if f != "" && f[0] == '^' then f[1..] else f) && (f != "" && f[0] == '^' <==> spec > at)
  {
  }

  lemma ClassEnds(fmt: string, spec: nat, close: nat, after: nat)
    requires spec <= close <= |fmt| && after == if close < |fmt| && fmt[close] == ']' then close + 1 else close
    ensures var rest, c := fmt[spec..], close - spec;
            rest[..c] == fmt[spec..close] && (if c < |rest| && rest[c] == ']' then rest[c + 1..] else rest[c..]) == fmt[after..]
  {
  }

  // One %[...] directive, at the positions the loop computes.
  lemma ClassStep(fmt: string, str: string, f: nat, j: nat, d: nat, width: nat, cc: Class, end: nat)
    requires f < d < |fmt| && j < |str| && fmt[f] == '%' && fmt[d] == '['
    requires d == f + 1 + DigitRun(fmt[f + 1..]) && width == Value(fmt[f + 1..][..DigitRun(fmt[f + 1..])])
    requires cc == ParseClass(fmt[d + 1..])
    requires end == j + Span(str[j..], cc.chars, cc.negate, if width == 0 then NO_WIDTH else width)
    ensures Scan(fmt[f..], str[j..]) == [Text(str[j..end])] + Scan(cc.after, str[end..])
  {
    hide Value, DigitRun, Span, ParseClass;
    assert fmt[f..][1..] == fmt[f + 1..];
    assert fmt[f + 1..][DigitRun(fmt[f + 1..])..] == fmt[d..];
    assert fmt[d..][1..] == fmt[d + 1..];
    var k := end - j;
    assert str[j..][..k] == str[j..end] && str[j..][k..] == str[end..];
  }

  // A class conversion stores characters of the scanned string.
  lemma {:induction false} ScanTexts(fmt: string, str: string, c: char)
    requires c !in str
    ensures forall i :: 0 <= i < |Scan(fmt, str)| && Scan(fmt, str)[i].Text? ==> c !in Scan(fmt, str)[i].t
    decreases |fmt|
  {
    hide Value, DigitRun, Span, ToInt32, ParseClass;
    if fmt != "" && str != "" {
      if fmt[0] != '%' {
        ScanTexts(fmt[1..], str[1..], c);
      } else {
        var f := fmt[1..][DigitRun(fmt[1..])..];
        if f != "" && (f[0] == 'u' || f[0] == 'd') {
          var rest := if f[0] == 'd' && str[0] == '-' then str[1..] else str;
          ScanTexts(f[1..], rest[DigitRun(rest)..], c);
        } else if f != "" && f[0] == '[' {
          var cc := ParseClass(f[1..]);
          var width := Value(fmt[1..][..DigitRun(fmt[1..])]);
          var k := Span(str, cc.chars, cc.negate, if width == 0 then NO_WIDTH else width);
          ScanTexts(cc.after, str[k..], c);
        }
      }
    }
  }

  // ---- What each directive reads -------------------------------------------------------

  // %d takes a minus sign and all the digits there are, wrapping at 32 bits.
  lemma SignedScan(rest: string, sign: string, d: string, t: string)
    requires sign in {"", "-"} && d != "" && AllDigits(d) && (t == "" || !IsDigit(t[0]))
    ensures var outs := Scan("%d" + rest, sign + (d + t));
            outs != [] && outs[0].SInt? && Wraps(outs[0].i, Signed(sign == "-", Value(d))) && outs[1..] == Scan(rest, t)
  {
    hide *;
    var fmt, str := "%d" + rest, sign + (d + t);
    DirectiveParts(rest, fmt);
    var start := |sign|;
    AfterSign(str, sign, d, t);
    DigitRunIs(d + t, |d|);
    var val := Value(d) % 0x1_0000_0000;
    NumberStep(fmt, str, 0, 0, 1, start, start + |d|, val);
    Int32Wraps(Signed(sign == "-", val));
    Reduced(ToInt32(Signed(sign == "-", val)), Value(d), sign == "-");
    assert Signed(start > 0, val) == if start > 0 then -(val as int) else val by { SignedIs(start > 0, val); }
  }

  lemma SignedIs(negative: bool, v: nat)
    ensures Signed(negative, v) == if negative then -(v as int) else v
  {
  }

  lemma DirectiveParts(rest: string, fmt: string)
    requires fmt == "%d" + rest
    ensures fmt[0..] == fmt && fmt[2..] == rest && |fmt| > 1 && fmt[0] == '%' && fmt[1] == 'd' && 1 == 0 + 1 + DigitRun(fmt[1..])
  {
    hide DigitRun;
    DigitRunIs(fmt[1..], 0);
  }

  lemma AfterSign(str: string, sign: string, d: string, t: string)
    requires sign in {"", "-"} && d != "" && AllDigits(d) && str == sign + (d + t)
    ensures str[|sign|..] == d + t && (d + t)[..|d|] == d && (d + t)[|d|..] == t && str[|sign| + |d|..] == t
    ensures str[0..] == str && (str[0] == '-' <==> sign == "-") && (sign == "-" <==> |sign| > 0)
  {
    if sign == "" { assert str[0] == d[0] && IsDigit(d[0]); }
  }

  lemma Reduced(r: int, v: nat, negative: bool)
    requires Wraps(r, Signed(negative, v % 0x1_0000_0000))
    ensures Wraps(r, Signed(negative, v))
  {
    var q := v / 0x1_0000_0000;
    var low := v % 0x1_0000_0000;
    assert v == low + 0x1_0000_0000 * q;
    var k := (r - Signed(negative, low)) / 0x1_0000_0000;
    assert r - Signed(negative, low) == 0x1_0000_0000 * k;
    Multiples(k + q);
    Multiples(k - q);
  }

  // %[...] and %[^...]: the format behind the bracket, and the set.
  ghost function ClassFormat(digits: string, negate: bool, chars: string, after: string): string {
    "%" + (digits + ("[" + ((if negate then "^" else "") + (chars + ("]" + after)))))
  }

  lemma ClassParsed(negate: bool, chars: string, after: string)
    requires |chars| <= 63 && ']' !in chars && (!negate && chars != "" ==> chars[0] != '^')
    ensures ParseClass((if negate then "^" else "") + (chars + ("]" + after))) == Class(chars, negate, after)
  {
    var spec := chars + ("]" + after);
    var f := (if negate then "^" else "") + spec;
    if negate { assert f[1..] == spec; } else { assert f == spec && (chars != "" ==> spec[0] == chars[0]); }
    assert forall i :: 0 <= i < |chars| ==> spec[i] == chars[i] && spec[i] != ']';
    SpanIs(spec, "]", true, 63, |chars|);
    assert spec[..|chars|] == chars && spec[|chars|] == ']' && spec[|chars| + 1..] == after;
    ClassParts(f, spec, |chars|);
  }

  // A class reads the longest prefix in (or not in) the set, within its width.
  lemma ClassDirective(digits: string, negate: bool, chars: string, after: string, str: string, k: nat)
    requires AllDigits(digits) && (digits != "" ==> Value(digits) > 0) && str != ""
    requires |chars| <= 63 && ']' !in chars && (!negate && chars != "" ==> chars[0] != '^')
    requires k <= |str| && (forall i :: 0 <= i < k ==> if negate then str[i] !in chars else str[i] in chars)
    requires var limit := if digits == "" then 0x7FFF_FFFF else Value(digits);
             k <= limit && (k == |str| || k == limit || if negate then str[k] in chars else str[k] !in chars)
    ensures Scan(ClassFormat(digits, negate, chars, after), str) == [Text(str[..k])] + Scan(after, str[k..])
  {
    hide Value, DigitRun, Span, ParseClass, Scan;
    var g := (if negate then "^" else "") + (chars + ("]" + after));
    var f := "[" + g;
    var fmt := "%" + (digits + f);
    assert fmt[1..] == digits + f && fmt[0..] == fmt && str[0..] == str;
    assert (digits + f)[..|digits|] == digits && fmt[1 + |digits|] == '[' && fmt[2 + |digits|..] == g;
    DigitRunIs(fmt[1..], |digits|);
    ClassParsed(negate, chars, after);
    if digits == "" { ValueNothing(""); }
    SpanIs(str, chars, negate, if digits == "" then NO_WIDTH else Value(digits), k);
    ClassStep(fmt, str, 0, 0, 1 + |digits|, Value(digits), Class(chars, negate, after), k);
  }

  // Ordinary characters of the format match themselves; anything else ends the scan.
  lemma LiteralScan(c: char, rest: string, str: string)
    requires c != '%'
    ensures Scan([c] + rest, str) == if str == "" || str[0] != c then [] else Scan(rest, str[1..])
  {
    assert ([c] + rest)[1..] == rest;
  }
}
