// Numerals: what printing a number means, and what reading one back means.
module Numbers {
  const UINT_LIMIT := 0x1_0000_0000

  function Digit(d: nat): char
    requires d < 10
  {
    ('0' as int + d) as char
  }

  function HexDigit(d: nat, upper: bool): char
    requires d < 16
  {
    if upper then "0123456789ABCDEF"[d] else "0123456789abcdef"[d]
  }

  // The decimal numeral of n, most significant digit first, no leading zero.
  function Dec(n: nat): (s: string)
    ensures |s| > 0
  {
    if n < 10 then [Digit(n)] else Dec(n / 10) + [Digit(n % 10)]
  }

  function Hex(n: nat, upper: bool): (s: string)
    ensures |s| > 0
  {
    if n < 16 then [HexDigit(n, upper)] else Hex(n / 16, upper) + [HexDigit(n % 16, upper)]
  }

  predicate IsDigit(c: char) { '0' <= c <= '9' }

  predicate AllDigits(s: string) { forall i :: 0 <= i < |s| ==> IsDigit(s[i]) }

  function DigitValue(c: char): nat
    requires IsDigit(c)
  {
    c as int - '0' as int
  }

  // The number a string of decimal digits denotes.
  function Value(s: string): nat
    requires AllDigits(s)
  {
    if s == "" then 0 else 10 * Value(s[..|s| - 1]) + DigitValue(s[|s| - 1])
  }

  // Reading back a printed number.
  lemma {:induction false} ValueOfDec(n: nat)
    ensures AllDigits(Dec(n)) && Value(Dec(n)) == n
    ensures n > 0 ==> Dec(n)[0] != '0'
    ensures n < 10 ==> Dec(n) == ["0123456789"[n]]
    decreases n
  {
    if n >= 10 {
      ValueOfDec(n / 10);
      assert Dec(n)[..|Dec(n)| - 1] == Dec(n / 10);
    } else {
      assert Dec(n)[..0] == "";
    }
  }

  function Pow10(k: nat): (p: nat)
    ensures p > 0
  {
    if k == 0 then 1 else 10 * Pow10(k - 1)
  }

  // A number below 10^k has at most k digits.
  lemma {:induction false} DecLength(n: nat, k: nat)
    requires 1 <= k && n < Pow10(k)
    ensures |Dec(n)| <= k
    decreases k
  {
    if n >= 10 { DecLength(n / 10, k - 1); }
  }

  // ---- _utoa ------------------------------------------------------------------

  const POW10: seq<nat> := [1000000000, 100000000, 10000000, 1000000, 100000, 10000, 1000, 100, 10, 1]

  lemma TableOfPowers(p: nat)
    requires p < 10
    ensures POW10[p] == Pow10(9 - p) && Pow10(10 - p) == 10 * POW10[p]
    decreases 10 - p
  {
    if p < 9 { TableOfPowers(p + 1); }
  }

  // The digits of q, or nothing while only leading zeros have been seen.
  function Lead(q: nat): string {
    if q == 0 then "" else Dec(q)
  }

  lemma LeadStep(q: nat, d: nat)
    requires d < 10
    ensures Lead(10 * q + d) == if q == 0 && d == 0 then "" else Lead(q) + [Digit(d)]
  {
  }

  lemma Regroup(q: nat, d: nat, p: nat, rest: nat)
    ensures q * (10 * p) + (d * p + rest) == (10 * q + d) * p + rest
  {
  }

  // One decimal digit by repeated subtraction.
  method PeelDigit(left: nat, power: nat) returns (d: nat, rest: nat)
    requires power > 0 && left < 10 * power
    ensures d < 10 && rest < power && left == d * power + rest
  {
    d, rest := 0, left;
    while rest >= power
      invariant left == d * power + rest && d < 10
    {
      assert (d + 1) * power == d * power + power;
      Fewer(d + 1, 10, power);
      d, rest := d + 1, rest - power;
    }
  }

  lemma Fewer(a: nat, b: nat, p: nat)
    requires a * p < b * p
    ensures a < b
  {
    if b <= a { AtLeast(a, b, p); }
  }

  lemma AtLeast(a: nat, b: nat, p: nat)
    requires b <= a
    ensures b * p <= a * p
  {
    assert (a - b) * p >= 0;
  }

  // The decimal branch: no division, leading zeros suppressed.
  method UtoaDecimal(val: nat, buf: array<char>) returns (i: nat)
    requires 0 < val < UINT_LIMIT && buf.Length >= 10
    modifies buf
    ensures i <= 10 && buf[..i] == Dec(val)
    ensures forall k :: i <= k < buf.Length ==> buf[k] == old(buf[k])
  {
    hide Pow10, Dec;
    i := 0;
    var left: nat, started := val, false;
    ghost var q := 0;
    TableOfPowers(0);
    for p := 0 to 10
      invariant i <= p && left < Pow10(10 - p) && val == q * Pow10(10 - p) + left
      invariant started <==> q > 0
      invariant buf[..i] == Lead(q)
      invariant forall k :: i <= k < buf.Length ==> buf[k] == old(buf[k])
    {
      TableOfPowers(p);
      var d, rest := PeelDigit(left, POW10[p]);
      Regroup(q, d, POW10[p], rest);
      LeadStep(q, d);
      left := rest;
      if d != 0 || started {
        buf[i] := Digit(d);
        i := i + 1;
        started := true;
      }
      q := 10 * q + d;
    }
    TableOfPowers(9);
  }

  function Reversed(s: string): string {
    if s == "" then "" else Reversed(s[1..]) + [s[0]]
  }

  function LastDigit(n: nat, base: nat): (d: nat)
    requires base >= 2
    ensures d < base
  {
    n % base
  }

  function Leading(n: nat, base: nat): (q: nat)
    requires base >= 2
    ensures n > 0 ==> q < n
  {
    DivideShrinks(n, base);
    n / base
  }

  lemma DivideShrinks(n: nat, base: nat)
    requires base >= 2
    ensures n > 0 ==> n / base < n
  {
    if n > 0 { DivideLess(n, base, n); }
  }

  // The numeral of n in another base, as _utoa prints it.
  function InBase(n: nat, base: nat, upper: bool): (s: string)
    requires 2 <= base <= 16
    ensures |s| > 0
  {
    if n < base then [HexDigit(n, upper)] else InBase(Leading(n, base), base, upper) + [HexDigit(LastDigit(n, base), upper)]
  }

  // The number a digit of either case stands for, and the number a numeral denotes.
  function HexIndex(c: char): int {
    if '0' <= c <= '9' then c as int - '0' as int
    else if 'a' <= c <= 'f' then c as int - 'a' as int + 10
    else c as int - 'A' as int + 10
  }

  function ValueIn(s: string, base: nat): int {
    if s == "" then 0 else base * ValueIn(s[..|s| - 1], base) + HexIndex(s[|s| - 1])
  }

  // A digit of one case.
  predicate DigitOfCase(c: char, upper: bool) {
    '0' <= c <= '9' || if upper then 'A' <= c <= 'F' else 'a' <= c <= 'f'
  }

  // A numeral reads back, has no leading zero and digits of one case.
  lemma {:induction false} ValueOfInBase(n: nat, base: nat, upper: bool)
    requires 2 <= base <= 16
    ensures ValueIn(InBase(n, base, upper), base) == n
    ensures forall i :: 0 <= i < |InBase(n, base, upper)| ==> DigitOfCase(InBase(n, base, upper)[i], upper)
    ensures n > 0 ==> InBase(n, base, upper)[0] != '0'
    decreases n
  {
    hide HexIndex, DigitOfCase;
    var s := InBase(n, base, upper);
    DigitIndex(LastDigit(n, base), upper);
    if n >= base {
      ValueOfInBase(Leading(n, base), base, upper);
      assert s[..|s| - 1] == InBase(Leading(n, base), base, upper);
      Divided(n, base);
    } else {
      DigitIndex(n, upper);
      assert s[..0] == "";
    }
  }

  lemma DigitIndex(d: nat, upper: bool)
    requires d < 16
    ensures HexIndex(HexDigit(d, upper)) == d && DigitOfCase(HexDigit(d, upper), upper) && (d > 0 ==> HexDigit(d, upper) != '0')
  {
  }

  lemma Divided(n: nat, base: nat)
    requires base >= 2
    ensures base * Leading(n, base) + LastDigit(n, base) == n && (n >= base ==> Leading(n, base) > 0)
  {
    if n >= base { assert n == base * (n / base) + n % base; }
  }

  lemma {:induction false} HexIsInBase(n: nat, upper: bool)
    ensures InBase(n, 16, upper) == Hex(n, upper)
  {
    if n >= 16 { HexIsInBase(n / 16, upper); }
  }

  function LeadIn(q: nat, base: nat, upper: bool): string
    requires 2 <= base <= 16
  {
    if q == 0 then "" else InBase(q, base, upper)
  }

  function Power(b: nat, k: nat): nat {
    if k == 0 then 1 else b * Power(b, k - 1)
  }

  lemma LeadInStep(q: nat, base: nat, upper: bool)
    requires q > 0 && 2 <= base <= 16
    ensures LeadIn(q, base, upper) == LeadIn(Leading(q, base), base, upper) + [HexDigit(LastDigit(q, base), upper)]
  {
    hide HexDigit;
    if q < base { assert q / base == 0 && q % base == q; }
  }

  lemma LeadInEnds(v: nat, base: nat, upper: bool)
    requires v > 0 && 2 <= base <= 16
    ensures LeadIn(v, base, upper) + Reversed("") == InBase(v, base, upper)
    ensures forall s: string :: LeadIn(0, base, upper) + s == s
  {
    assert InBase(v, base, upper) + "" == InBase(v, base, upper);
  }

  lemma DivideLess(a: nat, b: nat, p: nat)
    requires b > 0 && a < b * p
    ensures a / b < p
  {
    assert b * (a / b) <= a;
    Fewer(a / b, p, b);
  }

  lemma WordFitsTwelve()
    ensures Power(16, 12) > UINT_LIMIT
  {
    assert Power(16, 4) == 65536;
    assert Power(16, 8) == 65536 * 65536;
    assert Power(16, 12) == 65536 * 65536 * 65536;
  }

  // The other branches: digits collected backwards in twelve characters, then reversed
  // into place.
  method UtoaReversed(val: nat, buf: array<char>, base: nat, upper: bool) returns (i: nat)
    requires 2 <= base <= 16 && 0 < val < Power(base, 12) && buf.Length >= 12
    modifies buf
    ensures i <= 12 && buf[..i] == InBase(val, base, upper)
    ensures forall k :: i <= k < buf.Length ==> buf[k] == old(buf[k])
  {
    hide InBase, LeadIn, Reversed, HexDigit, LastDigit, Leading;
    var tmp := new char[12];
    var n: nat, left: nat := 0, val;
    LeadInEnds(val, base, upper);
    assert tmp[..0] == "";
    while left > 0
      invariant n <= 12 && left < Power(base, 12 - n)
      invariant InBase(val, base, upper) == LeadIn(left, base, upper) + Reversed(tmp[..n])
      invariant forall k :: 0 <= k < buf.Length ==> buf[k] == old(buf[k])
    {
      hide Power;
      ghost var before := tmp[..n];
      PowerStep(base, 12 - n, left);
      tmp[n] := HexDigit(LastDigit(left, base), upper);
      assert tmp[..n + 1] == before + [HexDigit(LastDigit(left, base), upper)];
      ReversedAppend(before, HexDigit(LastDigit(left, base), upper));
      LeadInStep(left, base, upper);
      n, left := n + 1, Leading(left, base);
    }
    CopyReversed(tmp, n, buf);
    return n;
  }

  lemma PowerStep(base: nat, k: nat, left: nat)
    requires base >= 2 && 0 < left < Power(base, k)
    ensures k > 0 && Leading(left, base) < Power(base, k - 1)
  {
    DivideLess(left, base, Power(base, k - 1));
  }

  method CopyReversed(tmp: array<char>, count: nat, buf: array<char>)
    requires count <= tmp.Length && count <= buf.Length && tmp != buf
    modifies buf
    ensures buf[..count] == Reversed(tmp[..count])
    ensures forall k :: count <= k < buf.Length ==> buf[k] == old(buf[k])
  {
    var i, n := 0, count;
    while n > 0
      invariant 0 <= n && n + i == count
      invariant forall k :: 0 <= k < i ==> buf[k] == tmp[count - 1 - k]
      invariant forall k :: i <= k < buf.Length ==> buf[k] == old(buf[k])
    {
      buf[i] := tmp[n - 1];
      i, n := i + 1, n - 1;
    }
    ReversedLength(tmp[..count]);
    forall k | 0 <= k < count ensures buf[..count][k] == Reversed(tmp[..count])[k] {
      ReversedAt(tmp[..count], k);
    }
  }

  lemma {:induction false} ReversedLength(s: string)
    ensures |Reversed(s)| == |s|
  {
    if s != "" { ReversedLength(s[1..]); }
  }

  lemma {:induction false} ReversedAt(s: string, k: nat)
    requires k < |s|
    ensures |Reversed(s)| == |s| && Reversed(s)[k] == s[|s| - 1 - k]
  {
    ReversedLength(s[1..]);
    if k < |s| - 1 { ReversedAt(s[1..], k); }
  }

  lemma {:induction false} ReversedAppend(s: string, c: char)
    ensures Reversed(s + [c]) == [c] + Reversed(s)
  {
    if s != "" {
      assert (s + [c])[1..] == s[1..] + [c];
      ReversedAppend(s[1..], c);
    }
  }

  // _utoa: number of characters stored.  Bases other than 10 and 16 need at most
  // twelve digits to fit its scratch buffer.
  method Utoa(val: nat, buf: array<char>, base: nat, upper: bool) returns (len: nat)
    requires val < UINT_LIMIT && buf.Length >= 12 && 2 <= base <= 16
    requires base != 10 && base != 16 ==> val < Power(base, 12)
    modifies buf
    ensures len <= 12 && buf[..len] == if base == 10 then Dec(val) else InBase(val, base, upper)
    ensures base == 16 ==> buf[..len] == Hex(val, upper)
    ensures forall k :: len <= k < buf.Length ==> buf[k] == old(buf[k])
  {
    HexIsInBase(val, upper);
    if val == 0 {
      buf[0] := '0';
      assert buf[..1] == ['0'];
      return 1;
    }
    if base == 10 {
      len := UtoaDecimal(val, buf);
    } else {
      WordFitsTwelve();
      len := UtoaReversed(val, buf, base, upper);
    }
  }
}
