/**
  Printing numbers (printnum, the numeric formats of vprintfmt, and the buffer of vsnprintf, in
  sched/lib/printfmt.c) and reading them back (strtol in sched/lib/string.c).
*/
module PrintNum {
  const HEX: string := "0123456789abcdef"

  function DigitChar(d: nat): char
    requires d < 16
  {
    HEX[d]
  }

  function Last(num: nat, base: nat): (d: nat)
    requires base >= 2
    ensures d < base && (num < base ==> d == num)
  {
    num % base
  }

  function Front(num: nat, base: nat): (q: nat)
    requires base >= 2
    ensures num == q * base + Last(num, base) && (num > 0 ==> q < num)
  {
    var q := num / base;
    assert num == q * base + num % base;
    assert q >= 1 ==> q * base >= q * 2;
    q
  }

  // Characters that printnum puts out, for a base from 2 to 16.
  function Printed(num: nat, base: nat, width: int, padc: char): (r: string)
    requires 2 <= base <= 16
    decreases num
  {
    if num >= base then Printed(Front(num, base), base, width - 1, padc) + [DigitChar(Last(num, base))]
    else Repeat(padc, width - 1) + [DigitChar(Last(num, base))]
  }

  function Repeat(c: char, n: int): (r: string)
    ensures |r| == (if n > 0 then n else 0) && forall i | 0 <= i < |r| :: r[i] == c
    decreases if n > 0 then n else 0
  {
    if n <= 0 then "" else [c] + Repeat(c, n - 1)
  }

  // The number without padding.
  function Numeral(num: nat, base: nat): (r: string)
    requires 2 <= base <= 16
    ensures |r| >= 1
    decreases num
  {
    if num >= base then Numeral(Front(num, base), base) + [DigitChar(Last(num, base))] else [DigitChar(Last(num, base))]
  }

  // printnum pads the numeral on the left, to the larger of width and digit count.
  lemma {:induction false} PrintedIs(num: nat, base: nat, width: int, padc: char)
    requires 2 <= base <= 16
    ensures Printed(num, base, width, padc) == Repeat(padc, width - |Numeral(num, base)|) + Numeral(num, base)
    ensures |Printed(num, base, width, padc)| == if width > |Numeral(num, base)| then width else |Numeral(num, base)|
    decreases num
  {
    hide DigitChar, Repeat, Last, Front;
    if num >= base {
      var q, c := Front(num, base), DigitChar(Last(num, base));
      PrintedIs(q, base, width - 1, padc);
      var pad, n := Repeat(padc, width - 1 - |Numeral(q, base)|), Numeral(q, base);
      assert Numeral(num, base) == n + [c];
      assert (pad + n) + [c] == pad + (n + [c]);
    }
  }

  // What %d puts out: the sign comes before the padding.
  function Decimal(n: int, width: int, padc: char): string {
    if n < 0 then "-" + Printed(-n, 10, width, padc) else Printed(n, 10, width, padc)
  }

  // vsnprintf's buffer: out is everything put so far, of which the first limit characters are kept.
  class SprintBuf {
    const buf: array<char>
    var used: nat
    var cnt: nat
    ghost var out: string

    ghost predicate Valid()
      reads this, buf
    {
      && buf.Length >= 1 && cnt == |out|
      && used == (if |out| < buf.Length - 1 then |out| else buf.Length - 1)
      && buf[..used] == out[..used]
    }

    constructor (b: array<char>)
      requires b.Length >= 1
      ensures Valid() && out == "" && buf == b
    {
      buf := b;
      used, cnt := 0, 0;
      out := "";
    }

    // sprintputch
    method Putch(c: char)
      requires Valid()
      modifies this, buf
      ensures Valid() && out == old(out) + [c]
    {
      cnt := cnt + 1;
      if used < buf.Length - 1 {
        buf[used] := c;
        used := used + 1;
      }
      out := out + [c];
    }

    // printnum
    method PrintNum(num: nat, base: nat, width: int, padc: char)
      requires Valid() && 2 <= base <= 16
      modifies this, buf
      ensures Valid() && out == old(out) + Printed(num, base, width, padc)
      decreases num
    {
      hide DigitChar, Last, Front;
      if num >= base {
        PrintNum(Front(num, base), base, width - 1, padc);
        assert out == old(out) + Printed(Front(num, base), base, width - 1, padc);
      } else {
        var w := width - 1;
        while w > 0
          invariant Valid() && out + Repeat(padc, w) == old(out) + Repeat(padc, width - 1)
        {
          assert Repeat(padc, w) == [padc] + Repeat(padc, w - 1);
          Putch(padc);
          w := w - 1;
        }
        assert out == old(out) + Repeat(padc, width - 1);
      }
      Putch(DigitChar(Last(num, base)));
    }

    // The signed format of vprintfmt.
    method PrintDecimal(n: int, width: int, padc: char)
      requires Valid()
      modifies this, buf
      ensures Valid() && out == old(out) + Decimal(n, width, padc)
    {
      hide Printed;
      var num := n;
      if n < 0 {
        Putch('-');
        num := -n;
      }
      PrintNum(num, 10, width, padc);
    }

    // The end of vsnprintf: the text, cut to fit, is terminated, and its full length returned.
    method Finish() returns (n: nat)
      requires Valid()
      modifies buf
      ensures n == |out| && used < buf.Length && buf[used] == '\0'
      ensures used == (if |out| < buf.Length - 1 then |out| else buf.Length - 1) && buf[..used] == out[..used]
    {
      buf[used] := '\0';
      n := cnt;
    }
  }

  // ---------- strtol ----------

  const LONG := 0x1_0000_0000

  // long is 32 bits wide; overflow is not detected and wraps around.
  function Long(x: int): int { (x + LONG / 2) % LONG - LONG / 2 }

  // The string ends in a zero character.
  function CharAt(s: string, i: nat): char { if i < |s| then s[i] else '\0' }

  // -1 for a character that is no digit in any base.
  function DigitValue(c: char): int {
    if '0' <= c <= '9' then c as int - '0' as int
    else if 'a' <= c <= 'z' then c as int - 'a' as int + 10
    else if 'A' <= c <= 'Z' then c as int - 'A' as int + 10
    else -1
  }

  predicate IsDigit(c: char, base: int) { 0 <= DigitValue(c) < base }

  function SkipBlanks(s: string, i: nat): (k: nat)
    requires i <= |s|
    ensures i <= k <= |s|
    decreases |s| - i
  {
    if CharAt(s, i) == ' ' || CharAt(s, i) == '\t' then SkipBlanks(s, i + 1) else i
  }

  // Where the digits that start at i end.
  function DigitsEnd(s: string, i: nat, base: int): (k: nat)
    requires i <= |s|
    ensures i <= k <= |s| && forall j | i <= j < k :: IsDigit(s[j], base)
    decreases |s| - i
  {
    if i < |s| && IsDigit(s[i], base) then DigitsEnd(s, i + 1, base) else i
  }

  function Value(s: string, base: int): int
    decreases |s|
  {
    if s == "" then 0 else Value(s[..|s| - 1], base) * base + DigitValue(s[|s| - 1])
  }

  // The base in effect and the start of the digits, after blanks and sign.
  function Prefix(s: string, i: nat, base: int): (r: (int, nat))
    requires i <= |s|
    ensures i <= r.1 <= |s|
  {
    if (base == 0 || base == 16) && CharAt(s, i) == '0' && CharAt(s, i + 1) == 'x' then (16, i + 2)
    else if base == 0 && CharAt(s, i) == '0' then (8, i + 1)
    else if base == 0 then (10, i)
    else (base, i)
  }

  // The value strtol returns and where it stops reading.
  function Parsed(s: string, base: int): (int, nat) {
    var i := SkipBlanks(s, 0);
    var neg := CharAt(s, i) == '-';
    var (b, d) := Prefix(s, if neg || CharAt(s, i) == '+' then i + 1 else i, base);
    var e := DigitsEnd(s, d, b);
    var v := Long(Value(s[d..e], b));
    (if neg then Long(-v) else v, e)
  }

  lemma LongIs(x: int, k: int)
    ensures Long(x + k * LONG) == Long(x)
    ensures -LONG / 2 <= x < LONG / 2 ==> Long(x) == x
  {
  }

  // Wrapping around at each digit comes to wrapping around once.
  lemma LongStep(v: int, b: int, d: int)
    ensures Long(Long(v) * b + d) == Long(v * b + d)
  {
    var k := (v + LONG / 2) / LONG;
    assert Long(v) == v - k * LONG;
    assert (v - k * LONG) * b + d == v * b + d + (-k * b) * LONG;
    LongIs(v * b + d, -k * b);
  }

  method Strtol(s: string, base0: int) returns (value: int, end: nat)
    ensures (value, end) == Parsed(s, base0)
  {
    hide Long, Value, IsDigit;
    var i, neg, base := 0, false, base0;
    while CharAt(s, i) == ' ' || CharAt(s, i) == '\t'
      invariant 0 <= i <= |s| && SkipBlanks(s, 0) == SkipBlanks(s, i)
      decreases |s| - i
    {
      i := i + 1;
    }
    if CharAt(s, i) == '+' {
      i := i + 1;
    } else if CharAt(s, i) == '-' {
      i, neg := i + 1, true;
    }
    ghost var (b, d) := Prefix(s, i, base0);
    if (base == 0 || base == 16) && CharAt(s, i) == '0' && CharAt(s, i + 1) == 'x' {
      i, base := i + 2, 16;
    } else if base == 0 && CharAt(s, i) == '0' {
      i, base := i + 1, 8;
    } else if base == 0 {
      base := 10;
    }
    assert base == b && i == d;
    value, end := ReadDigits(s, i, base);
    if neg {
      value := Long(-value);
    }
  }

  // Its loop over the digits.
  method ReadDigits(s: string, d: nat, base: int) returns (val: int, i: nat)
    requires d <= |s|
    ensures i == DigitsEnd(s, d, base) && val == Long(Value(s[d..i], base))
  {
    hide Long, Value, IsDigit, DigitValue;
    ValueEmpty(s, d, base);
    i, val := d, 0;
    while i < |s|
      invariant d <= i <= |s| && DigitsEnd(s, d, base) == DigitsEnd(s, i, base)
      invariant val == Long(Value(s[d..i], base))
    {
      var dig := DigitValue(s[i]);
      DigitIs(s[i], base);
      if dig == -1 || dig >= base {
        break;
      }
      LongStep(Value(s[d..i], base), base, dig);
      ValueNext(s, d, i, base);
      i, val := i + 1, Long(val * base + dig);
    }
  }

  lemma ValueEmpty(s: string, d: nat, b: int)
    requires d <= |s|
    ensures Long(Value(s[d..d], b)) == 0
  {
  }

  lemma ValueNext(s: string, d: nat, i: nat, b: int)
    requires d <= i < |s|
    ensures Value(s[d..i + 1], b) == Value(s[d..i], b) * b + DigitValue(s[i])
  {
    var t := s[d..i + 1];
    assert t[..|t| - 1] == s[d..i] && t[|t| - 1] == s[i];
  }

  lemma DigitIs(c: char, b: int)
    ensures DigitValue(c) >= -1
    ensures IsDigit(c, b) <==> DigitValue(c) != -1 && DigitValue(c) < b
  {
  }

  // ---------- the round trip ----------

  lemma DigitCharValue(d: nat)
    requires d < 16
    ensures DigitValue(DigitChar(d)) == d
  {
  }

  ghost predicate AllDigits(s: string, base: int) {
    forall i | 0 <= i < |s| :: IsDigit(s[i], base)
  }

  lemma {:induction false} NumeralValue(num: nat, base: nat)
    requires 2 <= base <= 16
    ensures Value(Numeral(num, base), base) == num && AllDigits(Numeral(num, base), base)
    decreases num
  {
    hide DigitValue, DigitChar, Last, Front;
    var n, d := Numeral(num, base), Last(num, base);
    DigitCharValue(d);
    if num >= base {
      var q := Front(num, base);
      NumeralValue(q, base);
      assert n[..|n| - 1] == Numeral(q, base);
    } else {
      assert n[..0] == "";
      assert Value(n[..0], base) == 0;
    }
  }

  lemma {:induction false} ZerosValue(n: int, t: string, base: nat)
    requires base >= 2 && AllDigits(t, base)
    ensures Value(Repeat('0', n) + t, base) == Value(t, base) && AllDigits(Repeat('0', n) + t, base)
    decreases |t|, if n > 0 then n else 0
  {
    var s := Repeat('0', n) + t;
    assert forall i | 0 <= i < |s| :: s[i] == '0' || s[i] == t[i - |Repeat('0', n)|];
    if t != "" {
      ZerosValue(n, t[..|t| - 1], base);
      assert s[..|s| - 1] == Repeat('0', n) + t[..|t| - 1];
    } else if n > 0 {
      ZerosValue(n - 1, "", base);
      assert s[..|s| - 1] == Repeat('0', n - 1) + "";
    }
  }

  lemma {:induction false} BlanksSkipped(s: string, i: nat, k: nat)
    requires i <= k < |s| && (forall j | i <= j < k :: s[j] == ' ' || s[j] == '\t') && s[k] != ' ' && s[k] != '\t'
    ensures SkipBlanks(s, i) == k
    decreases k - i
  {
    if i < k {
      BlanksSkipped(s, i + 1, k);
    }
  }

  lemma {:induction false} DigitsToEnd(s: string, i: nat, base: int)
    requires i <= |s| && forall j | i <= j < |s| :: IsDigit(s[j], base)
    ensures DigitsEnd(s, i, base) == |s|
    decreases |s| - i
  {
    hide IsDigit;
    if i < |s| {
      DigitsToEnd(s, i + 1, base);
    }
  }

  lemma DigitPlain(c: char, base: int)
    requires IsDigit(c, base) && base <= 16
    ensures c != ' ' && c != '\t' && c != '-' && c != '+' && c != 'x'
  {
  }

  // Blanks and an optional minus sign before digits that run to the end of the string.
  lemma ParseDigits(pad: string, neg: bool, t: string, base: nat)
    requires 2 <= base <= 16 && t != "" && AllDigits(t, base) && forall i | 0 <= i < |pad| :: pad[i] == ' '
    ensures var s := pad + (if neg then "-" else "") + t;
      Parsed(s, base) == (if neg then Long(-Long(Value(t, base))) else Long(Value(t, base)), |s|)
  {
    hide IsDigit, Long, Value;
    var sign := if neg then "-" else "";
    var s := pad + sign + t;
    var d := |pad| + |sign|;
    DigitPlain(t[0], base);
    BlanksSkipped(s, 0, |pad|);
    assert s[d..] == t;
    forall j | d <= j < |s| ensures IsDigit(s[j], base) && s[j] != 'x' {
      assert s[j] == t[j - d];
      DigitPlain(t[j - d], base);
    }
    DigitsToEnd(s, d, base);
    assert CharAt(s, d + 1) != 'x';
    assert neg ==> CharAt(s, |pad|) == '-';
    assert !neg ==> CharAt(s, |pad|) == t[0];
    assert Prefix(s, d, base) == (base, d);
    assert s[d..|s|] == t;
  }

  // Reading back what printnum printed, in the same base and padded with blanks or zeros, takes
  // the whole output and gives the number, exactly when it fits into a long.
  lemma {:induction false} RoundTrip(num: nat, base: nat, width: int, padc: char)
    requires 2 <= base <= 16 && (padc == ' ' || padc == '0')
    ensures var s := Printed(num, base, width, padc);
      && Parsed(s, base) == (Long(num), |s|)
      && (Parsed(s, base).0 == num <==> num < LONG / 2)
      && |s| == if width > |Numeral(num, base)| then width else |Numeral(num, base)|
  {
    hide IsDigit, Value, Numeral, Printed, Parsed;
    var n := Numeral(num, base);
    var pad := Repeat(padc, width - |n|);
    PrintedIs(num, base, width, padc);
    NumeralValue(num, base);
    if padc == ' ' {
      ParseDigits(pad, false, n, base);
      assert pad + "" + n == pad + n;
    } else {
      ZerosValue(width - |n|, n, base);
      ParseDigits("", false, pad + n, base);
      assert "" + "" + (pad + n) == pad + n;
    }
    LongIs(num, 0);
  }

  // %d reads back for every int above the least one, unless blanks come between sign and digits.
  lemma {:induction false} DecimalRoundTrip(n: int, width: int, padc: char)
    requires -LONG / 2 < n < LONG / 2 && (padc == ' ' || padc == '0')
    ensures var s := Decimal(n, width, padc);
      Parsed(s, 10) == (n, |s|) <==> n >= 0 || padc == '0' || width <= |Numeral(-n, 10)|
  {
    hide IsDigit, Value, Numeral, Printed, Parsed, Long;
    if n >= 0 {
      RoundTrip(n, 10, width, padc);
      LongIs(n, 0);
    } else {
      var m := Numeral(-n, 10);
      var pad := Repeat(padc, width - |m|);
      PrintedIs(-n, 10, width, padc);
      NumeralValue(-n, 10);
      LongIs(-n, 0);
      LongIs(n, 0);
      if padc == '0' {
        ZerosValue(width - |m|, m, 10);
        ParseDigits("", true, pad + m, 10);
        assert "" + "-" + (pad + m) == "-" + (pad + m);
      } else if width <= |m| {
        ParseDigits("", true, m, 10);
        assert pad + m == m && "" + "-" + m == "-" + m;
      } else {
        BlankAfterSign("-" + (pad + m));
      }
    }
  }

  // A sign followed by a blank: no digits, value 0.
  lemma BlankAfterSign(s: string)
    requires |s| >= 2 && s[0] == '-' && s[1] == ' '
    ensures Parsed(s, 10) == (0, 1)
  {
    assert SkipBlanks(s, 0) == 0;
    assert DigitsEnd(s, 1, 10) == 1;
    assert Value(s[1..1], 10) == 0;
  }

  // The flag '-' makes printnum pad with minus signs: the number then reads back only where no
  // padding is printed (or where the one padded digit is 0).
  lemma {:induction false} DashPadding(num: nat, base: nat, width: int)
    requires 2 <= base <= 16 && num < LONG / 2
    ensures var s := Printed(num, base, width, '-');
      var digits := |Numeral(num, base)|;
      Parsed(s, base) == (num, |s|) <==> width <= digits || (num == 0 && width == digits + 1)
  {
    hide IsDigit, Value, Numeral, Printed, Parsed, Long;
    var n := Numeral(num, base);
    var pad := Repeat('-', width - |n|);
    PrintedIs(num, base, width, '-');
    NumeralValue(num, base);
    LongIs(num, 0);
    LongIs(0 - num as int, 0);
    if width <= |n| {
      ParseDigits("", false, n, base);
      assert pad + n == n && "" + "" + n == n;
    } else if width == |n| + 1 {
      ParseDigits("", true, n, base);
      assert pad == "-" && "" + "-" + n == pad + n;
    } else {
      assert pad[0] == '-' && pad[1] == '-';
      DashAfterSign(pad + n, base);
    }
  }

  lemma DashAfterSign(s: string, base: nat)
    requires |s| >= 2 && s[0] == '-' && s[1] == '-' && 2 <= base <= 16
    ensures Parsed(s, base) == (0, 1)
  {
    assert SkipBlanks(s, 0) == 0;
    assert DigitsEnd(s, 1, base) == 1;
    assert Value(s[1..1], base) == 0;
  }

  // ---------- prefixes, signs and upper-case digits ----------

  function Upper(s: string): (r: string)
    ensures |r| == |s|
  {
    seq(|s|, i requires 0 <= i < |s| => if 'a' <= s[i] <= 'z' then s[i] - 'a' + 'A' else s[i])
  }

  // Upper-case digits mean the same.
  lemma {:induction false} UpperValue(t: string, base: int)
    requires AllDigits(t, base)
    ensures Value(Upper(t), base) == Value(t, base) && AllDigits(Upper(t), base)
    decreases |t|
  {
    forall i | 0 <= i < |t| ensures DigitValue(Upper(t)[i]) == DigitValue(t[i]) {
    }
    hide DigitValue;
    if t != "" {
      UpperValue(t[..|t| - 1], base);
      assert Upper(t)[..|t| - 1] == Upper(t[..|t| - 1]);
    }
  }

  // What may follow the digits.
  predicate Stops(rest: string, base: int) { rest == "" || !IsDigit(rest[0], base) }

  predicate Lead(blanks: string, sign: string) {
    && (forall i | 0 <= i < |blanks| :: blanks[i] == ' ' || blanks[i] == '\t')
    && (sign == "" || sign == "+" || sign == "-")
  }

  function Signed(sign: string, v: int): int { Long(if sign == "-" then -v else v) }

  lemma {:induction false} DigitsStop(s: string, i: nat, k: nat, base: int)
    requires i <= k <= |s| && (forall j | i <= j < k :: IsDigit(s[j], base)) && Stops(s[k..], base)
    ensures DigitsEnd(s, i, base) == k
    decreases k - i
  {
    hide IsDigit;
    if i < k {
      DigitsStop(s, i + 1, k, base);
    }
  }

  lemma SignedIs(sign: string, v: int)
    ensures (if sign == "-" then Long(-Long(v)) else Long(v)) == Signed(sign, v)
  {
  }

  lemma {:induction false} PrefixShift(u: string, w: string, base: int)
    ensures Prefix(u + w, |u|, base).0 == Prefix(w, 0, base).0
    ensures Prefix(u + w, |u|, base).1 == |u| + Prefix(w, 0, base).1
  {
    assert CharAt(u + w, |u|) == CharAt(w, 0) && CharAt(u + w, |u| + 1) == CharAt(w, 1);
  }

  // Blanks, a sign, a prefix, digits, and whatever cannot continue them.
  lemma {:induction false} ParsePrefixed(blanks: string, sign: string, prefix: string, t: string, rest: string,
                                         base: int, b: int)
    requires Lead(blanks, sign) && AllDigits(t, b) && Stops(rest, b)
    requires prefix + t != "" && '0' <= (prefix + t)[0] <= '9'
    requires Prefix(prefix + t + rest, 0, base) == (b, |prefix|)
    ensures Parsed(blanks + sign + (prefix + t + rest), base) ==
      (Signed(sign, Value(t, b)), |blanks + sign + prefix + t|)
  {
    hide IsDigit, Value, Long, DigitsEnd, Prefix, Signed;
    var u, w := blanks + sign, prefix + t + rest;
    var s := u + w;
    assert w[0] == (prefix + t)[0];
    assert s[|blanks|] == if sign == "" then w[0] else sign[0];
    BlanksSkipped(s, 0, |blanks|);
    PrefixShift(u, w, base);
    var d := |u| + |prefix|;
    var e := d + |t|;
    assert s[d..e] == t && s[e..] == rest;
    forall j | d <= j < e ensures IsDigit(s[j], b) {
      assert s[j] == t[j - d];
    }
    DigitsStop(s, d, e, b);
    SignedIs(sign, Value(t, b));
  }

  lemma {:induction false} FirstDigit(num: nat, base: nat)
    requires 2 <= base <= 10
    ensures '0' <= Numeral(num, base)[0] <= '9' && (num > 0 ==> Numeral(num, base)[0] != '0')
    decreases num
  {
    if num >= base {
      FirstDigit(Front(num, base), base);
    }
  }

  // strtol with base 16 or 0 reads "0x" and a hexadecimal numeral in either case ...
  lemma {:induction false} HexRoundTrip(blanks: string, sign: string, num: nat, upper: bool, rest: string, base: int)
    requires Lead(blanks, sign) && Stops(rest, 16) && (base == 0 || base == 16)
    ensures var t := if upper then Upper(Numeral(num, 16)) else Numeral(num, 16);
      Parsed(blanks + sign + ("0x" + t + rest), base) == (Signed(sign, num), |blanks + sign + "0x" + t|)
  {
    hide Numeral, Parsed, Value, Signed, IsDigit, Stops;
    var n := Numeral(num, 16);
    NumeralValue(num, 16);
    UpperValue(n, 16);
    ParsePrefixed(blanks, sign, "0x", if upper then Upper(n) else n, rest, base, 16);
  }

  // ... and with base 0, "0" and an octal numeral ...
  lemma {:induction false} OctalRoundTrip(blanks: string, sign: string, num: nat, rest: string)
    requires Lead(blanks, sign) && Stops(rest, 8)
    ensures var t := Numeral(num, 8);
      Parsed(blanks + sign + ("0" + t + rest), 0) == (Signed(sign, num), |blanks + sign + "0" + t|)
  {
    hide Numeral, Parsed, Value, Signed, IsDigit, Stops;
    var n := Numeral(num, 8);
    NumeralValue(num, 8);
    FirstDigit(num, 8);
    assert ("0" + n + rest)[1] == n[0];
    ParsePrefixed(blanks, sign, "0", n, rest, 0, 8);
  }

  // ... or a decimal numeral that does not begin with 0.
  lemma {:induction false} PlainRoundTrip(blanks: string, sign: string, num: nat, rest: string)
    requires Lead(blanks, sign) && Stops(rest, 10) && num > 0
    ensures var t := Numeral(num, 10);
      Parsed(blanks + sign + (t + rest), 0) == (Signed(sign, num), |blanks + sign + t|)
  {
    hide Numeral, Parsed, Value, Signed, IsDigit, Stops;
    var n := Numeral(num, 10);
    NumeralValue(num, 10);
    FirstDigit(num, 10);
    assert "" + n + rest == n + rest && "" + n == n && blanks + sign + "" == blanks + sign;
    ParsePrefixed(blanks, sign, "", n, rest, 0, 10);
  }
}
