/**
 Printing numbers (lab8/libs/printfmt.c) against reading them (strtol in lab8/libs/string.c).
 A C string is the sequence of its characters before the terminator.
 */
module Number {
  import opened Words

  // ---------------------------------------------------------------- printnum

  const DIGITS: string := "0123456789abcdef"

  function Spaces(n: int, padc: char): (r: string)
    ensures |r| == if n > 0 then n else 0
    ensures forall i :: 0 <= i < |r| ==> r[i] == padc
  {
    if n > 0 then seq(n, _ => padc) else ""
  }

  /** What printnum emits. */
  function PrintNum(num: nat, base: nat, width: int, padc: char): string
    requires 2 <= base <= 16
    decreases num
  {
    (if num >= base then
       var result := num / base;
       Quotient(num, base);
       PrintNum(result, base, width - 1, padc)
     else
       Spaces(width - 1, padc))
    + [DIGITS[num % base]]
  }

  lemma Quotient(num: nat, base: nat)
    requires base >= 2
    ensures num > 0 ==> num / base < num
    ensures num == num / base * base + num % base && num % base < base
  {
    Euclid(num, base);
    if num > 0 && num / base >= num {
      MulMonotone(num, num / base, base);
    }
  }

  // ---------------------------------------------------------------- strtol

  /** The value of a digit; None if it is none. */
  function Digit(c: char): Option<nat> {
    if '0' <= c <= '9' then Some(c as nat - '0' as nat)
    else if 'a' <= c <= 'z' then Some(c as nat - 'a' as nat + 10)
    else if 'A' <= c <= 'Z' then Some(c as nat - 'A' as nat + 10)
    else None
  }

  predicate IsDigit(c: char, base: nat) {
    Digit(c).Some? && Digit(c).value < base
  }

  ghost predicate Digits(s: string, base: nat) {
    forall i :: 0 <= i < |s| ==> IsDigit(s[i], base)
  }

  function DigitValue(c: char): (r: nat) {
    match Digit(c)
    case None => 0
    case Some(d) => d
  }

  /** The value that a string of digits denotes. */
  function Value(s: string, base: nat): nat {
    if s == "" then 0 else Value(s[..|s| - 1], base) * base + DigitValue(s[|s| - 1])
  }

  /** A long: two's complement, 64 bits. */
  function ToLong(v: int): int {
    var w := v % 0x1_0000_0000_0000_0000;
    if w < 0x8000_0000_0000_0000 then w else w - 0x1_0000_0000_0000_0000
  }

  const MODULUS: nat := 0x1_0000_0000_0000_0000

  lemma RemainderIs(x: int, m: nat, q: int, r: nat)
    requires x == q * m + r && r < m
    ensures x % m == r
  {
    var p, t := x / m, x % m;
    assert x == p * m + t;
    MulDiff(p, q, m);
    AtLeast(p - q, m);
    AtLeast(q - p, m);
  }

  lemma MulDiff(p: int, q: int, m: nat)
    ensures p * m - q * m == (p - q) * m == -((q - p) * m)
  {
  }

  lemma AtLeast(k: int, m: nat)
    ensures k > 0 ==> k * m >= m
    ensures k == 0 ==> k * m == 0
  {
    if k > 0 {
      MulMonotone(1, k, m);
    }
  }

  /** Cutting down to 64 bits after every step is cutting down once. */
  lemma ToLongStep(v: int, base: nat, dig: nat)
    ensures ToLong(ToLong(v) * base + dig) == ToLong(v * base + dig)
  {
    var k := if v % MODULUS < MODULUS / 2 then v / MODULUS else v / MODULUS + 1;
    assert v == ToLong(v) + k * MODULUS;
    var a := ToLong(v) * base + dig;
    assert v * base + dig == a + (k * base) * MODULUS by {
      assert (k * MODULUS) * base == (k * base) * MODULUS;
    }
    ModShift(a, k * base, MODULUS);
  }

  lemma ModShift(a: int, k: int, m: nat)
    requires m > 0
    ensures (a + k * m) % m == a % m
  {
    var q := a / m;
    assert a == q * m + a % m;
    assert a + k * m == (q + k) * m + a % m;
    RemainderIs(a + k * m, m, q + k, a % m);
  }

  /** How many characters from i on are blanks. */
  function Blanks(s: string, i: nat): nat
    requires i <= |s|
    ensures i + Blanks(s, i) <= |s|
    decreases |s| - i
  {
    if i < |s| && (s[i] == ' ' || s[i] == '\t') then 1 + Blanks(s, i + 1) else 0
  }

  /** How many characters from i on are digits. */
  function Run(s: string, i: nat, base: nat): (r: nat)
    requires i <= |s|
    ensures i + r <= |s|
    decreases |s| - i
  {
    if i < |s| && IsDigit(s[i], base) then 1 + Run(s, i + 1, base) else 0
  }

  /** The position behind the sign, and the sign. */
  function Sign(s: string, i: nat): (r: (nat, bool))
    requires i <= |s|
    ensures i <= r.0 <= |s|
  {
    if i < |s| && s[i] == '+' then (i + 1, false) else if i < |s| && s[i] == '-' then (i + 1, true) else (i, false)
  }

  /** The position behind the base prefix, and the base. */
  function Prefix(s: string, i: nat, base: nat): (r: (nat, nat))
    requires i <= |s|
    ensures i <= r.0 <= |s|
  {
    if (base == 0 || base == 16) && i + 1 < |s| && s[i] == '0' && s[i + 1] == 'x' then (i + 2, 16)
    else if base == 0 && i < |s| && s[i] == '0' then (i + 1, 8)
    else if base == 0 then (i, 10)
    else (i, base)
  }

  /** What strtol reads: blanks, a sign, a prefix, digits. */
  function Parse(s: string, base: nat): (r: (int, nat))
    ensures r.1 <= |s|
  {
    var (i, neg) := Sign(s, Blanks(s, 0));
    var (j, b) := Prefix(s, i, base);
    var k := j + Run(s, j, b);
    var v := Value(s[j..k], b);
    (if neg then ToLong(-ToLong(v)) else ToLong(v), k)
  }

  lemma ValueStep(s: string, j: nat, i: nat, b: nat)
    requires j <= i < |s| && IsDigit(s[i], b)
    ensures Value(s[j..i + 1], b) == Value(s[j..i], b) * b + DigitValue(s[i])
    ensures Run(s, i, b) == 1 + Run(s, i + 1, b)
  {
    SliceStep(s, j, i);
    ValueSnoc(s[j..i], s[i], b);
  }

  lemma SliceStep(s: string, j: nat, i: nat)
    requires j <= i < |s|
    ensures s[j..i + 1] == s[j..i] + [s[i]]
  {
  }

  lemma ValueSnoc(t: string, c: char, b: nat)
    ensures Value(t + [c], b) == Value(t, b) * b + DigitValue(c)
  {
    assert (t + [c])[..|t|] == t;
  }

  /** strtol; `end` is where *endptr points. */
  method StrTol(s: string, base: nat) returns (val: int, end: nat)
    requires base != 1
    ensures (val, end) == Parse(s, base)
  {
    hide Run, Value, ToLong, Sign, Prefix, Blanks;
    var i := SkipBlanks(s);
    var neg, b;
    i, neg := ReadSign(s, i);
    i, b := ReadPrefix(s, i, base);
    val, end := ReadDigits(s, i, b);
    if neg {
      val := ToLong(-val);
    }
  }

  method SkipBlanks(s: string) returns (i: nat)
    ensures i == Blanks(s, 0)
  {
    i := 0;
    while i < |s| && (s[i] == ' ' || s[i] == '\t')
      invariant i <= |s| && i + Blanks(s, i) == Blanks(s, 0)
    {
      i := i + 1;
    }
  }

  method ReadSign(s: string, start: nat) returns (i: nat, neg: bool)
    requires start <= |s|
    ensures (i, neg) == Sign(s, start)
  {
    i, neg := start, false;
    if i < |s| && s[i] == '+' {
      i := i + 1;
    } else if i < |s| && s[i] == '-' {
      i, neg := i + 1, true;
    }
  }

  method ReadPrefix(s: string, start: nat, base: nat) returns (i: nat, b: nat)
    requires start <= |s|
    ensures (i, b) == Prefix(s, start, base)
  {
    i, b := start, base;
    if (b == 0 || b == 16) && i + 1 < |s| && s[i] == '0' && s[i + 1] == 'x' {
      i, b := i + 2, 16;
    } else if b == 0 && i < |s| && s[i] == '0' {
      i, b := i + 1, 8;
    } else if b == 0 {
      b := 10;
    }
  }

  /** The loop over the digits from j on. */
  method ReadDigits(s: string, j: nat, b: nat) returns (val: int, i: nat)
    requires j <= |s|
    ensures i == j + Run(s, j, b) && val == ToLong(Value(s[j..i], b))
  {
    hide Run, Value, ToLong;
    val, i := 0, j;
    NoDigits(s, j, b);
    while true
      invariant j <= i <= |s| && i + Run(s, i, b) == j + Run(s, j, b)
      invariant val == ToLong(Value(s[j..i], b))
      decreases |s| - i
    {
      RunStops(s, i, b);
      if i == |s| || Digit(s[i]).None? || Digit(s[i]).value >= b {
        break;
      }
      var dig := Digit(s[i]).value;
      ValueStep(s, j, i, b);
      ToLongStep(Value(s[j..i], b), b, dig);
      val := ToLong(val * b + dig);
      i := i + 1;
    }
  }

  lemma NoDigits(s: string, j: nat, b: nat)
    requires j <= |s|
    ensures ToLong(Value(s[j..j], b)) == 0
  {
    assert s[j..j] == "";
  }

  lemma RunStops(s: string, i: nat, b: nat)
    requires i <= |s|
    ensures i == |s| || !IsDigit(s[i], b) ==> Run(s, i, b) == 0
  {
  }

  // ---------------------------------------------------------------- the round trip

  /** The digits of a number, without padding: the most significant first. */
  function Numeral(num: nat, base: nat): (r: string)
    requires 2 <= base <= 16
    ensures |r| > 0
    decreases num
  {
    Quotient(num, base);
    (if num >= base then Numeral(num / base, base) else "") + [DIGITS[num % base]]
  }

  lemma OneDigit(c: char, base: nat)
    ensures Value([c], base) == DigitValue(c) && Value("", base) == 0
  {
    assert [c][..0] == "" && Value("", base) == 0;
  }

  lemma DigitOf(d: nat, base: nat)
    requires d < base <= 16
    ensures IsDigit(DIGITS[d], base) && DigitValue(DIGITS[d]) == d
  {
  }

  /** The padding comes before the number, and fills up to the width. */
  lemma {:induction false} PrintNumIs(num: nat, base: nat, width: int, padc: char)
    requires 2 <= base <= 16
    ensures PrintNum(num, base, width, padc) == Spaces(width - |Numeral(num, base)|, padc) + Numeral(num, base)
    decreases num
  {
    hide Spaces, PrintNum, Numeral;
    Unfold(num, base, width, padc);
    Quotient(num, base);
    var d := DIGITS[num % base];
    if num >= base {
      var front := Numeral(num / base, base);
      PrintNumIs(num / base, base, width - 1, padc);
      Regroup(Spaces(width - 1 - |front|, padc), front, d);
    } else {
      Regroup(Spaces(width - 1, padc), "", d);
    }
  }

  lemma Unfold(num: nat, base: nat, width: int, padc: char)
    requires 2 <= base <= 16
    ensures Numeral(num, base) == (if num >= base then Numeral(num / base, base) else "") + [DIGITS[num % base]]
    ensures PrintNum(num, base, width, padc)
      == (if num >= base then PrintNum(num / base, base, width - 1, padc) else Spaces(width - 1, padc))
         + [DIGITS[num % base]]
  {
    hide Spaces;
  }

  lemma Regroup(a: string, b: string, c: char)
    ensures (a + b) + [c] == a + (b + [c]) && |b + [c]| == |b| + 1
    ensures b == "" ==> a + [c] == a + (b + [c])
  {
  }

  /** The numeral denotes the number. */
  lemma {:induction false} NumeralDenotes(num: nat, base: nat)
    requires 2 <= base <= 16
    ensures Digits(Numeral(num, base), base) && Value(Numeral(num, base), base) == num
    decreases num
  {
    hide Value;
    Quotient(num, base);
    DigitOf(num % base, base);
    if num >= base {
      NumeralDenotes(num / base, base);
      ValueSnoc(Numeral(num / base, base), DIGITS[num % base], base);
    } else {
      OneDigit(DIGITS[num % base], base);
      assert Numeral(num, base) == [DIGITS[num % base]];
    }
  }

  /** The digits are the decimal ones and small letters, and the last one is the remainder. */
  lemma {:induction false} NumeralDigits(num: nat, base: nat)
    requires 2 <= base <= 16
    ensures forall c :: c in Numeral(num, base) ==> '0' <= c <= '9' || 'a' <= c <= 'f'
    ensures var d, c := num % base, Numeral(num, base)[|Numeral(num, base)| - 1];
      c as int == if d < 10 then '0' as int + d else 'a' as int + d - 10
    decreases num
  {
    hide Numeral, PrintNum;
    Unfold(num, base, 0, ' ');
    Quotient(num, base);
    OneDigitIs(num % base);
    if num >= base {
      NumeralDigits(num / base, base);
    }
  }

  /** Only 0 begins with a 0. */
  lemma {:induction false} LeadingDigit(num: nat, base: nat)
    requires 2 <= base <= 16
    ensures Numeral(num, base)[0] == '0' <==> num == 0
    decreases num
  {
    hide Numeral, PrintNum;
    Unfold(num, base, 0, ' ');
    Quotient(num, base);
    OneDigitIs(num % base);
    if num >= base {
      LeadingDigit(num / base, base);
      DivBelow(num, base, 1);
    }
  }

  lemma OneDigitIs(d: nat)
    requires d < 16
    ensures DIGITS[d] as int == if d < 10 then '0' as int + d else 'a' as int + d - 10
    ensures DIGITS[d] == '0' <==> d == 0
  {
  }

  ghost function Power(base: nat, k: nat): nat {
    if k == 0 then 1 else base * Power(base, k - 1)
  }

  /** It has as many digits as the number needs: k digits are enough exactly for the numbers below base^k. */
  lemma {:induction false} NumeralLength(num: nat, base: nat, k: nat)
    requires 2 <= base <= 16 && k > 0
    ensures |Numeral(num, base)| <= k <==> num < Power(base, k)
    decreases num
  {
    Quotient(num, base);
    if num >= base {
      if k > 1 {
        NumeralLength(num / base, base, k - 1);
        DivBelow(num, base, Power(base, k - 1));
      } else {
        assert Power(base, 0) == 1 && Power(base, 1) == base;
      }
    } else {
      PowerAtLeast(base, k);
    }
  }

  lemma DivBelow(num: nat, base: nat, p: nat)
    requires base > 0
    ensures num / base < p <==> num < base * p
  {
    Euclid(num, base);
    if num / base < p {
      MulMonotone(num / base + 1, p, base);
    } else {
      MulMonotone(p, num / base, base);
    }
  }

  lemma {:induction false} PowerAtLeast(base: nat, k: nat)
    requires k > 0 && base > 0
    ensures Power(base, k) >= base
  {
    if k > 1 {
      PowerAtLeast(base, k - 1);
      MulMonotone(1, Power(base, k - 1), base);
    } else {
      assert Power(base, 0) == 1;
    }
  }

  /** Leading zeros denote nothing. */
  lemma {:induction false} ZerosDenoteNothing(n: nat, s: string, base: nat)
    ensures Value(Spaces(n, '0') + s, base) == Value(s, base)
    decreases |s| + n
  {
    hide Value;
    var t := Spaces(n, '0') + s;
    OneDigit('0', base);
    if |s| > 0 {
      var u, c := s[..|s| - 1], s[|s| - 1];
      ZerosDenoteNothing(n, u, base);
      ValueSnoc(Spaces(n, '0') + u, c, base);
      ValueSnoc(u, c, base);
      assert t == Spaces(n, '0') + u + [c] && s == u + [c];
    } else if n > 0 {
      ZerosDenoteNothing(n - 1, s, base);
      ValueSnoc(Spaces(n - 1, '0') + s, '0', base);
      assert t == Spaces(n - 1, '0') + s + ['0'] && s == "";
    } else {
      assert t == s;
    }
  }

  // ---------------------------------------------------------------- strtol of printed numbers

  ghost predicate Blank(c: char) {
    c == ' ' || c == '\t'
  }

  lemma {:induction false} BlanksAre(s: string, i: nat, k: nat)
    requires i <= k <= |s| && (forall j :: i <= j < k ==> Blank(s[j])) && (k < |s| ==> !Blank(s[k]))
    ensures i + Blanks(s, i) == k
    decreases k - i
  {
    if i < k {
      BlanksAre(s, i + 1, k);
    }
  }

  lemma {:induction false} RunIs(s: string, i: nat, base: nat, k: nat)
    requires i <= k <= |s| && (forall j :: i <= j < k ==> IsDigit(s[j], base)) && (k < |s| ==> !IsDigit(s[k], base))
    ensures i + Run(s, i, base) == k
    decreases k - i
  {
    if i < k {
      RunIs(s, i + 1, base, k);
    }
  }

  /** Blanks, then digits to the end: strtol reads their value. */
  lemma ParseDigits(b: string, t: string, base: nat)
    requires (forall j :: 0 <= j < |b| ==> Blank(b[j])) && 2 <= base <= 16 && t != "" && Digits(t, base)
    requires Value(t, base) < 0x8000_0000_0000_0000
    ensures Parse(b + t, base) == (Value(t, base), |b + t|)
  {
    hide Value, Run, Blanks;
    var s := b + t;
    assert s[|b|..] == t;
    assert IsDigit(t[0], base);
    BlanksAre(s, 0, |b|);
    assert Sign(s, |b|) == (|b|, false);
    assert |t| > 1 ==> IsDigit(t[1], base) && s[|b| + 1] == t[1];
    assert Prefix(s, |b|, base) == (|b|, base);
    forall j | |b| <= j < |s|
      ensures IsDigit(s[j], base)
    {
      assert s[j] == t[j - |b|];
    }
    RunIs(s, |b|, base, |s|);
    assert s[|b|..|s|] == t;
  }

  /**
   For numbers below 2^63, any width, and padding with spaces or zeros, strtol reads back what printnum
   printed, to the end.
   */
  lemma PrintNumReadsBack(num: nat, base: nat, width: int, padc: char)
    requires base in {8, 10, 16} && num < 0x8000_0000_0000_0000 && padc in {' ', '0'}
    ensures var s := PrintNum(num, base, width, padc);
      && Parse(s, base) == (num, |s|)
      && |s| == (if width > |Numeral(num, base)| then width else |Numeral(num, base)|)
  {
    hide Parse, Value, Run, Digits;
    var digits := Numeral(num, base);
    PrintNumIs(num, base, width, padc);
    NumeralDenotes(num, base);
    var pad := Spaces(width - |digits|, padc);
    if padc == ' ' {
      ParseDigits(pad, digits, base);
    } else {
      ZerosDenoteNothing(|pad|, digits, base);
      AllDigits(pad, digits, base);
      assert pad == Spaces(|pad|, '0');
      assert "" + (pad + digits) == pad + digits;
      ParseDigits("", pad + digits, base);
    }
  }

  lemma AllDigits(pad: string, t: string, base: nat)
    requires (forall j :: 0 <= j < |pad| ==> pad[j] == '0') && Digits(t, base) && base > 0
    ensures Digits(pad + t, base)
  {
  }

  /** The prefixes that go with a base, when strtol is given `given`. */
  predicate PrefixFor(prefix: string, base: nat, given: nat, num: nat) {
    || (prefix == "" && given == base)
    || (prefix == "0x" && base == 16 && given in {0, 16})
    || (prefix == "0" && base == 8 && given == 0)
    || (prefix == "" && base == 10 && given == 0 && num > 0)
  }

  /** The numeral, with small or capital letters. */
  predicate UpToCase(t: string, numeral: string) {
    && |t| == |numeral|
    && forall m :: 0 <= m < |t| ==>
         t[m] == numeral[m] || ('a' <= numeral[m] <= 'z' && t[m] as int == numeral[m] as int - 32)
  }

  predicate PlusMinus(sign: string) {
    sign == "" || sign == "+" || sign == "-"
  }

  predicate Alphanumeric(c: char) {
    '0' <= c <= '9' || 'a' <= c <= 'z' || 'A' <= c <= 'Z'
  }

  /**
   strtol reads blanks up to i, a sign up to j, a prefix up to k and a numeral up to `end`, and stops there if what
   follows is neither a letter nor a digit: the result is the number in 64 bits, and the number itself below 2^63.
   */
  lemma StrTolReads(s: string, i: nat, j: nat, k: nat, end: nat, num: nat, base: nat, given: nat)
    requires i <= j <= k <= end <= |s| && 2 <= base <= 16
    requires (forall m :: 0 <= m < i ==> s[m] == ' ' || s[m] == '\t') && PlusMinus(s[i..j])
    requires PrefixFor(s[j..k], base, given, num) && UpToCase(s[k..end], Numeral(num, base))
    requires end < |s| ==> !Alphanumeric(s[end])
    ensures Parse(s, given).1 == end && -0x8000_0000_0000_0000 <= Parse(s, given).0 < 0x8000_0000_0000_0000
    ensures var exact := if s[i..j] == "-" then 0 - num else num;
      && (Parse(s, given).0 - exact) % 0x1_0000_0000_0000_0000 == 0
      && (num < 0x8000_0000_0000_0000 ==> Parse(s, given).0 == exact)
  {
    hide Numeral, Parse, Alphanumeric, PrefixFor, PlusMinus, UpToCase;
    SliceAt(s, i, j);
    SliceAt(s, j, k);
    SliceAt(s, k, end);
    ParseAt(s, s[i..j], s[j..k], s[k..end], i, base, given, num);
    Signs(num);
  }

  lemma ParseAt(s: string, sign: string, prefix: string, t: string, i: nat, base: nat, given: nat, num: nat)
    requires PlusMinus(sign) && PrefixFor(prefix, base, given, num) && 2 <= base <= 16
    requires UpToCase(t, Numeral(num, base)) && i + |sign| + |prefix| + |t| <= |s|
    requires forall m :: 0 <= m < i ==> Blank(s[m])
    requires forall m :: i <= m < i + |sign| ==> s[m] == sign[m - i]
    requires var j := i + |sign|;
      forall m :: j <= m < j + |prefix| ==> s[m] == prefix[m - j]
    requires var k := i + |sign| + |prefix|;
      s[k..k + |t|] == t && forall m :: k <= m < k + |t| ==> s[m] == t[m - k]
    requires var end := i + |sign| + |prefix| + |t|;
      end < |s| ==> !Alphanumeric(s[end])
    ensures Parse(s, given) ==
      (if sign == "-" then ToLong(-ToLong(num)) else ToLong(num), i + |sign| + |prefix| + |t|)
  {
    hide UpToCase, PlusMinus, Numeral, Value, Run, Blanks, ToLong, Sign, Prefix, Digits, Alphanumeric, PrefixFor,
      IsDigit;
    var k, end := i + |sign| + |prefix|, i + |sign| + |prefix| + |t|;
    NumeralDenotes(num, base);
    CaseIsNothing(t, Numeral(num, base), base);
    SignAndPrefix(s, sign, prefix, t, i, base, given, num);
    BlanksAre(s, 0, i);
    forall m | k <= m < end
      ensures IsDigit(s[m], base)
    {
      DigitAt(t, base, m - k);
    }
    if end < |s| {
      NoDigit(s[end], base);
    }
    RunIs(s, k, base, end);
  }

  /** Capital letters are the same digits. */
  lemma {:induction false} CaseIsNothing(t: string, numeral: string, base: nat)
    requires UpToCase(t, numeral) && Digits(numeral, base)
    ensures Digits(t, base) && Value(t, base) == Value(numeral, base)
  {
    if t == "" {
      assert numeral == "";
    } else {
      var n := |t| - 1;
      CaseIsNothing(t[..n], numeral[..n], base);
      assert IsDigit(numeral[n], base);
      assert t == t[..n] + [t[n]];
    }
  }

  lemma SliceAt(s: string, i: nat, j: nat)
    requires i <= j <= |s|
    ensures |s[i..j]| == j - i && forall m :: i <= m < j ==> s[m] == s[i..j][m - i]
  {
  }

  lemma DigitAt(t: string, base: nat, i: nat)
    requires Digits(t, base) && i < |t|
    ensures IsDigit(t[i], base)
  {
  }

  lemma NoDigit(c: char, base: nat)
    requires !Alphanumeric(c)
    ensures !IsDigit(c, base)
  {
  }

  /** Sign and prefix are recognised, and nothing of the numeral is taken for them. */
  lemma SignAndPrefix(s: string, sign: string, prefix: string, t: string, i: nat, base: nat, given: nat, num: nat)
    requires PlusMinus(sign) && PrefixFor(prefix, base, given, num) && 2 <= base <= 16
    requires UpToCase(t, Numeral(num, base)) && i + |sign| + |prefix| + |t| <= |s|
    requires forall m :: i <= m < i + |sign| ==> s[m] == sign[m - i]
    requires var j := i + |sign|;
      forall m :: j <= m < j + |prefix| ==> s[m] == prefix[m - j]
    requires var k := i + |sign| + |prefix|;
      forall m :: k <= m < k + |t| ==> s[m] == t[m - k]
    requires var end := i + |sign| + |prefix| + |t|;
      end < |s| ==> !Alphanumeric(s[end])
    ensures Sign(s, i) == (i + |sign|, sign == "-") && !Blank(s[i])
    ensures Prefix(s, i + |sign|, given) == (i + |sign| + |prefix|, base)
  {
    hide Numeral;
    NumeralDigits(num, base);
    LeadingDigit(num, base);
    var j := i + |sign|;
    var k := j + |prefix|;
    var n := Numeral(num, base);
    assert n[0] in n && s[k] == t[0];
    assert |t| > 1 ==> n[1] in n && s[k + 1] == t[1];
    assert sign != "" ==> s[i] == sign[0];
    assert prefix != "" ==> s[j] == '0';
    assert prefix == "0x" ==> s[j + 1] == prefix[1];
  }

  /** In 64 bits, with either sign. */
  lemma Signs(num: nat)
    ensures -0x8000_0000_0000_0000 <= ToLong(num) < 0x8000_0000_0000_0000
    ensures -0x8000_0000_0000_0000 <= ToLong(-ToLong(num)) < 0x8000_0000_0000_0000
    ensures (ToLong(num) - num) % 0x1_0000_0000_0000_0000 == 0
    ensures (ToLong(-ToLong(num)) - (0 - num)) % 0x1_0000_0000_0000_0000 == 0
    ensures num < 0x8000_0000_0000_0000 ==> ToLong(num) == num && ToLong(-ToLong(num)) == 0 - num
  {
    var a := ToLongCongruent(num);
    var b := ToLongCongruent(-ToLong(num));
    RemainderIs(ToLong(num) - num, MODULUS, a, 0);
    RemainderIs(ToLong(-ToLong(num)) - (0 - num), MODULUS, b - a, 0);
    if 0 < num < 0x8000_0000_0000_0000 {
      assert (0 - num) / 0x1_0000_0000_0000_0000 == -1;
    }
  }

  lemma ToLongCongruent(v: int) returns (k: int)
    ensures ToLong(v) - v == k * MODULUS && -0x8000_0000_0000_0000 <= ToLong(v) < 0x8000_0000_0000_0000
  {
    k := if v % MODULUS < MODULUS / 2 then -(v / MODULUS) else -(v / MODULUS) - 1;
  }

  // ---------------------------------------------------------------- negative numbers

  /** What %d makes of an argument: the sign, then the padded magnitude. */
  function PrintInt(v: int, width: int, padc: char): string {
    if v < 0 then "-" + PrintNum(-v, 10, width, padc) else PrintNum(v, 10, width, padc)
  }

  /**
   strtol reads a printed argument back, except for a negative one that is padded with spaces: they separate the
   sign from the digits, strtol stops there and finds 0.
   */
  lemma PrintIntReadsBack(v: int, width: int, padc: char)
    requires -0x8000_0000_0000_0000 < v < 0x8000_0000_0000_0000 && padc in {' ', '0'}
    ensures var s := PrintInt(v, width, padc);
      Parse(s, 10) == (v, |s|) <==> v >= 0 || padc == '0' || width <= |Numeral(-v, 10)|
  {
    hide Parse, Value, Run, Digits;
    if v >= 0 {
      PrintNumReadsBack(v, 10, width, padc);
    } else {
      var digits := Numeral(-v, 10);
      PrintNumIs(-v, 10, width, padc);
      NumeralDenotes(-v, 10);
      var pad := Spaces(width - |digits|, padc);
      if padc == ' ' && width > |digits| {
        SignThenSpace(pad + digits);
      } else {
        PaddedNegative(-v, pad, digits);
      }
    }
  }

  lemma PaddedNegative(v: nat, pad: string, digits: string)
    requires pad == Spaces(|pad|, '0') && digits != "" && Digits(digits, 10) && Value(digits, 10) == v
    requires 0 < v < 0x8000_0000_0000_0000
    ensures Parse("-" + (pad + digits), 10).0 + v == 0 && Parse("-" + (pad + digits), 10).1 == |pad + digits| + 1
  {
    hide Parse, Value, Digits;
    ZerosDenoteNothing(|pad|, digits, 10);
    AllDigits(pad, digits, 10);
    ParseNegative(pad + digits);
  }

  lemma ParseNegative(t: string)
    requires t != "" && Digits(t, 10) && 0 < Value(t, 10) < 0x8000_0000_0000_0000
    ensures Parse("-" + t, 10).0 + Value(t, 10) == 0 && Parse("-" + t, 10).1 == |t| + 1
  {
    hide Value, Run, Blanks, ToLong, Sign, Prefix, IsDigit, Digits;
    var s := "-" + t;
    NegativeParts(t);
    RunIs(s, 1, 10, |s|);
    ToLongNegative(Value(t, 10));
  }

  lemma NegativeParts(t: string)
    requires Digits(t, 10)
    ensures var s := "-" + t;
      && Blanks(s, 0) == 0 && Sign(s, 0) == (1, true) && Prefix(s, 1, 10) == (1, 10) && s[1..|s|] == t
      && forall j :: 1 <= j < |s| ==> IsDigit(s[j], 10)
  {
    hide Value, IsDigit;
    var s := "-" + t;
    forall j | 1 <= j < |s|
      ensures IsDigit(s[j], 10)
    {
      assert s[j] == t[j - 1];
    }
  }

  lemma ToLongNegative(v: int)
    requires 0 < v < 0x8000_0000_0000_0000
    ensures ToLong(v) == v && ToLong(-v) == -v
  {
  }

  lemma SignThenSpace(t: string)
    requires t != "" && t[0] == ' '
    ensures Parse("-" + t, 10) == (0, 1)
  {
    hide Run, Blanks;
    var s := "-" + t;
    BlanksAre(s, 0, 0);
    assert s[1] == ' ' && !IsDigit(s[1], 10);
    RunIs(s, 1, 10, 1);
    assert s[1..1] == "";
  }

  // ---------------------------------------------------------------- printing into a buffer

  const E_INVAL: int := 3

  /** struct sprintbuf: `buf` is the next free cell, `ebuf` the last cell, kept for the terminator. */
  class SprintBuf {
    const str: array<char>
    const ebuf: nat
    var buf: nat
    var cnt: nat

    constructor (str: array<char>, size: nat)
      requires 0 < size <= str.Length
      ensures this.str == str && ebuf == size - 1 && buf == cnt == 0
    {
      this.str, ebuf, buf, cnt := str, size - 1, 0, 0;
    }

    /** sprintputch: every character counts, and those that fit are stored. */
    method Putch(ch: char)
      requires buf <= ebuf < str.Length
      modifies this`buf, this`cnt, str
      ensures cnt == old(cnt) + 1 && buf <= ebuf
      ensures str[..buf] == old(str[..buf]) + if old(buf) < ebuf then [ch] else []
      ensures str[buf..] == old(str[..])[buf..]
    {
      cnt := cnt + 1;
      if buf < ebuf {
        str[buf] := ch;
        buf := buf + 1;
      }
    }
  }

  /**
   vsnprintf, for a format that makes vprintfmt emit `out`: the buffer holds as much of the output as fits before the
   terminator, nothing behind the terminator changes, and the result is the length of the whole output.
   */
  method VSnprintf(str: array<char>, size: nat, out: string) returns (r: int)
    requires size <= str.Length
    modifies str
    ensures size == 0 ==> r == -E_INVAL && str[..] == old(str[..])
    ensures size > 0 ==> r == |out|
    ensures size > 0 ==> var m := if |out| < size then |out| else size - 1;
      str[..m] == out[..m] && str[m] == '\0' && str[m + 1..] == old(str[..])[m + 1..]
  {
    if size == 0 {
      return -E_INVAL;
    }
    var b := new SprintBuf(str, size);
    var i := 0;
    while i < |out|
      invariant i <= |out| && b.cnt == i && b.buf == (if i < size then i else size - 1)
      invariant b.str == str && b.ebuf == size - 1
      invariant str[..b.buf] == out[..b.buf] && str[b.buf..] == old(str[..])[b.buf..]
    {
      ghost var before, n := str[..], b.buf;
      b.Putch(out[i]);
      assert str[b.buf..] == before[n..][b.buf - n..] == old(str[..])[b.buf..];
      i := i + 1;
    }
    ghost var before := str[..];
    str[b.buf] := '\0';
    assert str[..b.buf] == before[..b.buf];
    assert str[b.buf + 1..] == before[b.buf..][1..];
    r := b.cnt;
  }
}
