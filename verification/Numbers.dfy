// Printing and parsing numbers: printnum and the number conversions of
// lab8/libs/printfmt.c, and strtol of lab8/libs/string.c.

module Digits {
  import opened Arith

  const LONG_MAX: int := 0x7fff_ffff_ffff_ffff
  const LONG_RANGE: int := 0x1_0000_0000_0000_0000

  predicate FitsLong(v: int) {
    -LONG_MAX - 1 <= v <= LONG_MAX
  }

  // ---------- 64-bit arithmetic ----------

  // A long keeps the low 64 bits.
  function Wrap(x: int): (v: int)
    ensures FitsLong(v)
  {
    (x + LONG_MAX + 1) % LONG_RANGE - LONG_MAX - 1
  }

  // The same bits as an unsigned long long.
  function Unsigned(v: int): (w: nat)
    requires FitsLong(v)
    ensures w < LONG_RANGE
  {
    if v < 0 then v + LONG_RANGE else v
  }

  lemma {:induction false} WrapFits(x: int)
    requires FitsLong(x)
    ensures Wrap(x) == x
  {
  }

  lemma {:induction false} WrapPeriod(x: int, k: int)
    ensures Wrap(x + k * LONG_RANGE) == Wrap(x)
  {
    ModPeriod(x + LONG_MAX + 1, k, LONG_RANGE);
  }

  lemma {:induction false} ModPeriod(x: int, k: int, m: int)
    requires m > 0
    ensures (x + k * m) % m == x % m
  {
    var q, q' := x / m, (x + k * m) / m;
    var gap := q' - k - q;
    assert gap * m == x % m - (x + k * m) % m;
    NoSmallMultiple(gap, m);
  }

  lemma {:induction false} NoSmallMultiple(k: int, m: int)
    requires m > 0
    ensures k >= 1 ==> k * m >= m
    ensures k <= -1 ==> k * m <= -m
  {
  }

  // Wrapping each step of val * b + d is wrapping once at the end.
  lemma {:induction false} WrapStep(x: int, b: int, d: int)
    ensures Wrap(Wrap(x) * b + d) == Wrap(x * b + d)
  {
    var k := (x + LONG_MAX + 1) / LONG_RANGE;
    assert x == Wrap(x) + k * LONG_RANGE;
    assert x * b + d == Wrap(x) * b + d + k * b * LONG_RANGE by {
      Distribute(Wrap(x), k, LONG_RANGE, b);
    }
    WrapPeriod(Wrap(x) * b + d, k * b);
  }

  lemma {:induction false} Distribute(w: int, k: int, m: int, b: int)
    ensures (w + k * m) * b == w * b + k * b * m
  {
  }

  // The digits of the smallest long are those of its unsigned negation.
  lemma {:induction false} UnsignedNegation(v: int)
    requires FitsLong(v) && v < 0
    ensures Unsigned(Wrap(-v)) == -v
  {
    if v == -LONG_MAX - 1 {
      assert Wrap(-v) == v;
    } else {
      WrapFits(-v);
    }
  }

  function DigitChar(d: nat): char
    requires d < 16
  {
    "0123456789abcdef"[d]
  }

  // ---------- Printed digits ----------

  // The digits of n in base b, the most significant first.
  function Numeral(n: nat, b: nat): (t: string)
    requires 2 <= b <= 16
    ensures |t| > 0
  {
    if n < b then [DigitChar(n)]
    else
      Division(n, b);
      Numeral(n / b, b) + [DigitChar(n % b)]
  }

  lemma {:induction false} Division(n: nat, b: nat)
    requires b >= 2
    ensures n == n / b * b + n % b && 0 <= n % b < b && 0 <= n / b
    ensures n >= b ==> n / b < n
  {
  }

  function Fill(c: char, k: int): (t: string)
    ensures |t| == (if k > 0 then k else 0) && forall i :: 0 <= i < |t| ==> t[i] == c
  {
    if k <= 0 then [] else Fill(c, k - 1) + [c]
  }

  // A numeral with pad characters up to the width.
  function Padded(n: nat, b: nat, width: int, padc: char): (t: string)
    requires 2 <= b <= 16
    ensures |t| == if width > |Numeral(n, b)| then width else |Numeral(n, b)|
  {
    Fill(padc, width - |Numeral(n, b)|) + Numeral(n, b)
  }

  // The pad characters come first, the numeral last.
  lemma {:induction false} PaddedShape(n: nat, b: nat, width: int, padc: char)
    requires 2 <= b <= 16
    ensures var t, k := Padded(n, b, width, padc), |Padded(n, b, width, padc)| - |Numeral(n, b)|;
      t[k..] == Numeral(n, b) && forall i :: 0 <= i < k ==> t[i] == padc
  {
    hide Numeral;
  }

  // A number with its sign; %d prints Signed(v, 10, width, padc).
  function Signed(v: int, b: nat, width: int, padc: char): string
    requires 2 <= b <= 16
  {
    if v < 0 then ['-'] + Padded(-v, b, width, padc) else Padded(v, b, width, padc)
  }

  // The recursion of printnum: the last digit after a numeral one shorter.
  lemma {:induction false} PaddedStep(n: nat, b: nat, width: int, padc: char)
    requires 2 <= b <= 16 && n >= b
    ensures Padded(n, b, width, padc) == Padded(n / b, b, width - 1, padc) + [DigitChar(n % b)]
  {
    Division(n, b);
  }

  lemma {:induction false} PaddedDigit(n: nat, b: nat, width: int, padc: char)
    requires 2 <= b <= 16 && n < b
    ensures n % b == n && Padded(n, b, width, padc) == Fill(padc, width - 1) + [DigitChar(n)]
  {
    hide DigitChar, Fill;
    SmallRemainder(n, b);
  }

  lemma {:induction false} SmallRemainder(n: nat, b: nat)
    requires n < b
    ensures n % b == n
  {
  }

  // ---------- Parsed digits ----------

  function DigitValue(c: char): int {
    if '0' <= c <= '9' then c as int - '0' as int
    else if 'a' <= c <= 'z' then c as int - 'a' as int + 10
    else if 'A' <= c <= 'Z' then c as int - 'A' as int + 10
    else -1
  }

  predicate IsDigit(c: char, b: nat) {
    0 <= DigitValue(c) < b
  }

  // One more digit.
  function Append(v: nat, b: nat, d: nat): (w: nat)
    requires b >= 1
    ensures v <= w
  {
    assert v * b == v + v * (b - 1);
    v * b + d
  }

  function Value(t: string, b: nat): nat
    requires b >= 1 && forall i :: 0 <= i < |t| ==> IsDigit(t[i], b)
  {
    if |t| == 0 then 0
    else
      assert IsDigit(t[|t| - 1], b);
      Append(Value(t[..|t| - 1], b), b, DigitValue(t[|t| - 1]))
  }

  // Every digit printed is read back as its value.
  lemma {:induction false} DigitBack(d: nat, b: nat)
    requires d < b <= 16
    ensures DigitValue(DigitChar(d)) == d && IsDigit(DigitChar(d), b)
  {
    assert DigitChar(d) as int == if d < 10 then '0' as int + d else 'a' as int + (d - 10);
  }

  // A numeral is made of digits and denotes the number it was made from.
  lemma {:induction false} NumeralValue(n: nat, b: nat)
    requires 2 <= b <= 16
    ensures forall i :: 0 <= i < |Numeral(n, b)| ==> IsDigit(Numeral(n, b)[i], b)
    ensures Value(Numeral(n, b), b) == n
    decreases n
  {
    if n < b {
      DigitBack(n, b);
      assert Value([], b) * b == 0;
    } else {
      Division(n, b);
      NumeralValue(n / b, b);
      DigitBack(n % b, b);
      var t := Numeral(n / b, b);
      assert (t + [DigitChar(n % b)])[..|t|] == t;
    }
  }

  // No other lower-case digits without a leading zero denote the number.
  lemma {:induction false} NumeralUnique(t: string, b: nat)
    requires 2 <= b <= 16 && |t| > 0 && forall i :: 0 <= i < |t| ==> IsDigit(t[i], b) && !('A' <= t[i] <= 'Z')
    requires |t| == 1 || t[0] != '0'
    ensures Numeral(Value(t, b), b) == t
    decreases |t|
  {
    var s, d := t[..|t| - 1], DigitValue(t[|t| - 1]);
    assert IsDigit(t[|t| - 1], b);
    DigitForth(t[|t| - 1]);
    if |t| == 1 {
      assert s == [];
      assert Value(t, b) == d;
      SmallRemainder(d, b);
    } else {
      LeadingDigit(s, b);
      NumeralUnique(s, b);
      var n := Value(s, b);
      LastDigit(n, b, d);
      assert t == s + [DigitChar(d)];
    }
  }

  lemma {:induction false} DigitForth(c: char)
    requires 0 <= DigitValue(c) < 16 && !('A' <= c <= 'Z')
    ensures DigitChar(DigitValue(c)) == c
  {
    DigitBack(DigitValue(c), 16);
  }

  lemma {:induction false} LeadingDigit(t: string, b: nat)
    requires b >= 1 && |t| > 0 && t[0] != '0' && forall i :: 0 <= i < |t| ==> IsDigit(t[i], b)
    ensures Value(t, b) > 0
    decreases |t|
  {
    assert IsDigit(t[0], b);
    if |t| > 1 {
      LeadingDigit(t[..|t| - 1], b);
    }
  }

  lemma {:induction false} LastDigit(n: nat, b: nat, d: nat)
    requires 2 <= b && d < b && n > 0
    ensures Append(n, b, d) / b == n && Append(n, b, d) % b == d && Append(n, b, d) >= b
  {
    hide Append;
    AppendIs(n, b, d);
    DivideOut(b, n, d);
    Monotone(1, n, b);
  }

  lemma {:induction false} AppendIs(n: nat, b: nat, d: nat)
    requires b >= 1
    ensures Append(n, b, d) == b * n + d == n * b + d
  {
  }

  function Power(b: nat, k: nat): nat {
    if k == 0 then 1 else Power(b, k - 1) * b
  }

  lemma {:induction false} ValueEnd(t: string, c: char, b: nat)
    requires b >= 1 && IsDigit(c, b) && forall i :: 0 <= i < |t| ==> IsDigit(t[i], b)
    ensures Value(t + [c], b) == Value(t, b) * b + DigitValue(c)
  {
    assert (t + [c])[..|t|] == t;
  }

  // A digit counts by its place.
  lemma {:induction false} PlaceValue(c: char, t: string, b: nat)
    requires b >= 1 && IsDigit(c, b) && forall i :: 0 <= i < |t| ==> IsDigit(t[i], b)
    ensures Value([c] + t, b) == DigitValue(c) * Power(b, |t|) + Value(t, b)
    decreases |t|
  {
    hide Value, DigitValue;
    if |t| == 0 {
      ValueEnd([], c, b);
      NoDigits(b);
      assert [c] + t == [] + [c];
    } else {
      var u, e := t[..|t| - 1], t[|t| - 1];
      PlaceValue(c, u, b);
      ValueEnd([c] + u, e, b);
      ValueEnd(u, e, b);
      assert [c] + t == [c] + u + [e] && t == u + [e];
      PlaceStep(DigitValue(c), Power(b, |u|), Value(u, b), b);
    }
  }

  lemma {:induction false} NoDigits(b: nat)
    requires b >= 1
    ensures Value([], b) == 0 && Value([], b) * b == 0
  {
  }

  lemma {:induction false} PlaceStep(x: nat, p: nat, v: nat, b: nat)
    ensures (x * p + v) * b == x * (p * b) + v * b
  {
  }

  // Upper and lower case letters count alike.
  lemma {:induction false} LetterValue(c: char, k: nat)
    requires k < 26 && (c as int == 'a' as int + k || c as int == 'A' as int + k)
    ensures DigitValue(c) == 10 + k
  {
  }

  lemma {:induction false} Numeral255()
    ensures Numeral(255, 16) == "ff" && Numeral(255, 8) == "377" && Numeral(255, 10) == "255"
  {
    assert Numeral(15, 16) == "f" && Numeral(3, 8) == "3" && Numeral(2, 10) == "2";
    assert Numeral(31, 8) == "37" && Numeral(25, 10) == "25";
  }

  // Leading zeros do not count.
  lemma {:induction false} ZerosValue(k: int, t: string, b: nat)
    requires b >= 2 && forall i :: 0 <= i < |t| ==> IsDigit(t[i], b)
    ensures forall i :: 0 <= i < |Fill('0', k) + t| ==> IsDigit((Fill('0', k) + t)[i], b)
    ensures Value(Fill('0', k) + t, b) == Value(t, b)
    decreases |t|, k
  {
    var s := Fill('0', k) + t;
    assert IsDigit('0', b);
    if |t| > 0 {
      ZerosValue(k, t[..|t| - 1], b);
      assert s[..|s| - 1] == Fill('0', k) + t[..|t| - 1];
    } else if k > 0 {
      ZerosValue(k - 1, t, b);
      assert s == Fill('0', k) && s[..|s| - 1] == Fill('0', k - 1) == Fill('0', k - 1) + t;
      assert Value(t, b) * b == 0;
    } else {
      assert s == t;
    }
  }
}

module Printf {
  import opened Digits

  // getuint and getint: an int of 32 bits without the l flag, else one of 64.
  function GetUint(word: nat, lflag: nat): nat {
    if lflag == 0 then word % 0x1_0000_0000 else word
  }

  // v is the two's complement reading of the word's 32 or 64 low bits.
  predicate Denotes(v: int, word: nat, lflag: nat) {
    if lflag == 0 then -0x8000_0000 <= v < 0x8000_0000 && (word - v) % 0x1_0000_0000 == 0
    else -0x8000_0000_0000_0000 <= v < 0x8000_0000_0000_0000 && (word - v) % 0x1_0000_0000_0000_0000 == 0
  }

  function GetInt(word: nat, lflag: nat): (v: int)
    requires word < LONG_RANGE
    ensures FitsLong(v) && Denotes(v, word, lflag)
  {
    var w := GetUint(word, lflag);
    if lflag == 0 then (if w < 0x8000_0000 then w else w - 0x1_0000_0000)
    else if w <= LONG_MAX then w else w - LONG_RANGE
  }

  lemma {:induction false} DenotesOne(v: int, v': int, word: nat, lflag: nat)
    requires Denotes(v, word, lflag) && Denotes(v', word, lflag)
    ensures v == v'
  {
    var m := if lflag == 0 then 0x1_0000_0000 else 0x1_0000_0000_0000_0000;
    var q, q' := (word - v) / m, (word - v') / m;
    NoSmallMultiple(q - q', m);
    assert v' - v == (q - q') * m;
  }

  // The number a conversion prints, and its base.
  function Shown(conv: char, word: nat, lflag: nat): (v: int)
    requires word < LONG_RANGE
    ensures if conv == 'd' then Denotes(v, word, lflag) else v == if lflag == 0 then word % 0x1_0000_0000 else word
  {
    if conv == 'd' then GetInt(word, lflag) else GetUint(word, lflag)
  }

  function BaseOf(conv: char): (b: nat)
    ensures b == (match conv case 'x' => 16 case 'o' => 8 case _ => 10)
  {
    if conv == 'x' then 16 else if conv == 'o' then 8 else 10
  }

  // struct sprintbuf: characters beyond the buffer are counted and dropped.
  class PrintBuffer {
    const buf: array<char>
    var pos: nat
    var cnt: nat
    ghost var emitted: string

    ghost predicate Valid()
      reads this, buf
    {
      && cnt == |emitted| && pos == (if cnt < buf.Length then cnt else buf.Length - 1)
      && buf.Length > 0 && buf[..pos] == emitted[..pos]
    }

    constructor (size: nat)
      requires size > 0
      ensures Valid() && emitted == [] && buf.Length == size && fresh(buf)
    {
      buf := new char[size];
      pos, cnt, emitted := 0, 0, [];
    }

    // sprintputch
    method Putch(c: char)
      requires Valid()
      modifies this, buf
      ensures Valid() && emitted == old(emitted) + [c]
    {
      cnt := cnt + 1;
      emitted := emitted + [c];
      if pos < buf.Length - 1 {
        buf[pos] := c;
        pos := pos + 1;
      }
    }

    // printnum
    method PrintNum(num: nat, base: nat, width: int, padc: char)
      requires Valid() && 2 <= base <= 16
      modifies this, buf
      ensures Valid() && emitted == old(emitted) + Padded(num, base, width, padc)
      decreases num
    {
      hide Padded, Numeral, Fill, DigitChar;
      Division(num, base);
      var result, mod := num / base, num % base;
      if num >= base {
        PaddedStep(num, base, width, padc);
        PrintNum(result, base, width - 1, padc);
      } else {
        PaddedDigit(num, base, width, padc);
        PrintPad(width, padc);
      }
      Putch(DigitChar(mod));
    }

    // The pad characters before the first digit.
    method PrintPad(width: int, padc: char)
      requires Valid()
      modifies this, buf
      ensures Valid() && emitted == old(emitted) + Fill(padc, width - 1)
    {
      ghost var was, k := emitted, 0;
      var w := width - 1;
      while w > 0
        invariant Valid() && k >= 0 && w == width - 1 - k
        invariant (w >= 0 || k == 0) && emitted == was + Fill(padc, k)
      {
        Putch(padc);
        w, k := w - 1, k + 1;
      }
    }

    // The %d conversions, for the value a long holds.
    method PrintSigned(v: int, width: int, padc: char)
      requires Valid() && FitsLong(v)
      modifies this, buf
      ensures Valid() && emitted == old(emitted) + Signed(v, 10, width, padc)
    {
      hide Padded, Numeral, Fill, Wrap;
      var num := Unsigned(v);
      if v < 0 {
        Putch('-');
        UnsignedNegation(v);
        num := Unsigned(Wrap(-v));
      }
      PrintNum(num, 10, width, padc);
    }

    // The number conversions of vprintfmt on a 64-bit argument word.
    method PrintConversion(conv: char, word: nat, lflag: nat, width: int, padc: char)
      requires Valid() && word < LONG_RANGE && conv in "duox"
      modifies this, buf
      ensures Valid()
      ensures emitted == old(emitted) + Signed(Shown(conv, word, lflag), BaseOf(conv), width, padc)
      ensures var bits := if lflag == 0 then word % 0x1_0000_0000 else word;
        && (conv == 'x' ==> emitted == old(emitted) + Padded(bits, 16, width, padc))
        && (conv == 'o' ==> emitted == old(emitted) + Padded(bits, 8, width, padc))
        && (conv == 'u' ==> emitted == old(emitted) + Padded(bits, 10, width, padc))
      ensures conv == 'd' ==>
        exists v: int :: Denotes(v, word, lflag) && emitted == old(emitted) + Signed(v, 10, width, padc)
    {
      hide Padded, Numeral, Fill;
      if conv == 'd' {
        PrintSigned(GetInt(word, lflag), width, padc);
      } else {
        var base := if conv == 'u' then 10 else if conv == 'o' then 8 else 16;
        PrintNum(GetUint(word, lflag), base, width, padc);
      }
    }

    // The end of vsnprintf.
    method Finish() returns (count: nat)
      requires Valid()
      modifies buf
      ensures count == |emitted| && pos < buf.Length && buf[pos] == '\0'
      ensures pos == (if count < buf.Length then count else buf.Length - 1) && buf[..pos] == emitted[..pos]
    {
      buf[pos] := '\0';
      count := cnt;
    }
  }
}

module Strtol {
  import opened Digits
  import opened Printf

  // A C string, with its terminating null character.
  predicate Terminated(s: string) {
    |s| > 0 && s[|s| - 1] == '\0'
  }

  predicate Blank(c: char) {
    c == ' ' || c == '\t'
  }

  function SkipBlanks(s: string, i: nat): (j: nat)
    requires Terminated(s) && i < |s|
    ensures i <= j < |s| && !Blank(s[j]) && forall k :: i <= k < j ==> Blank(s[k])
    decreases |s| - i
  {
    if Blank(s[i]) then SkipBlanks(s, i + 1) else i
  }

  // End of the digits from i on.
  function RunEnd(s: string, i: nat, b: nat): (j: nat)
    requires Terminated(s) && i < |s|
    ensures i <= j < |s| && !IsDigit(s[j], b) && forall k :: i <= k < j ==> IsDigit(s[k], b)
    decreases |s| - i
  {
    if IsDigit(s[i], b) then RunEnd(s, i + 1, b) else i
  }

  // What comes before the digits: where they start, the sign and the base.
  datatype Head = Head(start: nat, neg: bool, base: nat)

  function SignAt(s: string, i: nat): (h: Head)
    requires Terminated(s) && i < |s|
    ensures i <= h.start < |s|
  {
    if s[i] == '+' then Head(i + 1, false, 0) else if s[i] == '-' then Head(i + 1, true, 0) else Head(i, false, 0)
  }

  function HeadOf(s: string, base: nat): (h: Head)
    requires Terminated(s)
    ensures h.start < |s|
  {
    var h := SignAt(s, SkipBlanks(s, 0));
    var i := h.start;
    if (base == 0 || base == 16) && s[i] == '0' && s[i + 1] == 'x' then Head(i + 2, h.neg, 16)
    else if base == 0 && s[i] == '0' then Head(i + 1, h.neg, 8)
    else Head(i, h.neg, if base == 0 then 10 else base)
  }

  function Negated(neg: bool, n: int): int {
    if neg then -n else n
  }

  // The number s denotes in the given base.
  function Parsed(s: string, base: nat): int
    requires Terminated(s) && (base == 0 || 2 <= base <= 36)
  {
    var h := HeadOf(s, base);
    Negated(h.neg, Value(s[h.start..RunEnd(s, h.start, h.base)], h.base))
  }

  // The number a long is left with.
  function Returned(s: string, base: nat): int
    requires Terminated(s) && (base == 0 || 2 <= base <= 36)
  {
    Wrap(Parsed(s, base))
  }

  lemma {:induction false} ValueStep(s: string, start: nat, i: nat, b: nat)
    requires b >= 1 && start <= i < |s| && forall k :: start <= k <= i ==> IsDigit(s[k], b)
    ensures IsDigit(s[i], b)
    ensures Value(s[start..i + 1], b) == Append(Value(s[start..i], b), b, DigitValue(s[i]))
    ensures Value(s[start..i], b) <= Value(s[start..i + 1], b)
  {
    var t := s[start..i + 1];
    assert t[..|t| - 1] == s[start..i] && t[|t| - 1] == s[i];
  }

  // strtol: the digits after the head, as long as they last, in the head's
  // base, in 64-bit arithmetic: the number denoted, if that fits a long.
  method Strtol(s: string, base: nat) returns (val: int, end: nat)
    requires Terminated(s) && (base == 0 || 2 <= base <= 36)
    ensures end == RunEnd(s, HeadOf(s, base).start, HeadOf(s, base).base)
    ensures val == Returned(s, base)
    ensures FitsLong(Parsed(s, base)) <==> val == Parsed(s, base)
  {
    hide Value, IsDigit, Wrap;
    var h := ReadHead(s, base);
    val, end := ReadDigits(s, h.start, h.base);
    if h.neg {
      WrapStep(Value(s[h.start..end], h.base), -1, 0);
      val := Wrap(-val);
    }
    if FitsLong(Parsed(s, base)) {
      WrapFits(Parsed(s, base));
    }
  }

  // Blanks, sign and base prefix.
  method ReadHead(s: string, base: nat) returns (h: Head)
    requires Terminated(s)
    ensures h == HeadOf(s, base)
  {
    var i := 0;
    while Blank(s[i])
      invariant i < |s| && SkipBlanks(s, i) == SkipBlanks(s, 0)
      decreases |s| - i
    {
      i := i + 1;
    }
    var neg, b := false, base;
    if s[i] == '+' {
      i := i + 1;
    } else if s[i] == '-' {
      i, neg := i + 1, true;
    }
    if (base == 0 || base == 16) && s[i] == '0' && s[i + 1] == 'x' {
      i, b := i + 2, 16;
    } else if base == 0 && s[i] == '0' {
      i, b := i + 1, 8;
    } else if base == 0 {
      b := 10;
    }
    h := Head(i, neg, b);
  }

  method ReadDigits(s: string, start: nat, b: nat) returns (val: int, i: nat)
    requires Terminated(s) && start < |s| && b >= 2
    ensures i == RunEnd(s, start, b)
    ensures val == Wrap(Value(s[start..i], b))
  {
    hide Value, Wrap, RunEnd;
    i := start;
    val := 0;
    assert Value(s[start..i], b) == 0 by {
      ValueNone(s, start, b);
    }
    WrapFits(0);
    while true
      invariant start <= i < |s| && RunEnd(s, i, b) == RunEnd(s, start, b)
      invariant forall k :: start <= k < i ==> IsDigit(s[k], b)
      invariant val == Wrap(Value(s[start..i], b))
      decreases |s| - i
    {
      var dig := DigitValue(s[i]);
      if dig < 0 || dig >= b {
        break;
      }
      ValueStep(s, start, i, b);
      WrapStep(Value(s[start..i], b), b, dig);
      val := Wrap(val * b + dig);
      i := i + 1;
    }
  }

  lemma {:induction false} ValueNone(s: string, start: nat, b: nat)
    requires b >= 1 && start <= |s|
    ensures Value(s[start..start], b) == 0
  {
  }

  // ---------- Every input ----------

  // The prefix that the given base allows before body, and the base it makes.
  predicate Prefix(base: nat, prefix: string, body: string, b: nat) {
    && |body| > 0
    && ((prefix == "0x" && (base == 0 || base == 16) && b == 16)
        || (prefix == "0" && base == 0 && body[0] != 'x' && b == 8)
        || (prefix == "" && b == (if base == 0 then 10 else base)
            && !(body[0] == '0' && (base == 0 || (base == 16 && |body| > 1 && body[1] == 'x')))))
  }

  // Spaces and tabs, at most one sign, a prefix for the base, digits as long as
  // they last, and anything after them: strtol reads the digits, and ends there.
  lemma {:induction false} ReadsInput(blanks: string, sign: string, prefix: string, t: string, rest: string,
                                      base: nat, b: nat)
    requires base == 0 || 2 <= base <= 36
    requires forall k :: 0 <= k < |blanks| ==> blanks[k] in " \t"
    requires Terminated(rest) && Prefix(base, prefix, t + rest, b)
    requires sign == "+" || sign == "-" || (sign == "" && (prefix + (t + rest))[0] !in " \t+-")
    requires (forall k :: 0 <= k < |t| ==> IsDigit(t[k], b)) && !IsDigit(rest[0], b)
    ensures var s := blanks + sign + prefix + (t + rest);
      && RunEnd(s, HeadOf(s, base).start, HeadOf(s, base).base) == |blanks| + |sign| + |prefix| + |t|
      && Parsed(s, base) == Negated(sign == "-", Value(t, b))
  {
    hide Value, IsDigit, HeadOf, RunEnd, Prefix;
    var s := blanks + sign + prefix + (t + rest);
    var start := |blanks| + |sign| + |prefix|;
    InputHead(blanks, sign, prefix, t + rest, base, b);
    assert s[start..] == t + rest;
    DigitsRun(s, start, t, rest, b);
  }

  lemma {:induction false} DigitsRun(s: string, start: nat, t: string, rest: string, b: nat)
    requires start < |s| && Terminated(s) && Terminated(rest) && s[start..] == t + rest
    requires (forall k :: 0 <= k < |t| ==> IsDigit(t[k], b)) && !IsDigit(rest[0], b)
    ensures RunEnd(s, start, b) == start + |t| && s[start..start + |t|] == t
  {
    hide IsDigit;
    assert forall k :: 0 <= k < |s| - start ==> s[start + k] == (t + rest)[k];
    assert s[start + |t|] == rest[0];
    assert forall k :: 0 <= k < |t| ==> s[start + k] == t[k];
  }

  lemma {:induction false} InputHead(blanks: string, sign: string, prefix: string, body: string, base: nat, b: nat)
    requires forall k :: 0 <= k < |blanks| ==> blanks[k] in " \t"
    requires sign == "+" || sign == "-" || (sign == "" && |body| > 0 && (prefix + body)[0] !in " \t+-")
    requires Terminated(body) && Prefix(base, prefix, body, b)
    ensures Terminated(blanks + sign + prefix + body)
    ensures HeadOf(blanks + sign + prefix + body, base) == Head(|blanks| + |sign| + |prefix|, sign == "-", b)
  {
    var s := blanks + sign + prefix + body;
    var i, j := |blanks|, |blanks| + |sign|;
    assert forall k :: 0 <= k < i ==> s[k] == blanks[k];
    assert s[i] == (sign + prefix + body)[0] && s[j] == (prefix + body)[0];
    assert SkipBlanks(s, 0) == i;
    assert SignAt(s, i) == Head(j, sign == "-", 0);
    assert |prefix + body| > 1 ==> s[j + 1] == (prefix + body)[1];
  }

  // ---------- Printing, then parsing ----------

  // The parser finds only digits between the head and the end.
  lemma {:induction false} ReadsWhole(s: string, base: nat, h: Head)
    requires Terminated(s) && 2 <= base <= 16 && h.base == base && HeadOf(s, base) == h
    requires forall k :: h.start <= k < |s| - 1 ==> IsDigit(s[k], base)
    ensures Parsed(s, base) == Negated(h.neg, Value(s[h.start..|s| - 1], base))
  {
    assert !IsDigit('\0', base);
  }

  // After blanks and sign comes a digit, so there is no base prefix.
  lemma {:induction false} PlainHead(s: string, i: nat, j: nat, base: nat)
    requires Terminated(s) && 2 <= base <= 16 && i <= j < |s| && IsDigit(s[j], base)
    requires forall k :: 0 <= k < i ==> Blank(s[k])
    requires i == j || (j == i + 1 && s[i] == '-')
    requires j + 1 < |s| - 1 ==> IsDigit(s[j + 1], base)
    ensures HeadOf(s, base) == Head(j, i < j, base)
  {
    assert !IsDigit('\0', base) && !IsDigit('x', base) && !IsDigit('-', base) && !IsDigit('+', base);
    assert !Blank(s[i]) && SkipBlanks(s, 0) == i;
  }

  // Blanks, at most a minus sign, and digits.
  lemma {:induction false} ReadsNumber(blanks: string, neg: bool, t: string, base: nat)
    requires 2 <= base <= 16 && |t| > 0 && forall k :: 0 <= k < |t| ==> IsDigit(t[k], base)
    requires forall k :: 0 <= k < |blanks| ==> Blank(blanks[k])
    ensures Parsed(blanks + (if neg then ['-'] else []) + t + ['\0'], base) == Negated(neg, Value(t, base))
  {
    var lead := blanks + if neg then ['-'] else [];
    var s := lead + t + ['\0'];
    assert forall k :: 0 <= k < |t| ==> s[|lead| + k] == t[k];
    assert forall k :: 0 <= k < |lead| ==> s[k] == lead[k];
    PlainHead(s, |blanks|, |lead|, base);
    ReadsWhole(s, base, Head(|lead|, neg, base));
    assert s[|lead|..|s| - 1] == t;
  }

  // A minus sign and then no digit.
  lemma {:induction false} ReadsNothing(s: string, base: nat)
    requires Terminated(s) && 2 <= base <= 16 && |s| > 1 && s[0] == '-' && (s[1] == ' ' || s[1] == '-')
    ensures Parsed(s, base) == 0
  {
    assert SkipBlanks(s, 0) == 0;
    assert HeadOf(s, base) == Head(1, true, base);
    assert !IsDigit(s[1], base);
    assert s[1..RunEnd(s, 1, base)] == [];
  }

  // What survives of the padding, for a number v of the given width.
  predicate Readable(v: int, b: nat, width: int, padc: char)
    requires 2 <= b <= 16
  {
    width <= |Numeral(Magnitude(v), b)| || padc == '0' || (padc == ' ' && v >= 0) || v == 0
  }

  function Magnitude(v: int): nat {
    if v < 0 then -v else v
  }

  // strtol undoes printnum, in every base from 2 to 16, for every number, width
  // and pad character, exactly when the number fits a long and there is no
  // padding, or it is zeros, or it is blanks before a number without a sign, or
  // the number is zero.
  lemma {:induction false} RoundTrip(v: int, b: nat, width: int, padc: char)
    requires 2 <= b <= 16 && (padc == ' ' || padc == '0' || padc == '-')
    ensures Returned(Signed(v, b, width, padc) + ['\0'], b) == v <==> FitsLong(v) && Readable(v, b, width, padc)
  {
    hide Parsed, HeadOf, Value, Numeral, Wrap;
    var n := Magnitude(v);
    var d := Numeral(n, b);
    var fill := Fill(padc, width - |d|);
    var s := Signed(v, b, width, padc) + ['\0'];
    NumeralValue(n, b);
    if FitsLong(v) {
      WrapFits(v);
      if width <= |d| || padc == '0' {
        RoundTripPlain(v, b, width, padc);
      } else if v < 0 {
        assert s[0] == '-' && s[1] == fill[0];
        ReadsNothing(s, b);
        WrapFits(0);
      } else if padc == ' ' {
        ReadsNumber(fill, false, d, b);
        assert s == fill + [] + d + ['\0'];
      } else {
        RoundTripDashes(n, b, width);
        WrapFits(Negated(true, n));
      }
    }
  }

  // The first number too large for a long is read back with its sign changed.
  lemma {:induction false} RoundTripFailsPastLong()
    ensures Returned(Signed(0x8000_0000_0000_0000, 10, 0, ' ') + ['\0'], 10) == -0x8000_0000_0000_0000
  {
    hide Parsed, Numeral, Signed;
    RoundTripPlain(LONG_MAX + 1, 10, 0, ' ');
  }

  lemma {:induction false} ZeroPadded(n: nat, b: nat, width: int, padc: char)
    requires 2 <= b <= 16 && (padc == '0' || width <= |Numeral(n, b)|)
    ensures Padded(n, b, width, padc) == Fill('0', width - |Numeral(n, b)|) + Numeral(n, b)
  {
    hide Numeral;
  }

  lemma {:induction false} RoundTripPlain(v: int, b: nat, width: int, padc: char)
    requires 2 <= b <= 16
    requires padc == '0' || width <= |Numeral(Magnitude(v), b)|
    ensures Parsed(Signed(v, b, width, padc) + ['\0'], b) == v
  {
    hide Parsed, Value, Numeral, Fill, Padded, IsDigit;
    var n := Magnitude(v);
    var d := Numeral(n, b);
    NumeralValue(n, b);
    ZerosValue(width - |d|, d, b);
    ZeroPadded(n, b, width, padc);
    ReadsSigned(v, b, Fill('0', width - |d|) + d);
  }

  lemma {:induction false} ReadsSigned(v: int, b: nat, t: string)
    requires 2 <= b <= 16 && |t| > 0 && forall k :: 0 <= k < |t| ==> IsDigit(t[k], b)
    requires Value(t, b) == Magnitude(v)
    ensures Parsed((if v < 0 then ['-'] + t else t) + ['\0'], b) == v
  {
    hide Parsed, Value, IsDigit;
    ReadsNumber([], v < 0, t, b);
    assert [] + (if v < 0 then ['-'] else []) + t == if v < 0 then ['-'] + t else t;
  }

  // Padding with dashes reads as a sign, or as no number at all.
  lemma {:induction false} RoundTripDashes(n: nat, b: nat, width: int)
    requires 2 <= b <= 16 && width > |Numeral(n, b)|
    ensures Returned(Padded(n, b, width, '-') + ['\0'], b)
         == if width == |Numeral(n, b)| + 1 then Wrap(Negated(true, n)) else 0
  {
    hide Parsed, HeadOf, Value, Numeral, Wrap;
    var d := Numeral(n, b);
    var fill := Fill('-', width - |d|);
    var s := fill + d + ['\0'];
    if width == |d| + 1 {
      NumeralValue(n, b);
      ReadsNumber([], true, d, b);
      assert s == [] + ['-'] + d + ['\0'];
    } else {
      assert s[0] == '-' && s[1] == '-';
      ReadsNothing(s, b);
      WrapFits(0);
    }
  }

  // A conversion printed into a buffer that holds it, read back by strtol in
  // the same base.
  method PrintThenParse(conv: char, word: nat, lflag: nat, width: int, padc: char, size: nat)
    returns (r: int)
    requires word < LONG_RANGE && conv in "duox" && (padc == ' ' || padc == '0' || padc == '-')
    requires size > |Signed(Shown(conv, word, lflag), BaseOf(conv), width, padc)|
    ensures var v := Shown(conv, word, lflag);
      r == v <==> FitsLong(v) && Readable(v, BaseOf(conv), width, padc)
  {
    hide Signed, Shown, Returned, Readable;
    ghost var v := Shown(conv, word, lflag);
    var out := new PrintBuffer(size);
    out.PrintConversion(conv, word, lflag, width, padc);
    assert out.emitted == Signed(v, BaseOf(conv), width, padc);
    var count := out.Finish();
    var s := out.buf[..out.pos + 1];
    assert s == Signed(v, BaseOf(conv), width, padc) + ['\0'];
    RoundTrip(v, BaseOf(conv), width, padc);
    var end;
    r, end := Strtol(s, BaseOf(conv));
  }
}
