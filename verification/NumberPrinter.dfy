/** Printing integers, digit by digit, with a 64-by-32-bit division made of two 32-bit divisions. */
module NumberPrinter {
  import opened Bitwise
  import opened Console

  datatype Length = ShortShort | Short | Default | Long | LongLong

  /** The DIV instruction: quotient and remainder of EDX:EAX. It faults unless the quotient fits in 32 bits. */
  function Div(edx: uint32, eax: uint32, ecx: uint32): (r: (uint32, uint32))
    requires ecx != 0 && (edx * 0x1_0000_0000 + eax) / ecx < 0x1_0000_0000
  {
    ((edx * 0x1_0000_0000 + eax) / ecx, (edx * 0x1_0000_0000 + eax) % ecx)
  }

  /** With the high word smaller than the divisor the instruction does not fault. */
  lemma NoFault(edx: uint32, eax: uint32, ecx: uint32)
    requires edx < ecx
    ensures (edx * 0x1_0000_0000 + eax) / ecx < 0x1_0000_0000
  {
    var n := edx * 0x1_0000_0000 + eax;
    if n / ecx >= 0x1_0000_0000 {
      MulGrows(ecx, 0x1_0000_0000, n / ecx);
    }
  }

  lemma MulGrows(p: nat, a: nat, b: nat)
    requires a <= b
    ensures p * a <= p * b
  {
    assert p * b == p * a + p * (b - a);
  }

  /** Dividing the high word first and its remainder with the low word next gives the exact quotient. */
  lemma TwoStepDivision(high: uint32, low: uint32, divisor: uint32)
    requires divisor != 0
    ensures var n, rest := high * 0x1_0000_0000 + low, (high % divisor) * 0x1_0000_0000 + low;
            && n / divisor == (high / divisor) * 0x1_0000_0000 + rest / divisor
            && n % divisor == rest % divisor
  {
    var qh, rh := high / divisor, high % divisor;
    var rest := rh * 0x1_0000_0000 + low;
    var ql, r := rest / divisor, rest % divisor;
    assert high == divisor * qh + rh && rest == divisor * ql + r;
    assert divisor * (qh * 0x1_0000_0000 + ql) == divisor * qh * 0x1_0000_0000 + divisor * ql;
    DivUnique(high * 0x1_0000_0000 + low, divisor, qh * 0x1_0000_0000 + ql, r);
  }

  /** `_x86_div64_32` */
  method Div64By32(dividend: uint64, divisor: uint32) returns (quotient: uint64, remainder: uint32)
    requires divisor != 0
    ensures quotient == dividend / divisor && remainder == dividend % divisor
  {
    var high, low := dividend / 0x1_0000_0000, dividend % 0x1_0000_0000;
    SmallerQuotient(high, divisor);
    var upper := Div(0, high, divisor);
    NoFault(upper.1, low, divisor);
    var lower := Div(upper.1, low, divisor);
    TwoStepDivision(high, low, divisor);
    quotient, remainder := upper.0 * 0x1_0000_0000 + lower.0, lower.1;
  }

  lemma SmallerQuotient(n: nat, p: nat)
    requires p > 0
    ensures n / p <= n && (p >= 2 && n > 0 ==> n / p < n) && (n >= p ==> n / p >= 1)
  {
    var q := n / p;
    assert n == p * q + n % p;
    MulGrows(q, 1, p);
    if p >= 2 {
      MulGrows(q, 2, p);
    }
  }

  const HEX_CHARS: string := "0123456789abcdef"

  predicate IsBase(base: nat) { base == 8 || base == 10 || base == 16 }

  /** The digits of n, the most significant one first. */
  function Digits(n: nat, base: nat): (s: string)
    requires IsBase(base)
    ensures s != []
    decreases n
  {
    SmallerQuotient(n, base);
    if n < base then [HEX_CHARS[n]] else Digits(n / base, base) + [HEX_CHARS[n % base]]
  }

  function DigitValue(c: char): int {
    if '0' <= c <= '9' then c as int - '0' as int
    else if 'a' <= c <= 'f' then c as int - 'a' as int + 10
    else -1
  }

  /** The value of a digit string. */
  function Value(s: string, base: nat): int {
    if s == [] then 0 else Value(s[..|s| - 1], base) * base + DigitValue(s[|s| - 1])
  }

  /** The value of a digit string with an optional minus sign. */
  function ReadNumber(s: string, base: nat): int {
    if s != [] && s[0] == '-' then -Value(s[1..], base) else Value(s, base)
  }

  lemma HexDigit(d: nat)
    requires d < 16
    ensures DigitValue(HEX_CHARS[d]) == d && HEX_CHARS[d] != '-' && (HEX_CHARS[d] == '0' ==> d == 0)
  {
  }

  lemma ValueOf(s: string, c: char, base: nat)
    ensures Value(s + [c], base) == Value(s, base) * base + DigitValue(c)
  {
    assert (s + [c])[..|s|] == s;
  }

  lemma {:induction false} DigitsReadBack(n: nat, base: nat)
    requires IsBase(base)
    ensures Value(Digits(n, base), base) == n && Digits(n, base)[0] != '-'
    ensures Digits(n, base)[0] == '0' ==> n == 0
    decreases n
  {
    hide Value, DigitValue;
    SmallerQuotient(n, base);
    if n < base {
      HexDigit(n);
      ValueOf([], HEX_CHARS[n], base);
      NoDigits(base);
      assert [] + [HEX_CHARS[n]] == [HEX_CHARS[n]];
    } else {
      DigitsReadBack(n / base, base);
      HexDigit(n % base);
      ValueOf(Digits(n / base, base), HEX_CHARS[n % base], base);
    }
  }

  lemma NoDigits(base: nat)
    ensures Value([], base) == 0
  {
  }

  /** Below base to the k there are at most k digits. */
  lemma {:induction false} DigitsLength(n: nat, base: nat, k: nat)
    requires IsBase(base) && k > 0 && n < Power(base, k)
    ensures |Digits(n, base)| <= k
    decreases k
  {
    SmallerQuotient(n, base);
    if n >= base {
      assert k > 1;
      assert n / base < Power(base, k - 1);
      DigitsLength(n / base, base, k - 1);
    }
  }

  function Power(b: nat, k: nat): nat {
    if k == 0 then 1 else b * Power(b, k - 1)
  }

  lemma AtMost22(n: uint64, base: nat)
    requires IsBase(base)
    ensures |Digits(n, base)| <= 22
  {
    assert Power(8, 4) == 4096;
    assert Power(8, 8) == 0x100_0000;
    assert Power(8, 16) == 0x1_0000_0000_0000;
    assert Power(8, 22) == 0x4_0000_0000_0000_0000;
    MorePower(8, base, 22);
    DigitsLength(n, base, 22);
  }

  lemma {:induction false} MorePower(a: nat, b: nat, k: nat)
    requires a <= b
    ensures Power(a, k) <= Power(b, k)
  {
    if k > 0 {
      MorePower(a, b, k - 1);
      MulGrows(a, Power(a, k - 1), Power(b, k - 1));
      MulGrows(Power(b, k - 1), a, b);
    }
  }

  predicate Is64(length: Length) { length == LongLong }

  /** The values of an argument of this length and signedness; int and long are 32 bits wide. */
  predicate InType(value: int, length: Length, sign: bool) {
    if Is64(length) then (if sign then -0x8000_0000_0000_0000 <= value < 0x8000_0000_0000_0000
                          else 0 <= value < 0x1_0000_0000_0000_0000)
    else (if sign then -0x8000_0000 <= value < 0x8000_0000 else 0 <= value < 0x1_0000_0000)
  }

  /** `n = -n` in the argument's own type: the smallest value has no negation and stays. */
  function Negated(value: int, length: Length): int {
    if value == (if Is64(length) then -0x8000_0000_0000_0000 else -0x8000_0000) then value else -value
  }

  /** `(unsigned long long) n` */
  function ToUnsigned(n: int): uint64 { n % 0x1_0000_0000_0000_0000 }

  /** The unsigned number whose digits are printed. */
  function Magnitude(value: int, length: Length, sign: bool): uint64 {
    ToUnsigned(if sign && value < 0 then Negated(value, length) else value)
  }

  function Printed(value: int, length: Length, sign: bool, base: nat): string
    requires IsBase(base)
  {
    (if sign && value < 0 then "-" else "") + Digits(Magnitude(value, length, sign), base)
  }

  /** What is printed reads back as the argument, except for the smallest 32-bit integer. It starts with a minus sign
      iff the argument is negative. */
  lemma PrintedReadsBack(value: int, length: Length, sign: bool, base: nat)
    requires IsBase(base) && InType(value, length, sign)
    ensures ReadNumber(Printed(value, length, sign, base), base) == value
       <==> !(sign && length != LongLong && value == -0x8000_0000)
    ensures Printed(value, length, sign, base) != [] && (Printed(value, length, sign, base)[0] == '-' <==> value < 0)
    ensures |Printed(value, length, sign, base)| <= 23
  {
    hide Digits, Value, Magnitude;
    var m := Magnitude(value, length, sign);
    DigitsReadBack(m, base);
    AtMost22(m, base);
    MagnitudeIs(value, length, sign);
    var s := Printed(value, length, sign, base);
    if sign && value < 0 {
      assert s[1..] == Digits(m, base);
    } else {
      assert s == Digits(m, base);
    }
  }

  /** The digits are those of the usual notation, the letters in lower case. */
  lemma OneDigit(value: nat, length: Length, sign: bool, base: nat)
    requires IsBase(base) && value < base
    ensures Printed(value, length, sign, base) == ["0123456789abcdef"[value]]
  {
    MagnitudeIs(value, length, sign);
    hide Magnitude;
    assert Digits(value, base) == [HEX_CHARS[value]];
  }

  lemma MagnitudeIs(value: int, length: Length, sign: bool)
    requires InType(value, length, sign)
    ensures value >= 0 ==> Magnitude(value, length, sign) == value
    ensures value < 0 ==> (Magnitude(value, length, sign) == -value <==> Is64(length) || value != -0x8000_0000)
  {
  }

  /** The last digit is the remainder; the others are those of the quotient, if there are any left. */
  lemma DigitsStep(n: nat, base: nat)
    requires IsBase(base)
    ensures n / base >= 0 && n % base < 16 && (n / base == 0 || n / base < n)
    ensures Digits(n, base) == (if n / base > 0 then Digits(n / base, base) else []) + [HEX_CHARS[n % base]]
  {
    SmallerQuotient(n, base);
    if n < base {
      DivUnique(n, base, 0, n);
    }
  }

  /** Takes the last digit off a number. */
  method LastDigit(n: uint64, base: nat) returns (rest: uint64, digit: char)
    requires IsBase(base)
    ensures rest == 0 || rest < n
    ensures Digits(n, base) == (if rest > 0 then Digits(rest, base) else []) + [digit]
  {
    hide Digits;
    DigitsStep(n, base);
    var rem;
    rest, rem := Div64By32(n, base);
    digit := HEX_CHARS[rem];
  }

  lemma DigitMoved(front: string, digit: char, written: string)
    ensures (front + [digit]) + Backwards(written) == front + Backwards(written + [digit])
  {
    hide Backwards;
    BackwardsStep(written, digit);
  }

  /** The digits in a 32-character buffer, the last one first. */
  method CollectDigits(number: uint64, base: nat) returns (buffer: array<char>, pos: nat)
    requires IsBase(base)
    ensures fresh(buffer) && buffer.Length == 32 && pos <= 22 && Backwards(buffer[..pos]) == Digits(number, base)
  {
    hide Digits, Backwards, IsBase;
    buffer, pos := new char[32](_ => NUL), 0;
    AtMost22(number, base);
    assert buffer[..0] == [];
    BackwardsLength([]);
    var rest, more := number, true;
    while more
      invariant pos <= |Digits(number, base)| && pos == |Backwards(buffer[..pos])|
      invariant Digits(number, base) == (if more then Digits(rest, base) else []) + Backwards(buffer[..pos])
      decreases more, rest
    {
      ghost var written := buffer[..pos];
      var digit;
      rest, digit := LastDigit(rest, base);
      buffer[pos] := digit;
      assert buffer[..pos + 1] == written + [digit];
      DigitMoved(if rest > 0 then Digits(rest, base) else [], digit, written);
      BackwardsLength(buffer[..pos + 1]);
      pos := pos + 1;
      more := rest > 0;
    }
  }

  /** Puts the first pos characters of a buffer on the screen, the last one first. */
  method PutBackwards(screen: Screen, buffer: array<char>, count: nat)
    requires screen.Valid() && count <= buffer.Length
    modifies screen, screen.vga
    ensures screen.Valid() && screen.log == old(screen.log).PutAll(Backwards(buffer[..count]))
  {
    ghost var text := Backwards(buffer[..count]);
    BackwardsLength(buffer[..count]);
    var pos: int := count - 1;
    while pos >= 0
      invariant -1 <= pos < count && screen.Valid()
      invariant screen.log == old(screen.log).PutAll(text[..count - 1 - pos])
      decreases pos
    {
      BackwardsAt(buffer[..count], count - 1 - pos);
      assert text[..count - pos][..count - 1 - pos] == text[..count - 1 - pos];
      screen.Putc(buffer[pos]);
      pos := pos - 1;
    }
    assert text[..count] == text;
  }

  /** Collects the digits and the sign, then prints them backwards. */
  method PrintfNumber(screen: Screen, value: int, length: Length, sign: bool, base: nat)
    requires screen.Valid() && IsBase(base) && InType(value, length, sign)
    modifies screen, screen.vga
    ensures screen.Valid() && screen.log == old(screen.log).PutAll(Printed(value, length, sign, base))
  {
    hide Digits, ToUnsigned, Negated;
    var n, numberSign := value, 1;
    if sign && n < 0 {
      n := Negated(n, length);
      numberSign := -1;
    }
    var buffer, pos := CollectDigits(ToUnsigned(n), base);
    if sign && numberSign < 0 {
      ghost var written := buffer[..pos];
      buffer[pos] := '-';
      pos := pos + 1;
      assert buffer[..pos] == written + ['-'];
      BackwardsStep(written, '-');
    }
    assert Printed(value, length, sign, base) == Backwards(buffer[..pos]);
    PutBackwards(screen, buffer, pos);
  }

  function Backwards(s: string): string {
    if s == [] then [] else [s[|s| - 1]] + Backwards(s[..|s| - 1])
  }

  lemma BackwardsStep(s: string, c: char)
    ensures Backwards(s + [c]) == [c] + Backwards(s)
  {
    assert (s + [c])[..|s|] == s;
  }

  lemma {:induction false} BackwardsLength(s: string)
    ensures |Backwards(s)| == |s|
  {
    if s != [] {
      BackwardsLength(s[..|s| - 1]);
    }
  }

  lemma {:induction false} BackwardsAt(s: string, k: nat)
    requires k < |s|
    ensures |Backwards(s)| == |s| && Backwards(s)[k] == s[|s| - 1 - k]
    decreases |s|
  {
    BackwardsLength(s);
    if k > 0 {
      BackwardsAt(s[..|s| - 1], k - 1);
    }
  }
}
