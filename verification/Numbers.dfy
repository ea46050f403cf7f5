/** Numbers and addresses as text: the formatter's digits, the parser that reads them back, and
    the tokenizer that cuts an address into its numbers. Text in memory ends with a zero. */
module Numbers {

  const D_STR_SIZE: nat := 32
  const NUL: char := 0 as char

  // ----- digits

  function DigitChar(d: nat): char
    requires d < 16
  {
    if d <= 9 then '0' + d as char else 'A' + (d - 10) as char
  }

  /** What the parser takes a character for, in 16 bits. */
  function DigitValue(c: char): nat {
    (if c <= '9' then c as int - '0' as int
     else if c >= 'a' then 0xA + c as int - 'a' as int
     else 0xA + c as int - 'A' as int) % 0x1_0000
  }

  lemma DigitBack(d: nat)
    requires d < 16
    ensures DigitValue(DigitChar(d)) == d && DigitChar(d) != NUL && DigitChar(d) != '.' && DigitChar(d) != 'x'
  {
  }

  function Most(v: nat, base: nat): (q: nat)
    requires 0 < base
  {
    v / base
  }

  function Last(v: nat, base: nat): (d: nat)
    requires 0 < base
  {
    v % base
  }

  lemma Parts(v: nat, base: nat)
    requires 0 < base
    ensures v == Most(v, base) * base + Last(v, base) && Last(v, base) < base
    ensures Most(v, base) <= v && (base > 1 && v > 0 ==> Most(v, base) < v)
  {
    DivMod(v, base);
    hide Most, Last;
    var q := Most(v, base);
    Times(1, base, q);
    if base > 1 { Times(2, base, q); }
  }

  lemma DivMod(v: nat, base: nat)
    requires 0 < base
    ensures v == Most(v, base) * base + Last(v, base) && Last(v, base) < base
  {
  }

  /** The digits of v, at least left of them. */
  function Numeral(v: nat, base: nat, left: nat): (s: string)
    requires 2 <= base <= 16
    ensures s != ""
    decreases v + left
  {
    Parts(v, base);
    (if Most(v, base) != 0 || left > 1 then Numeral(Most(v, base), base, if left > 0 then left - 1 else 0) else "")
    + [DigitChar(Last(v, base))]
  }

  function Power(base: nat, k: nat): nat {
    if k == 0 then 1 else base * Power(base, k - 1)
  }

  /** No more digits than asked for, or than the number has. */
  lemma {:induction false} NumeralLength(v: nat, base: nat, left: nat, k: nat)
    requires 2 <= base <= 16 && 0 < k && v < Power(base, k)
    ensures left <= |Numeral(v, base, left)| <= if left > k then left else k
    decreases k + left
  {
    hide Most, Last;
    Parts(v, base);
    if Most(v, base) != 0 || left > 1 {
      if k > 1 {
        Quotient(v, base, Power(base, k - 1));
        NumeralLength(Most(v, base), base, if left > 0 then left - 1 else 0, k - 1);
      } else {
        Quotient(v, base, 1);
        NumeralLength(Most(v, base), base, left - 1, 1);
      }
    }
  }

  lemma Quotient(v: nat, base: nat, p: nat)
    requires 0 < base && v < base * p
    ensures Most(v, base) < p
  {
    hide Most, Last;
    Parts(v, base);
    if Most(v, base) >= p {
      Times(p, Most(v, base), base);
    }
  }

  lemma Times(x: nat, y: nat, z: nat)
    requires x <= y
    ensures x * z <= y * z && z * x <= z * y
  {
    assert (y - x) * z >= 0;
  }

  /** The parser's value of a digit string, after a value so far. */
  function Parsed(s: string, base: nat, value: nat): nat {
    if s == "" then value else (Parsed(s[..|s| - 1], base, value) * base + DigitValue(s[|s| - 1])) % 0x1_0000
  }

  /** Reading the digits of a number gives the number, as far as 16 bits hold it. */
  lemma {:induction false} NumeralParsed(v: nat, base: nat, left: nat)
    requires 2 <= base <= 16
    ensures Parsed(Numeral(v, base, left), base, 0) == v % 0x1_0000
    decreases v + left
  {
    hide Most, Last, DigitChar, DigitValue;
    Parts(v, base);
    var s := Numeral(v, base, left);
    var init := s[..|s| - 1];
    assert Parsed(s, base, 0) == (Parsed(init, base, 0) * base + DigitValue(s[|s| - 1])) % 0x1_0000;
    DigitBack(Last(v, base));
    if Most(v, base) != 0 || left > 1 {
      var left' := if left > 0 then left - 1 else 0;
      assert init == Numeral(Most(v, base), base, left');
      NumeralParsed(Most(v, base), base, left');
      ModStep(Most(v, base), base, Last(v, base));
    } else {
      assert init == "";
    }
  }

  lemma ModStep(q: nat, base: nat, d: nat)
    ensures ((q % 0x1_0000) * base + d) % 0x1_0000 == (q * base + d) % 0x1_0000
  {
    var k := q / 0x1_0000;
    assert q == 0x1_0000 * k + q % 0x1_0000;
    assert q * base == 0x1_0000 * (k * base) + (q % 0x1_0000) * base;
    ModShift((q % 0x1_0000) * base + d, k * base);
  }

  lemma ModShift(x: int, k: int)
    ensures (x + 0x1_0000 * k) % 0x1_0000 == x % 0x1_0000
  {
  }

  lemma {:induction false} NumeralPlain(v: nat, base: nat, left: nat)
    requires 2 <= base <= 16
    ensures forall k :: 0 <= k < |Numeral(v, base, left)| ==>
              var c := Numeral(v, base, left)[k]; c != NUL && c != '.' && c != 'x'
    decreases v + left
  {
    hide Most, Last, DigitChar;
    Parts(v, base);
    DigitBack(Last(v, base));
    if Most(v, base) != 0 || left > 1 {
      NumeralPlain(Most(v, base), base, if left > 0 then left - 1 else 0);
    }
  }

  /** What stou makes of a text. */
  function Stou(s: string): nat {
    if |s| >= 2 && s[0] == '0' && s[1] == 'x' then Parsed(s[2..], 16, 0) else Parsed(s, 10, 0)
  }

  /** The text of a conversion, with its sign or prefix. */
  function Converted(value: nat, hex: bool, minus: bool, n_digits: nat): string {
    (if hex then "0x" else if minus then "-" else "") + Numeral(value, if hex then 16 else 10, n_digits)
  }

  /** The parser undoes the formatter for every number without a sign, base and width. */
  lemma ConvertedBack(v: nat, hex: bool, n_digits: nat)
    ensures Stou(Converted(v, hex, false, n_digits)) == v % 0x1_0000
  {
    var base := if hex then 16 else 10;
    var s := Numeral(v, base, n_digits);
    NumeralParsed(v, base, n_digits);
    NumeralPlain(v, base, n_digits);
    if hex {
      assert ("0x" + s)[2..] == s;
    } else {
      assert "" + s == s;
    }
  }

  // ----- signed numbers

  /** The magnitude that %d prints behind the sign: 16-bit negation, then widened to a long. */
  function Magnitude(w: nat): nat
    requires w < 0x1_0000
  {
    if w < 0x8000 then w else if w == 0x8000 then 0xFFFF8000 else 0x1_0000 - w
  }

  /** The number a word stands for is what %d shows if and only if it is not the least. */
  lemma SignedShown(w: nat)
    requires w < 0x1_0000
    ensures (if w < 0x8000 then Magnitude(w) else 0 - Magnitude(w)) == (if w < 0x8000 then w else w - 0x1_0000)
            <==> w != 0x8000
  {
  }

  // ----- the formatter

  function Digit(c: char): bool { '0' <= c <= '9' }

  /** The width in front of a conversion letter, after a width so far. */
  function Width(f: string, n: nat): nat {
    if f == "" || !Digit(f[0]) then n else Width(f[1..], (n * 10 + f[0] as int - '0' as int) % 0x1_0000)
  }

  function Letter(f: string): (r: string)
    ensures |r| <= |f|
  {
    if f == "" || !Digit(f[0]) then f else Letter(f[1..])
  }

  function Long(args: seq<nat>): nat
    requires |args| >= 2
  {
    args[0] + 0x1_0000 * args[1]
  }

  /** The arguments are words, and enough; the format asks for numbers only, none wider than the
      digit buffer takes. */
  predicate Formattable(f: string, args: seq<nat>)
    decreases |f|
  {
    if f == "" then true
    else if f[0] != '%' then f[0] != NUL && Formattable(f[1..], args)
    else
      var n, rest := Width(f[1..], 0), Letter(f[1..]);
      args != [] && args[0] < 0x1_0000 && n < 30 &&
      if rest == "" then true
      else if rest[0] == 'U' || rest[0] == 'X' then
        |args| >= 2 && args[1] < 0x1_0000 && Formattable(rest[1..], args[2..])
      else if rest[0] == 'd' || rest[0] == 'u' || rest[0] == 'x' then Formattable(rest[1..], args[1..])
      else rest[0] != 's' && rest[0] != 'c' && Formattable(rest, args[1..])
  }

  /** What the formatter puts out. */
  function Render(f: string, args: seq<nat>): string
    requires Formattable(f, args)
    decreases |f|
  {
    if f == "" then ""
    else if f[0] != '%' then [f[0]] + Render(f[1..], args)
    else
      var n, rest := Width(f[1..], 0), Letter(f[1..]);
      if rest == "" then ""
      else if rest[0] == 'd' then
        Converted(Magnitude(args[0]), false, args[0] >= 0x8000, n) + Render(rest[1..], args[1..])
      else if rest[0] == 'u' then Converted(args[0], false, false, n) + Render(rest[1..], args[1..])
      else if rest[0] == 'x' then
        Converted(args[0], true, false, if n != 0 then n else 4) + Render(rest[1..], args[1..])
      else if rest[0] == 'U' then Converted(Long(args), false, false, n) + Render(rest[1..], args[2..])
      else if rest[0] == 'X' then
        Converted(Long(args), true, false, if n != 0 then n else 8) + Render(rest[1..], args[2..])
      else Render(rest, args[1..])
  }

  // ----- what the conversions show

  /** The digit that a character is written for, or 16. */
  function Written(c: char): nat {
    if '0' <= c <= '9' then c as int - '0' as int else if 'A' <= c <= 'F' then c as int - 'A' as int + 10 else 16
  }

  /** The number that digits are written for, of any size. */
  function Value(s: string, base: nat): nat {
    if s == "" then 0 else Value(s[..|s| - 1], base) * base + Written(s[|s| - 1])
  }

  /** A number in digits: at least so many, with zeros in front only to get there. */
  predicate Writes(s: string, base: nat, left: nat, v: nat) {
    && Value(s, base) == v && (forall k :: 0 <= k < |s| ==> Written(s[k]) < base)
    && |s| >= 1 && |s| >= left && (|s| > 1 && |s| > left ==> s[0] != '0')
  }

  lemma WrittenBack(d: nat)
    requires d < 16
    ensures Written(DigitChar(d)) == d && (DigitChar(d) == '0' <==> d == 0)
  {
  }

  lemma WritesMore(s: string, init: string, base: nat, left: nat, v: nat)
    requires s != "" && init == s[..|s| - 1] && Written(s[|s| - 1]) < base
    requires if init == "" then v == 0 && left <= 1 else Writes(init, base, if left > 0 then left - 1 else 0, v)
    requires init != "" && v != 0 && left <= 2 ==> init[0] != '0'
    requires init != "" ==> v != 0 || left > 1
    ensures Writes(s, base, left, v * base + Written(s[|s| - 1]))
  {
    hide Written;
    if init == "" { assert Value(init, base) == 0; }
    assert forall k :: 0 <= k < |init| ==> init[k] == s[k];
  }

  lemma {:induction false} NumeralWrites(v: nat, base: nat, left: nat)
    requires 2 <= base <= 16
    ensures Writes(Numeral(v, base, left), base, left, v)
    ensures v != 0 && left <= 1 ==> Numeral(v, base, left)[0] != '0'
    decreases v + left
  {
    hide Most, Last, DigitChar, Written, Writes;
    Parts(v, base);
    var s := Numeral(v, base, left);
    var init := s[..|s| - 1];
    WrittenBack(Last(v, base));
    if Most(v, base) != 0 || left > 1 {
      var left' := if left > 0 then left - 1 else 0;
      assert init == Numeral(Most(v, base), base, left');
      NumeralWrites(Most(v, base), base, left');
    } else {
      assert init == "";
    }
    WritesMore(s, init, base, left, Most(v, base));
  }

  lemma {:induction false} ParsedFront(s: string, value: nat)
    requires s != ""
    ensures Parsed(s, 10, value) == Parsed(s[1..], 10, (value * 10 + DigitValue(s[0])) % 0x1_0000)
  {
    hide DigitValue;
    if |s| > 1 {
      ParsedFront(s[..|s| - 1], value);
      assert s[..|s| - 1][1..] == s[1..][..|s| - 2];
    } else {
      assert s[..0] == "" && s[1..] == "";
    }
  }

  /** The width is the number that stands between the percent sign and the letter. */
  lemma {:induction false} WidthRead(s: string, t: string, n: nat)
    requires n < 0x1_0000 && t != "" && !Digit(t[0]) && forall k :: 0 <= k < |s| ==> Digit(s[k])
    ensures Width(s + t, n) == Parsed(s, 10, n) && Letter(s + t) == t
  {
    if s == "" {
      assert s + t == t;
    } else {
      var n' := (n * 10 + DigitValue(s[0])) % 0x1_0000;
      FirstDigit(s, t, n);
      ParsedFront(s, n);
      hide DigitValue, Width, Letter, Parsed;
      WidthRead(s[1..], t, n');
    }
  }

  lemma FirstDigit(s: string, t: string, n: nat)
    requires s != "" && Digit(s[0])
    ensures Width(s + t, n) == Width(s[1..] + t, (n * 10 + DigitValue(s[0])) % 0x1_0000)
    ensures Letter(s + t) == Letter(s[1..] + t)
  {
    assert (s + t)[1..] == s[1..] + t;
  }

  /** A conversion: percent sign, width, letter. */
  function Conversion(width: string, letter: char): string { "%" + width + [letter] }

  predicate WidthOk(width: string) {
    (forall k :: 0 <= k < |width| ==> Digit(width[k])) && Parsed(width, 10, 0) < 30
  }

  lemma ConversionRead(width: string, letter: char)
    requires WidthOk(width) && !Digit(letter)
    ensures var f := Conversion(width, letter);
            f[0] == '%' && Width(f[1..], 0) == Parsed(width, 10, 0) && Letter(f[1..]) == [letter]
  {
    WidthRead(width, [letter], 0);
    assert Conversion(width, letter)[1..] == width + [letter];
  }

  /** Two words in the order in which the compiler puts a long on the stack, low word first, are
      shown as the long: in decimal, or in hexadecimal with at least eight digits. */
  lemma LongShown(v: nat, width: string)
    requires v < 0x1_0000_0000 && WidthOk(width)
    ensures var n, args := Parsed(width, 10, 0), [v % 0x1_0000, v / 0x1_0000];
            && Formattable(Conversion(width, 'U'), args) && Formattable(Conversion(width, 'X'), args)
            && Writes(Render(Conversion(width, 'U'), args), 10, n, v)
            && var x := Render(Conversion(width, 'X'), args);
               |x| > 2 && x[..2] == "0x" && Writes(x[2..], 16, if n != 0 then n else 8, v)
  {
    hide Numeral, Writes, Width, Letter;
    var n, args := Parsed(width, 10, 0), [v % 0x1_0000, v / 0x1_0000];
    ConversionRead(width, 'U');
    ConversionRead(width, 'X');
    var m := if n != 0 then n else 8;
    NumeralWrites(v, 10, n);
    NumeralWrites(v, 16, m);
    assert Long(args) == v;
    assert Render(Conversion(width, 'U'), args) == Numeral(v, 10, n);
    assert Render(Conversion(width, 'X'), args) == "0x" + Numeral(v, 16, m);
  }

  /** A word is shown as an unsigned number in decimal, in hexadecimal with at least four digits, or
      as a signed number with its sign in front; the least signed number only is shown as another. */
  lemma WordShown(w: nat, width: string)
    requires w < 0x1_0000 && WidthOk(width)
    ensures var n := Parsed(width, 10, 0);
            && Formattable(Conversion(width, 'u'), [w]) && Formattable(Conversion(width, 'x'), [w])
            && Formattable(Conversion(width, 'd'), [w])
            && Writes(Render(Conversion(width, 'u'), [w]), 10, n, w)
            && (var x := Render(Conversion(width, 'x'), [w]);
                |x| > 2 && x[..2] == "0x" && Writes(x[2..], 16, if n != 0 then n else 4, w))
            && var d := Render(Conversion(width, 'd'), [w]);
               if w < 0x8000 then Writes(d, 10, n, w)
               else d != "" && d[0] == '-' && Writes(d[1..], 10, n, if w == 0x8000 then 0xFFFF8000 else 0x1_0000 - w)
  {
    hide Numeral, Writes, Width, Letter;
    var n := Parsed(width, 10, 0);
    ConversionRead(width, 'u');
    ConversionRead(width, 'x');
    ConversionRead(width, 'd');
    var m := if n != 0 then n else 4;
    NumeralWrites(w, 10, n);
    NumeralWrites(w, 16, m);
    NumeralWrites(Magnitude(w), 10, n);
    assert Render(Conversion(width, 'u'), [w]) == Numeral(w, 10, n);
    assert Render(Conversion(width, 'x'), [w]) == "0x" + Numeral(w, 16, m);
    assert Render(Conversion(width, 'd'), [w]) == (if w < 0x8000 then "" else "-") + Numeral(Magnitude(w), 10, n);
  }

  lemma Powers()
    ensures Power(10, 10) >= 0x1_0000_0000 && Power(16, 8) == 0x1_0000_0000
  {
    assert Power(10, 2) == 100 && Power(10, 4) == 10000 && Power(10, 6) == 1000000 && Power(10, 8) == 100000000;
    assert Power(16, 2) == 256 && Power(16, 4) == 65536 && Power(16, 6) == 16777216;
  }

  /** The digits of a number go into the digit buffer from the end, before the final zero. */
  method PutDigits(digit: array<char>, value0: nat, base: nat, n_digits: nat) returns (n: nat)
    requires digit.Length == D_STR_SIZE && digit[D_STR_SIZE - 1] == NUL
    requires value0 < 0x1_0000_0000 && (base == 10 || base == 16) && n_digits < 30
    modifies digit
    ensures n == |Numeral(value0, base, n_digits)| <= 29 && digit[D_STR_SIZE - 1] == NUL
    ensures digit[D_STR_SIZE - 1 - n..D_STR_SIZE - 1] == Numeral(value0, base, n_digits)
  {
    hide Most, Last, DigitChar, Power, Numeral;
    ghost var goal, left: nat := Numeral(value0, base, n_digits), n_digits;
    Powers();
    NumeralLength(value0, base, n_digits, if base == 10 then 10 else 8);
    NumeralStep(value0, base, n_digits);
    ghost var head := goal;
    var value, more := value0, true;
    n := 0;
    while more
      invariant n + |head| == |goal| <= 29 && digit[D_STR_SIZE - 1] == NUL
      invariant forall k :: D_STR_SIZE - 1 - n <= k < D_STR_SIZE - 1 ==> digit[k] == goal[|goal| + k + 1 - D_STR_SIZE]
      invariant forall k :: 0 <= k < |head| ==> head[k] == goal[k]
      invariant left == if n_digits > n then n_digits - n else 0
      invariant if more then head == Numeral(value, base, left) && head != "" else head == ""
      decreases |head|, more
    {
      Parts(value, base);
      NumeralStep(value, base, left);
      var d := Last(value, base);
      n := n + 1;
      digit[D_STR_SIZE - 1 - n] := DigitChar(d);
      value := Most(value, base);
      head := head[..|head| - 1];
      left := if left > 0 then left - 1 else 0;
      more := (value != 0 && n < D_STR_SIZE - 1) || n < n_digits;
    }
  }

  lemma NumeralStep(v: nat, base: nat, left: nat)
    requires 2 <= base <= 16
    ensures var s, left' := Numeral(v, base, left), if left > 0 then left - 1 else 0;
            && s != "" && Last(v, base) < 16 && s[|s| - 1] == DigitChar(Last(v, base))
            && s[..|s| - 1] == (if Most(v, base) != 0 || left > 1 then Numeral(Most(v, base), base, left') else "")
            && (Most(v, base) != 0 || left > 1 ==> s[..|s| - 1] != "")
  {
    hide Most, Last, DigitChar;
    Parts(v, base);
  }

  // ----- text in memory

  /** The first size characters of the buffer are the text and zeros. */
  ghost predicate Filled(str: seq<char>, size: nat, text: string) {
    && |text| < size <= |str| && (forall k :: 0 <= k < |text| ==> text[k] != NUL)
    && forall k :: 0 <= k < size ==> str[k] == if k < |text| then text[k] else NUL
  }

  method StrLen(str: array<char>, ghost size: nat, ghost text: string) returns (i: nat)
    requires Filled(str[..], size, text)
    ensures i == |text|
  {
    i := 0;
    while str[i] != NUL
      invariant i <= |text|
      decreases |text| - i
    {
      i := i + 1;
    }
  }

  method StCatChar(str: array<char>, c: char, ghost size: nat, ghost text: string)
    requires Filled(str[..], size, text) && |text| + 1 < size && c != NUL
    modifies str
    ensures Filled(str[..], size, text + [c])
  {
    var n := StrLen(str, size, text);
    str[n] := c;
  }

  lemma ConvertedPlain(value: nat, hex: bool, minus: bool, n_digits: nat)
    ensures forall k :: 0 <= k < |Converted(value, hex, minus, n_digits)| ==>
              Converted(value, hex, minus, n_digits)[k] != NUL
  {
    hide Numeral;
    NumeralPlain(value, if hex then 16 else 10, n_digits);
  }

  /** Digits, then prefix or sign before them, in the digit buffer. */
  method Convert(digit: array<char>, value: nat, hex: bool, minus: bool, n_digits: nat) returns (n: nat)
    requires digit.Length == D_STR_SIZE && value < 0x1_0000_0000 && n_digits < 30
    modifies digit
    ensures n < D_STR_SIZE && digit[D_STR_SIZE - 1] == NUL
    ensures digit[D_STR_SIZE - 1 - n..D_STR_SIZE - 1] == Converted(value, hex, minus, n_digits)
  {
    hide Numeral;
    digit[D_STR_SIZE - 1] := NUL;
    n := PutDigits(digit, value, if hex then 16 else 10, n_digits);
    ghost var s := digit[D_STR_SIZE - 1 - n..D_STR_SIZE - 1];
    if hex {
      n := n + 1;
      digit[D_STR_SIZE - 1 - n] := 'x';
      n := n + 1;
      digit[D_STR_SIZE - 1 - n] := '0';
      assert digit[D_STR_SIZE - 1 - n..D_STR_SIZE - 1] == "0x" + s;
    } else if minus {
      n := n + 1;
      digit[D_STR_SIZE - 1 - n] := '-';
      assert digit[D_STR_SIZE - 1 - n..D_STR_SIZE - 1] == "-" + s;
    } else {
      assert "" + s == s;
    }
  }

  method PutConversion(str: array<char>, value: nat, hex: bool, minus: bool, n_digits: nat,
                       ghost size: nat, ghost text: string)
    requires value < 0x1_0000_0000 && n_digits < 30
    requires Filled(str[..], size, text) && |text + Converted(value, hex, minus, n_digits)| < size
    modifies str
    ensures Filled(str[..], size, text + Converted(value, hex, minus, n_digits))
  {
    hide Numeral, Converted, Filled;
    ghost var s := Converted(value, hex, minus, n_digits);
    ConvertedPlain(value, hex, minus, n_digits);
    var digit := new char[D_STR_SIZE](_ => NUL);
    var n := Convert(digit, value, hex, minus, n_digits);
    ghost var from, digits := D_STR_SIZE - 1 - n, digit[..];
    var v := D_STR_SIZE - 1 - n;
    assert s[..0] == [] && text + [] == text;
    assert digits[from..D_STR_SIZE - 1] == s && digits[D_STR_SIZE - 1] == NUL;
    while digit[v] != NUL
      invariant from <= v < D_STR_SIZE && digit[..] == digits
      invariant Filled(str[..], size, text + s[..v - from])
      decreases D_STR_SIZE - v
    {
      NextDigit(digits, from, s, v, text);
      StCatChar(str, digit[v], size, text + s[..v - from]);
      v := v + 1;
    }
    LastDigit(digits, from, s, v);
  }

  lemma NextDigit(digits: seq<char>, from: nat, s: seq<char>, v: nat, text: string)
    requires |digits| == D_STR_SIZE && from <= v < D_STR_SIZE && digits[from..D_STR_SIZE - 1] == s
    requires digits[D_STR_SIZE - 1] == NUL && digits[v] != NUL
    ensures v < D_STR_SIZE - 1 && text + s[..v - from] + [digits[v]] == text + s[..v + 1 - from]
  {
    assert s[v - from] == digits[v];
    assert s[..v + 1 - from] == s[..v - from] + [s[v - from]];
  }

  lemma LastDigit(digits: seq<char>, from: nat, s: seq<char>, v: nat)
    requires |digits| == D_STR_SIZE && from <= v < D_STR_SIZE && digits[from..D_STR_SIZE - 1] == s
    requires digits[v] == NUL && forall k :: 0 <= k < |s| ==> s[k] != NUL
    ensures s[..v - from] == s
  {
    assert forall k :: 0 <= k < |s| ==> digits[from + k] == s[k];
  }

  /** The width and the letter of a conversion from position i on. */
  method ParseWidth(format: string, i: nat) returns (n: nat, j: nat)
    requires i <= |format|
    ensures i <= j <= |format| && n == Width(format[i..], 0) && format[j..] == Letter(format[i..])
  {
    n, j := 0, i;
    while j < |format| && Digit(format[j])
      invariant i <= j <= |format|
      invariant Width(format[i..], 0) == Width(format[j..], n) && Letter(format[i..]) == Letter(format[j..])
    {
      assert format[j..][1..] == format[j + 1..];
      n := (n * 10 + format[j] as int - '0' as int) % 0x1_0000;
      j := j + 1;
    }
  }

  /** One conversion, from the percent sign at i on. */
  method FormatNumber(str: array<char>, format: string, args: seq<nat>, i: nat, a: nat,
                      ghost size: nat, ghost text: string)
    returns (i': nat, a': nat, ghost text': string)
    requires i < |format| && a <= |args| && format[i] == '%' && Formattable(format[i..], args[a..])
    requires Filled(str[..], size, text) && |text + Render(format[i..], args[a..])| < size
    modifies str
    ensures i < i' <= |format| && a' <= |args| && Formattable(format[i'..], args[a'..])
    ensures text' + Render(format[i'..], args[a'..]) == text + Render(format[i..], args[a..])
    ensures Filled(str[..], size, text')
  {
    hide Filled, Numeral, Width, Letter, Render, Formattable;
    var n, j := ParseWidth(format, i + 1);
    assert format[i..][1..] == format[i + 1..];
    RenderParts(format[i..], args[a..]);
    a' := a + 1;
    i', text' := j, text;
    assert args[a..][1..] == args[a'..] && args[a..][0] == args[a];
    if j == |format| {
      assert format[j..] == "";
      RenderEnd(args[a'..]);
      return;
    }
    assert format[j..][1..] == format[j + 1..] && format[j..][0] == format[j];
    var value, hex, minus := args[a], false, false;
    if format[j] == 'd' {
      minus := value >= 0x8000;
      value := Magnitude(value);
    } else if format[j] == 'U' || format[j] == 'X' {
      assert args[a..][2..] == args[a + 2..] && args[a..][1] == args[a + 1];
      value := args[a] + 0x1_0000 * args[a + 1];
      a' := a' + 1;
    } else if format[j] != 'u' && format[j] != 'x' {
      return;
    }
    if format[j] == 'x' || format[j] == 'X' {
      hex := true;
      n := if n != 0 then n else if format[j] == 'x' then 4 else 8;
    }
    ghost var s := Converted(value, hex, minus, n);
    i', text' := j + 1, text + s;
    assert text + Render(format[i..], args[a..]) == text + s + Render(format[i'..], args[a'..]);
    PutConversion(str, value, hex, minus, n, size, text);
  }

  lemma RenderEnd(args: seq<nat>)
    ensures Formattable("", args) && Render("", args) == ""
  {
  }

  /** What a conversion puts out, and what is left of the format and the arguments after it. */
  lemma RenderParts(f: string, args: seq<nat>)
    requires f != "" && f[0] == '%' && Formattable(f, args)
    ensures |args| > 0 && args[0] < 0x1_0000
    ensures var n, rest := Width(f[1..], 0), Letter(f[1..]);
            n < 30 &&
            if rest == "" then Render(f, args) == ""
            else if rest[0] == 'd' then
              && Formattable(rest[1..], args[1..])
              && Render(f, args) ==
                 Converted(Magnitude(args[0]), false, args[0] >= 0x8000, n) + Render(rest[1..], args[1..])
            else if rest[0] == 'u' then
              && Formattable(rest[1..], args[1..])
              && Render(f, args) == Converted(args[0], false, false, n) + Render(rest[1..], args[1..])
            else if rest[0] == 'x' then
              && Formattable(rest[1..], args[1..])
              && Render(f, args) ==
                 Converted(args[0], true, false, if n != 0 then n else 4) + Render(rest[1..], args[1..])
            else if rest[0] == 'U' || rest[0] == 'X' then
              && |args| >= 2 && args[1] < 0x1_0000 && Formattable(rest[1..], args[2..])
              && Render(f, args) == (if rest[0] == 'U' then Converted(Long(args), false, false, n)
                                     else Converted(Long(args), true, false, if n != 0 then n else 8))
                                    + Render(rest[1..], args[2..])
            else
              Formattable(rest, args[1..]) && Render(f, args) == Render(rest, args[1..])
  {
    hide Converted, Width, Letter, Magnitude;
  }

  method FormatStr(str: array<char>, size: nat, format: string, args: seq<nat>)
    requires Formattable(format, args) && |Render(format, args)| < size <= str.Length
    modifies str
    ensures Filled(str[..], size, Render(format, args))
  {
    hide Render, Formattable;
    for k := 0 to size
      invariant forall m :: 0 <= m < k ==> str[m] == NUL
    {
      str[k] := NUL;
    }
    ghost var text := "";
    var i, a := 0, 0;
    assert format[0..] == format && args[0..] == args;
    ghost var goal := Render(format, args);
    assert "" + goal == goal;
    while i < |format|
      invariant 0 <= i <= |format| && 0 <= a <= |args| && Formattable(format[i..], args[a..])
      invariant text + Render(format[i..], args[a..]) == goal && Filled(str[..], size, text)
      decreases |format| - i
    {
      if format[i] == '%' {
        i, a, text := FormatNumber(str, format, args, i, a, size, text);
      } else {
        RenderChar(format, args, i, a);
        ghost var rest := Render(format[i + 1..], args[a..]);
        assert text + ([format[i]] + rest) == text + [format[i]] + rest;
        StCatChar(str, format[i], size, text);
        text := text + [format[i]];
        i := i + 1;
      }
    }
    assert format[i..] == "";
    RenderEnd(args[a..]);
    assert text + "" == text;
  }

  lemma RenderChar(format: string, args: seq<nat>, i: nat, a: nat)
    requires i < |format| && a <= |args| && format[i] != '%' && Formattable(format[i..], args[a..])
    ensures format[i] != NUL && Formattable(format[i + 1..], args[a..])
    ensures Render(format[i..], args[a..]) == [format[i]] + Render(format[i + 1..], args[a..])
  {
    assert format[i..][1..] == format[i + 1..];
  }

  // ----- parsing

  /** The text t, and a zero after it, are in memory from i on. */
  ghost predicate IsText(s: seq<char>, i: nat, t: string) {
    && i + |t| < |s| && s[i + |t|] == NUL
    && forall k :: 0 <= k < |t| ==> s[i + k] == t[k] && t[k] != NUL
  }

  lemma TextAt(s: seq<char>, i: nat, t: string, k: nat)
    requires IsText(s, i, t) && k <= |t|
    ensures i + k < |s| && (s[i + k] == NUL <==> k == |t|) && (k < |t| ==> s[i + k] == t[k])
  {
    assert k < |t| ==> s[i + k] == t[k] && t[k] != NUL;
  }

  lemma TextFrom(s: seq<char>, i: nat, t: string, k: nat)
    requires IsText(s, i, t) && k <= |t|
    ensures IsText(s, i + k, t[k..])
  {
  }

  method StouAt(str: array<char>, src0: nat, ghost t: string) returns (value: nat)
    requires IsText(str[..], src0, t)
    ensures value == Stou(t)
  {
    hide IsText, DigitValue;
    var src, base := src0, 10;
    value := 0;
    ghost var u, k := t, 0;
    TextAt(str[..], src, t, 0);
    if |t| > 0 { TextAt(str[..], src, t, 1); }
    if str[src] == '0' && str[src + 1] == 'x' {
      TextFrom(str[..], src, t, 2);
      src := src + 2;
      base := 16;
      u := t[2..];
    }
    ghost var from := src;
    assert u[..0] == "";
    TextAt(str[..], from, u, 0);
    while str[src] != NUL
      invariant k <= |u| && src == from + k < str.Length && IsText(str[..], from, u)
      invariant str[src] == NUL <==> k == |u|
      invariant value == Parsed(u[..k], base, 0)
      decreases |u| - k
    {
      TextAt(str[..], from, u, k);
      TextAt(str[..], from, u, k + 1);
      assert u[..k + 1][..k] == u[..k];
      var digit := DigitValue(str[src]);
      value := (value * base + digit) % 0x1_0000;
      src := src + 1;
      k := k + 1;
    }
    assert u[..k] == u;
  }

  function Skip(t: string, delim: char): (u: string)
    ensures |u| <= |t|
  {
    if t != "" && t[0] == delim then Skip(t[1..], delim) else t
  }

  function Token(t: string, delim: char): (u: string)
    ensures |u| <= |t|
  {
    if t == "" || t[0] == delim then "" else [t[0]] + Token(t[1..], delim)
  }

  function Behind(t: string, delim: char): (u: string)
    ensures |u| <= |t| && (t != "" ==> |u| < |t|)
  {
    if t == "" then "" else if t[0] == delim then t[1..] else Behind(t[1..], delim)
  }

  /** The parts of a text between delimiters, empty ones left out. */
  function Fields(t: string, delim: char): seq<string>
    decreases |t|
  {
    var u := Skip(t, delim);
    if u == "" then [] else [Token(u, delim)] + Fields(Behind(u, delim), delim)
  }

  lemma {:induction false} TokenAt(u: string, delim: char, k: nat)
    requires k <= |u| && (k < |u| ==> u[k] == delim) && forall m :: 0 <= m < k ==> u[m] != delim
    ensures Token(u, delim) == u[..k] && Behind(u, delim) == if k < |u| then u[k + 1..] else ""
    decreases k
  {
    if k > 0 { TokenAt(u[1..], delim, k - 1); }
  }

  /** Cuts the next token out of the text in place. */
  method StrTok(buf: array<char>, src0: nat, delim: char, ghost t: string) returns (src: nat, next: nat)
    requires IsText(buf[..], src0, t) && delim != NUL
    modifies buf
    ensures var u := Skip(t, delim);
            IsText(buf[..], src, Token(u, delim)) && IsText(buf[..], next, Behind(u, delim))
  {
    hide IsText, Token, Behind, Skip;
    src := SkipDelims(buf, src0, delim, t);
    ghost var u := Skip(t, delim);
    var s := TokenEnd(buf, src, delim, u);
    TokenAt(u, delim, s - src);
    TextAt(buf[..], src, u, s - src);
    if buf[s] == delim {
      CutHere(buf[..], src, u, s - src);
      ghost var was := buf[..];
      buf[s] := NUL;
      assert buf[..] == was[s := NUL];
      return src, s + 1;
    }
    assert u[..|u|] == u && u[|u|..] == "";
    TextFrom(buf[..], src, u, |u|);
    return src, s;
  }

  /** The position of the first delimiter, or of the final zero. */
  method TokenEnd(buf: array<char>, src: nat, delim: char, ghost u: string) returns (s: nat)
    requires IsText(buf[..], src, u) && delim != NUL
    ensures src <= s < buf.Length && s - src <= |u| && (s - src < |u| ==> u[s - src] == delim)
    ensures forall m :: 0 <= m < s - src ==> u[m] != delim
  {
    hide IsText;
    s := src;
    TextAt(buf[..], src, u, 0);
    while buf[s] != NUL
      invariant src <= s < buf.Length && s - src <= |u|
      invariant buf[s] == NUL <==> s - src == |u|
      invariant forall m :: 0 <= m < s - src ==> u[m] != delim
      decreases |u| - (s - src)
    {
      TextAt(buf[..], src, u, s - src);
      TextAt(buf[..], src, u, s - src + 1);
      if buf[s] == delim { return; }
      s := s + 1;
    }
  }

  lemma CutHere(s: seq<char>, i: nat, u: string, k: nat)
    requires IsText(s, i, u) && k < |u|
    ensures IsText(s[i + k := NUL], i, u[..k]) && IsText(s[i + k := NUL], i + k + 1, u[k + 1..])
  {
    TextFrom(s, i, u, k + 1);
  }

  /** The leading delimiters become zeros. */
  method SkipDelims(buf: array<char>, src0: nat, delim: char, ghost t: string) returns (src: nat)
    requires IsText(buf[..], src0, t) && delim != NUL
    modifies buf
    ensures IsText(buf[..], src, Skip(t, delim))
  {
    src := src0;
    ghost var u := t;
    while buf[src] == delim
      invariant IsText(buf[..], src, u) && Skip(u, delim) == Skip(t, delim)
      decreases |u|
    {
      TextAt(buf[..], src, u, 0);
      buf[src] := NUL;
      src := src + 1;
      u := u[1..];
    }
    TextAt(buf[..], src, u, 0);
  }

  method StrCpyS(dst: array<char>, src: array<char>, size: nat, ghost t: string)
    requires 0 < size <= dst.Length && IsText(src[..], 0, t) && dst != src
    modifies dst
    ensures IsText(dst[..], 0, if |t| < size then t else t[..size - 1])
  {
    var i := 0;
    TextAt(src[..], 0, t, 0);
    while src[i] != NUL && i + 1 < size
      invariant i <= |t| && i < size && i < src.Length && (src[i] == NUL <==> i == |t|)
      invariant forall k :: 0 <= k < i ==> dst[k] == t[k]
      decreases |t| - i
    {
      TextAt(src[..], 0, t, i);
      TextAt(src[..], 0, t, i + 1);
      dst[i] := src[i];
      i := i + 1;
    }
    dst[i] := NUL;
    assert forall k :: 0 <= k < i ==> dst[k] == t[k] && t[k] != NUL by { assert IsText(src[..], 0, t); }
  }

  /** The address of a text: its first four fields, each in a byte; the others stay. */
  function IpOf(ip: seq<nat>, fields: seq<string>): seq<nat>
    requires |ip| == 4
  {
    seq(4, i requires 0 <= i < 4 => if i < |fields| then Stou(fields[i]) % 256 else ip[i])
  }

  method StrToIp(ip: array<nat>, str: array<char>, ghost t: string)
    requires ip.Length == 4 && IsText(str[..], 0, t)
    modifies ip
    ensures ip[..] == IpOf(old(ip[..]), Fields(if |t| < 24 then t else t[..23], '.'))
  {
    hide Stou, Skip, Token, Behind, IsText;
    var tok_str := new char[24](_ => NUL);
    StrCpyS(tok_str, str, 24, t);
    ghost var all := Fields(if |t| < 24 then t else t[..23], '.');
    ghost var rest := if |t| < 24 then t else t[..23];
    var i: nat, tok: nat, nexttok: nat := 0, 0, 0;
    assert all[0..] == all;
    TextHere(tok_str[..], 0, rest);
    while tok_str[tok] != NUL && tok_str[nexttok] != NUL && i < 4
      invariant tok == nexttok && IsText(tok_str[..], tok, rest) && tok < tok_str.Length
      invariant tok_str[tok] == NUL <==> rest == ""
      invariant i <= 4 && i <= |all| && Fields(rest, '.') == all[i..]
      invariant forall k :: 0 <= k < 4 ==> ip[k] == if k < i then Stou(all[k]) % 256 else old(ip[k])
      decreases |rest|
    {
      ghost var u := Skip(rest, '.');
      FieldsStep(rest, '.');
      tok, nexttok := StrTok(tok_str, tok, '.', rest);
      TextHere(tok_str[..], tok, Token(u, '.'));
      if tok_str[tok] != NUL {
        assert all[i..][0] == all[i];
        var value := StouAt(tok_str, tok, Token(u, '.'));
        ip[i] := value % 256;
        i := i + 1;
        assert all[i - 1..][1..] == all[i..];
      }
      tok := nexttok;
      rest := Behind(u, '.');
      TextHere(tok_str[..], tok, rest);
    }
    FieldsNone('.');
    assert rest == "" ==> |all| == i;
    assert forall k :: 0 <= k < 4 ==> ip[k] == IpOf(old(ip[..]), all)[k];
  }

  lemma TextHere(s: seq<char>, i: nat, t: string)
    ensures IsText(s, i, t) ==> i < |s| && (s[i] == NUL <==> t == "")
  {
    assert IsText(s, i, t) && t != "" ==> s[i + 0] == t[0];
  }

  lemma FieldsNone(delim: char)
    ensures Fields("", delim) == []
  {
  }

  lemma FieldsStep(t: string, delim: char)
    requires t != ""
    ensures var u := Skip(t, delim);
            && |Behind(u, delim)| < |t| && (Token(u, delim) == "" <==> u == "")
            && Fields(t, delim) == if u == "" then [] else [Token(u, delim)] + Fields(Behind(u, delim), delim)
    ensures Skip(t, delim) == "" ==> Behind(Skip(t, delim), delim) == "" && Fields("", delim) == []
  {
    SkipOff(t, delim);
  }

  lemma {:induction false} SkipOff(t: string, delim: char)
    ensures Skip(t, delim) != "" ==> Skip(t, delim)[0] != delim
  {
    if t != "" && t[0] == delim { SkipOff(t[1..], delim); }
  }

  // ----- addresses

  const IP_FORMAT: string := "%u.%u.%u.%u"

  predicate IsIp(ip: seq<nat>) {
    |ip| == 4 && forall k :: 0 <= k < 4 ==> ip[k] < 256
  }

  function Decimal(v: nat): string { Converted(v, false, false, 0) }

  function IpText(ip: seq<nat>): string
    requires IsIp(ip)
  {
    Decimal(ip[0]) + "." + (Decimal(ip[1]) + "." + (Decimal(ip[2]) + "." + Decimal(ip[3])))
  }

  lemma RenderDecimal(f: string, args: seq<nat>)
    requires args != [] && args[0] < 0x1_0000 && Formattable(f, args[1..])
    ensures Formattable("%u" + f, args) && Render("%u" + f, args) == Decimal(args[0]) + Render(f, args[1..])
  {
    hide Converted;
    var g := "%u" + f;
    assert g[1..] == "u" + f && g[1..][0] == 'u' && g[1..][1..] == f;
  }

  lemma RenderDot(f: string, args: seq<nat>)
    requires Formattable(f, args)
    ensures Formattable("." + f, args) && Render("." + f, args) == "." + Render(f, args)
  {
    assert ("." + f)[1..] == f;
  }

  /** The formatter writes an address as four decimal numbers with dots between them. */
  lemma IpRendered(ip: seq<nat>)
    requires IsIp(ip)
    ensures Formattable(IP_FORMAT, ip) && Render(IP_FORMAT, ip) == IpText(ip)
  {
    hide Render, Formattable, Converted;
    var a, b, c, d := ip, ip[1..], ip[2..], ip[3..];
    assert a[1..] == b && b[1..] == c && c[1..] == d;
    RenderEnd(d[1..]);
    RenderDecimal("", d);
    RenderDot("%u" + "", d);
    RenderDecimal("." + ("%u" + ""), c);
    RenderDot("%u" + ("." + ("%u" + "")), c);
    RenderDecimal("." + ("%u" + ("." + ("%u" + ""))), b);
    RenderDot("%u" + ("." + ("%u" + ("." + ("%u" + "")))), b);
    RenderDecimal("." + ("%u" + ("." + ("%u" + ("." + ("%u" + ""))))), a);
    assert IP_FORMAT == "%u" + ("." + ("%u" + ("." + ("%u" + ("." + ("%u" + ""))))));
    assert Decimal(ip[3]) + "" == Decimal(ip[3]);
  }

  lemma DecimalIs(v: nat)
    ensures Decimal(v) == Numeral(v, 10, 0) && Power(10, 3) == 1000
  {
    assert Power(10, 1) == 10 && Power(10, 2) == 100;
    hide Numeral;
    assert "" + Numeral(v, 10, 0) == Numeral(v, 10, 0);
  }

  lemma DecimalShort(v: nat)
    requires v < 256
    ensures 0 < |Decimal(v)| <= 3
    ensures forall k :: 0 <= k < |Decimal(v)| ==> Decimal(v)[k] != '.' && Decimal(v)[k] != NUL
    ensures Stou(Decimal(v)) == v && Writes(Decimal(v), 10, 0, v)
  {
    hide Numeral, Converted, Power, Stou, Writes;
    NumeralWrites(v, 10, 0);
    DecimalIs(v);
    NumeralLength(v, 10, 0, 3);
    NumeralPlain(v, 10, 0);
    ConvertedBack(v, false, 0);
  }

  lemma FieldsJoin(x: string, t: string)
    requires x != "" && forall k :: 0 <= k < |x| ==> x[k] != '.'
    ensures Fields(x + "." + t, '.') == [x] + Fields(t, '.') && Fields(x, '.') == [x]
  {
    var s := x + "." + t;
    assert Skip(s, '.') == s && Skip(x, '.') == x;
    TokenAt(s, '.', |x|);
    TokenAt(x, '.', |x|);
    assert s[..|x|] == x && s[|x| + 1..] == t && x[..|x|] == x;
    assert [x] + [] == [x];
  }

  /** The text of an address is its four numbers in order, and reading it back gives the address,
      whatever was there before. */
  lemma IpRoundTrip(ip: seq<nat>, before: seq<nat>)
    requires IsIp(ip) && |before| == 4
    ensures |IpText(ip)| < 16 && IpOf(before, Fields(IpText(ip), '.')) == ip
    ensures |Fields(IpText(ip), '.')| == 4
    ensures forall k :: 0 <= k < 4 ==> Writes(Fields(IpText(ip), '.')[k], 10, 0, ip[k])
  {
    hide Converted, Fields, Stou, Writes;
    var a, b, c, d := Decimal(ip[0]), Decimal(ip[1]), Decimal(ip[2]), Decimal(ip[3]);
    DecimalShort(ip[0]);
    DecimalShort(ip[1]);
    DecimalShort(ip[2]);
    DecimalShort(ip[3]);
    FieldsJoin(d, "");
    FieldsJoin(c, d);
    FieldsJoin(b, c + "." + d);
    FieldsJoin(a, b + "." + (c + "." + d));
    assert c + "." + d == (c + ".") + d && a + "." + (b + "." + (c + "." + d)) == IpText(ip);
    assert Fields(IpText(ip), '.') == [a, b, c, d];
    var r := IpOf(before, Fields(IpText(ip), '.'));
    assert r[0] == ip[0] && r[1] == ip[1] && r[2] == ip[2] && r[3] == ip[3];
  }

  method IpToStr(str: array<char>, ip: seq<nat>)
    requires IsIp(ip) && 16 <= str.Length
    modifies str
    ensures IsText(str[..], 0, IpText(ip))
  {
    hide Render, Formattable;
    IpRendered(ip);
    IpRoundTrip(ip, ip);
    FormatStr(str, 16, IP_FORMAT, ip);
  }
}
