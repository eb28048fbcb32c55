/** Reading a printed integer back. */
module FormatLaws {
  import opened Words
  import opened Options
  import opened Arith
  import opened Sequences
  import opened Format

  /** The value of a digit, or 16 when the character is none. */
  function DigitValue(c: char): nat {
    if '0' <= c <= '9' then c as nat - '0' as nat
    else if 'a' <= c <= 'f' then c as nat - 'a' as nat + 10
    else if 'A' <= c <= 'F' then c as nat - 'A' as nat + 10
    else 16
  }

  predicate AllDigits(s: string, base: nat) { forall i :: 0 <= i < |s| ==> DigitValue(s[i]) < base }

  function Value(s: string, base: nat): nat {
    if s == "" then 0 else Value(s[..|s| - 1], base) * base + DigitValue(s[|s| - 1])
  }

  /** How many digits a text begins with. */
  function DigitCount(s: string, base: nat): (n: nat)
    ensures n <= |s|
  {
    if s == "" || DigitValue(s[0]) >= base then 0 else 1 + DigitCount(s[1..], base)
  }

  function SkipSpaces(s: string): string {
    if s != "" && s[0] == ' ' then SkipSpaces(s[1..]) else s
  }

  function ReadDigits(s: string, base: nat): Option<int> {
    if DigitCount(s, base) == 0 then None else Some(Value(s[..DigitCount(s, base)], base))
  }

  /** A base of 16 or 2 may be announced by a prefix, if a digit follows. */
  function SkipPrefix(s: string, base: nat): string {
    if |s| > 2 && s[0] == '0' && DigitValue(s[2]) < base
       && ((base == 16 && (s[1] == 'x' || s[1] == 'X')) || (base == 2 && s[1] == 'b')) then s[2..]
    else s
  }

  function ReadUnsigned(s: string, base: nat): Option<int> { ReadDigits(SkipPrefix(s, base), base) }

  function Negated(r: Option<int>): Option<int> { if r.None? then None else Some(-r.value) }

  /** The text behind spaces and a sign. */
  function SkipSign(text: string): string {
    var s := SkipSpaces(text);
    if s != "" && (s[0] == '-' || s[0] == '+') then s[1..] else s
  }

  /** An integer as `strtol` reads it: spaces, a sign, a prefix, and as many digits as there are. */
  function ReadInt(text: string, base: nat): Option<int> {
    var s := SkipSpaces(text);
    if s != "" && s[0] == '-' then Negated(ReadUnsigned(SkipSign(text), base)) else ReadUnsigned(SkipSign(text), base)
  }

  /** How many digits it reads. */
  function DigitsShown(text: string, base: nat): nat { DigitCount(SkipPrefix(SkipSign(text), base), base) }

  // ---------------------------------------------------------------- digits

  lemma {:induction false} ValueOfDigits(v: nat, base: nat, upper: bool)
    requires 2 <= base <= 16
    ensures AllDigits(Digits(v, base, upper), base) && Value(Digits(v, base, upper), base) == v
  {
    assert AllDigits(Digits(v, base, upper), base) && Value(Digits(v, base, upper), base) == v by {
      hide Value, AllDigits, DigitValue, DigitChar, Digits, Splits;
      var q, r, high := DigitsSplit(v, base, upper);
      if q == 0 {
        NoDigits(base);
      } else {
        ValueOfDigits(q, base, upper);
      }
      DigitBack(r, upper, base);
      ValueOfLast(high, DigitChar(r, upper), base, v, q, r);
    }
  }

  lemma Quotient(v: nat, base: nat) returns (q: nat, r: nat)
    requires 2 <= base
    ensures q == v / base && r == v % base && v == q * base + r && r < base && (q > 0 ==> q < v)
  {
    q, r := v / base, v % base;
    MulLe(2, base, q);
  }

  /** The digits of the quotient, and the last digit. */
  lemma DigitsSplit(v: nat, base: nat, upper: bool) returns (q: nat, r: nat, high: string)
    requires 2 <= base <= 16
    ensures Splits(v, q, r, base) && r < base && (q > 0 ==> q < v)
    ensures high == if q == 0 then "" else Digits(q, base, upper)
    ensures Digits(v, base, upper) == high + [DigitChar(r, upper)]
  {
    hide Digits, DigitChar;
    q, r := Quotient(v, base);
    DigitsStep(v, base, upper);
    high := if q == 0 then "" else Digits(q, base, upper);
  }

  lemma NoDigits(base: nat)
    ensures AllDigits("", base) && Value("", base) == 0
  {
  }

  predicate Splits(v: nat, q: nat, r: nat, base: nat) { v == q * base + r && r < base }

  lemma ValueOfLast(s: string, c: char, base: nat, v: nat, q: nat, r: nat)
    requires AllDigits(s, base) && DigitValue(c) == r && Value(s, base) == q && Splits(v, q, r, base)
    ensures AllDigits(s + [c], base) && Value(s + [c], base) == v
  {
    hide DigitValue;
    assert (s + [c])[..|s|] == s;
  }

  lemma DigitBack(d: nat, upper: bool, base: nat)
    requires d < base <= 16
    ensures DigitValue(DigitChar(d, upper)) == d
  {
  }

  /** Zeros in front change nothing. */
  lemma {:induction false} ValueOfZeros(n: nat, s: string, base: nat)
    ensures Value(Repeat('0', n) + s, base) == Value(s, base)
    decreases |s|, n
  {
    var t := Repeat('0', n) + s;
    if s == "" {
      assert t == Repeat('0', n);
      if n > 0 {
        assert t[..n - 1] == Repeat('0', n - 1) + "";
        ValueOfZeros(n - 1, "", base);
      }
    } else {
      assert t[..|t| - 1] == Repeat('0', n) + s[..|s| - 1];
      ValueOfZeros(n, s[..|s| - 1], base);
    }
  }

  /** All the digits are read, and nothing after them. */
  lemma {:induction false} CountOfDigits(s: string, rest: string, base: nat)
    requires AllDigits(s, base) && (rest != "" ==> DigitValue(rest[0]) >= base)
    ensures DigitCount(s + rest, base) == |s|
  {
    if s == "" {
      assert s + rest == rest;
    } else {
      assert (s + rest)[1..] == s[1..] + rest;
      CountOfDigits(s[1..], rest, base);
    }
  }

  lemma {:induction false} SkipAllSpaces(n: nat, s: string)
    requires s != "" ==> s[0] != ' '
    ensures SkipSpaces(Repeat(' ', n) + s) == s
  {
    if n == 0 {
      assert Repeat(' ', n) + s == s;
    } else {
      assert (Repeat(' ', n) + s)[1..] == Repeat(' ', n - 1) + s;
      SkipAllSpaces(n - 1, s);
    }
  }

  /** The number without its last digit, and that digit. */
  lemma LastDigit(s: string, base: nat) returns (q: nat, d: nat)
    requires s != ""
    ensures q == Value(s[..|s| - 1], base) && d == DigitValue(s[|s| - 1]) && Value(s, base) == q * base + d
  {
    q, d := Value(s[..|s| - 1], base), DigitValue(s[|s| - 1]);
  }

  lemma OneMoreDigit(s: string, t: string, base: nat)
    requires s != "" && t != "" && s[|s| - 1] == t[|t| - 1] && base > 0
    requires Value(s[..|s| - 1], base) > Value(t[..|t| - 1], base)
    ensures Value(s, base) > Value(t, base)
  {
    assert Value(s, base) > Value(t, base) by {
      hide Value, DigitValue;
      var p, d := LastDigit(s, base);
      var q, e := LastDigit(t, base);
      MulLess(q, p, base);
    }
  }

  lemma MulLess(x: nat, y: nat, a: nat)
    requires x < y && 0 < a
    ensures x * a < y * a
  {
    MulLe(x + 1, y, a);
  }

  /** Leading digits count, unless they are zeros. */
  lemma {:induction false} ValueGrows(a: string, b: string, base: nat)
    requires 0 < base && Value(a, base) > 0
    ensures Value(a + b, base) > Value(b, base)
    decreases |b|
  {
    if b == "" {
      assert a + b == a;
    } else {
      hide Value, DigitValue;
      ValueGrows(a, b[..|b| - 1], base);
      assert (a + b)[..|a + b| - 1] == a + b[..|b| - 1];
      OneMoreDigit(a + b, b, base);
    }
  }

  /** A positive number begins with a digit that is not 0. */
  lemma {:induction false} FirstDigits(v: nat, base: nat, upper: bool, m: nat)
    requires 2 <= base <= 16 && v > 0 && 0 < m <= |Digits(v, base, upper)|
    ensures Value(Digits(v, base, upper)[..m], base) > 0
    decreases v
  {
    var d := Digits(v, base, upper);
    if m == |d| {
      assert d[..m] == d;
      ValueOfDigits(v, base, upper);
    } else {
      var q, r, high := DigitsSplit(v, base, upper);
      assert q > 0 && d[..m] == high[..m];
      FirstDigits(q, base, upper, m);
    }
  }

  /** Without its first digits a positive number is another one. */
  lemma DigitsLost(v: nat, base: nat, upper: bool, m: nat)
    requires 2 <= base <= 16 && v > 0 && 0 < m <= |Digits(v, base, upper)|
    ensures Value(Digits(v, base, upper)[m..], base) != v
  {
    hide Value, Digits;
    var d := Digits(v, base, upper);
    assert d == d[..m] + d[m..];
    FirstDigits(v, base, upper, m);
    ValueGrows(d[..m], d[m..], base);
    ValueOfDigits(v, base, upper);
  }

  // ---------------------------------------------------------------- the number without its sign

  /** No text of digits and spaces has a prefix. */
  lemma NoPrefix(number: string, spaces: nat, base: nat)
    requires base <= 16 && AllDigits(number, base)
    ensures SkipPrefix(number + Repeat(' ', spaces), base) == number + Repeat(' ', spaces)
  {
  }

  /** Digits, then spaces. */
  lemma ReadPlain(number: string, spaces: nat, base: nat)
    requires base <= 16 && AllDigits(number, base)
    ensures DigitCount(SkipPrefix(number + Repeat(' ', spaces), base), base) == |number|
    ensures ReadUnsigned(number + Repeat(' ', spaces), base) == if number == "" then None else Some(Value(number, base))
  {
    hide SkipPrefix, Value, DigitCount;
    var rest := Repeat(' ', spaces);
    NoPrefix(number, spaces, base);
    CountOfDigits(number, rest, base);
    assert (number + rest)[..|number|] == number;
  }

  predicate IsLetter(letter: string, base: nat) {
    (base == 16 && (letter == "x" || letter == "X")) || (base == 2 && letter == "b")
  }

  lemma SkipsPrefix(letter: string, tail: string, base: nat)
    requires IsLetter(letter, base) && tail != "" && DigitValue(tail[0]) < base
    ensures SkipPrefix("0" + (letter + tail), base) == tail
  {
    var s := "0" + (letter + tail);
    assert s[0] == '0' && s[1] == letter[0] && s[2] == tail[0] && s[2..] == tail;
  }

  /** The prefix of base 16 or 2 and digits: the digits are read, or the 0 of the prefix when there are none. */
  lemma ReadAfterPrefix(letter: string, rest: string, spaces: nat, base: nat)
    requires base <= 16 && AllDigits(rest, base) && IsLetter(letter, base)
    ensures var s := "0" + letter + rest + Repeat(' ', spaces);
            && DigitCount(SkipPrefix(s, base), base) == Max(|rest|, 1)
            && ReadUnsigned(s, base) == Some(Value(rest, base))
  {
    hide DigitCount, Value, SkipPrefix, DigitValue, IsLetter;
    var tail := rest + Repeat(' ', spaces);
    var s := "0" + letter + rest + Repeat(' ', spaces);
    assert s == "0" + (letter + tail);
    if rest == "" {
      assert tail == Repeat(' ', spaces);
      ReadBarePrefix(letter, spaces, base);
    } else {
      assert tail[0] == rest[0];
      SkipsPrefix(letter, tail, base);
      SpaceIsNoDigit();
      CountOfDigits(rest, Repeat(' ', spaces), base);
      assert tail[..|rest|] == rest;
    }
  }

  lemma SpaceIsNoDigit()
    ensures DigitValue(' ') == 16
  {
  }

  lemma ReadBarePrefix(letter: string, spaces: nat, base: nat)
    requires base <= 16 && IsLetter(letter, base)
    ensures var s := "0" + (letter + Repeat(' ', spaces));
            && DigitCount(SkipPrefix(s, base), base) == 1
            && ReadUnsigned(s, base) == Some(0) && Value("", base) == 0
  {
    var rest := letter + Repeat(' ', spaces);
    var s := "0" + rest;
    assert SkipPrefix(s, base) == s by {
      assert |s| > 2 ==> s[2] == ' ';
    }
    hide SkipPrefix;
    assert rest[0] == letter[0];
    CountOfDigits("0", rest, base);
    assert s[..1] == "0" && "0"[..0] == "";
  }

  /** A letter that is no digit, with nothing to announce it. */
  lemma ReadLetter(letter: string, tail: string, base: nat)
    requires 0 < base <= 16 && |letter| == 1 && DigitValue(letter[0]) >= base
    ensures DigitCount(SkipPrefix(letter + tail, base), base) == 0 && ReadUnsigned(letter + tail, base) == None
  {
    assert DigitValue('0') == 0;
    assert (letter + tail)[0] == letter[0] != '0';
  }

  lemma LetterIsNoDigit(base: nat, f: Flags)
    requires 2 <= base <= 16 && Letter(base, f) != ""
    ensures DigitValue(Letter(base, f)[0]) >= base
    ensures IsLetter(Letter(base, f), base)
  {
  }

  /** With 31 characters the prefix loses its 0, and nothing can be read. */
  predicate PrefixBroken(len: nat, base: nat, f: Flags) { Letter(base, f) != "" && len + 1 == NTOA_BUFFER_SIZE }

  /** How many digits can be read of a prefix and `len` digits behind it. */
  function ShownWithPrefix(len: nat, base: nat, f: Flags): nat {
    if PrefixBroken(len, base, f) then 0
    else if len >= NTOA_BUFFER_SIZE then len
    else if Letter(base, f) == "" then len + 1
    else Max(len, 1)
  }

  lemma ReadPrefixed(rest: string, spaces: nat, base: nat, f: Flags)
    requires 2 <= base <= 16 && AllDigits(rest, base) && |rest| <= NTOA_BUFFER_SIZE
    ensures var s := Prefix(|rest|, base, f) + rest + Repeat(' ', spaces);
            && DigitCount(SkipPrefix(s, base), base) == ShownWithPrefix(|rest|, base, f)
            && ReadUnsigned(s, base) == if PrefixBroken(|rest|, base, f) then None else Some(Value(rest, base))
  {
    hide SkipPrefix, ReadUnsigned, DigitCount, DigitValue, Letter, Value;
    var letter, tail := Letter(base, f), Repeat(' ', spaces);
    if |rest| == NTOA_BUFFER_SIZE {
      assert Prefix(|rest|, base, f) + rest == rest;
      ReadPlain(rest, spaces, base);
    } else if letter == "" {
      assert Prefix(|rest|, base, f) == Repeat('0', 1);
      ZerosAreDigits(1, rest, base);
      ReadPlain(Repeat('0', 1) + rest, spaces, base);
      ValueOfZeros(1, rest, base);
    } else {
      LetterIsNoDigit(base, f);
      if |rest| + 1 == NTOA_BUFFER_SIZE {
        assert Prefix(|rest|, base, f) + rest + tail == letter + (rest + tail);
        ReadLetter(letter, rest + tail, base);
      } else {
        assert Prefix(|rest|, base, f) + rest + tail == "0" + letter + rest + tail;
        ReadAfterPrefix(letter, rest, spaces, base);
      }
    }
  }

  lemma ZerosAreDigits(n: nat, s: string, base: nat)
    requires base > 0 && AllDigits(s, base)
    ensures AllDigits(Repeat('0', n) + s, base)
  {
  }

  // ---------------------------------------------------------------- fields

  /** A field is spaces, a sign, the number, and spaces. */
  lemma FieldParts(digits: string, negative: bool, base: nat, prec: nat, width: nat, f: Flags)
    returns (before: nat, after: nat)
    ensures var number := Unsigned(digits, negative, base, prec, width, f);
            NumberField(digits, negative, base, prec, width, f)
            == Repeat(' ', before) + (Sign(|number|, negative, f) + (number + Repeat(' ', after)))
  {
    hide Unsigned, Sign;
    var number := Unsigned(digits, negative, base, prec, width, f);
    var sign, body := Sign(|number|, negative, f), Body(digits, negative, base, prec, width, f);
    before := if f.left || f.zeropad then 0 else Minus(width, |body|);
    after := if f.left then Minus(width, |body|) else 0;
    assert NumberField(digits, negative, base, prec, width, f) == Repeat(' ', before) + body + Repeat(' ', after);
    assert body + Repeat(' ', after) == sign + (number + Repeat(' ', after));
    assert Repeat(' ', before) + body + Repeat(' ', after) == Repeat(' ', before) + (body + Repeat(' ', after));
  }

  /** A sign and a number, with spaces in front, read back as the number with its sign. */
  lemma ReadSigned(before: nat, sign: string, number: string, base: nat)
    requires sign == "" || sign == "-" || sign == "+" || sign == " "
    requires number != "" && number[0] != ' ' && number[0] != '-' && number[0] != '+'
    ensures var text := Repeat(' ', before) + (sign + number);
            && SkipSign(text) == number
            && ReadInt(text, base)
               == if sign == "-" then Negated(ReadUnsigned(number, base)) else ReadUnsigned(number, base)
  {
    hide ReadUnsigned;
    if sign == " " {
      assert Repeat(' ', before) + (sign + number) == Repeat(' ', before + 1) + number;
      SkipAllSpaces(before + 1, number);
    } else {
      assert sign == "" ==> sign + number == number;
      assert sign != "" ==> (sign + number)[1..] == number;
      SkipAllSpaces(before, sign + number);
    }
  }

  /** A field without digits does not read as a number. */
  lemma ReadNothing(before: nat, sign: string, after: nat, base: nat)
    requires base <= 16 && (sign == "" || sign == "+" || sign == " ")
    ensures var text := Repeat(' ', before) + (sign + Repeat(' ', after));
            ReadInt(text, base) == None && DigitsShown(text, base) == 0
  {
    hide SkipPrefix, ReadUnsigned, DigitCount;
    var text, tail := Repeat(' ', before) + (sign + Repeat(' ', after)), Repeat(' ', after);
    ReadPlain("", after, base);
    ReadPlain("", 0, base);
    assert "" + tail == tail && "" + Repeat(' ', 0) == "";
    if sign == "+" {
      SkipAllSpaces(before, sign + tail);
      assert (sign + tail)[1..] == tail;
    } else {
      assert text == Repeat(' ', |text|) + "";
      SkipAllSpaces(|text|, "");
    }
  }

  lemma SignCases(filled: nat, negative: bool, f: Flags)
    ensures var sign := Sign(filled, negative, f);
            && (sign == "" || sign == "-" || sign == "+" || sign == " ")
            && (sign == "-" <==> negative && filled < NTOA_BUFFER_SIZE)
  {
  }

  /** What is printed in front of the number is told apart from it. */
  lemma FirstOfNumber(text: string, prec: nat, width: nat, base: nat, f: Flags, rest: string)
    requires 2 <= base <= 16 && AllDigits(text, base) && 0 < |text| <= NTOA_BUFFER_SIZE
    ensures var s := Hashed(text, prec, width, base, f) + rest;
            s != "" && s[0] != ' ' && s[0] != '-' && s[0] != '+'
  {
  }

  /** The characters that can be read: all, or those that have not made way for the prefix. */
  function Remaining(text: string, prec: nat, width: nat, base: nat, f: Flags): string {
    if f.hash then text[Yielded(|text|, prec, width, base, f)..] else text
  }

  lemma ReadHashed(text: string, prec: nat, width: nat, base: nat, f: Flags, spaces: nat)
    requires 2 <= base <= 16 && AllDigits(text, base) && 0 < |text| <= NTOA_BUFFER_SIZE
    ensures var s, rest := Hashed(text, prec, width, base, f) + Repeat(' ', spaces),
            Remaining(text, prec, width, base, f);
            && DigitCount(SkipPrefix(s, base), base) == (if f.hash then ShownWithPrefix(|rest|, base, f) else |rest|)
            && ReadUnsigned(s, base)
               == if f.hash && PrefixBroken(|rest|, base, f) then None else Some(Value(rest, base))
  {
    hide SkipPrefix, ReadUnsigned, DigitCount, DigitValue, Prefix, Value, Yielded, ShownWithPrefix, PrefixBroken;
    if f.hash {
      ReadPrefixed(text[Yielded(|text|, prec, width, base, f)..], spaces, base, f);
    } else {
      ReadPlain(text, spaces, base);
    }
  }

  /** The zeros and digits of a field. */
  function Filling(digits: string, negative: bool, prec: nat, width: nat, f: Flags): string {
    Repeat('0', Filled(|digits|, negative, prec, width, f) - |digits|) + digits
  }

  lemma FilledFits(len: nat, negative: bool, prec: nat, width: nat, f: Flags)
    requires len <= NTOA_BUFFER_SIZE
    ensures Filled(len, negative, prec, width, f) <= NTOA_BUFFER_SIZE
  {
  }

  /** What a field reads as, and how many of its digits can be read. */
  lemma ReadField(digits: string, negative: bool, base: nat, prec: nat, width: nat, f: Flags)
    requires 2 <= base <= 16 && AllDigits(digits, base) && |digits| <= NTOA_BUFFER_SIZE
    requires Filled(|digits|, negative, prec, width, f) > 0
    ensures var field, number := NumberField(digits, negative, base, prec, width, f),
            Unsigned(digits, negative, base, prec, width, f);
            var rest := Remaining(Filling(digits, negative, prec, width, f), prec, FieldWidth(width, negative, f),
                base, f);
            && DigitsShown(field, base) == (if f.hash then ShownWithPrefix(|rest|, base, f) else |rest|)
            && ReadInt(field, base)
               == if f.hash && PrefixBroken(|rest|, base, f) then None
                  else if negative && |number| < NTOA_BUFFER_SIZE then Negated(Some(Value(rest, base)))
                  else Some(Value(rest, base))
  {
    hide Filled, FieldWidth, Hashed, Remaining, NumberField, Sign, ReadInt, ReadUnsigned, SkipSign, SkipPrefix, Value,
      ShownWithPrefix, PrefixBroken, DigitCount, DigitValue;
    var number, w := Unsigned(digits, negative, base, prec, width, f), FieldWidth(width, negative, f);
    var text := Filling(digits, negative, prec, width, f);
    ZerosAreDigits(Filled(|digits|, negative, prec, width, f) - |digits|, digits, base);
    FilledFits(|digits|, negative, prec, width, f);
    var before, after := FieldParts(digits, negative, base, prec, width, f);
    SignCases(|number|, negative, f);
    FirstOfNumber(text, prec, w, base, f, Repeat(' ', after));
    ReadSigned(before, Sign(|number|, negative, f), number + Repeat(' ', after), base);
    ReadHashed(text, prec, w, base, f, after);
  }

  /** A field without digits. */
  lemma ReadEmptyField(negative: bool, base: nat, prec: nat, width: nat, f: Flags)
    requires base <= 16 && Filled(0, negative, prec, width, f) == 0 && !negative && !f.hash
    ensures ReadInt(NumberField("", negative, base, prec, width, f), base) == None
    ensures DigitsShown(NumberField("", negative, base, prec, width, f), base) == 0
  {
    hide Filled, NumberField, ReadInt, DigitsShown;
    var before, after := FieldParts("", negative, base, prec, width, f);
    var number := Unsigned("", negative, base, prec, width, f);
    assert number == "";
    SignCases(0, negative, f);
    assert number + Repeat(' ', after) == Repeat(' ', after);
    ReadNothing(before, Sign(0, negative, f), after, base);
  }

  // ---------------------------------------------------------------- how many digits a value has

  function Power(base: nat, n: nat): nat { if n == 0 then 1 else base * Power(base, n - 1) }

  /** A value has at most `n` digits exactly when it is less than the power. */
  lemma {:induction false} DigitsAtMost(v: nat, base: nat, upper: bool, n: nat)
    requires 2 <= base <= 16 && n > 0
    ensures |Digits(v, base, upper)| <= n <==> v < Power(base, n)
    decreases n
  {
    var q, r, high := DigitsSplit(v, base, upper);
    hide Digits;
    assert Power(base, n) == base * Power(base, n - 1);
    if n == 1 {
      assert Power(base, 0) == 1;
      assert q == 0 <==> v < base by { hide Power; Below(v, base, q, r, 1); }
    } else {
      if q > 0 {
        DigitsAtMost(q, base, upper, n - 1);
      }
      PowerPositive(base, n - 1);
      Below(v, base, q, r, Power(base, n - 1));
    }
  }

  lemma {:induction false} PowerPositive(base: nat, n: nat)
    requires base > 0
    ensures Power(base, n) > 0
  {
    if n > 0 {
      PowerPositive(base, n - 1);
      MulLe(1, Power(base, n - 1), base);
    }
  }

  lemma Below(v: nat, base: nat, q: nat, r: nat, p: nat)
    requires Splits(v, q, r, base)
    ensures q < p <==> v < base * p
  {
    if q < p {
      MulLe(q + 1, p, base);
    } else {
      MulLe(p, q, base);
    }
  }

  lemma {:induction false} PowerOfSum(base: nat, m: nat, n: nat)
    ensures Power(base, m + n) == Power(base, m) * Power(base, n)
  {
    if m > 0 {
      PowerOfSum(base, m - 1, n);
      PowerStep(base, m - 1);
      PowerStep(base, m + n - 1);
      hide Power;
      Associates(base, Power(base, m - 1), Power(base, n));
    }
  }

  lemma PowerStep(base: nat, n: nat)
    ensures Power(base, n + 1) == base * Power(base, n)
  {
  }

  lemma SomePowers()
    ensures Power(2, 32) == WORD32 && Power(16, 16) == WORD64
    ensures Power(8, 24) >= WORD64 && Power(10, 24) >= WORD64 && Power(16, 24) >= WORD64
  {
    Doubled(2, 1, 2);
    Doubled(2, 2, 4);
    Doubled(2, 4, 16);
    Doubled(2, 8, 0x100);
    Doubled(2, 16, 0x1_0000);
    Doubled(16, 1, 16);
    Doubled(16, 2, 0x100);
    Doubled(16, 4, 0x1_0000);
    Doubled(16, 8, 0x1_0000_0000);
    Doubled(8, 3, 0x200);
    Doubled(8, 6, 0x4_0000);
    Doubled(8, 12, 0x10_0000_0000);
    Doubled(10, 3, 1_000);
    Doubled(10, 6, 1_000_000);
    Doubled(10, 12, 1_000_000_000_000);
    PowerOfSum(16, 16, 8);
  }

  lemma Doubled(base: nat, n: nat, p: nat)
    requires Power(base, n) == p
    ensures Power(base, 2 * n) == p * p
  {
    PowerOfSum(base, n, n);
  }

  /** A 64-bit word has fewer digits than the buffer has room for, except in base 2. */
  lemma WordDigits(v: nat, c: char, upper: bool)
    requires v < WORD64 && c != 'b'
    ensures |Digits(v, Base(c), upper)| <= 24
  {
    hide Power, Digits;
    SomePowers();
    DigitsAtMost(v, Base(c), upper, 24);
  }

  lemma BinaryDigits(v: nat, upper: bool)
    ensures |Digits(v, 2, upper)| <= NTOA_BUFFER_SIZE <==> v < WORD32
  {
    hide Power, Digits;
    SomePowers();
    DigitsAtMost(v, 2, upper, NTOA_BUFFER_SIZE);
  }

  // ---------------------------------------------------------------- reading back

  /** The end of a number is worth as much as the number exactly when only zeros are cut off. */
  lemma EndValue(v: nat, base: nat, upper: bool, zeros: nat, cut: nat)
    requires 2 <= base <= 16 && v > 0
    requires var kept := Kept(Digits(v, base, upper)); cut <= zeros + |kept| <= NTOA_BUFFER_SIZE
    ensures var digits := Digits(v, base, upper);
            Value((Repeat('0', zeros) + Kept(digits))[cut..], base) == v
            <==> |digits| <= NTOA_BUFFER_SIZE && cut <= zeros
  {
    hide Value, Digits;
    var digits := Digits(v, base, upper);
    var lost := Minus(|digits|, NTOA_BUFFER_SIZE);
    var rest := (Repeat('0', zeros) + Kept(digits))[cut..];
    if cut <= zeros {
      assert rest == Repeat('0', zeros - cut) + Kept(digits);
      ValueOfZeros(zeros - cut, Kept(digits), base);
      if lost > 0 {
        DigitsLost(v, base, upper, lost);
      } else {
        assert Kept(digits) == digits;
        ValueOfDigits(v, base, upper);
      }
    } else {
      assert rest == digits[lost + (cut - zeros)..];
      DigitsLost(v, base, upper, lost + (cut - zeros));
    }
  }

  /** The flags with `#` only where a prefix is written. */
  function EffectiveFlags(value: nat, f: Flags): Flags { f.(hash := f.hash && value != 0) }

  /** How many characters make way for a prefix. */
  function Cut(filled: nat, prec: nat, width: nat, base: nat, f: Flags): (n: nat)
    ensures n <= filled
  {
    if f.hash then Yielded(filled, prec, width, base, f) else 0
  }

  lemma DigitsOfFacts(v: nat, base: nat, f: Flags)
    requires 2 <= base <= 16
    ensures AllDigits(DigitsOf(v, base, f), base)
    ensures v > 0 ==> DigitsOf(v, base, f) == Kept(Digits(v, base, f.upper)) && |DigitsOf(v, base, f)| > 0
    ensures v == 0 ==> |DigitsOf(v, base, f)| == if f.precision then 0 else 1
    ensures v == 0 ==> Value(DigitsOf(v, base, f), base) == 0
  {
    ValueOfDigits(v, base, f.upper);
  }

  /** Reading a printed integer gives the value back exactly when it has digits, at most 32 of them, when a
      minus sign has room in those 32 characters, and when the prefix of the `#` flag has its room without
      taking a digit. */
  lemma ReadsBackIff(v: int, base: nat, prec: nat, width: nat, f: Flags)
    requires 2 <= base <= 16
    ensures var e, digits := EffectiveFlags(Abs(v), f), DigitsOf(Abs(v), base, f);
            var filled := Filled(|digits|, v < 0, prec, width, e);
            var cut := Cut(filled, prec, FieldWidth(width, v < 0, e), base, e);
            ReadInt(LongField(Abs(v), v < 0, base, prec, width, f), base) == Some(v)
            <==> && filled > 0 && |Digits(Abs(v), base, f.upper)| <= NTOA_BUFFER_SIZE
                 && (v < 0 ==> |Unsigned(digits, true, base, prec, width, e)| < NTOA_BUFFER_SIZE)
                 && cut <= filled - |digits| && (e.hash ==> !PrefixBroken(filled - cut, base, e))
  {
    hide NumberField, Filled, FieldWidth, Yielded, Unsigned, ReadInt, Digits, DigitsOf, Value, Kept, PrefixBroken,
      ShownWithPrefix, AllDigits;
    var e, digits := EffectiveFlags(Abs(v), f), DigitsOf(Abs(v), base, f);
    var filled, w := Filled(|digits|, v < 0, prec, width, e), FieldWidth(width, v < 0, e);
    var cut := Cut(filled, prec, w, base, e);
    DigitsOfFacts(Abs(v), base, f);
    FilledFits(|digits|, v < 0, prec, width, e);
    if filled == 0 {
      assert digits == "";
      ReadEmptyField(v < 0, base, prec, width, e);
    } else {
      ReadField(digits, v < 0, base, prec, width, e);
      var text := Filling(digits, v < 0, prec, width, e);
      assert Remaining(text, prec, w, base, e) == text[cut..];
      if v == 0 {
        assert text[cut..] == text;
        ValueOfZeros(filled - |digits|, digits, base);
        ZeroDigit(base, f.upper);
      } else {
        EndValue(Abs(v), base, f.upper, filled - |digits|, cut);
      }
    }
  }

  lemma ZeroDigit(base: nat, upper: bool)
    requires 2 <= base <= 16
    ensures |Digits(0, base, upper)| == 1
  {
  }

  // ---------------------------------------------------------------- specifiers

  /** How many digits a value has. */
  function Length(x: int, c: char): nat { |Digits(Abs(x), Base(c), false)| }

  /** There are digits, unless a zero is printed with a precision; then there are zeros only when the
      precision is not 0 and the field is not left-justified. */
  predicate HasDigits(s: Spec, x: int) { x != 0 || !s.flags.precision || (s.prec > 0 && !s.flags.left) }

  /** Only base 2 has values of more than 32 digits. */
  predicate DigitsFit(x: int, c: char) { c == 'b' ==> x < WORD32 }

  /** A minus sign has room, unless zeros fill the 32 characters of the buffer. */
  predicate SignFits(s: Spec, x: int) {
    || x >= 0 || s.flags.left
    || (s.prec < NTOA_BUFFER_SIZE && (s.flags.zeropad && !s.flags.precision ==> s.width <= NTOA_BUFFER_SIZE))
  }

  predicate HasPrefix(s: Spec, x: int, c: char) { s.flags.hash && Base(c) != 10 && x != 0 }

  /** The digits and the zeros a precision asks for. */
  function WithPrecision(s: Spec, n: nat): nat { if s.flags.left then n else Max(n, Min(s.prec, NTOA_BUFFER_SIZE)) }

  /** A prefix with a letter needs two of the 32 characters or none.  Without a precision it takes its place
      from a number just as wide as its field: the number is to have zeros to give. */
  predicate PrefixHarmless(s: Spec, x: int, c: char) {
    var n, zeros := Length(x, c), s.flags.zeropad && !s.flags.left;
    HasPrefix(s, x, c) ==>
      if s.flags.precision then c == 'o' || WithPrecision(s, n) + 1 != NTOA_BUFFER_SIZE
      else
        && s.width != n && (zeros && Base(c) == 16 ==> s.width != n + 1)
        && (c == 'b' && zeros ==> s.width != NTOA_BUFFER_SIZE)
        && (c == 'b' && n + 1 == NTOA_BUFFER_SIZE ==> zeros && s.width > NTOA_BUFFER_SIZE)
  }

  /** The flags an integer is printed with. */
  function NumberFlags(s: Spec, x: int, c: char): Flags { EffectiveFlags(Abs(x), IntegerFlags(s.flags, c)) }

  lemma NumberFlagsAre(s: Spec, x: int, c: char)
    requires x < 0 ==> IsSigned(c)
    ensures var f := NumberFlags(s, x, c);
            && f.left == s.flags.left && f.precision == s.flags.precision
            && f.zeropad == (s.flags.zeropad && !s.flags.precision)
            && f.hash == HasPrefix(s, x, c) && (f.hash ==> x > 0 && !IsSigned(c) && !f.plus && !f.space)
  {
  }

  /** How many digits are printed of a value of `n`. */
  function Printed(s: Spec, x: int, n: nat): nat {
    if x != 0 then Min(n, NTOA_BUFFER_SIZE) else if s.flags.precision then 0 else 1
  }

  /** The condition of `ReadsBackIff` for a number without a prefix. */
  lemma PlainCase(s: Spec, x: int, c: char, n: nat)
    requires n > 0 && (s.flags.precision || s.prec == 0) && (x < 0 ==> n < NTOA_BUFFER_SIZE) && (x < 0 ==> IsSigned(c))
    requires !HasPrefix(s, x, c)
    ensures var filled := Filled(Printed(s, x, n), x < 0, s.prec, s.width, NumberFlags(s, x, c));
            filled > 0 && (x < 0 ==> filled < NTOA_BUFFER_SIZE) <==> HasDigits(s, x) && SignFits(s, x)
  {
    hide NumberFlags;
    NumberFlagsAre(s, x, c);
  }

  /** The same with a prefix. */
  lemma PrefixCase(s: Spec, x: int, c: char)
    requires (s.flags.precision || s.prec == 0) && (x < 0 ==> IsSigned(c)) && HasPrefix(s, x, c)
    requires 0 < Length(x, c) <= NTOA_BUFFER_SIZE && (c != 'b' ==> Length(x, c) <= 24)
    ensures var n, f := Length(x, c), NumberFlags(s, x, c);
            var filled := Filled(n, false, s.prec, s.width, f);
            var cut := Cut(filled, s.prec, FieldWidth(s.width, false, f), Base(c), f);
            cut <= filled - n && !PrefixBroken(filled - cut, Base(c), f) <==> PrefixHarmless(s, x, c)
  {
    hide NumberFlags, Length;
    NumberFlagsAre(s, x, c);
  }

  /** What an integer specifier prints reads back as the value it was given, as its type holds it, exactly
      when there are digits, and sign and prefix do not get in their way. */
  lemma SpecifierReadsBackIff(s: Spec, c: char, v: int)
    requires IsInteger(c) && (s.flags.precision || s.prec == 0)
    ensures var x := IntegerValue(v, s.flags, c);
            ReadInt(IntegerText(x, s, c), Base(c)) == Some(x)
            <==> HasDigits(s, x) && DigitsFit(x, c) && SignFits(s, x) && PrefixHarmless(s, x, c)
  {
    hide ReadInt, LongField, Digits, IntegerValue, Filled, Yielded, PrefixBroken, FieldWidth,
      IntegerFlags, Unsigned, Kept, DigitsOf;
    var x, f, base := IntegerValue(v, s.flags, c), IntegerFlags(s.flags, c), Base(c);
    assert Abs(x) < WORD64 && (x < 0 ==> IsSigned(c)) by { ValueFits(v, s.flags, c); ValueSign(v, s.flags, c); }
    ReadsBackIff(x, base, s.prec, s.width, f);
    SameLength(Abs(x), base, f.upper);
    DigitsOfFacts(Abs(x), base, f);
    if c == 'b' {
      BinaryDigits(x, f.upper);
    } else {
      WordDigits(Abs(x), c, f.upper);
    }
    NumberFlagsAre(s, x, c);
    if HasPrefix(s, x, c) {
      if Length(x, c) <= NTOA_BUFFER_SIZE {
        PrefixCase(s, x, c);
      }
    } else {
      PlainCase(s, x, c, Length(x, c));
      UnsignedLength(DigitsOf(Abs(x), base, f), base, s.prec, s.width, NumberFlags(s, x, c));
      assert |DigitsOf(Abs(x), base, f)| == Printed(s, x, Length(x, c));
    }
  }

  lemma UnsignedLength(digits: string, base: nat, prec: nat, width: nat, f: Flags)
    requires !f.hash
    ensures |Unsigned(digits, true, base, prec, width, f)| == Filled(|digits|, true, prec, width, f)
  {
  }

  lemma ValueSign(v: int, f: Flags, c: char)
    ensures IntegerValue(v, f, c) < 0 ==> IsSigned(c)
  {
  }

  lemma {:induction false} SameLength(v: nat, base: nat, upper: bool)
    requires 2 <= base <= 16
    ensures |Digits(v, base, upper)| == |Digits(v, base, false)|
  {
    if v >= base {
      SameLength(v / base, base, upper);
    }
  }

  /** A value its type can hold is not changed on the way. */
  lemma ValueKept(v: int, f: Flags, c: char)
    requires !f.chr && !f.short
    requires var word := if f.long then WORD64 else WORD32;
             if IsSigned(c) then -(word / 2) <= v < word / 2 else 0 <= v < word
    ensures IntegerValue(v, f, c) == v
  {
  }

  // ---------------------------------------------------------------- precision

  /** The number of digits a precision asks for is met exactly when the value has as many, or when the field
      is not left-justified and at most 32 are asked for; the 0 that marks base 8 counts as one, and a prefix
      with a letter is to leave the number readable. */
  predicate PrecisionMet(s: Spec, x: int, c: char) {
    var n := if x == 0 then 0 else Min(Length(x, c), NTOA_BUFFER_SIZE);
    var met := n >= s.prec || (!s.flags.left && s.prec <= NTOA_BUFFER_SIZE);
    || s.prec == 0
    || if !HasPrefix(s, x, c) then met
       else if c == 'o' then met || (s.flags.left && n + 1 >= s.prec)
       else met && WithPrecision(s, n) + 1 != NTOA_BUFFER_SIZE
  }

  lemma PrecisionMetIff(s: Spec, c: char, v: int)
    requires IsInteger(c) && s.flags.precision
    ensures var x := IntegerValue(v, s.flags, c);
            DigitsShown(IntegerText(x, s, c), Base(c)) >= s.prec <==> PrecisionMet(s, x, c)
  {
    hide LongField, DigitsShown, Digits, DigitsOf, IntegerValue, Kept, IntegerFlags, ShownWithPrefix, PrecisionMet;
    var x, f, base := IntegerValue(v, s.flags, c), IntegerFlags(s.flags, c), Base(c);
    assert Abs(x) < WORD64 && (x < 0 ==> IsSigned(c)) by { ValueFits(v, s.flags, c); ValueSign(v, s.flags, c); }
    ShownDigits(x, base, s.prec, s.width, f);
    SameLength(Abs(x), base, f.upper);
    DigitsOfFacts(Abs(x), base, f);
    assert c != 'b' ==> Length(x, c) <= 24 by {
      if c != 'b' {
        WordDigits(Abs(x), c, f.upper);
      }
    }
    NumberFlagsAre(s, x, c);
    ShownEnough(s, x, c, |DigitsOf(Abs(x), base, f)|);
  }

  /** The condition on the length of what is shown. */
  lemma ShownEnough(s: Spec, x: int, c: char, n: nat)
    requires IsInteger(c) && s.flags.precision && (x < 0 ==> IsSigned(c)) && (c != 'b' ==> n <= 24)
    requires n == if x == 0 then 0 else Min(Length(x, c), NTOA_BUFFER_SIZE)
    requires x != 0 ==> n > 0
    ensures var f := NumberFlags(s, x, c);
            var filled := Filled(n, x < 0, s.prec, s.width, f);
            (if f.hash then ShownWithPrefix(filled, Base(c), f) else filled) >= s.prec <==> PrecisionMet(s, x, c)
  {
    hide NumberFlags, Length;
    NumberFlagsAre(s, x, c);
  }

  /** With a precision nothing makes way for a prefix. */
  lemma ShownDigits(v: int, base: nat, prec: nat, width: nat, f: Flags)
    requires 2 <= base <= 16 && f.precision && !f.zeropad
    ensures var e := EffectiveFlags(Abs(v), f);
            var filled := Filled(|DigitsOf(Abs(v), base, f)|, v < 0, prec, width, e);
            DigitsShown(LongField(Abs(v), v < 0, base, prec, width, f), base)
            == if e.hash then ShownWithPrefix(filled, base, e) else filled
  {
    hide NumberField, Filled, DigitsShown, Digits, DigitsOf, ShownWithPrefix;
    var e, digits := EffectiveFlags(Abs(v), f), DigitsOf(Abs(v), base, f);
    DigitsOfFacts(Abs(v), base, f);
    if Filled(|digits|, v < 0, prec, width, e) == 0 {
      assert digits == "";
      ReadEmptyField(v < 0, base, prec, width, e);
    } else {
      ReadField(digits, v < 0, base, prec, width, e);
    }
  }

  /** A left-justified field takes no notice of its precision. */
  lemma LeftIgnoresPrecision(v: int, s: Spec, c: char, prec: nat)
    requires s.flags.left && (s.flags.hash ==> s.flags.precision)
    ensures IntegerText(v, s.(prec := prec), c) == IntegerText(v, s, c)
  {
  }

  /** `%-.3d` prints 5 as "5", not as "005", and 0 as nothing at all. */
  lemma PrecisionNotMet()
    ensures var s := Spec(NoFlags().(left := true, precision := true), 0, 3, 5, 0);
            IntegerText(5, s, 'd') == "5" && IntegerText(0, s, 'd') == ""
  {
    assert Digits(5, 10, false) == "5";
  }

  /** `%#4x` prints 0x1234 as "0x34". */
  lemma DigitsLostToPrefix()
    ensures IntegerText(0x1234, Spec(NoFlags().(hash := true), 4, 0, 3, 0), 'x') == "0x34"
  {
    assert Digits(0x1234, 16, false) == "1234";
  }

  // ---------------------------------------------------------------- pointers

  /** Sixteen characters are enough for an address, its prefix and its sign only when it begins with zeros. */
  predicate PointerKept(s: Spec, x: nat) {
    var n, f := Length(x, 'x'), s.flags;
    if x == 0 then !f.precision || !f.left
    else if !f.hash then true
    else if f.precision then f.left || s.prec + 1 != NTOA_BUFFER_SIZE
    else if f.left then n != 16
    else if f.plus || f.space then n <= 13 || n == 16
    else n <= 14
  }

  lemma PointerReadsBackIff(s: Spec, v: int)
    requires s.flags.precision || s.prec == 0
    ensures ReadInt(PointerText(v, s), 16) == Some(v % WORD64) <==> PointerKept(s, v % WORD64)
  {
    hide ReadInt, NumberField, Digits, Power;
    var x, f := v % WORD64, s.flags.(zeropad := true, upper := true);
    ReadsBackIff(x, 16, s.prec, POINTER_WIDTH, f);
    SameLength(x, 16, true);
    SomePowers();
    DigitsAtMost(x, 16, true, 16);
  }
}
