/** What the parser of specifiers makes of a specifier that is written out. */
module FormatSpecs {
  import opened Words
  import opened Options
  import opened Sequences
  import opened Format
  import opened FormatLaws

  /** The flags a text of flag characters sets, in any order and however often. */
  function FlagsOf(f: Flags, fs: string): Flags {
    f.(zeropad := f.zeropad || '0' in fs, left := f.left || '-' in fs, plus := f.plus || '+' in fs,
       space := f.space || ' ' in fs, hash := f.hash || '#' in fs)
  }

  predicate AllFlags(fs: string) { forall i :: 0 <= i < |fs| ==> fs[i] in "0-+ #" }

  lemma FlagIff(c: char)
    ensures IsFlag(c) <==> c in "0-+ #"
  {
    assert "0-+ #" == ['0', '-', '+', ' ', '#'];
  }

  /** The flags are read up to the first character that is none. */
  lemma {:induction false} FlagsParsed(format: string, i: nat, fs: string, t: string, f: Flags)
    requires i <= |format| && format[i..] == fs + t && AllFlags(fs) && (t != "" ==> !IsFlag(t[0]))
    ensures ParseFlags(format, i, f) == (FlagsOf(f, fs), i + |fs|)
    decreases |fs|
  {
    if fs == "" {
      assert format[i..] == t;
      assert i < |format| ==> format[i] == t[0];
    } else {
      assert format[i] == (fs + t)[0] == fs[0];
      assert format[i + 1..] == format[i..][1..] == fs[1..] + t;
      FlagIff(fs[0]);
      hide FlagsOf, WithFlag;
      FlagsParsed(format, i + 1, fs[1..], t, WithFlag(f, fs[0]));
      FlagsOfStep(f, fs);
    }
  }

  lemma FlagsOfStep(f: Flags, fs: string)
    requires fs != "" && IsFlag(fs[0])
    ensures FlagsOf(WithFlag(f, fs[0]), fs[1..]) == FlagsOf(f, fs)
  {
    InHeadOrTail('0', fs);
    InHeadOrTail('-', fs);
    InHeadOrTail('+', fs);
    InHeadOrTail(' ', fs);
    InHeadOrTail('#', fs);
  }

  lemma InHeadOrTail(c: char, s: string)
    requires s != ""
    ensures c in s <==> c == s[0] || c in s[1..]
  {
    assert s == [s[0]] + s[1..];
  }

  // ---------------------------------------------------------------- numbers

  lemma WrapStep(a: nat, d: nat)
    ensures (a % WORD32 * 10 + d) % WORD32 == (a * 10 + d) % WORD32
  {
    var q := a / WORD32;
    assert a * 10 + d == q * 10 * WORD32 + (a % WORD32 * 10 + d);
  }

  /** A number is read digit by digit, modulo 32 bits. */
  lemma {:induction false} DigitsParsed(format: string, i: nat, a: string, s: string, t: string)
    requires i <= |format| && format[i..] == s + t && AllDigits(s, 10) && (t != "" ==> !IsDigit(t[0]))
    ensures ParseDigits(format, i, Value(a, 10) % WORD32) == (Value(a + s, 10) % WORD32, i + |s|)
    decreases |s|
  {
    if s == "" {
      assert format[i..] == t && a + s == a;
      assert i < |format| ==> format[i] == t[0];
    } else {
      var c := s[0];
      assert format[i] == (s + t)[0] == c && DigitValue(c) < 10;
      assert format[i + 1..] == format[i..][1..] == s[1..] + t;
      assert (a + [c])[..|a|] == a;
      WrapStep(Value(a, 10), DigitValue(c));
      assert a + [c] + s[1..] == a + s;
      DigitsParsed(format, i + 1, a + [c], s[1..], t);
    }
  }

  /** A decimal number that fits is read back. */
  lemma NumberParsed(format: string, i: nat, n: nat, t: string)
    requires i <= |format| && format[i..] == Digits(n, 10, false) + t && n < WORD32 && (t != "" ==> !IsDigit(t[0]))
    ensures ParseDigits(format, i, 0) == (n, i + |Digits(n, 10, false)|)
  {
    hide Digits, ParseDigits, Value, DigitValue;
    ValueOfDigits(n, 10, false);
    NoDigits(10);
    var d := Digits(n, 10, false);
    DigitsParsed(format, i, "", d, t);
    assert "" + d == d;
    assert ParseDigits(format, i, 0) == (n, i + |d|);
  }

  /** A positive number begins with a digit that is not the flag 0. */
  lemma {:induction false} FirstDigit(n: nat)
    requires n > 0
    ensures '1' <= Digits(n, 10, false)[0] <= '9'
  {
    if n >= 10 {
      FirstDigit(n / 10);
    }
  }

  // ---------------------------------------------------------------- the whole specifier

  predicate IsLength(l: string) {
    l == "" || l == "l" || l == "ll" || l == "h" || l == "hh" || l == "t" || l == "j" || l == "z"
  }

  function LengthFlags(f: Flags, l: string): Flags {
    f.(long := f.long || l == "l" || l == "ll" || l == "t" || l == "j" || l == "z",
       short := f.short || l == "h" || l == "hh", chr := f.chr || l == "hh")
  }

  /** A character that can only be a conversion. */
  predicate IsConversion(c: char) { c !in "0-+ #123456789*.lhtjz" }

  function WidthText(width: nat): string { if width == 0 then "" else Digits(width, 10, false) }

  function PrecisionText(prec: Option<nat>): string {
    if prec.None? then "" else "." + Digits(prec.value, 10, false)
  }

  lemma LengthParsed(format: string, s: Spec, l: string, c: char, rest: string)
    requires s.i <= |format| && format[s.i..] == l + ([c] + rest) && IsLength(l) && IsConversion(c)
    ensures ParseLength(format, s) == s.(flags := LengthFlags(s.flags, l), i := s.i + |l|)
    ensures At(format, s.i + |l|) == c
  {
    var t := l + ([c] + rest);
    assert forall k :: 0 <= k < |t| ==> format[s.i + k] == t[k];
    assert t[|l|] == c;
  }

  lemma PrecisionParsed(format: string, args: seq<Arg>, s: Spec, prec: Option<nat>, t: string)
    requires s.i <= |format| && format[s.i..] == PrecisionText(prec) + t && s.prec == 0
    requires prec.Some? ==> prec.value < WORD32
    requires t != "" && !IsDigit(t[0]) && t[0] != '.' && t[0] != '*'
    ensures ParsePrecision(format, args, s)
            == s.(flags := s.flags.(precision := s.flags.precision || prec.Some?),
                  prec := if prec.Some? then prec.value else 0,
                  i := s.i + |PrecisionText(prec)|)
  {
    hide Digits;
    if prec.None? {
      assert PrecisionText(prec) + t == t;
      assert format[s.i] == t[0];
    } else {
      var d := Digits(prec.value, 10, false);
      assert format[s.i] == ("." + d + t)[0] == '.';
      assert format[s.i + 1..] == format[s.i..][1..] == d + t;
      NumberParsed(format, s.i + 1, prec.value, t);
      ValueOfDigits(prec.value, 10, false);
      assert format[s.i + 1] == d[0] && DigitValue(d[0]) < 10;
    }
  }

  lemma WidthParsed(format: string, args: seq<Arg>, f: Flags, i: nat, k: nat, width: nat, t: string)
    requires i <= |format| && format[i..] == WidthText(width) + t && width < WORD32
    requires t != "" && !IsDigit(t[0]) && t[0] != '*'
    ensures ParseWidth(format, args, f, i, k) == Spec(f, width, 0, i + |WidthText(width)|, k)
  {
    hide Digits;
    if width == 0 {
      assert WidthText(width) + t == t;
      assert format[i] == t[0];
    } else {
      FirstDigit(width);
      assert format[i] == Digits(width, 10, false)[0];
      NumberParsed(format, i, width, t);
    }
  }

  /** What comes after a part begins with a character that ends the part. */
  lemma Beginnings(width: nat, prec: Option<nat>, l: string, c: char, rest: string)
    requires IsLength(l) && IsConversion(c)
    ensures var t := l + ([c] + rest); t != "" && !IsFlag(t[0]) && !IsDigit(t[0]) && t[0] != '.' && t[0] != '*'
    ensures var t := PrecisionText(prec) + (l + ([c] + rest)); t != "" && !IsFlag(t[0]) && !IsDigit(t[0]) && t[0] != '*'
    ensures var t := WidthText(width) + (PrecisionText(prec) + (l + ([c] + rest))); t != "" && !IsFlag(t[0])
  {
    hide Digits;
    var a := l + ([c] + rest);
    var b := PrecisionText(prec) + a;
    assert a[0] == if l == "" then c else l[0];
    assert b[0] == if prec.None? then a[0] else '.';
    if width > 0 {
      FirstDigit(width);
      assert (WidthText(width) + b)[0] == Digits(width, 10, false)[0];
    } else {
      assert WidthText(width) + b == b;
    }
  }

  /** A specifier that is written out, flags, width, precision, length and conversion, is read as what it
      says, wherever it stands in the format. */
  lemma SpecifierParsed(format: string, args: seq<Arg>, i: nat, k: nat,
                        fs: string, width: nat, prec: Option<nat>, l: string, c: char, rest: string)
    requires i <= |format| && AllFlags(fs) && width < WORD32 && (prec.Some? ==> prec.value < WORD32)
    requires IsLength(l) && IsConversion(c)
    requires format[i..] == fs + (WidthText(width) + (PrecisionText(prec) + (l + ([c] + rest))))
    ensures var s := ParseSpec(format, args, i, k);
            && s.flags == LengthFlags(FlagsOf(NoFlags(), fs).(precision := prec.Some?), l)
            && s.width == width && s.prec == (if prec.Some? then prec.value else 0) && s.k == k
            && s.i == i + |fs| + |WidthText(width)| + |PrecisionText(prec)| + |l| && At(format, s.i) == c
  {
    hide *;
    NoPrecisionFlag(fs);
    var a := l + ([c] + rest);
    var b := PrecisionText(prec) + a;
    var d := WidthText(width) + b;
    Beginnings(width, prec, l, c, rest);
    var f, j := FlagsOf(NoFlags(), fs), i + |fs|;
    FlagsParsed(format, i, fs, d, NoFlags());
    Dropped(format, i, fs, d);
    WidthParsed(format, args, f, j, k, width, b);
    var m := j + |WidthText(width)|;
    Dropped(format, j, WidthText(width), b);
    var s1 := Spec(f, width, 0, m, k);
    PrecisionParsed(format, args, s1, prec, a);
    Dropped(format, m, PrecisionText(prec), a);
    var s2 := ParsePrecision(format, args, s1);
    LengthParsed(format, s2, l, c, rest);
    SpecParts(format, args, i, k);
  }

  lemma NoPrecisionFlag(fs: string)
    ensures !FlagsOf(NoFlags(), fs).precision
  {
  }

  lemma Dropped(format: string, i: nat, a: string, b: string)
    requires i <= |format| && format[i..] == a + b
    ensures i + |a| <= |format| && format[i + |a|..] == b
  {
    assert format[i + |a|..] == format[i..][|a|..];
  }

  lemma SpecParts(format: string, args: seq<Arg>, i: nat, k: nat)
    ensures var (f, j) := ParseFlags(format, i, NoFlags());
            ParseSpec(format, args, i, k)
            == ParseLength(format, ParsePrecision(format, args, ParseWidth(format, args, f, j, k)))
  {
  }

  // ---------------------------------------------------------------- widths

  /** A field of a number is as wide as asked, unless more than 32 characters of zeros are asked for. */
  lemma FieldWideIff(digits: string, negative: bool, base: nat, prec: nat, width: nat, f: Flags)
    requires |digits| <= NTOA_BUFFER_SIZE
    ensures |NumberField(digits, negative, base, prec, width, f)| >= width
            <==> f.left || !f.zeropad || width <= NTOA_BUFFER_SIZE
  {
    hide Filled, FieldWidth;
    var filled, w := Filled(|digits|, negative, prec, width, f), FieldWidth(width, negative, f);
    var number := Unsigned(digits, negative, base, prec, width, f);
    FilledFits(|digits|, negative, prec, width, f);
    HashedLength(Repeat('0', filled - |digits|) + digits, prec, w, base, f);
    if !f.left && f.zeropad {
      FilledWide(|digits|, negative, prec, width, f);
      assert |number| >= filled && |number| <= NTOA_BUFFER_SIZE;
      assert |number| < NTOA_BUFFER_SIZE ==> |Body(digits, negative, base, prec, width, f)| >= |number| + (width - w);
    }
  }

  /** A prefix never takes more room than it finds. */
  lemma HashedLength(text: string, prec: nat, width: nat, base: nat, f: Flags)
    requires |text| <= NTOA_BUFFER_SIZE
    ensures |text| <= |Hashed(text, prec, width, base, f)| <= NTOA_BUFFER_SIZE
  {
  }

  /** Zeros fill a field up to its width, less the place of a sign. */
  lemma FilledWide(len: nat, negative: bool, prec: nat, width: nat, f: Flags)
    requires len <= NTOA_BUFFER_SIZE && !f.left && f.zeropad
    ensures Filled(len, negative, prec, width, f) >= Min(FieldWidth(width, negative, f), NTOA_BUFFER_SIZE)
    ensures width - 1 <= FieldWidth(width, negative, f) <= width
    ensures FieldWidth(width, negative, f) < width ==> negative || f.plus || f.space
  {
  }

  // ---------------------------------------------------------------- printing and reading back

  lemma RenderOne(format: string, args: seq<Arg>, s: Spec)
    requires format != "" && format[0] == '%' && s == ParseSpec(format, args, 1, 0) && s.i + 1 == |format|
    ensures Render(format, args, 0, 0) == FieldText(s, format[s.i], args)
  {
    hide ParseSpec, FieldText;
    var c := format[s.i];
    var n := if TakesArgument(c) then s.k + 1 else s.k;
    assert Render(format, args, s.i + 1, n) == "";
    assert FieldText(s, c, args) + "" == FieldText(s, c, args);
  }

  /** A format that is one specifier. */
  function FormatOf(fs: string, width: nat, prec: Option<nat>, l: string, c: char): string {
    "%" + (fs + (WidthText(width) + (PrecisionText(prec) + (l + ([c] + "")))))
  }

  /** What it says. */
  function SpecOf(fs: string, width: nat, prec: Option<nat>, l: string, c: char): Spec {
    Spec(LengthFlags(FlagsOf(NoFlags(), fs).(precision := prec.Some?), l), width, if prec.Some? then prec.value else 0,
         |FormatOf(fs, width, prec, l, c)| - 1, 0)
  }

  predicate Written(fs: string, width: nat, prec: Option<nat>, l: string) {
    AllFlags(fs) && width < WORD32 && (prec.Some? ==> prec.value < WORD32) && IsLength(l)
  }

  /** It prints its one field. */
  lemma PrintsOne(fs: string, width: nat, prec: Option<nat>, l: string, c: char, args: seq<Arg>)
    requires Written(fs, width, prec, l) && IsConversion(c)
    ensures Render(FormatOf(fs, width, prec, l, c), args, 0, 0) == FieldText(SpecOf(fs, width, prec, l, c), c, args)
  {
    var text := fs + (WidthText(width) + (PrecisionText(prec) + (l + ([c] + ""))));
    var format := FormatOf(fs, width, prec, l, c);
    hide FieldText, ParseSpec, WidthText, PrecisionText, IsLength, LengthFlags, Render, IsConversion;
    assert format[1..] == text;
    SpecifierParsed(format, args, 1, 0, fs, width, prec, l, c, "");
    RenderOne(format, args, ParseSpec(format, args, 1, 0));
  }

  /** A format that is one integer specifier prints a text that reads back as the argument, as the type
      named holds it, exactly when there are digits, and sign and prefix do not get in their way. */
  lemma PrintedReadsBackIff(fs: string, width: nat, prec: Option<nat>, l: string, c: char, v: int)
    requires Written(fs, width, prec, l) && IsInteger(c)
    ensures var s := SpecOf(fs, width, prec, l, c);
            var x := IntegerValue(v, s.flags, c);
            var base := if c == 'x' || c == 'X' then 16 else if c == 'o' then 8 else if c == 'b' then 2 else 10;
            ReadInt(Render(FormatOf(fs, width, prec, l, c), [IntArg(v)], 0, 0), base) == Some(x)
            <==> HasDigits(s, x) && DigitsFit(x, c) && SignFits(s, x) && PrefixHarmless(s, x, c)
  {
    hide Written, ReadInt, IntegerText, IntegerValue, LengthFlags, FormatOf, HasDigits, SignFits, DigitsFit,
      PrefixHarmless, Render;
    PrintsOne(fs, width, prec, l, c, [IntArg(v)]);
    LengthKeepsPrecision(FlagsOf(NoFlags(), fs).(precision := prec.Some?), l);
    SpecifierReadsBackIff(SpecOf(fs, width, prec, l, c), c, v);
  }

  lemma LengthKeepsPrecision(f: Flags, l: string)
    ensures LengthFlags(f, l).precision == f.precision
  {
  }

  /** Without `h` and `hh` an argument of the named type itself is read back, on the same condition. */
  lemma ArgumentReadsBackIff(fs: string, width: nat, prec: Option<nat>, l: string, c: char, v: int)
    requires Written(fs, width, prec, l) && IsInteger(c) && l != "h" && l != "hh"
    requires var word := if l == "" then WORD32 else WORD64;
             if IsSigned(c) then -(word / 2) <= v < word / 2 else 0 <= v < word
    ensures var s := SpecOf(fs, width, prec, l, c);
            var base := if c == 'x' || c == 'X' then 16 else if c == 'o' then 8 else if c == 'b' then 2 else 10;
            ReadInt(Render(FormatOf(fs, width, prec, l, c), [IntArg(v)], 0, 0), base) == Some(v)
            <==> HasDigits(s, v) && DigitsFit(v, c) && SignFits(s, v) && PrefixHarmless(s, v, c)
  {
    hide ReadInt, FormatOf, Render, HasDigits, DigitsFit, SignFits, PrefixHarmless, IntegerValue;
    PrintedReadsBackIff(fs, width, prec, l, c, v);
    ValueKept(v, SpecOf(fs, width, prec, l, c).flags, c);
  }

  /** What is printed has the digits its precision asks for exactly when the value has as many, or the field
      is not left-justified and at most 32 are asked for, a prefix apart. */
  lemma PrintedMeetsPrecisionIff(fs: string, width: nat, prec: nat, l: string, c: char, v: int)
    requires Written(fs, width, Some(prec), l) && IsInteger(c)
    ensures var s := SpecOf(fs, width, Some(prec), l, c);
            var base := if c == 'x' || c == 'X' then 16 else if c == 'o' then 8 else if c == 'b' then 2 else 10;
            DigitsShown(Render(FormatOf(fs, width, Some(prec), l, c), [IntArg(v)], 0, 0), base) >= prec
            <==> PrecisionMet(s, IntegerValue(v, s.flags, c), c)
  {
    hide Written, DigitsShown, IntegerText, IntegerValue, LengthFlags, FormatOf, PrecisionMet, Render;
    PrintsOne(fs, width, Some(prec), l, c, [IntArg(v)]);
    LengthKeepsPrecision(FlagsOf(NoFlags(), fs).(precision := true), l);
    PrecisionMetIff(SpecOf(fs, width, Some(prec), l, c), c, v);
  }

  /** A left-justified number comes out the same whatever precision is written. */
  lemma PrintedLeftIgnoresPrecision(fs: string, width: nat, p: nat, q: nat, l: string, c: char, v: int)
    requires Written(fs, width, Some(p), l) && Written(fs, width, Some(q), l) && IsInteger(c) && '-' in fs
    ensures Render(FormatOf(fs, width, Some(p), l, c), [IntArg(v)], 0, 0)
            == Render(FormatOf(fs, width, Some(q), l, c), [IntArg(v)], 0, 0)
  {
    hide Written, IntegerText, IntegerValue, FormatOf, Render;
    PrintsOne(fs, width, Some(p), l, c, [IntArg(v)]);
    PrintsOne(fs, width, Some(q), l, c, [IntArg(v)]);
    var s, t := SpecOf(fs, width, Some(p), l, c), SpecOf(fs, width, Some(q), l, c);
    var x := IntegerValue(v, s.flags, c);
    LeftIgnoresPrecision(x, s, c, q);
    PlaceOfSpec(x, s.(prec := q), t, c);
  }

  /** Where a specifier stands does not matter. */
  lemma PlaceOfSpec(v: int, s: Spec, t: Spec, c: char)
    requires s.flags == t.flags && s.width == t.width && s.prec == t.prec
    ensures IntegerText(v, s, c) == IntegerText(v, t, c)
  {
  }

  /** What is printed is as wide as asked, unless it is to be filled with zeros beyond 32 characters. */
  lemma PrintedWideIff(fs: string, width: nat, prec: Option<nat>, l: string, c: char, v: int)
    requires Written(fs, width, prec, l) && IsInteger(c)
    ensures |Render(FormatOf(fs, width, prec, l, c), [IntArg(v)], 0, 0)| >= width
            <==> '-' in fs || '0' !in fs || prec.Some? || width <= NTOA_BUFFER_SIZE
  {
    hide Written, NumberField, IntegerValue, FormatOf, Render, DigitsOf;
    PrintsOne(fs, width, prec, l, c, [IntArg(v)]);
    var s := SpecOf(fs, width, prec, l, c);
    var x, f := IntegerValue(v, s.flags, c), IntegerFlags(s.flags, c);
    FieldWideIff(DigitsOf(Abs(x), Base(c), f), x < 0, Base(c), s.prec, width, f.(hash := f.hash && Abs(x) != 0));
  }
}
