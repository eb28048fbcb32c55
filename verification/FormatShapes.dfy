/** What the printed text looks like: which characters stand where, by the conversion character. */
module FormatShapes {
  import opened Options
  import opened Words
  import opened Arith
  import opened Sequences
  import opened Format
  import opened FormatLaws
  import opened FormatSpecs

  // ---------------------------------------------------------------- the whole format

  lemma PlainStep(format: string, args: seq<Arg>, i: nat, k: nat)
    requires i < |format| && format[i] != '%'
    ensures Render(format, args, i, k) == [format[i]] + Render(format, args, i + 1, k)
  {
    hide FieldText, ParseSpec, TakesArgument;
  }

  /** Characters before the next `%` come out as they are. */
  lemma {:induction false} PlainText(format: string, args: seq<Arg>, i: nat, n: nat, k: nat)
    requires i <= n <= |format| && forall j :: i <= j < n ==> format[j] != '%'
    ensures Render(format, args, i, k) == format[i..n] + Render(format, args, n, k)
    decreases n - i
  {
    if i < n {
      hide *;
      PlainStep(format, args, i, k);
      PlainText(format, args, i + 1, n, k);
      assert format[i..n] == [format[i]] + format[i + 1..n];
    } else {
      hide *;
      assert format[i..n] == "" && "" + Render(format, args, n, k) == Render(format, args, n, k);
    }
  }

  /** What a specifier that is written out says, when `k` arguments have been used before it. */
  function SpecAt(fs: string, width: nat, prec: Option<nat>, l: string, i: nat, k: nat): Spec {
    var f := LengthFlags(FlagsOf(NoFlags(), fs).(precision := prec.Some?), l);
    Spec(f, width, if prec.Some? then prec.value else 0, i, k)
  }

  /** A specifier anywhere in a format prints its field of the next argument; `%%` and a character that is no
      conversion take none. */
  lemma PrintsNext(format: string, args: seq<Arg>, i: nat, k: nat,
                   fs: string, width: nat, prec: Option<nat>, l: string, c: char, rest: string)
    requires i < |format| && Written(fs, width, prec, l) && IsConversion(c)
    requires format[i..] == "%" + (fs + (WidthText(width) + (PrecisionText(prec) + (l + ([c] + rest)))))
    ensures |rest| <= |format|
    ensures var n := if c == 'd' || c == 'i' || c == 'u' || c == 'x' || c == 'X' || c == 'o' || c == 'b' || c == 'c'
                        || c == 's' || c == 'p' then k + 1 else k;
            Render(format, args, i, k)
            == FieldText(SpecAt(fs, width, prec, l, |format| - |rest| - 1, k), c, args)
               + Render(format, args, |format| - |rest|, n)
  {
    var text := fs + (WidthText(width) + (PrecisionText(prec) + (l + ([c] + rest))));
    hide *;
    Percent(format, i, text);
    ParsedAt(format, args, i + 1, k, fs, width, prec, l, c, rest);
    Takes(c);
    SpecAtFields(fs, width, prec, l, |format| - |rest| - 1, k);
    RenderSpecifier(format, args, i, k, SpecAt(fs, width, prec, l, |format| - |rest| - 1, k));
  }

  lemma ParsedAt(format: string, args: seq<Arg>, i: nat, k: nat,
                 fs: string, width: nat, prec: Option<nat>, l: string, c: char, rest: string)
    requires i <= |format| && Written(fs, width, prec, l) && IsConversion(c)
    requires format[i..] == fs + (WidthText(width) + (PrecisionText(prec) + (l + ([c] + rest))))
    ensures |rest| < |format| && format[|format| - |rest| - 1] == c
    ensures ParseSpec(format, args, i, k) == SpecAt(fs, width, prec, l, |format| - |rest| - 1, k)
  {
    var j := |format| - |rest| - 1;
    EndOfSpecifier(format, i, fs, WidthText(width), PrecisionText(prec), l, c, rest);
    assert AllFlags(fs) && width < WORD32 && (prec.Some? ==> prec.value < WORD32) && IsLength(l);
    hide *;
    SpecifierParsed(format, args, i, k, fs, width, prec, l, c, rest);
    SpecAtFields(fs, width, prec, l, j, k);
    SameSpec(ParseSpec(format, args, i, k), SpecAt(fs, width, prec, l, j, k));
    AtIs(format, j);
  }

  lemma SpecAtFields(fs: string, width: nat, prec: Option<nat>, l: string, i: nat, k: nat)
    ensures var s := SpecAt(fs, width, prec, l, i, k);
            && s.flags == LengthFlags(FlagsOf(NoFlags(), fs).(precision := prec.Some?), l)
            && s.width == width && s.prec == (if prec.Some? then prec.value else 0) && s.i == i && s.k == k
  {
  }

  lemma SameSpec(s: Spec, t: Spec)
    requires s.flags == t.flags && s.width == t.width && s.prec == t.prec && s.i == t.i && s.k == t.k
    ensures s == t
  {
  }

  lemma AtIs(format: string, i: nat)
    requires i < |format|
    ensures At(format, i) == format[i]
  {
  }

  lemma Percent(format: string, i: nat, text: string)
    requires i < |format| && format[i..] == "%" + text
    ensures format[i] == '%' && format[i + 1..] == text
  {
    assert format[i..][0] == '%' && format[i..][1..] == format[i + 1..];
  }

  lemma EndOfSpecifier(format: string, i: nat, fs: string, w: string, p: string, l: string, c: char, rest: string)
    requires i <= |format| && format[i..] == fs + (w + (p + (l + ([c] + rest))))
    ensures i + |fs| + |w| + |p| + |l| == |format| - |rest| - 1
  {
  }

  lemma Takes(c: char)
    ensures TakesArgument(c) == (c == 'd' || c == 'i' || c == 'u' || c == 'x' || c == 'X' || c == 'o' || c == 'b'
                                 || c == 'c' || c == 's' || c == 'p')
  {
  }

  lemma RenderSpecifier(format: string, args: seq<Arg>, i: nat, k: nat, s: Spec)
    requires i < |format| && format[i] == '%' && ParseSpec(format, args, i + 1, k) == s && s.i < |format|
    ensures Render(format, args, i, k)
            == FieldText(s, format[s.i], args)
               + Render(format, args, s.i + 1, if TakesArgument(format[s.i]) then s.k + 1 else s.k)
  {
    hide FieldText, ParseSpec;
  }

  /** The same for what is covered: a written specifier is, unless it is for floating point, if its argument is
      there and a string has no NUL. */
  lemma SupportedNext(format: string, args: seq<Arg>, i: nat, k: nat,
                      fs: string, width: nat, prec: Option<nat>, l: string, c: char, rest: string)
    requires i < |format| && Written(fs, width, prec, l) && IsConversion(c) && c !in "fFeEgG"
    requires format[i..] == "%" + (fs + (WidthText(width) + (PrecisionText(prec) + (l + ([c] + rest)))))
    requires HasArgument(c, args, k)
    ensures |rest| <= |format|
    ensures Supported(format, args, i, k)
            <==> Supported(format, args, |format| - |rest|, if TakesOne(c) then k + 1 else k)
  {
    hide *;
    Percent(format, i, fs + (WidthText(width) + (PrecisionText(prec) + (l + ([c] + rest)))));
    ParsedAt(format, args, i + 1, k, fs, width, prec, l, c, rest);
    NoStars(format, args, i + 1, k, fs, width, prec, l, c, rest);
    var s := SpecAt(fs, width, prec, l, |format| - |rest| - 1, k);
    SpecAtFields(fs, width, prec, l, |format| - |rest| - 1, k);
    SupportedAt(format, args, i, k, s, c);
  }

  lemma SupportedAt(format: string, args: seq<Arg>, i: nat, k: nat, s: Spec, c: char)
    requires i < |format| && format[i] == '%' && s == ParseSpec(format, args, i + 1, k) && s.i < |format|
    requires format[s.i] == c && s.k == k && StarsFit(format, args, i + 1, k)
    requires c !in "fFeEgG" && HasArgument(c, args, k)
    ensures Supported(format, args, i, k) <==> Supported(format, args, s.i + 1, if TakesOne(c) then k + 1 else k)
  {
    Kinds(c);
    hide *;
    if TakesArgument(c) {
      FitsArgument(c, args, k);
    }
    SpecifierSupported(format, args, i + 1, k, s);
    SupportedStep(format, args, i, k, s);
  }

  predicate TakesOne(c: char) { c in "diuxXobcsp" }

  /** The argument that a conversion takes: a string without NUL, or a number. */
  predicate HasArgument(c: char, args: seq<Arg>, k: nat) {
    && (c in "diuxXobcp" ==> k < |args| && args[k].IntArg?)
    && (c == 's' ==> k < |args| && args[k].StrArg? && '\0' !in args[k].s)
  }

  lemma FitsArgument(c: char, args: seq<Arg>, k: nat)
    requires HasArgument(c, args, k) && TakesArgument(c)
    ensures k < |args| && if c == 's' then args[k].StrArg? && '\0' !in args[k].s else args[k].IntArg?
  {
    Kinds(c);
  }

  lemma Kinds(c: char)
    ensures TakesArgument(c) <==> TakesOne(c)
    ensures TakesArgument(c) <==> c in "diuxXobcp" || c == 's'
    ensures IsFloat(c) <==> c in "fFeEgG"
    ensures c == 's' ==> c !in "diuxXobcp"
  {
    assert "diuxXobcsp" == ['d', 'i', 'u', 'x', 'X', 'o', 'b', 'c', 's', 'p'];
    assert "diuxXobcp" == ['d', 'i', 'u', 'x', 'X', 'o', 'b', 'c', 'p'];
    assert "fFeEgG" == ['f', 'F', 'e', 'E', 'g', 'G'];
  }

  lemma SpecifierSupported(format: string, args: seq<Arg>, i: nat, k: nat, s: Spec)
    requires s == ParseSpec(format, args, i, k) && s.i < |format| && !IsFloat(format[s.i])
    requires StarsFit(format, args, i, k)
    requires TakesArgument(format[s.i]) ==>
               s.k < |args|
               && if format[s.i] == 's' then args[s.k].StrArg? && '\0' !in args[s.k].s else args[s.k].IntArg?
    ensures SpecSupported(format, args, i, k)
  {
    hide ParseSpec, ParseFlags, ParseWidth, StarHasInt;
  }

  lemma SupportedStep(format: string, args: seq<Arg>, i: nat, k: nat, s: Spec)
    requires i < |format| && format[i] == '%' && s == ParseSpec(format, args, i + 1, k) && s.i < |format|
    requires SpecSupported(format, args, i + 1, k)
    ensures Supported(format, args, i, k)
            <==> Supported(format, args, s.i + 1, if TakesArgument(format[s.i]) then s.k + 1 else s.k)
  {
    hide ParseSpec, SpecSupported;
  }

  predicate StarsFit(format: string, args: seq<Arg>, i: nat, k: nat) {
    var (f, j) := ParseFlags(format, i, NoFlags());
    var w := ParseWidth(format, args, f, j, k);
    StarHasInt(format, args, j, k) && (At(format, w.i) == '.' ==> StarHasInt(format, args, w.i + 1, w.k))
  }

  lemma StarsFrom(format: string, args: seq<Arg>, i: nat, k: nat, f: Flags, j: nat, w: Spec)
    requires ParseFlags(format, i, NoFlags()) == (f, j) && ParseWidth(format, args, f, j, k) == w
    requires At(format, j) != '*' && (At(format, w.i) == '.' ==> At(format, w.i + 1) != '*')
    ensures StarsFit(format, args, i, k)
  {
    hide ParseFlags, ParseWidth;
  }

  lemma NoStars(format: string, args: seq<Arg>, i: nat, k: nat,
                fs: string, width: nat, prec: Option<nat>, l: string, c: char, rest: string)
    requires i <= |format| && Written(fs, width, prec, l) && IsConversion(c)
    requires format[i..] == fs + (WidthText(width) + (PrecisionText(prec) + (l + ([c] + rest))))
    ensures StarsFit(format, args, i, k)
  {
    var a := l + ([c] + rest);
    var b := PrecisionText(prec) + a;
    var d := WidthText(width) + b;
    assert AllFlags(fs) && width < WORD32 && (prec.Some? ==> prec.value < WORD32) && IsLength(l);
    hide *;
    Beginnings(width, prec, l, c, rest);
    NoStarFirst(width, prec, a);
    PartsParsed(format, args, i, k, fs, width, b);
    var j, m := i + |fs|, i + |fs| + |WidthText(width)|;
    FirstAt(format, j, d);
    FirstAt(format, m, b);
    if b[0] == '.' {
      SecondAt(format, m, b);
    }
    StarsFrom(format, args, i, k, FlagsOf(NoFlags(), fs), j, Spec(FlagsOf(NoFlags(), fs), width, 0, m, k));
  }

  lemma PartsParsed(format: string, args: seq<Arg>, i: nat, k: nat, fs: string, width: nat, b: string)
    requires i <= |format| && AllFlags(fs) && width < WORD32 && format[i..] == fs + (WidthText(width) + b)
    requires b != "" && !IsDigit(b[0]) && b[0] != '*' && !IsFlag((WidthText(width) + b)[0])
    ensures var f, j := FlagsOf(NoFlags(), fs), i + |fs|;
            && j + |WidthText(width)| <= |format|
            && ParseFlags(format, i, NoFlags()) == (f, j) && format[j..] == WidthText(width) + b
            && ParseWidth(format, args, f, j, k) == Spec(f, width, 0, j + |WidthText(width)|, k)
            && format[j + |WidthText(width)|..] == b
  {
    hide *;
    var d := WidthText(width) + b;
    FlagsParsed(format, i, fs, d, NoFlags());
    Dropped(format, i, fs, d);
    WidthParsed(format, args, FlagsOf(NoFlags(), fs), i + |fs|, k, width, b);
    Dropped(format, i + |fs|, WidthText(width), b);
  }

  lemma SecondAt(format: string, i: nat, t: string)
    requires i <= |format| && format[i..] == t && |t| > 1
    ensures At(format, i + 1) == t[1]
  {
    assert format[i..][1] == format[i + 1];
  }

  lemma FirstAt(format: string, i: nat, t: string)
    requires i <= |format| && format[i..] == t && t != ""
    ensures At(format, i) == t[0]
  {
    assert format[i..][0] == format[i];
  }

  lemma NoStarFirst(width: nat, prec: Option<nat>, a: string)
    requires a != "" && a[0] != '*' && a[0] != '.'
    ensures var b := PrecisionText(prec) + a;
            && (WidthText(width) + b)[0] != '*'
            && b != "" && (b[0] == '.' ==> |b| > 1 && b[1] != '*')
  {
    hide Digits;
    var b := PrecisionText(prec) + a;
    if width > 0 {
      FirstDigit(width);
      assert (WidthText(width) + b)[0] == Digits(width, 10, false)[0];
    } else {
      assert WidthText(width) + b == b;
    }
    if prec.None? {
      assert b == a;
    } else {
      ValueOfDigits(prec.value, 10, false);
      var d := Digits(prec.value, 10, false);
      assert b[1] == d[0] && DigitValue(d[0]) < 10;
    }
  }

  // ---------------------------------------------------------------- stars

  /** An `int` from an argument. */
  predicate IsInt32(w: int, v: int) { -0x8000_0000 <= w < 0x8000_0000 && (w - v) % 0x1_0000_0000 == 0 }

  lemma Int32(v: int)
    ensures IsInt32(Signed(v, WORD32), v)
  {
    Congruent(v, Signed(v, WORD32), 0x1_0000_0000);
  }

  /** A star takes the width from the next argument; a negative one asks for a left-justified field. */
  lemma StarWidth(format: string, args: seq<Arg>, f: Flags, i: nat, k: nat) returns (w: int)
    requires i < |format| && format[i] == '*' && k < |args| && args[k].IntArg?
    ensures IsInt32(w, args[k].v)
    ensures ParseWidth(format, args, f, i, k)
            == if w < 0 then Spec(f.(left := true), -w, 0, i + 1, k + 1) else Spec(f, w, 0, i + 1, k + 1)
  {
    w := Signed(args[k].v, WORD32);
    Int32(args[k].v);
  }

  /** A star behind the dot takes the precision from the next argument; a negative one counts as 0. */
  lemma StarPrecision(format: string, args: seq<Arg>, s: Spec) returns (p: int)
    requires s.i + 1 < |format| && format[s.i] == '.' && format[s.i + 1] == '*' && s.k < |args| && args[s.k].IntArg?
    ensures IsInt32(p, args[s.k].v)
    ensures ParsePrecision(format, args, s)
            == s.(flags := s.flags.(precision := true), prec := if p > 0 then p else 0, i := s.i + 2, k := s.k + 1)
  {
    p := Signed(args[s.k].v, WORD32);
    Int32(args[s.k].v);
  }

  // ---------------------------------------------------------------- characters and strings

  /** A text of spaces. */
  function Spaces(n: int): (r: string)
    ensures |r| == (if n > 0 then n else 0) && forall i :: 0 <= i < |r| ==> r[i] == ' '
  {
    Repeat(' ', if n > 0 then n else 0)
  }

  /** `%c` prints the low byte of its argument, at the left or the right end of its field. */
  lemma CharacterPrinted(fs: string, width: nat, prec: Option<nat>, l: string, i: nat, k: nat, args: seq<Arg>)
    requires k < |args| && args[k].IntArg?
    ensures var text, pad := FieldText(SpecAt(fs, width, prec, l, i, k), 'c', args), Spaces(width - 1);
            text == if '-' in fs then [(args[k].v % 0x100) as char] + pad else pad + [(args[k].v % 0x100) as char]
  {
    hide LengthFlags, FlagsOf;
    LeftOf(fs, prec, l);
  }

  /** `%s` prints its argument, as far as the precision says, at the left or the right end of its field. */
  lemma StringPrinted(fs: string, width: nat, prec: Option<nat>, l: string, i: nat, k: nat, args: seq<Arg>)
    requires k < |args| && args[k].StrArg?
    ensures var text := FieldText(SpecAt(fs, width, prec, l, i, k), 's', args);
            var s := if prec.Some? && prec.value < |args[k].s| then args[k].s[..prec.value] else args[k].s;
            text == if '-' in fs then s + Spaces(width - |s|) else Spaces(width - |s|) + s
  {
    hide LengthFlags, FlagsOf;
    LeftOf(fs, prec, l);
  }

  lemma LeftOf(fs: string, prec: Option<nat>, l: string)
    ensures var f := LengthFlags(FlagsOf(NoFlags(), fs).(precision := prec.Some?), l);
            && f.left == ('-' in fs) && f.precision == prec.Some? && f.zeropad == ('0' in fs)
            && f.plus == ('+' in fs) && f.space == (' ' in fs) && f.hash == ('#' in fs) && !f.upper
  {
  }

  /** A character that is no conversion stands for itself, `%%` for `%`. */
  lemma OtherPrinted(s: Spec, c: char, args: seq<Arg>)
    requires c !in "diuxXobcsp"
    ensures FieldText(s, c, args) == [c]
  {
    assert "diuxXobcsp" == ['d', 'i', 'u', 'x', 'X', 'o', 'b', 'c', 's', 'p'];
  }

  // ---------------------------------------------------------------- integers

  /** The value printed is the argument modulo the width of its type, in the range of that type: 64 bits with
      `l`, `ll`, `t`, `j` or `z`, 16 with `h`, 8 and no sign with `hh`, 32 otherwise. */
  lemma ValueInType(fs: string, width: nat, prec: Option<nat>, l: string, c: char, i: nat, k: nat, v: int)
    requires IsLength(l)
    ensures var x := IntegerValue(v, SpecAt(fs, width, prec, l, i, k).flags, c);
            var word := if l == "" then 0x1_0000_0000 else if l == "h" then 0x1_0000 else if l == "hh" then 0x100
                        else 0x1_0000_0000_0000_0000;
            && (x - v) % word == 0
            && if (c == 'd' || c == 'i') && l != "hh" then -word / 2 <= x < word / 2 else 0 <= x < word
  {
    var f := SpecAt(fs, width, prec, l, i, k).flags;
    var word := if l == "" then 0x1_0000_0000 else if l == "h" then 0x1_0000 else if l == "hh" then 0x100
                else 0x1_0000_0000_0000_0000;
    assert f.long == (l == "l" || l == "ll" || l == "t" || l == "j" || l == "z");
    assert f.chr == (l == "hh") && f.short == (l == "h" || l == "hh");
    var x := IntegerValue(v, f, c);
    assert x == v % word || x == v % word - word;
    Congruent(v, x, word);
  }

  lemma Congruent(v: int, x: int, word: nat)
    requires 0 < word && (x == v % word || x == v % word - word)
    ensures (x - v) % word == 0
  {
    var q := v / word;
    assert v == q * word + v % word;
    var p := if x == v % word then -q else -q - 1;
    Distributes(-q, -1, word);
    DivModUnique(x - v, word, p, 0);
  }

  /** The digits of a number are in one case. */
  predicate InCase(s: string, upper: bool) {
    forall i :: 0 <= i < |s| ==> if upper then !('a' <= s[i] <= 'z') else !('A' <= s[i] <= 'Z')
  }

  lemma EndInCase(s: string, r: nat, upper: bool)
    requires r < 16
    ensures InCase("", upper)
    ensures InCase(s, upper) ==> InCase(s + [DigitChar(r, upper)], upper)
  {
  }

  lemma {:induction false} DigitsInCase(v: nat, base: nat, upper: bool)
    requires 2 <= base <= 16
    ensures InCase(Digits(v, base, upper), upper)
  {
    hide *;
    var q, r, high := DigitsSplit(v, base, upper);
    if q != 0 {
      DigitsInCase(q, base, upper);
    }
    EndInCase(high, r, upper);
  }

  lemma UnsignedInCase(digits: string, negative: bool, base: nat, prec: nat, width: nat, f: Flags)
    requires InCase(digits, f.upper) && !(f.upper && base == 2)
    ensures InCase(Unsigned(digits, negative, base, prec, width, f), f.upper)
  {
    hide Filled, FieldWidth, Yielded;
  }

  lemma FieldInCase(digits: string, negative: bool, base: nat, prec: nat, width: nat, f: Flags)
    requires InCase(digits, f.upper) && !(f.upper && base == 2)
    ensures InCase(NumberField(digits, negative, base, prec, width, f), f.upper)
  {
    UnsignedInCase(digits, negative, base, prec, width, f);
    hide Unsigned;
  }

  /** `%X` prints capitals, every other integer conversion small letters. */
  lemma IntegerInCase(v: int, fs: string, width: nat, prec: Option<nat>, l: string, i: nat, k: nat, c: char)
    requires IsInteger(c)
    ensures InCase(IntegerText(v, SpecAt(fs, width, prec, l, i, k), c), c == 'X')
  {
    var s := SpecAt(fs, width, prec, l, i, k);
    LeftOf(fs, prec, l);
    DigitsInCase(Abs(v), Base(c), c == 'X');
    hide Digits, NumberField;
    var f := IntegerFlags(s.flags, c);
    FieldInCase(DigitsOf(Abs(v), Base(c), f), v < 0, Base(c), s.prec, width, f.(hash := f.hash && Abs(v) != 0));
  }

  /** A field of an integer is spaces, a sign, the number and spaces.  The spaces stand on the right exactly in
      a left-justified field; there are none where zeros fill the field.  The sign is the one asked for, if
      the number leaves it room. */
  lemma IntegerShape(x: int, fs: string, width: nat, prec: Option<nat>, l: string, i: nat, k: nat, c: char)
    returns (before: string, sign: string, number: string, after: string)
    requires IsInteger(c)
    ensures IntegerText(x, SpecAt(fs, width, prec, l, i, k), c) == before + (sign + (number + after))
    ensures var pad := width - |sign| - |number|;
            && before == (if '-' in fs || ('0' in fs && prec.None?) then "" else Spaces(pad))
            && after == if '-' in fs then Spaces(pad) else ""
    ensures sign == if |number| >= 32 then "" else if x < 0 then "-"
                    else if (c == 'd' || c == 'i') && '+' in fs then "+"
                    else if (c == 'd' || c == 'i') && ' ' in fs then " " else ""
    ensures var f := NumberFlags(SpecAt(fs, width, prec, l, i, k), x, c);
            number == Unsigned(DigitsOf(Abs(x), Base(c), f), x < 0, Base(c), if prec.Some? then prec.value else 0,
                               width, f)
  {
    var s := SpecAt(fs, width, prec, l, i, k);
    LeftOf(fs, prec, l);
    var f := NumberFlags(s, x, c);
    SameDigits(Abs(x), Base(c), IntegerFlags(s.flags, c), f);
    hide Unsigned, DigitsOf, FlagsOf, LengthFlags, NumberField;
    before, sign, number, after := FieldShape(DigitsOf(Abs(x), Base(c), f), x < 0, Base(c), s.prec, width, f);
  }

  lemma FieldShape(digits: string, negative: bool, base: nat, prec: nat, width: nat, f: Flags)
    returns (before: string, sign: string, number: string, after: string)
    ensures NumberField(digits, negative, base, prec, width, f) == before + (sign + (number + after))
    ensures before == (if f.left || f.zeropad then "" else Spaces(width - |sign| - |number|))
    ensures after == if f.left then Spaces(width - |sign| - |number|) else ""
    ensures sign == if |number| >= 32 then "" else if negative then "-" else if f.plus then "+"
                    else if f.space then " " else ""
    ensures number == Unsigned(digits, negative, base, prec, width, f)
  {
    hide Unsigned;
    number := Unsigned(digits, negative, base, prec, width, f);
    sign := Sign(|number|, negative, f);
    var pad := width - |sign| - |number|;
    before := if f.left || f.zeropad then "" else Spaces(pad);
    after := if f.left then Spaces(pad) else "";
    var body := sign + number;
    assert body + after == sign + (number + after);
    assert before + (body + after) == Padded(body, width, f);
  }

  lemma SameDigits(v: nat, base: nat, f: Flags, g: Flags)
    requires 2 <= base <= 16 && f.precision == g.precision && f.upper == g.upper
    ensures DigitsOf(v, base, f) == DigitsOf(v, base, g)
  {
  }

  /** The number without its prefix, which only `#` asks for: the digits of the value, none for 0 with a
      precision and the last 32 of longer ones, behind as many zeros as the precision or the zero flag ask for,
      up to 32 characters. */
  lemma NumberShape(x: int, fs: string, width: nat, prec: Option<nat>, l: string, i: nat, k: nat, c: char)
    requires IsInteger(c)
    ensures var s := SpecAt(fs, width, prec, l, i, k);
            var f := NumberFlags(s, x, c);
            var d := if prec.Some? && x == 0 then "" else Kept(Digits(Abs(x), Base(c), c == 'X'));
            var p := if prec.Some? then prec.value else 0;
            var signed := x < 0 || ((c == 'd' || c == 'i') && ('+' in fs || ' ' in fs));
            var w := if '0' !in fs || prec.Some? then 0 else if signed && width > 0 then width - 1 else width;
            var len := if '-' in fs then |d| else Max(|d|, Min(32, Max(p, w)));
            Unsigned(DigitsOf(Abs(x), Base(c), f), x < 0, Base(c), p, width, f.(hash := false))
            == Repeat('0', len - |d|) + d
    ensures NumberFlags(SpecAt(fs, width, prec, l, i, k), x, c).hash
            <==> '#' in fs && x != 0 && (c == 'x' || c == 'X' || c == 'o' || c == 'b')
  {
    LeftOf(fs, prec, l);
    hide FlagsOf, LengthFlags, Digits;
  }

  /** The number an integer conversion prints of a value, with a prefix or without. */
  function Numeral(x: nat, s: Spec, c: char, hash: bool): string {
    var f := NumberFlags(s, x, c);
    Unsigned(DigitsOf(x, Base(c), f), false, Base(c), s.prec, s.width, f.(hash := hash))
  }

  function IntegerPrefix(c: char): string {
    if c == 'x' then "0x" else if c == 'X' then "0X" else if c == 'b' then "0b" else "0"
  }

  predicate WholeWhen(number: string, prefix: string, bare: string, fits: bool) {
    number == prefix + bare <==> |prefix| + |bare| <= 32 && fits
  }

  /** The prefix of a number that is not 0 stands whole in front of all of the number exactly when there is
      room for both in 32 characters, and the number is not just as long as the field, or a precision is
      given. */
  lemma PrefixShapeIff(x: nat, fs: string, width: nat, prec: Option<nat>, l: string, i: nat, k: nat, c: char)
    requires x > 0 && '#' in fs && (c == 'x' || c == 'X' || c == 'o' || c == 'b')
    ensures var s := SpecAt(fs, width, prec, l, i, k);
            && NumberFlags(s, x, c).hash
            && WholeWhen(Numeral(x, s, c, true), IntegerPrefix(c), Numeral(x, s, c, false),
                         prec.Some? || |Numeral(x, s, c, false)| != width)
  {
    LeftOf(fs, prec, l);
    var s := SpecAt(fs, width, prec, l, i, k);
    var f := NumberFlags(s, x, c);
    NumberFlagsAre(s, x, c);
    SomeDigits(x, Base(c), f);
    assert f.upper == (c == 'X') && f == f.(hash := true);
    assert IntegerPrefix(c) == "0" + Letter(Base(c), f);
    hide FlagsOf, LengthFlags, Digits, DigitsOf, Unsigned, NumberFlags, WholeWhen, IntegerPrefix, Letter;
    PrefixOfField(DigitsOf(x, Base(c), f), s.prec, width, Base(c), f);
  }

  lemma PrefixOfField(digits: string, prec: nat, width: nat, base: nat, f: Flags)
    requires f.hash && !f.plus && !f.space && |digits| > 0 && (f.precision || prec == 0)
    ensures var number := Unsigned(digits, false, base, prec, width, f);
            var bare := Unsigned(digits, false, base, prec, width, f.(hash := false));
            WholeWhen(number, "0" + Letter(base, f), bare, f.precision || |bare| != width)
  {
    var g := f.(hash := false);
    var bare := Repeat('0', Filled(|digits|, false, prec, width, f) - |digits|) + digits;
    NoHash(bare, prec, width, base, g);
    assert Filled(|digits|, false, prec, width, g) == Filled(|digits|, false, prec, width, f);
    hide Hashed, Filled;
    WholeIff(bare, prec, width, base, f);
  }

  lemma NoHash(text: string, prec: nat, width: nat, base: nat, f: Flags)
    requires !f.hash
    ensures forall w: nat :: Hashed(text, prec, w, base, f) == text
  {
  }

  lemma SomeDigits(x: nat, base: nat, f: Flags)
    requires 2 <= base <= 16 && x > 0
    ensures |DigitsOf(x, base, f)| > 0
  {
  }

  lemma WholeIff(text: string, prec: nat, width: nat, base: nat, f: Flags)
    requires f.hash && |text| > 0
    ensures var prefix := "0" + Letter(base, f);
            Hashed(text, prec, width, base, f) == prefix + text
            <==> |prefix| + |text| <= 32 && (f.precision || (|text| != prec && |text| != width))
  {
    var prefix := "0" + Letter(base, f);
    var n := Yielded(|text|, prec, width, base, f);
    var rest := text[n..];
    if n == 0 {
      assert rest == text;
    }
  }

  // ---------------------------------------------------------------- pointers

  /** `%p` prints capitals. */
  lemma PointerInCase(fs: string, width: nat, prec: Option<nat>, l: string, i: nat, k: nat, args: seq<Arg>)
    requires k < |args| && args[k].IntArg?
    ensures InCase(FieldText(SpecAt(fs, width, prec, l, i, k), 'p', args), true)
  {
    var s := SpecAt(fs, width, prec, l, i, k);
    var x, f := args[k].v % WORD64, s.flags.(zeropad := true, upper := true);
    DigitsInCase(x, 16, true);
    hide Digits, NumberField, FlagsOf, LengthFlags;
    FieldInCase(DigitsOf(x, 16, f), false, 16, s.prec, 16, f.(hash := f.hash && x != 0));
  }

  /** The digits of an address behind zeros, to sixteen characters with the sign or to as many digits as the
      precision asks for, or in front of spaces. */
  function AddressField(d: string, prec: nat, left: bool, plus: bool, space: bool): string {
    var sign := if prec >= 32 && !left then "" else if plus then "+" else if space then " " else "";
    if left then sign + d + Spaces(16 - |sign| - |d|)
    else sign + Repeat('0', Minus(Max(16 - |sign|, Min(32, prec)), |d|)) + d
  }

  lemma FieldOfAddress(d: string, prec: nat, f: Flags)
    requires |d| <= 16 && f.zeropad && !f.hash
    ensures NumberField(d, false, 16, prec, 16, f) == AddressField(d, prec, f.left, f.plus, f.space)
  {
    if f.left {
      assert Repeat('0', 0) + d == d;
    }
  }

  /** `%p` without a prefix. */
  lemma PointerPrinted(fs: string, width: nat, prec: Option<nat>, l: string, i: nat, k: nat, args: seq<Arg>)
    requires k < |args| && args[k].IntArg? && '#' !in fs
    ensures var x := args[k].v % 0x1_0000_0000_0000_0000;
            FieldText(SpecAt(fs, width, prec, l, i, k), 'p', args)
            == AddressField(if prec.Some? && x == 0 then "" else Digits(x, 16, true),
                            if prec.Some? then prec.value else 0, '-' in fs, '+' in fs, ' ' in fs)
  {
    var s, x := SpecAt(fs, width, prec, l, i, k), args[k].v % 0x1_0000_0000_0000_0000;
    var f := s.flags.(zeropad := true, upper := true, hash := false);
    LeftOf(fs, prec, l);
    ShortAddress(x);
    FieldOfAddress(if prec.Some? && x == 0 then "" else Digits(x, 16, true), s.prec, f);
    hide FlagsOf, LengthFlags, Digits, NumberField, AddressField;
  }

  lemma ShortAddress(x: nat)
    requires x < 0x1_0000_0000_0000_0000
    ensures |Digits(x, 16, true)| <= 16 && Kept(Digits(x, 16, true)) == Digits(x, 16, true)
  {
    hide Power, Digits;
    SomePowers();
    DigitsAtMost(x, 16, true, 16);
  }
}
