/** What the formatted output of src/printf.c is: the text of a format string and its arguments, for the
    integer specifiers, `%p`, `%c`, `%s` and `%%`. */
module Format {
  import opened Words
  import opened Sequences

  const NTOA_BUFFER_SIZE: nat := 32

  datatype Flags = Flags(zeropad: bool, left: bool, plus: bool, space: bool, hash: bool, upper: bool,
                         chr: bool, short: bool, long: bool, precision: bool)

  /** An argument as the caller passes it; an integer is cut to the type its specifier names. */
  datatype Arg = IntArg(v: int) | StrArg(s: string)

  function Repeat(c: char, n: nat): (r: string)
    ensures |r| == n && forall i :: 0 <= i < n ==> r[i] == c
  {
    seq(n, i => c)
  }

  // ---------------------------------------------------------------- numbers

  function DigitChar(d: nat, upper: bool): char
    requires d < 16
  {
    if d < 10 then '0' + d as char else (if upper then 'A' else 'a') + (d - 10) as char
  }

  /** A value in a base, its first digit first. */
  function Digits(value: nat, base: nat, upper: bool): (r: string)
    requires 2 <= base <= 16
    ensures |r| > 0
  {
    if value < base then [DigitChar(value, upper)]
    else Digits(value / base, base, upper) + [DigitChar(value % base, upper)]
  }

  /** The digits of a value are those of its quotient and one more. */
  lemma DigitsStep(v: nat, base: nat, upper: bool)
    requires 2 <= base <= 16
    ensures Digits(v, base, upper)
            == (if v / base == 0 then "" else Digits(v / base, base, upper)) + [DigitChar(v % base, upper)]
  {
    if v < base {
      assert v / base == 0 && v % base == v;
    } else {
      assert v / base >= 1;
    }
  }

  /** The end of a text that fits the conversion buffer. */
  function Kept(s: string): (r: string)
    ensures |r| == Min(|s|, NTOA_BUFFER_SIZE)
  {
    s[Minus(|s|, NTOA_BUFFER_SIZE)..]
  }

  /** No digits are written for 0 when a precision is given. */
  function DigitsOf(value: nat, base: nat, f: Flags): (r: string)
    requires 2 <= base <= 16
    ensures |r| <= NTOA_BUFFER_SIZE
  {
    if f.precision && value == 0 then "" else Kept(Digits(value, base, f.upper))
  }

  /** The field gives up a place when zeros are to leave room for a sign. */
  function FieldWidth(width: nat, negative: bool, f: Flags): nat {
    if !f.left && width > 0 && f.zeropad && (negative || f.plus || f.space) then width - 1 else width
  }

  /** The length of the digits and the zeros in front of them. */
  function Filled(len: nat, negative: bool, prec: nat, width: nat, f: Flags): (r: nat)
    ensures r >= len
  {
    if f.left then len
    else
      var a := Max(len, Min(prec, NTOA_BUFFER_SIZE));
      if f.zeropad then Max(a, Min(FieldWidth(width, negative, f), NTOA_BUFFER_SIZE)) else a
  }

  /** How many leading characters make way for the prefix of the `#` flag: some do when the text is just as
      long as the precision or the width, whether they are zeros or not. */
  function Yielded(len: nat, prec: nat, width: nat, base: nat, f: Flags): (n: nat)
    ensures n <= len
  {
    if f.precision || len == 0 || (len != prec && len != width) then 0
    else if len > 1 && base == 16 then 2
    else 1
  }

  function Letter(base: nat, f: Flags): (r: string)
    ensures |r| <= 1
  {
    if base == 16 then (if f.upper then "X" else "x") else if base == 2 then "b" else ""
  }

  /** The prefix of a text of `len` characters, as far as the buffer has room. */
  function Prefix(len: nat, base: nat, f: Flags): (r: string)
    ensures |r| <= 2 && (len <= NTOA_BUFFER_SIZE ==> len + |r| <= NTOA_BUFFER_SIZE)
  {
    var letter := if len < NTOA_BUFFER_SIZE then Letter(base, f) else "";
    (if len + |letter| < NTOA_BUFFER_SIZE then "0" else "") + letter
  }

  /** A text with the prefix of the `#` flag. */
  function Hashed(text: string, prec: nat, width: nat, base: nat, f: Flags): string {
    if !f.hash then text
    else
      var rest := text[Yielded(|text|, prec, width, base, f)..];
      Prefix(|rest|, base, f) + rest
  }

  /** A number without its sign: a prefix, zeros and digits. */
  function Unsigned(digits: string, negative: bool, base: nat, prec: nat, width: nat, f: Flags): string {
    var zeros := Filled(|digits|, negative, prec, width, f) - |digits|;
    Hashed(Repeat('0', zeros) + digits, prec, FieldWidth(width, negative, f), base, f)
  }

  /** The sign, for which there may be no room. */
  function Sign(filled: nat, negative: bool, f: Flags): string {
    if filled >= NTOA_BUFFER_SIZE then ""
    else if negative then "-"
    else if f.plus then "+"
    else if f.space then " "
    else ""
  }

  function Body(digits: string, negative: bool, base: nat, prec: nat, width: nat, f: Flags): string {
    var number := Unsigned(digits, negative, base, prec, width, f);
    Sign(|number|, negative, f) + number
  }

  /** A text in a field of some width. */
  function Padded(text: string, width: nat, f: Flags): string {
    if f.left then text + Repeat(' ', Minus(width, |text|))
    else if f.zeropad then text
    else Repeat(' ', Minus(width, |text|)) + text
  }

  function NumberField(digits: string, negative: bool, base: nat, prec: nat, width: nat, f: Flags): string {
    Padded(Body(digits, negative, base, prec, width, f), width, f)
  }

  /** A value as `_ntoa_long` prints it; 0 has no prefix. */
  function LongField(value: nat, negative: bool, base: nat, prec: nat, width: nat, f: Flags): string
    requires 2 <= base <= 16
  {
    NumberField(DigitsOf(value, base, f), negative, base, prec, width, f.(hash := f.hash && value != 0))
  }

  // ---------------------------------------------------------------- the parts of a specifier

  function At(format: string, i: nat): char { if i < |format| then format[i] else '\0' }

  predicate IsDigit(c: char) { '0' <= c <= '9' }

  predicate IsFlag(c: char) { c == '0' || c == '-' || c == '+' || c == ' ' || c == '#' }

  function WithFlag(f: Flags, c: char): Flags {
    f.(zeropad := f.zeropad || c == '0', left := f.left || c == '-', plus := f.plus || c == '+',
       space := f.space || c == ' ', hash := f.hash || c == '#')
  }

  function NoFlags(): Flags { Flags(false, false, false, false, false, false, false, false, false, false) }

  function ParseFlags(format: string, i: nat, f: Flags): (r: (Flags, nat))
    ensures r.1 >= i
    decreases |format| - i
  {
    if i < |format| && IsFlag(format[i]) then ParseFlags(format, i + 1, WithFlag(f, format[i])) else (f, i)
  }

  /** A number in unsigned 32-bit arithmetic. */
  function ParseDigits(format: string, i: nat, n: nat): (r: (nat, nat))
    ensures r.1 >= i
    decreases |format| - i
  {
    if i < |format| && IsDigit(format[i]) then
      ParseDigits(format, i + 1, (n * 10 + (format[i] as int - '0' as int)) % WORD32)
    else (n, i)
  }

  /** A specifier up to its conversion character, which is at `i`; `k` arguments are used up before it. */
  datatype Spec = Spec(flags: Flags, width: nat, prec: nat, i: nat, k: nat)

  function IntAt(args: seq<Arg>, k: nat): int { if k < |args| && args[k].IntArg? then args[k].v else 0 }

  function StrAt(args: seq<Arg>, k: nat): string { if k < |args| && args[k].StrArg? then args[k].s else "" }

  /** An integer cut to a signed type of `word` values. */
  function Signed(v: int, word: nat): int
    requires word > 0
  {
    if v % word < word / 2 then v % word else v % word - word
  }

  function ParseWidth(format: string, args: seq<Arg>, f: Flags, i: nat, k: nat): (s: Spec)
    ensures s.i >= i && s.prec == 0
  {
    if IsDigit(At(format, i)) then
      var (w, j) := ParseDigits(format, i, 0);
      Spec(f, w, 0, j, k)
    else if At(format, i) == '*' then
      var w := Signed(IntAt(args, k), WORD32);
      if w < 0 then Spec(f.(left := true), -w, 0, i + 1, k + 1) else Spec(f, w, 0, i + 1, k + 1)
    else Spec(f, 0, 0, i, k)
  }

  function ParsePrecision(format: string, args: seq<Arg>, s: Spec): (r: Spec)
    ensures r.i >= s.i
    ensures s.prec == 0 ==> r.flags.precision || r.prec == 0
  {
    if At(format, s.i) != '.' then s
    else
      var t := s.(flags := s.flags.(precision := true), i := s.i + 1);
      if IsDigit(At(format, t.i)) then
        var (p, j) := ParseDigits(format, t.i, 0);
        t.(prec := p, i := j)
      else if At(format, t.i) == '*' then
        t.(prec := AtLeastZero(Signed(IntAt(args, t.k), WORD32)), i := t.i + 1, k := t.k + 1)
      else t
  }

  function AtLeastZero(v: int): nat { if v > 0 then v else 0 }

  /** `l`, `ll`, `t`, `j` and `z` all name 64-bit types. */
  function ParseLength(format: string, s: Spec): (r: Spec)
    ensures r.i >= s.i
    ensures r.flags.precision == s.flags.precision && r.prec == s.prec
  {
    var c := At(format, s.i);
    if c == 'l' then s.(flags := s.flags.(long := true), i := if At(format, s.i + 1) == 'l' then s.i + 2 else s.i + 1)
    else if c == 'h' then
      if At(format, s.i + 1) == 'h' then s.(flags := s.flags.(short := true, chr := true), i := s.i + 2)
      else s.(flags := s.flags.(short := true), i := s.i + 1)
    else if c == 't' || c == 'j' || c == 'z' then s.(flags := s.flags.(long := true), i := s.i + 1)
    else s
  }

  function ParseSpec(format: string, args: seq<Arg>, i: nat, k: nat): (s: Spec)
    ensures s.i >= i
    ensures s.flags.precision || s.prec == 0
  {
    var (f, j) := ParseFlags(format, i, NoFlags());
    ParseLength(format, ParsePrecision(format, args, ParseWidth(format, args, f, j, k)))
  }

  // ---------------------------------------------------------------- the text

  predicate IsSigned(c: char) { c == 'd' || c == 'i' }

  predicate IsInteger(c: char) { IsSigned(c) || c == 'u' || c == 'x' || c == 'X' || c == 'o' || c == 'b' }

  function Base(c: char): (b: nat)
    ensures 2 <= b <= 16
  {
    if c == 'x' || c == 'X' then 16 else if c == 'o' then 8 else if c == 'b' then 2 else 10
  }

  /** The flags as an integer conversion uses them: decimal numbers have no prefix, only signed ones have a
      sign, and a precision is stronger than zeros. */
  function IntegerFlags(f: Flags, c: char): (r: Flags)
    ensures r.left == f.left && r.precision == f.precision && r.zeropad == (f.zeropad && !f.precision)
    ensures r.plus == (f.plus && IsSigned(c)) && r.space == (f.space && IsSigned(c))
    ensures r.hash == (f.hash && Base(c) != 10) && r.upper == (f.upper || c == 'X')
  {
    f.(hash := f.hash && Base(c) != 10, upper := f.upper || c == 'X', plus := f.plus && IsSigned(c),
       space := f.space && IsSigned(c), zeropad := f.zeropad && !f.precision)
  }

  /** The value an integer conversion prints; `char` is an unsigned type on RISC-V. */
  function IntegerValue(v: int, f: Flags, c: char): int {
    if f.long then (if IsSigned(c) then Signed(v, WORD64) else v % WORD64)
    else if f.chr then v % 0x100
    else if f.short then (if IsSigned(c) then Signed(v, 0x1_0000) else v % 0x1_0000)
    else (if IsSigned(c) then Signed(v, WORD32) else v % WORD32)
  }

  function Abs(v: int): nat { if v > 0 then v else -v }

  lemma ValueFits(v: int, f: Flags, c: char)
    ensures Abs(IntegerValue(v, f, c)) < WORD64
  {
  }

  function IntegerText(v: int, s: Spec, c: char): string {
    LongField(Abs(v), v < 0, Base(c), s.prec, s.width, IntegerFlags(s.flags, c))
  }

  const POINTER_WIDTH: nat := 16

  /** `%p`: sixteen hexadecimal digits. */
  function PointerText(v: int, s: Spec): string {
    LongField(v % WORD64, false, 16, s.prec, POINTER_WIDTH, s.flags.(zeropad := true, upper := true))
  }

  /** A text in a field of spaces; zeros are for numbers only. */
  function Spaced(text: string, width: nat, left: bool): string {
    if left then text + Repeat(' ', Minus(width, |text|)) else Repeat(' ', Minus(width, |text|)) + text
  }

  function CharOf(v: int): char { (v % 0x100) as char }

  function Clipped(text: string, s: Spec): string {
    if s.flags.precision && s.prec < |text| then text[..s.prec] else text
  }

  predicate TakesArgument(c: char) { IsInteger(c) || c == 'c' || c == 's' || c == 'p' }

  /** What a specifier with conversion `c` prints.  A character that is no conversion stands for itself. */
  function FieldText(s: Spec, c: char, args: seq<Arg>): string {
    if IsInteger(c) then IntegerText(IntegerValue(IntAt(args, s.k), s.flags, c), s, c)
    else if c == 'c' then Spaced([CharOf(IntAt(args, s.k))], s.width, s.flags.left)
    else if c == 's' then Spaced(Clipped(StrAt(args, s.k), s), s.width, s.flags.left)
    else if c == 'p' then PointerText(IntAt(args, s.k), s)
    else [c]
  }

  /** The whole text from position `i` of the format and argument `k` on. */
  function Render(format: string, args: seq<Arg>, i: nat, k: nat): string
    decreases |format| - i
  {
    if i >= |format| then ""
    else if format[i] != '%' then [format[i]] + Render(format, args, i + 1, k)
    else
      var s := ParseSpec(format, args, i + 1, k);
      if s.i >= |format| then ""
      else
        var c := format[s.i];
        FieldText(s, c, args) + Render(format, args, s.i + 1, if TakesArgument(c) then s.k + 1 else s.k)
  }

  // ---------------------------------------------------------------- what is covered

  /** Conversions that are not part of this model. */
  predicate IsFloat(c: char) { c == 'f' || c == 'F' || c == 'e' || c == 'E' || c == 'g' || c == 'G' }

  predicate StarHasInt(format: string, args: seq<Arg>, i: nat, k: nat) {
    At(format, i) == '*' ==> k < |args| && args[k].IntArg?
  }

  /** A specifier that ends in a conversion of this model, and whose arguments are there. */
  predicate SpecSupported(format: string, args: seq<Arg>, i: nat, k: nat) {
    var (f, j) := ParseFlags(format, i, NoFlags());
    var w := ParseWidth(format, args, f, j, k);
    var s := ParseSpec(format, args, i, k);
    && s.i < |format| && !IsFloat(format[s.i])
    && StarHasInt(format, args, j, k)
    && (At(format, w.i) == '.' ==> StarHasInt(format, args, w.i + 1, w.k))
    && (TakesArgument(format[s.i]) ==>
          s.k < |args| && if format[s.i] == 's' then args[s.k].StrArg? && '\0' !in args[s.k].s else args[s.k].IntArg?)
  }

  predicate Supported(format: string, args: seq<Arg>, i: nat, k: nat)
    decreases |format| - i
  {
    if i >= |format| then true
    else if format[i] == '\0' then false
    else if format[i] != '%' then Supported(format, args, i + 1, k)
    else
      && SpecSupported(format, args, i + 1, k)
      && var s := ParseSpec(format, args, i + 1, k);
         s.i < |format| && Supported(format, args, s.i + 1, if TakesArgument(format[s.i]) then s.k + 1 else s.k)
  }
}
