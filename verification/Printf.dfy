/** The code of src/printf.c that writes to a buffer. */
module Printf {
  import opened Words
  import opened Sequences
  import opened Format

  /** The first `maxlen` characters of the buffer after `text` has been put out from index `idx` on. */
  function Emit(buf: string, maxlen: nat, idx: nat, text: string): (r: string)
    ensures |r| == |buf|
    ensures forall k :: 0 <= k < |buf| ==>
              r[k] == if idx <= k < idx + |text| && k < maxlen then text[k - idx] else buf[k]
  {
    seq(|buf|, k requires 0 <= k < |buf| =>
      if idx <= k < idx + |text| && k < maxlen then text[k - idx] else buf[k])
  }

  lemma EmitNothing(buf: string, maxlen: nat, idx: nat)
    ensures Emit(buf, maxlen, idx, "") == buf
  {
  }

  lemma EmitAppend(buf: string, maxlen: nat, idx: nat, a: string, b: string)
    ensures Emit(Emit(buf, maxlen, idx, a), maxlen, idx + |a|, b) == Emit(buf, maxlen, idx, a + b)
  {
  }

  method OutBuffer(character: char, buffer: array<char>, idx: nat, maxlen: nat)
    requires maxlen <= buffer.Length
    modifies buffer
    ensures buffer[..] == Emit(old(buffer[..]), maxlen, idx, [character])
  {
    if idx < maxlen {
      buffer[idx] := character;
    }
  }

  /** A loop that puts out a character `n` times. */
  method OutRepeat(character: char, buffer: array<char>, start: nat, maxlen: nat, n: nat) returns (idx: nat)
    requires maxlen <= buffer.Length
    modifies buffer
    ensures idx == start + n && buffer[..] == Emit(old(buffer[..]), maxlen, start, Repeat(character, n))
  {
    ghost var was := buffer[..];
    EmitNothing(was, maxlen, start);
    assert Repeat(character, 0) == "";
    hide Emit;
    idx := start;
    while idx < start + n
      invariant start <= idx <= start + n
      invariant buffer[..] == Emit(was, maxlen, start, Repeat(character, idx - start))
    {
      OutBuffer(character, buffer, idx, maxlen);
      EmitAppend(was, maxlen, start, Repeat(character, idx - start), [character]);
      assert Repeat(character, idx - start) + [character] == Repeat(character, idx + 1 - start);
      idx := idx + 1;
    }
  }

  function Reversed(s: string): (r: string)
    ensures |r| == |s| && forall i :: 0 <= i < |s| ==> r[i] == s[|s| - 1 - i]
  {
    seq(|s|, i requires 0 <= i < |s| => s[|s| - 1 - i])
  }

  /** `_out_rev`: the text is in `buf` from its end to its start. */
  method OutRev(buffer: array<char>, start: nat, maxlen: nat, buf: array<char>, len: nat, width: nat, flags: Flags)
    returns (idx: nat)
    requires maxlen <= buffer.Length && len <= buf.Length && buf != buffer
    modifies buffer
    ensures var text := Padded(Reversed(buf[..len]), width, flags);
            idx == start + |text| && buffer[..] == Emit(old(buffer[..]), maxlen, start, text)
  {
    hide Emit, Repeat;
    ghost var was, text := buffer[..], Reversed(buf[..len]);
    ghost var before := if flags.left || flags.zeropad then "" else Repeat(' ', Minus(width, len));
    idx := start;
    EmitNothing(was, maxlen, start);
    if !flags.left && !flags.zeropad {
      idx := OutRepeat(' ', buffer, idx, maxlen, Minus(width, len));
    }
    var left := len;
    while left > 0
      invariant 0 <= left <= len && buf[..len] == old(buf[..len])
      invariant idx == start + |before| + (len - left)
      invariant buffer[..] == Emit(was, maxlen, start, before + text[..len - left])
      modifies buffer
    {
      left := left - 1;
      assert buf[left] == text[len - left - 1];
      OutBuffer(buf[left], buffer, idx, maxlen);
      EmitAppend(was, maxlen, start, before + text[..len - left - 1], [buf[left]]);
      assert before + text[..len - left - 1] + [buf[left]] == before + text[..len - left];
      idx := idx + 1;
    }
    assert text[..len] == text;
    if flags.left {
      ghost var middle := idx;
      idx := OutRepeat(' ', buffer, idx, maxlen, Minus(width, idx - start));
      EmitAppend(was, maxlen, start, before + text, Repeat(' ', Minus(width, len)));
      assert before + text + Repeat(' ', Minus(width, len)) == text + Repeat(' ', Minus(width, len));
    }
    assert before + text == if flags.left || flags.zeropad then text else Repeat(' ', Minus(width, len)) + text;
    assert idx == start + |Padded(text, width, flags)|;
    assert buffer[..] == Emit(was, maxlen, start, Padded(text, width, flags));
  }

  // ---------------------------------------------------------------- integers

  lemma ReversedAppend(a: string, b: string)
    ensures Reversed(a + b) == Reversed(b) + Reversed(a)
  {
  }

  lemma ReversedRepeat(c: char, n: nat)
    ensures Reversed(Repeat(c, n)) == Repeat(c, n)
  {
  }

  /** A loop that appends zeros up to some length, as far as the buffer goes. */
  method ZeroFill(buf: array<char>, start: nat, target: nat) returns (len: nat)
    requires start <= buf.Length == NTOA_BUFFER_SIZE
    modifies buf
    ensures len == Max(start, Min(target, NTOA_BUFFER_SIZE))
    ensures buf[..len] == old(buf[..start]) + Repeat('0', len - start)
  {
    len := start;
    ghost var b := buf[..start];
    while len < target && len < NTOA_BUFFER_SIZE
      invariant start <= len <= Max(start, Min(target, NTOA_BUFFER_SIZE))
      invariant buf[..len] == b + Repeat('0', len - start)
    {
      buf[len] := '0';
      len := len + 1;
      assert buf[..len] == buf[..len - 1] + ['0'];
    }
  }

  /** The zeros in front of the digits; the field gives up a place when a sign is to come. */
  method PutZeros(buf: array<char>, digits: nat, negative: bool, prec: nat, fieldWidth: nat, flags: Flags)
    returns (len: nat, width: nat)
    requires buf.Length == NTOA_BUFFER_SIZE && digits <= NTOA_BUFFER_SIZE
    modifies buf
    ensures len == Filled(digits, negative, prec, fieldWidth, flags) && len <= NTOA_BUFFER_SIZE
    ensures buf[..len] == old(buf[..digits]) + Repeat('0', len - digits)
    ensures width == FieldWidth(fieldWidth, negative, flags)
  {
    ghost var b := buf[..digits];
    assert b + Repeat('0', 0) == b;
    width, len := fieldWidth, digits;
    if !flags.left {
      if width > 0 && flags.zeropad && (negative || flags.plus || flags.space) {
        width := width - 1;
      }
      len := ZeroFill(buf, len, prec);
      if flags.zeropad {
        ghost var n := len;
        len := ZeroFill(buf, len, width);
        assert b + Repeat('0', n - digits) + Repeat('0', len - n) == b + Repeat('0', len - digits);
      }
    }
  }

  /** Puts a character after the first `len`, if there is room. */
  method PutIfRoom(buf: array<char>, len: nat, c: char) returns (next: nat)
    requires len <= buf.Length == NTOA_BUFFER_SIZE
    modifies buf
    ensures next == (if len < NTOA_BUFFER_SIZE then len + 1 else len)
    ensures Reversed(buf[..next]) == (if len < NTOA_BUFFER_SIZE then [c] else "") + Reversed(old(buf[..len]))
  {
    next := len;
    if len < NTOA_BUFFER_SIZE {
      buf[next] := c;
      next := next + 1;
    }
  }

  lemma ReversedTail(s: string, n: nat)
    requires n <= |s|
    ensures Reversed(s[..|s| - n]) == Reversed(s)[n..]
  {
  }

  /** The letter of the prefix, if the base has one. */
  method PutLetter(buf: array<char>, len: nat, base: nat, flags: Flags) returns (next: nat)
    requires len <= buf.Length == NTOA_BUFFER_SIZE
    modifies buf
    ensures next <= buf.Length && next == len + if len < NTOA_BUFFER_SIZE then |Letter(base, flags)| else 0
    ensures Reversed(buf[..next])
            == (if len < NTOA_BUFFER_SIZE then Letter(base, flags) else "") + Reversed(old(buf[..len]))
  {
    next := len;
    assert "" + Reversed(buf[..len]) == Reversed(buf[..len]);
    if base == 16 && !flags.upper && len < NTOA_BUFFER_SIZE {
      next := PutIfRoom(buf, len, 'x');
    } else if base == 16 && flags.upper && len < NTOA_BUFFER_SIZE {
      next := PutIfRoom(buf, len, 'X');
    } else if base == 2 && len < NTOA_BUFFER_SIZE {
      next := PutIfRoom(buf, len, 'b');
    }
  }

  /** What is left of the text when leading characters have made way for the prefix. */
  method Yield(filled: nat, base: nat, prec: nat, width: nat, flags: Flags) returns (len: nat)
    ensures len == filled - Yielded(filled, prec, width, base, flags)
  {
    len := filled;
    if !flags.precision && len > 0 && (len == prec || len == width) {
      len := len - 1;
      if len > 0 && base == 16 {
        len := len - 1;
      }
    }
  }

  lemma PrefixIs(len: nat, base: nat, f: Flags, rest: string)
    ensures var letter := if len < NTOA_BUFFER_SIZE then Letter(base, f) else "";
            Prefix(len, base, f) + rest == (if len + |letter| < NTOA_BUFFER_SIZE then "0" else "") + (letter + rest)
  {
  }

  /** The prefix of the `#` flag; leading characters make way for it. */
  method PutPrefix(buf: array<char>, filled: nat, base: nat, prec: nat, width: nat, flags: Flags) returns (len: nat)
    requires filled <= buf.Length == NTOA_BUFFER_SIZE
    modifies buf
    ensures len <= buf.Length
    ensures Reversed(buf[..len]) == Hashed(Reversed(old(buf[..filled])), prec, width, base, flags)
  {
    len := filled;
    if flags.hash {
      hide Reversed, Letter, Prefix, Yielded;
      len := Yield(filled, base, prec, width, flags);
      ReversedTail(buf[..filled], filled - len);
      assert buf[..filled][..len] == buf[..len];
      ghost var n, rest := len, Reversed(buf[..len]);
      len := PutLetter(buf, len, base, flags);
      len := PutIfRoom(buf, len, '0');
      PrefixIs(n, base, flags, rest);
    }
  }

  /** The sign, if there is room for it. */
  method PutSign(buf: array<char>, filled: nat, negative: bool, flags: Flags) returns (len: nat)
    requires filled <= buf.Length == NTOA_BUFFER_SIZE
    modifies buf
    ensures len <= buf.Length
    ensures Reversed(buf[..len]) == Sign(filled, negative, flags) + Reversed(old(buf[..filled]))
  {
    len := filled;
    if len < NTOA_BUFFER_SIZE {
      if negative {
        buf[len] := '-';
        len := len + 1;
      } else if flags.plus {
        buf[len] := '+';
        len := len + 1;
      } else if flags.space {
        buf[len] := ' ';
        len := len + 1;
      }
    }
  }

  lemma ZerosReversed(b: string, zeros: nat)
    ensures Reversed(b + Repeat('0', zeros)) == Repeat('0', zeros) + Reversed(b)
  {
    ReversedAppend(b, Repeat('0', zeros));
    ReversedRepeat('0', zeros);
  }

  /** A field narrowed for a sign is filled with zeros, so its width is not looked at again. */
  lemma NarrowedIsPadded(text: string, width: nat, negative: bool, f: Flags)
    ensures Padded(text, FieldWidth(width, negative, f), f) == Padded(text, width, f)
  {
  }

  /** `_ntoa_format`. */
  method NtoaFormat(buffer: array<char>, start: nat, maxlen: nat, buf: array<char>, digits: nat, negative: bool,
                    base: nat, prec: nat, fieldWidth: nat, flags: Flags)
    returns (idx: nat)
    requires maxlen <= buffer.Length && buf.Length == NTOA_BUFFER_SIZE && digits <= NTOA_BUFFER_SIZE && buf != buffer
    modifies buffer, buf
    ensures var text := NumberField(Reversed(old(buf[..digits])), negative, base, prec, fieldWidth, flags);
            idx == start + |text| && buffer[..] == Emit(old(buffer[..]), maxlen, start, text)
  {
    hide Emit, Filled, FieldWidth, Hashed, Sign, Padded;
    ghost var b := buf[..digits];
    var len, width := PutZeros(buf, digits, negative, prec, fieldWidth, flags);
    ZerosReversed(b, len - digits);
    len := PutPrefix(buf, len, base, prec, width, flags);
    assert Reversed(buf[..len]) == Unsigned(Reversed(b), negative, base, prec, fieldWidth, flags);
    len := PutSign(buf, len, negative, flags);
    idx := OutRev(buffer, start, maxlen, buf, len, width, flags);
    NarrowedIsPadded(Reversed(buf[..len]), fieldWidth, negative, flags);
  }

  lemma NothingReversed(s: string)
    requires s == ""
    ensures Reversed(s) == ""
  {
  }

  lemma DigitsShift(v: nat, base: nat, upper: bool, rest: string)
    requires 2 <= base <= 16
    ensures (if v / base > 0 then Digits(v / base, base, upper) else "") + ([DigitChar(v % base, upper)] + rest)
            == Digits(v, base, upper) + rest
  {
    hide Digits, DigitChar;
    DigitsStep(v, base, upper);
    var high := if v / base == 0 then "" else Digits(v / base, base, upper);
    assert high + ([DigitChar(v % base, upper)] + rest) == high + [DigitChar(v % base, upper)] + rest;
  }

  method PutChar(buf: array<char>, len: nat, c: char)
    requires len < buf.Length
    modifies buf
    ensures Reversed(buf[..len + 1]) == [c] + Reversed(old(buf[..len]))
  {
    buf[len] := c;
  }

  /** `text` is the end of the digits of `number`, and `value` is what is left of it. */
  ghost predicate DigitsLeft(value: nat, text: string, number: nat, base: nat, upper: bool)
    requires 2 <= base <= 16
  {
    (if value > 0 || text == "" then Digits(value, base, upper) else "") + text == Digits(number, base, upper)
  }

  lemma NoneYet(number: nat, base: nat, upper: bool)
    requires 2 <= base <= 16
    ensures DigitsLeft(number, "", number, base, upper)
  {
    hide Digits;
    assert Digits(number, base, upper) + "" == Digits(number, base, upper);
  }

  lemma OneLess(value: nat, text: string, number: nat, base: nat, upper: bool) returns (q: nat, c: char)
    requires 2 <= base <= 16 && (value > 0 || text == "") && DigitsLeft(value, text, number, base, upper)
    ensures q == value / base && c == DigitChar(value % base, upper)
    ensures DigitsLeft(q, [c] + text, number, base, upper)
  {
    hide Digits, DigitChar;
    q, c := value / base, DigitChar(value % base, upper);
    DigitsShift(value, base, upper, text);
  }

  /** When nothing is left, or the buffer is full, the text is what the buffer can hold of the digits. */
  lemma TextIsKept(value: nat, text: string, number: nat, base: nat, upper: bool)
    requires 2 <= base <= 16 && 0 < |text| <= NTOA_BUFFER_SIZE && DigitsLeft(value, text, number, base, upper)
    requires value == 0 || |text| == NTOA_BUFFER_SIZE
    ensures text == Kept(Digits(number, base, upper))
  {
    hide Digits;
    if value == 0 {
      assert "" + text == text;
    }
  }

  /** The loop of `_ntoa_long`. */
  method PutDigits(buf: array<char>, number: nat, base: nat, upper: bool) returns (len: nat)
    requires buf.Length == NTOA_BUFFER_SIZE && 2 <= base <= 16
    modifies buf
    ensures len <= NTOA_BUFFER_SIZE && Reversed(buf[..len]) == Kept(Digits(number, base, upper))
  {
    assert 0 < buf.Length && Reversed(buf[..0]) == "";
    hide *;
    NoneYet(number, base, upper);
    var value: nat, more := number, true;
    len := 0;
    while more
      invariant 0 <= len <= buf.Length && DigitsLeft(value, Reversed(buf[..len]), number, base, upper)
      invariant if more then len < buf.Length && (value > 0 || len == 0)
                else len > 0 && (value == 0 || len == buf.Length)
      decreases buf.Length - len, more
    {
      ghost var q, c := OneLess(value, Reversed(buf[..len]), number, base, upper);
      PutChar(buf, len, DigitChar(value % base, upper));
      len := len + 1;
      value := value / base;
      more := value > 0 && len < buf.Length;
    }
    TextIsKept(value, Reversed(buf[..len]), number, base, upper);
  }

  /** The digits of a value in the buffer, last first; none for 0 with a precision. */
  method Convert(buf: array<char>, value: nat, base: nat, flags: Flags) returns (len: nat)
    requires buf.Length == NTOA_BUFFER_SIZE && 2 <= base <= 16
    modifies buf
    ensures len <= NTOA_BUFFER_SIZE && Reversed(buf[..len]) == DigitsOf(value, base, flags)
  {
    hide Digits, DigitChar, Kept, Reversed;
    len := 0;
    if !flags.precision || value > 0 {
      len := PutDigits(buf, value, base, flags.upper);
    } else {
      NothingReversed(buf[..0]);
    }
  }

  /** `_ntoa_long` and `_ntoa_long_long`: `unsigned long` has 64 bits too. */
  method NtoaLong(buffer: array<char>, start: nat, maxlen: nat, value: nat, negative: bool, base: nat,
                  prec: nat, width: nat, fieldFlags: Flags)
    returns (idx: nat)
    requires maxlen <= buffer.Length && 2 <= base <= 16
    modifies buffer
    ensures var text := LongField(value, negative, base, prec, width, fieldFlags);
            idx == start + |text| && buffer[..] == Emit(old(buffer[..]), maxlen, start, text)
  {
    hide Emit, DigitsOf, NumberField, Reversed;
    var buf := new char[NTOA_BUFFER_SIZE];
    var flags := fieldFlags;
    if value == 0 {
      flags := flags.(hash := false);
    }
    assert DigitsOf(value, base, flags) == DigitsOf(value, base, fieldFlags) by {
      HashOfDigits(value, base, fieldFlags);
    }
    var len := Convert(buf, value, base, flags);
    idx := NtoaFormat(buffer, start, maxlen, buf, len, negative, base, prec, width, flags);
  }

  lemma HashOfDigits(value: nat, base: nat, f: Flags)
    requires 2 <= base <= 16
    ensures DigitsOf(value, base, f.(hash := false)) == DigitsOf(value, base, f)
  {
    hide Digits, Kept;
  }

  // ---------------------------------------------------------------- specifiers

  /** The loop over the flags. */
  method ScanFlags(format: string, start: nat) returns (flags: Flags, i: nat)
    ensures (flags, i) == ParseFlags(format, start, NoFlags())
  {
    flags, i := NoFlags(), start;
    var n := 1;
    while n != 0
      invariant 0 <= n <= 1 && i >= start
      invariant ParseFlags(format, i, flags) == ParseFlags(format, start, NoFlags())
      invariant n == 0 ==> (flags, i) == ParseFlags(format, start, NoFlags())
      decreases n, |format| - i
    {
      match At(format, i)
      case '0' => flags, i := flags.(zeropad := true), i + 1;
      case '-' => flags, i := flags.(left := true), i + 1;
      case '+' => flags, i := flags.(plus := true), i + 1;
      case ' ' => flags, i := flags.(space := true), i + 1;
      case '#' => flags, i := flags.(hash := true), i + 1;
      case _ => n := 0;
    }
  }

  /** `_atoi`. */
  method Atoi(format: string, start: nat) returns (n: nat, i: nat)
    ensures (n, i) == ParseDigits(format, start, 0)
  {
    n, i := 0, start;
    while i < |format| && IsDigit(format[i])
      invariant i >= start && ParseDigits(format, i, n) == ParseDigits(format, start, 0)
      decreases |format| - i
    {
      n := (n * 10 + (format[i] as int - '0' as int)) % WORD32;
      i := i + 1;
    }
  }

  method ScanWidth(format: string, args: seq<Arg>, f: Flags, start: nat, firstArg: nat) returns (s: Spec)
    ensures s == ParseWidth(format, args, f, start, firstArg)
  {
    hide ParseDigits;
    s := Spec(f, 0, 0, start, firstArg);
    if IsDigit(At(format, start)) {
      var width, i := Atoi(format, start);
      s := s.(width := width, i := i);
    } else if At(format, start) == '*' {
      var w := Signed(IntAt(args, firstArg), WORD32);
      if w < 0 {
        s := s.(flags := f.(left := true), width := -w);
      } else {
        s := s.(width := w);
      }
      s := s.(i := start + 1, k := firstArg + 1);
    }
  }

  method ScanPrecision(format: string, args: seq<Arg>, t: Spec) returns (s: Spec)
    requires t.prec == 0
    ensures s == ParsePrecision(format, args, t)
  {
    hide ParseDigits;
    s := t;
    if At(format, s.i) == '.' {
      s := s.(flags := s.flags.(precision := true), i := s.i + 1);
      if IsDigit(At(format, s.i)) {
        var prec, i := Atoi(format, s.i);
        s := s.(prec := prec, i := i);
      } else if At(format, s.i) == '*' {
        var prec := Signed(IntAt(args, s.k), WORD32);
        s := s.(prec := if prec > 0 then prec else 0, i := s.i + 1, k := s.k + 1);
      }
    }
  }

  method ScanLength(format: string, t: Spec) returns (s: Spec)
    ensures s == ParseLength(format, t)
  {
    s := t;
    match At(format, s.i)
    case 'l' =>
      s := s.(flags := s.flags.(long := true), i := s.i + 1);
      if At(format, s.i) == 'l' {
        s := s.(i := s.i + 1);
      }
    case 'h' =>
      s := s.(flags := s.flags.(short := true), i := s.i + 1);
      if At(format, s.i) == 'h' {
        s := s.(flags := s.flags.(chr := true), i := s.i + 1);
      }
    case 't' => s := s.(flags := s.flags.(long := true), i := s.i + 1);
    case 'j' => s := s.(flags := s.flags.(long := true), i := s.i + 1);
    case 'z' => s := s.(flags := s.flags.(long := true), i := s.i + 1);
    case _ =>
  }

  /** The part of a specifier before its conversion character. */
  method ScanSpec(format: string, args: seq<Arg>, start: nat, firstArg: nat) returns (s: Spec)
    ensures s == ParseSpec(format, args, start, firstArg)
  {
    hide ParseFlags, ParseWidth, ParsePrecision, ParseLength, NoFlags;
    var flags, i := ScanFlags(format, start);
    s := ScanWidth(format, args, flags, i, firstArg);
    s := ScanPrecision(format, args, s);
    s := ScanLength(format, s);
  }

  // ---------------------------------------------------------------- conversions

  /** The base of an integer conversion, and what it means for the `#` flag. */
  method IntegerBase(c: char, given: Flags) returns (base: nat, flags: Flags)
    requires IsInteger(c)
    ensures base == Base(c) && flags == given.(hash := given.hash && Base(c) != 10)
  {
    flags := given;
    if c == 'x' || c == 'X' {
      base := 16;
    } else if c == 'o' {
      base := 8;
    } else if c == 'b' {
      base := 2;
    } else {
      base := 10;
      flags := flags.(hash := false);
    }
  }

  /** The other flags an integer conversion changes. */
  method AdjustFlags(c: char, given: Flags) returns (flags: Flags)
    ensures flags == given.(upper := given.upper || c == 'X', plus := given.plus && IsSigned(c),
                            space := given.space && IsSigned(c), zeropad := given.zeropad && !given.precision)
  {
    flags := given;
    if c == 'X' {
      flags := flags.(upper := true);
    }
    assert flags == given.(upper := given.upper || c == 'X');
    if c != 'i' && c != 'd' {
      flags := flags.(plus := false, space := false);
    }
    assert flags == given.(upper := given.upper || c == 'X', plus := given.plus && IsSigned(c),
                           space := given.space && IsSigned(c));
    if flags.precision {
      flags := flags.(zeropad := false);
    }
  }

  method PutInteger(buffer: array<char>, start: nat, maxlen: nat, s: Spec, c: char, arg: int) returns (idx: nat)
    requires maxlen <= buffer.Length && IsInteger(c)
    modifies buffer
    ensures var text := IntegerText(IntegerValue(arg, s.flags, c), s, c);
            idx == start + |text| && buffer[..] == Emit(old(buffer[..]), maxlen, start, text)
  {
    hide Emit, LongField, IntegerValue, Base, IsInteger;
    var base, prefixed := IntegerBase(c, s.flags);
    var flags := AdjustFlags(c, prefixed);
    assert flags == IntegerFlags(s.flags, c);
    var value := IntegerValue(arg, s.flags, c);
    idx := NtoaLong(buffer, start, maxlen, if value > 0 then value else 0 - value, value < 0, base, s.prec, s.width,
                    flags);
  }

  /** `%p`. */
  method PutPointer(buffer: array<char>, start: nat, maxlen: nat, s: Spec, arg: int) returns (idx: nat)
    requires maxlen <= buffer.Length
    modifies buffer
    ensures var text := PointerText(arg, s);
            idx == start + |text| && buffer[..] == Emit(old(buffer[..]), maxlen, start, text)
  {
    hide Emit, LongField;
    var flags := s.flags.(zeropad := true, upper := true);
    idx := NtoaLong(buffer, start, maxlen, arg % WORD64, false, 16, s.prec, POINTER_WIDTH, flags);
  }

  /** `%c`. */
  method PutCharacter(buffer: array<char>, start: nat, maxlen: nat, s: Spec, arg: int) returns (idx: nat)
    requires maxlen <= buffer.Length
    modifies buffer
    ensures var text := Spaced([CharOf(arg)], s.width, s.flags.left);
            idx == start + |text| && buffer[..] == Emit(old(buffer[..]), maxlen, start, text)
  {
    hide Emit;
    ghost var was, c, spaces := buffer[..], [CharOf(arg)], Repeat(' ', Minus(s.width, 1));
    idx := start;
    if !s.flags.left {
      idx := OutRepeat(' ', buffer, idx, maxlen, Minus(s.width, 1));
    }
    OutBuffer(CharOf(arg), buffer, idx, maxlen);
    idx := idx + 1;
    EmitAppend(was, maxlen, start, spaces, c);
    if s.flags.left {
      idx := OutRepeat(' ', buffer, idx, maxlen, Minus(s.width, 1));
      EmitAppend(was, maxlen, start, c, spaces);
    }
  }

  /** The loop of `%s` that puts out the characters: all of them, or as many as the precision says. */
  method PutCharacters(buffer: array<char>, start: nat, maxlen: nat, s: Spec, text: string) returns (idx: nat)
    requires maxlen <= buffer.Length
    modifies buffer
    ensures idx == start + |Clipped(text, s)| && buffer[..] == Emit(old(buffer[..]), maxlen, start, Clipped(text, s))
  {
    hide Emit;
    ghost var was := buffer[..];
    EmitNothing(was, maxlen, start);
    assert text[..0] == "";
    var p, precision := 0, s.prec;
    idx := start;
    while p < |text| && (!s.flags.precision || precision > 0)
      invariant 0 <= p <= |text| && idx == start + p
      invariant 0 <= precision && (s.flags.precision ==> precision + p == s.prec)
      invariant buffer[..] == Emit(was, maxlen, start, text[..p])
    {
      if s.flags.precision {
        precision := precision - 1;
      }
      OutBuffer(text[p], buffer, idx, maxlen);
      EmitAppend(was, maxlen, start, text[..p], [text[p]]);
      assert text[..p] + [text[p]] == text[..p + 1];
      p := p + 1;
      idx := idx + 1;
    }
    assert text[..p] == Clipped(text, s);
  }

  /** `%s`. */
  method PutString(buffer: array<char>, start: nat, maxlen: nat, s: Spec, arg: string) returns (idx: nat)
    requires maxlen <= buffer.Length && (s.flags.precision || s.prec == 0)
    modifies buffer
    ensures var text := Spaced(Clipped(arg, s), s.width, s.flags.left);
            idx == start + |text| && buffer[..] == Emit(old(buffer[..]), maxlen, start, text)
  {
    hide Emit, Clipped;
    ghost var was, t := buffer[..], Clipped(arg, s);
    var l := StrnlenS(arg, s.prec, s.prec > 0);
    if s.flags.precision {
      l := if l < s.prec then l else s.prec;
    }
    assert l == |t| by { ClippedLength(arg, s); }
    ghost var spaces := Repeat(' ', Minus(s.width, l));
    idx := start;
    if !s.flags.left {
      idx := OutRepeat(' ', buffer, idx, maxlen, Minus(s.width, l));
    }
    idx := PutCharacters(buffer, idx, maxlen, s, arg);
    EmitAppend(was, maxlen, start, spaces, t);
    if s.flags.left {
      idx := OutRepeat(' ', buffer, idx, maxlen, Minus(s.width, l));
      EmitAppend(was, maxlen, start, t, spaces);
    }
  }

  lemma ClippedLength(text: string, s: Spec)
    ensures |Clipped(text, s)| == if s.flags.precision then Min(|text|, s.prec) else |text|
  {
  }

  /** `_strnlen_s`. */
  method StrnlenS(str: string, maxsize: nat, limited: bool) returns (n: nat)
    ensures n == if limited then Min(|str|, maxsize) else |str|
  {
    n := 0;
    var left := maxsize;
    while n < |str| && (!limited || left > 0)
      invariant 0 <= n <= |str| && 0 <= left && (limited ==> left + n == maxsize)
    {
      if limited {
        left := left - 1;
      }
      n := n + 1;
    }
  }

  method PutField(buffer: array<char>, start: nat, maxlen: nat, s: Spec, c: char, args: seq<Arg>)
    returns (idx: nat, k: nat)
    requires maxlen <= buffer.Length && (s.flags.precision || s.prec == 0)
    modifies buffer
    ensures var text := FieldText(s, c, args);
            && idx == start + |text| && buffer[..] == Emit(old(buffer[..]), maxlen, start, text)
            && k == if TakesArgument(c) then s.k + 1 else s.k
  {
    k := s.k;
    if IsInteger(c) {
      idx := PutInteger(buffer, start, maxlen, s, c, IntAt(args, s.k));
      k := k + 1;
    } else if c == 'c' {
      idx := PutCharacter(buffer, start, maxlen, s, IntAt(args, s.k));
      k := k + 1;
    } else if c == 's' {
      idx := PutString(buffer, start, maxlen, s, StrAt(args, s.k));
      k := k + 1;
    } else if c == 'p' {
      idx := PutPointer(buffer, start, maxlen, s, IntAt(args, s.k));
      k := k + 1;
    } else {
      OutBuffer(c, buffer, start, maxlen);
      idx := start + 1;
    }
  }

  // ---------------------------------------------------------------- the whole format

  lemma RenderChar(format: string, args: seq<Arg>, i: nat, k: nat)
    requires i < |format| && format[i] != '%' && Supported(format, args, i, k)
    ensures Render(format, args, i, k) == [format[i]] + Render(format, args, i + 1, k)
    ensures Supported(format, args, i + 1, k)
  {
  }

  lemma RenderSpec(format: string, args: seq<Arg>, i: nat, k: nat)
    requires i < |format| && format[i] == '%' && Supported(format, args, i, k)
    ensures var s := ParseSpec(format, args, i + 1, k);
            && s.i < |format|
            && var n := if TakesArgument(format[s.i]) then s.k + 1 else s.k;
               && Render(format, args, i, k) == FieldText(s, format[s.i], args) + Render(format, args, s.i + 1, n)
               && Supported(format, args, s.i + 1, n)
  {
    hide ParseSpec, FieldText, TakesArgument;
  }

  lemma RenderEnd(format: string, args: seq<Arg>, i: nat, k: nat)
    requires i >= |format|
    ensures Render(format, args, i, k) == ""
  {
  }

  /** One turn of the loop of `_vsnprintf`: a plain character or a whole specifier. */
  method PutPiece(buffer: array<char>, start: nat, maxlen: nat, format: string, args: seq<Arg>, at: nat, firstArg: nat)
    returns (idx: nat, i: nat, k: nat, ghost piece: string)
    requires maxlen <= buffer.Length && at < |format| && Supported(format, args, at, firstArg)
    modifies buffer
    ensures at < i && Supported(format, args, i, k)
    ensures Render(format, args, at, firstArg) == piece + Render(format, args, i, k)
    ensures idx == start + |piece| && buffer[..] == Emit(old(buffer[..]), maxlen, start, piece)
  {
    hide Emit, FieldText, ParseSpec, TakesArgument, Render, Supported;
    if format[at] != '%' {
      RenderChar(format, args, at, firstArg);
      piece := [format[at]];
      OutBuffer(format[at], buffer, start, maxlen);
      idx, i, k := start + 1, at + 1, firstArg;
    } else {
      RenderSpec(format, args, at, firstArg);
      var s := ScanSpec(format, args, at + 1, firstArg);
      piece := FieldText(s, format[s.i], args);
      idx, k := PutField(buffer, start, maxlen, s, format[s.i], args);
      i := s.i + 1;
    }
  }

  /** `_vsnprintf` up to the termination. */
  method PutFormat(buffer: array<char>, maxlen: nat, format: string, args: seq<Arg>) returns (idx: nat)
    requires maxlen <= buffer.Length && Supported(format, args, 0, 0)
    modifies buffer
    ensures var text := Render(format, args, 0, 0);
            idx == |text| && buffer[..] == Emit(old(buffer[..]), maxlen, 0, text)
  {
    hide Emit, Render, Supported;
    ghost var was, text := buffer[..], "";
    EmitNothing(was, maxlen, 0);
    var i, k := 0, 0;
    idx := 0;
    while i < |format|
      invariant 0 <= i && 0 <= k && idx == |text| && buffer[..] == Emit(was, maxlen, 0, text)
      invariant text + Render(format, args, i, k) == Render(format, args, 0, 0)
      invariant Supported(format, args, i, k)
      decreases |format| - i
    {
      ghost var piece;
      idx, i, k, piece := PutPiece(buffer, idx, maxlen, format, args, i, k);
      EmitAppend(was, maxlen, 0, text, piece);
      assert text + piece + Render(format, args, i, k) == text + (piece + Render(format, args, i, k));
      text := text + piece;
    }
    RenderEnd(format, args, i, k);
    assert text + "" == text;
  }

  /** `snprintf`: gives the length of the whole text as an `int`, and leaves as much of the text as fits,
      closed by a NUL.  Nothing is written from index `count` on, nor behind the NUL. */
  method Snprintf(buffer: array<char>, count: nat, format: string, args: seq<Arg>) returns (length: int)
    requires count <= buffer.Length && count < WORD64 && Supported(format, args, 0, 0)
    modifies buffer
    ensures var text := Render(format, args, 0, 0);
            && length == Signed(|text|, WORD32)
            && (count > 0 ==>
                  var n := Min(|text|, count - 1);
                  && buffer[..n] == text[..n]
                  && buffer[n] == '\0'
                  && buffer[n + 1..] == old(buffer[n + 1..]))
            && (count == 0 ==> buffer[..] == old(buffer[..]))
  {
    hide Render, Supported;
    var idx := PutFormat(buffer, count, format, args);
    ghost var text := Render(format, args, 0, 0);
    OutBuffer('\0', buffer, if idx < count then idx else (count - 1) % WORD64, count);
    length := Signed(idx, WORD32);
    if count > 0 {
      ghost var n := Min(|text|, count - 1);
      assert forall p :: n < p < buffer.Length ==> buffer[p] == buffer[..][p];
    }
  }
}
