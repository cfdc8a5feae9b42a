/**
  `num`, the number formatter behind the printf family: base conversion into a 23-byte buffer, then
  sign, prefix, padding and digits, one character at a time.
 */
module Format {
  import opened Bits

  const TWO63: int := 0x8000_0000_0000_0000

  type LongLong = v: int | -TWO63 <= v < TWO63

  datatype Flags = Flags(signed: bool, zeroPad: bool, plus: bool, space: bool, prefix: bool, small: bool, left: bool)

  predicate IsBase(b: nat) { b == 8 || b == 10 || b == 16 }

  /** `m / base` and `m % base`, one constant divisor at a time, which keeps the proofs linear. */
  function Quot(m: nat, base: nat): (q: nat)
    requires IsBase(base)
    ensures m > 0 ==> q < m
  {
    if base == 8 then m / 8 else if base == 10 then m / 10 else m / 16
  }

  function Rem(m: nat, base: nat): (r: nat)
    requires IsBase(base)
    ensures r < base
  {
    if base == 8 then m % 8 else if base == 10 then m % 10 else m % 16
  }

  lemma QuotRem(m: nat, base: nat)
    requires IsBase(base)
    ensures Quot(m, base) == m / base && Rem(m, base) == m % base && m == Quot(m, base) * base + Rem(m, base)
  {
    if base == 8 { assert m == m / 8 * 8 + m % 8; }
    else if base == 10 { assert m == m / 10 * 10 + m % 10; }
    else { assert m == m / 16 * 16 + m % 16; }
  }

  // ---------- Digits ----------

  function DigitChar(d: nat, small: bool): char
    requires d < 16
  {
    if d < 10 then ('0' as nat + d) as char
    else if small then ('a' as nat + d - 10) as char
    else ('A' as nat + d - 10) as char
  }

  /** Most significant digit first; nothing for zero. */
  function Digits(m: nat, base: nat, small: bool): string
    requires IsBase(base)
  {
    if m == 0 then "" else Digits(Quot(m, base), base, small) + [DigitChar(Rem(m, base), small)]
  }

  function DigitValue(c: char): nat {
    if '0' <= c <= '9' then c as nat - '0' as nat
    else if 'a' <= c <= 'f' then c as nat - 'a' as nat + 10
    else if 'A' <= c <= 'F' then c as nat - 'A' as nat + 10
    else 0
  }

  /** The number that a run of digits denotes. */
  function Value(s: string, base: nat): nat {
    if s == "" then 0 else Value(s[..|s| - 1], base) * base + DigitValue(s[|s| - 1])
  }

  lemma DigitCharValue(d: nat, small: bool)
    requires d < 16
    ensures DigitValue(DigitChar(d, small)) == d
  {
  }

  lemma {:induction false} DigitsDenote(m: nat, base: nat, small: bool)
    requires IsBase(base)
    ensures Value(Digits(m, base, small), base) == m
  {
    if m != 0 {
      DigitsDenote(Quot(m, base), base, small);
      DigitCharValue(Rem(m, base), small);
      QuotRem(m, base);
      var s := Digits(m, base, small);
      assert s[..|s| - 1] == Digits(Quot(m, base), base, small);
    }
  }

  /** What is left of a 64-bit number after i divisions by at least 8 is below Cap(i). */
  function Cap(i: nat): nat {
    if i == 0 then TWO64 else (Cap(i - 1) + 7) / 8
  }

  lemma CapStep(m: nat, base: nat, i: nat)
    requires IsBase(base) && 0 < m < Cap(i)
    ensures Quot(m, base) < Cap(i + 1) && (i >= 22 ==> Cap(i) <= 1)
  {
    if i >= 22 { CapAt22(); CapFalls(22, i); }
  }

  lemma {:induction false} CapFalls(i: nat, j: nat)
    requires i <= j
    ensures Cap(j) <= Cap(i)
  {
    if i < j { CapFalls(i, j - 1); }
  }

  lemma CapAt22()
    ensures Cap(22) == 1
  {
    assert Cap(4) == 0x10_0000_0000_0000;
    assert Cap(8) == 0x100_0000_0000;
    assert Cap(12) == 0x1000_0000;
    assert Cap(16) == 0x1_0000;
    assert Cap(20) == 0x10;
  }

  // ---------- The fields of the output ----------

  function Magnitude(v: LongLong, f: Flags): nat {
    var n: int := v;
    if n < 0 then (if f.signed then -n else n + TWO64) else n
  }

  function Body(v: LongLong, base: nat, f: Flags): string
    requires IsBase(base)
  {
    if v == 0 then "0" else Digits(Magnitude(v, f), base, f.small)
  }

  function Sign(v: LongLong, f: Flags): string {
    if v < 0 then (if f.signed then "-" else "") else if f.space then " " else if f.plus then "+" else ""
  }

  function Prefix(base: nat, f: Flags): string {
    if f.prefix && base == 16 then (if f.small then "0x" else "0X")
    else if f.prefix && base == 8 then "0"
    else ""
  }

  /** Whether the width calculation leaves room for a sign. */
  predicate SignCounted(v: LongLong, f: Flags) {
    f.signed && (v < 0 || f.plus || f.space)
  }

  function Max0(n: int): nat { if n > 0 then n else 0 }

  function Pad(v: LongLong, base: nat, f: Flags, width: int): nat
    requires IsBase(base)
  {
    Max0(width - (|Body(v, base, f)| + |Prefix(base, f)| + if SignCounted(v, f) then 1 else 0))
  }

  function Run(c: char, n: nat): string {
    seq(n, _ => c)
  }

  /** Spaces in front, sign, prefix, precision zeros. */
  function Front(v: LongLong, base: nat, f: Flags, pad: nat, precision: int): string
    requires IsBase(base)
  {
    (if f.zeroPad || f.left then "" else Run(' ', pad)) + Sign(v, f) + Prefix(base, f) + Run('0', Max0(precision))
  }

  /** Padding zeros, digits, spaces behind. */
  function Back(body: string, f: Flags, pad: nat): string {
    (if f.zeroPad then Run('0', pad) else "") + body + (if f.left && !f.zeroPad then Run(' ', pad) else "")
  }

  /** The whole output. */
  function Field(v: LongLong, base: nat, f: Flags, width: int, precision: int): string
    requires IsBase(base)
  {
    var pad := Pad(v, base, f, width);
    Front(v, base, f, pad, precision) + Back(Body(v, base, f), f, pad)
  }

  /**
    The count is the larger of the width and the text, plus the precision, except that a sign asked
    for on an unsigned number is not counted when the padding is worked out.
   */
  lemma FieldLength(v: LongLong, base: nat, f: Flags, width: int, precision: int)
    requires IsBase(base)
    ensures var text := |Sign(v, f)| + |Prefix(base, f)| + |Body(v, base, f)|;
      |Field(v, base, f, width, precision)| == (if width > text then width else text) + Max0(precision)
      <==> (Sign(v, f) == "" || SignCounted(v, f) || width < text)
  {
  }

  // ---------- Reading the output back ----------

  /** "%+2u" of 5 comes out as " +5", one longer than its width. */
  lemma PlusIsNotCounted()
    ensures var f := Flags(false, false, true, false, false, false, false);
      Field(5, 10, f, 2, -1) == " +5"
  {
    var f := Flags(false, false, true, false, false, false, false);
    assert Digits(5, 10, false) == Digits(0, 10, false) + ['5'];
    assert Body(5, 10, f) == "5" && Pad(5, 10, f, 2) == 1;
    assert Run(' ', 1) == " " && Run('0', 0) == "";
  }

  predicate IsDigit(c: char) { '0' <= c <= '9' || 'a' <= c <= 'f' || 'A' <= c <= 'F' }

  function SkipSpaces(s: string): string {
    if s != "" && s[0] == ' ' then SkipSpaces(s[1..]) else s
  }

  /** What comes before the first space. */
  function Word(s: string): string {
    if s == "" || s[0] == ' ' then "" else [s[0]] + Word(s[1..])
  }

  function SkipHexMark(s: string): string {
    if |s| >= 2 && (s[1] == 'x' || s[1] == 'X') then s[2..] else s
  }

  /** A reader that knows nothing of flags: spaces, a sign, a hexadecimal mark, digits up to a space. */
  function Read(s: string, base: nat): int {
    var t := SkipSpaces(s);
    if t != "" && t[0] == '-' then 0 - Value(Word(SkipHexMark(t[1..])), base)
    else if t != "" && t[0] == '+' then Value(Word(SkipHexMark(t[1..])), base)
    else Value(Word(SkipHexMark(t)), base)
  }

  lemma {:induction false} SkipRun(n: nat, s: string)
    ensures SkipSpaces(Run(' ', n) + s) == SkipSpaces(s)
  {
    if n > 0 {
      assert (Run(' ', n) + s)[1..] == Run(' ', n - 1) + s;
      SkipRun(n - 1, s);
    } else {
      assert Run(' ', 0) + s == s;
    }
  }

  lemma {:induction false} WordStops(s: string, n: nat)
    requires forall i :: 0 <= i < |s| ==> s[i] != ' '
    ensures Word(s + Run(' ', n)) == s
  {
    if s != "" {
      assert (s + Run(' ', n))[1..] == s[1..] + Run(' ', n);
      WordStops(s[1..], n);
    } else {
      assert s + Run(' ', n) == Run(' ', n);
    }
  }

  lemma {:induction false} ZerosInFront(n: nat, s: string, base: nat)
    ensures Value(Run('0', n) + s, base) == Value(s, base)
  {
    var t := Run('0', n) + s;
    if s != "" {
      assert t[..|t| - 1] == Run('0', n) + s[..|s| - 1];
      ZerosInFront(n, s[..|s| - 1], base);
    } else if n > 0 {
      assert t[..|t| - 1] == Run('0', n - 1) + s;
      ZerosInFront(n - 1, s, base);
    }
  }

  lemma {:induction false} DigitsAreDigits(m: nat, base: nat, small: bool)
    requires IsBase(base)
    ensures forall i :: 0 <= i < |Digits(m, base, small)| ==> IsDigit(Digits(m, base, small)[i])
    ensures m > 0 ==> Digits(m, base, small) != ""
  {
    if m > 0 { DigitsAreDigits(Quot(m, base), base, small); }
  }

  /** Reading a text of this shape: spaces, one sign or none, a mark or none, digits, spaces. */
  lemma ReadText(n: nat, sign: string, mark: string, digits: string, k: nat, base: nat)
    requires sign in {"", "-", "+", " "} && mark in {"", "0x", "0X"}
    requires digits != "" && forall i :: 0 <= i < |digits| ==> IsDigit(digits[i])
    ensures Read(Run(' ', n) + (sign + (mark + (digits + Run(' ', k)))), base)
         == if sign == "-" then 0 - Value(digits, base) else Value(digits, base)
  {
    var tail := digits + Run(' ', k);
    var t := sign + (mark + tail);
    SkipRun(n, t);
    WordStops(digits, k);
    MarkSkipped(mark, digits, k);
    assert sign == "" ==> t == mark + tail;
    assert sign != "" ==> t[1..] == mark + tail;
  }

  lemma MarkSkipped(mark: string, digits: string, k: nat)
    requires mark in {"", "0x", "0X"}
    requires digits != "" && forall i :: 0 <= i < |digits| ==> IsDigit(digits[i])
    ensures SkipHexMark(mark + (digits + Run(' ', k))) == digits + Run(' ', k)
    ensures IsDigit((mark + (digits + Run(' ', k)))[0])
  {
    var tail := digits + Run(' ', k);
    if mark == "" {
      assert mark + tail == tail;
      assert |tail| >= 2 ==> tail[1] == if |digits| >= 2 then digits[1] else ' ';
    } else {
      assert (mark + tail)[2..] == tail;
    }
  }

  /** The digits of a field, with the zeros in front of them, still denote the magnitude. */
  lemma PaddedDigits(v: LongLong, base: nat, f: Flags, zeros: nat)
    requires IsBase(base)
    ensures var d := Run('0', zeros) + Body(v, base, f);
      d != "" && (forall i :: 0 <= i < |d| ==> IsDigit(d[i])) && Value(d, base) == Magnitude(v, f)
  {
    var m := Magnitude(v, f);
    ZerosInFront(zeros, Body(v, base, f), base);
    DigitsAreDigits(m, base, f.small);
    DigitsDenote(m, base, f.small);
    assert Value("0", base) == Value("", base) * base + 0;
  }

  /** How a field reads: every run of equal characters made one. */
  lemma FieldShape(v: LongLong, base: nat, f: Flags, width: int, precision: int)
      returns (n: nat, mark: string, zeros: nat, k: nat)
    requires IsBase(base)
    ensures mark in {"", "0x", "0X"}
    ensures Field(v, base, f, width, precision)
         == Run(' ', n) + (Sign(v, f) + (mark + (Run('0', zeros) + Body(v, base, f) + Run(' ', k))))
  {
    var pad := Pad(v, base, f, width);
    n := if f.zeroPad || f.left then 0 else pad;
    k := if f.left && !f.zeroPad then pad else 0;
    mark := if base == 16 then Prefix(base, f) else "";
    var octal := if base == 16 then 0 else |Prefix(base, f)|;
    var z := if f.zeroPad then pad else 0;
    zeros := octal + Max0(precision) + z;
    var p := Max0(precision);
    assert Prefix(base, f) == mark + Run('0', octal);
    assert Run('0', zeros) == Run('0', octal) + Run('0', p) + Run('0', z);
    assert Front(v, base, f, pad, precision) == Run(' ', n) + Sign(v, f) + Prefix(base, f) + Run('0', p);
    assert Back(Body(v, base, f), f, pad) == Run('0', z) + Body(v, base, f) + Run(' ', k);
    Regroup(Run(' ', n), Sign(v, f), mark, Run('0', octal), Run('0', p), Run('0', z), Body(v, base, f), Run(' ', k));
  }

  lemma Regroup(a: string, s: string, m: string, o: string, p: string, z: string, b: string, e: string)
    ensures (a + s + (m + o) + p) + (z + b + e) == a + (s + (m + ((o + p + z) + b + e)))
  {
  }

  /** Whatever the flags, the width and the precision, the output reads back as the number. */
  lemma ReadUndoesField(v: LongLong, base: nat, f: Flags, width: int, precision: int)
    requires IsBase(base)
    ensures Read(Field(v, base, f, width, precision), base)
         == if v < 0 && !f.signed then v + TWO64 else v
  {
    var n, mark, zeros, k := FieldShape(v, base, f, width, precision);
    PaddedDigits(v, base, f, zeros);
    ReadText(n, Sign(v, f), mark, Run('0', zeros) + Body(v, base, f), k, base);
  }

  // ---------- The output, character by character ----------

  /** The digit characters and what they stand for. */
  lemma Alphabet(d: nat)
    requires d < 16
    ensures DigitChar(d, true) == "0123456789abcdef"[d] && DigitValue("0123456789abcdef"[d]) == d
    ensures DigitChar(d, false) == "0123456789ABCDEF"[d] && DigitValue("0123456789ABCDEF"[d]) == d
  {
  }

  predicate IsDigitOf(c: char, small: bool) {
    '0' <= c <= '9' || (if small then 'a' <= c <= 'f' else 'A' <= c <= 'F')
  }

  /** Digits come in the case asked for, without a zero in front. */
  lemma {:induction false} DigitsInCase(m: nat, base: nat, small: bool)
    requires IsBase(base)
    ensures forall i :: 0 <= i < |Digits(m, base, small)| ==> IsDigitOf(Digits(m, base, small)[i], small)
    ensures m > 0 ==> Digits(m, base, small) != "" && Digits(m, base, small)[0] != '0'
  {
    if m > 0 {
      DigitsInCase(Quot(m, base), base, small);
      if Quot(m, base) == 0 { assert Rem(m, base) == m; }
    }
  }

  function Fill(c: char, n: int): string {
    if n > 0 then seq(n, _ => c) else ""
  }

  lemma FrontIs(v: LongLong, base: nat, f: Flags, pad: int, precision: int)
    requires IsBase(base)
    ensures Front(v, base, f, Max0(pad), precision)
         == Fill(' ', if f.zeroPad || f.left then 0 else pad) + Sign(v, f) + Prefix(base, f) + Fill('0', precision)
  {
    assert Run(' ', Max0(pad)) == Fill(' ', pad) && Run('0', Max0(precision)) == Fill('0', precision);
  }

  lemma BackIs(digits: string, f: Flags, pad: int)
    ensures Back(digits, f, Max0(pad))
         == Fill('0', if f.zeroPad then pad else 0) + digits + Fill(' ', if f.left && !f.zeroPad then pad else 0)
  {
    assert Run(' ', Max0(pad)) == Fill(' ', pad) && Run('0', Max0(pad)) == Fill('0', pad);
  }

  lemma BodyIs(v: LongLong, base: nat, f: Flags)
    requires IsBase(base)
    ensures var d := Body(v, base, f);
      && (v == 0 ==> d == "0") && (v != 0 ==> d != "" && d[0] != '0')
      && (forall i :: 0 <= i < |d| ==> IsDigitOf(d[i], f.small))
  {
    BodyOf(v, base, f);
    DigitsInCase(Magnitude(v, f), base, f.small);
  }

  lemma BodyValue(v: LongLong, base: nat, f: Flags)
    requires IsBase(base)
    ensures Value(Body(v, base, f), base) == if v >= 0 then v else if f.signed then 0 - v else v + TWO64
  {
    PaddedDigits(v, base, f, 0);
    assert Run('0', 0) + Body(v, base, f) == Body(v, base, f);
  }

  /**
    The whole layout: spaces, one sign or none, the prefix asked for, zeros, digits, spaces.  Zero padding
    goes before left alignment; the width counts a sign only on signed conversions.
   */
  lemma FieldLayout(v: LongLong, base: nat, f: Flags, width: int, precision: int)
      returns (sign: string, prefix: string, digits: string, pad: int)
    requires IsBase(base)
    ensures sign == if v < 0 then (if f.signed then "-" else "") else if f.space then " " else if f.plus then "+" else ""
    ensures prefix ==
      if !f.prefix || base == 10 then "" else if base == 8 then "0" else if f.small then "0x" else "0X"
    ensures pad == width - |digits| - |prefix| - if f.signed && (v < 0 || f.plus || f.space) then 1 else 0
    ensures v == 0 ==> digits == "0"
    ensures v != 0 ==> digits != "" && digits[0] != '0'
    ensures forall i :: 0 <= i < |digits| ==> IsDigitOf(digits[i], f.small)
    ensures Value(digits, base) == if v >= 0 then v else if f.signed then 0 - v else v + TWO64
    ensures Field(v, base, f, width, precision) ==
      (Fill(' ', if f.zeroPad || f.left then 0 else pad) + sign + prefix + Fill('0', precision))
      + (Fill('0', if f.zeroPad then pad else 0) + digits + Fill(' ', if f.left && !f.zeroPad then pad else 0))
  {
    sign, prefix, digits := Sign(v, f), Prefix(base, f), Body(v, base, f);
    pad := width - |digits| - |prefix| - if f.signed && (v < 0 || f.plus || f.space) then 1 else 0;
    BodyIs(v, base, f);
    BodyValue(v, base, f);
    assert Pad(v, base, f, width) == Max0(pad);
    FrontIs(v, base, f, pad, precision);
    BackIs(digits, f, pad);
  }

  predicate NoSpace(s: string) { forall i :: 0 <= i < |s| ==> s[i] != ' ' }

  lemma NoSpaceJoin(a: string, b: string)
    requires NoSpace(a) && NoSpace(b)
    ensures NoSpace(a + b)
  {
  }

  lemma NoSpaceText(prefix: string, precision: int, pad: int, digits: string)
    requires NoSpace(prefix) && NoSpace(digits)
    ensures NoSpace(prefix + Fill('0', precision)) && NoSpace(Fill('0', pad) + digits)
    ensures NoSpace(prefix + Fill('0', precision) + (Fill('0', pad) + digits))
  {
    NoSpaceJoin(prefix, Fill('0', precision));
    NoSpaceJoin(Fill('0', pad), digits);
    NoSpaceJoin(prefix + Fill('0', precision), Fill('0', pad) + digits);
  }

  /** With zero padding the only space there can be is the sign. */
  lemma ZeroPadHasNoSpace(v: LongLong, base: nat, f: Flags, width: int, precision: int)
    requires IsBase(base) && f.zeroPad
    ensures var s := Field(v, base, f, width, precision);
      forall i :: 0 <= i < |s| && s[i] == ' ' ==> i == 0 && v >= 0 && f.space
  {
    var sign, prefix, digits, pad := FieldLayout(v, base, f, width, precision);
    NoSpaceText(prefix, precision, pad, digits);
    DropEmpty(sign, prefix, Fill('0', precision), Fill('0', pad), digits);
    OnlyInFront(sign, prefix + Fill('0', precision) + (Fill('0', pad) + digits));
  }

  lemma OnlyInFront(sign: string, text: string)
    requires |sign| <= 1 && NoSpace(text)
    ensures forall i :: 0 <= i < |sign + text| && (sign + text)[i] == ' ' ==> i == 0 && sign == " "
  {
  }

  lemma DropEmpty(a: string, b: string, c: string, d: string, e: string)
    ensures ("" + a + b + c) + (d + e + "") == a + (b + c + (d + e))
  {
  }

  /** Aligned left, the output does not start with padding. */
  lemma LeftStartsAtOnce(v: LongLong, base: nat, f: Flags, width: int, precision: int)
    requires IsBase(base) && f.left && !f.zeroPad
    ensures var s := Field(v, base, f, width, precision);
      && s != "" && (s[0] == ' ' ==> v >= 0 && f.space && |s| > 1 && s[1] != ' ')
  {
    var sign, prefix, digits, pad := FieldLayout(v, base, f, width, precision);
    NoSpaceText(prefix, precision, 0, digits);
    TextBeforeSpaces(sign, prefix, Fill('0', precision), digits, Fill(' ', pad));
  }

  lemma TextBeforeSpaces(a: string, b: string, c: string, d: string, e: string)
    requires d != "" && NoSpace(b + c + ("" + d))
    ensures var s := ("" + a + b + c) + ("" + d + e); var text := b + c + ("" + d);
      s == a + (text + e) && |s| > |a| && s[|a|] != ' '
  {
    var s := ("" + a + b + c) + ("" + d + e);
    var text := b + c + ("" + d);
    assert s == a + (text + e);
    assert s[|a|] == text[0];
  }

  /** Otherwise it ends in a digit. */
  lemma EndsInDigit(v: LongLong, base: nat, f: Flags, width: int, precision: int)
    requires IsBase(base) && (!f.left || f.zeroPad)
    ensures var s := Field(v, base, f, width, precision); s != "" && IsDigitOf(s[|s| - 1], f.small)
  {
    var sign, prefix, digits, pad := FieldLayout(v, base, f, width, precision);
    var s := Field(v, base, f, width, precision);
    assert Fill('0', if f.zeroPad then pad else 0) + digits + "" == Fill('0', if f.zeroPad then pad else 0) + digits;
    assert s[|s| - 1] == digits[|digits| - 1];
  }

  predicate InCase(s: string, small: bool) {
    forall i :: 0 <= i < |s| ==> if small then !('A' <= s[i] <= 'F') && s[i] != 'X' else !('a' <= s[i] <= 'f') && s[i] != 'x'
  }

  /** Letters come in the case asked for. */
  lemma OneCase(v: LongLong, base: nat, f: Flags, width: int, precision: int)
    requires IsBase(base)
    ensures InCase(Field(v, base, f, width, precision), f.small)
  {
    var sign, prefix, digits, pad := FieldLayout(v, base, f, width, precision);
    PartsInCase(if f.zeroPad || f.left then 0 else pad, sign, prefix, precision,
                if f.zeroPad then pad else 0, digits, if f.left && !f.zeroPad then pad else 0, f.small);
  }

  lemma PartsInCase(lead: int, sign: string, prefix: string, precision: int, zeros: int, digits: string, trail: int, small: bool)
    requires InCase(sign, small) && InCase(prefix, small) && InCase(digits, small)
    ensures InCase((Fill(' ', lead) + sign + prefix + Fill('0', precision)) + (Fill('0', zeros) + digits + Fill(' ', trail)), small)
  {
    InCaseJoin(Fill(' ', lead), sign, small);
    InCaseJoin(Fill(' ', lead) + sign, prefix, small);
    InCaseJoin(Fill(' ', lead) + sign + prefix, Fill('0', precision), small);
    InCaseJoin(Fill('0', zeros), digits, small);
    InCaseJoin(Fill('0', zeros) + digits, Fill(' ', trail), small);
    InCaseJoin(Fill(' ', lead) + sign + prefix + Fill('0', precision), Fill('0', zeros) + digits + Fill(' ', trail), small);
  }

  lemma InCaseJoin(a: string, b: string, small: bool)
    requires InCase(a, small) && InCase(b, small)
    ensures InCase(a + b, small)
  {
  }

  /** "%04X" of 0xBE, "%x" of 255, "%-5d" of 42. */
  lemma FieldExamples()
    ensures Field(0xBE, 16, Flags(false, true, false, false, false, false, false), 4, -1) == "00BE"
    ensures Field(255, 16, Flags(false, false, false, false, false, true, false), 0, -1) == "ff"
    ensures Field(42, 10, Flags(true, false, false, false, false, false, true), 5, -1) == "42   "
  {
    TwoDigits(0xBE, 16, false);
    TwoDigits(255, 16, true);
    TwoDigits(42, 10, false);
    assert Run('0', 2) == "00" && Run(' ', 3) == "   " && Run('0', 0) == "";
  }

  lemma TwoDigits(m: nat, base: nat, small: bool)
    requires IsBase(base) && base <= m < base * base
    ensures Digits(m, base, small) == [DigitChar(m / base, small), DigitChar(m % base, small)]
  {
    QuotRem(m, base);
    var q := Quot(m, base);
    QuotRem(q, base);
    assert 0 < q < base && Quot(q, base) == 0 && Rem(q, base) == q;
    assert Digits(q, base, small) == Digits(0, base, small) + [DigitChar(q, small)];
  }

  // ---------- The code ----------

  /** The base conversion: least significant digit first, into `char str[23]`, zeroed beforehand. */
  method Convert(v: LongLong, base: nat, f: Flags, str: array<char>) returns (len: nat)
    requires IsBase(base) && str.Length == 23
    modifies str
    ensures 1 <= len <= 22 && len == |Body(v, base, f)|
    ensures Holds(str[..], Body(v, base, f), len)
  {
    Clear(str);
    var divide: nat := Magnitude(v, f);
    ghost var done := "";
    len := 0;
    CapAt22();
    while divide > 0
      invariant len <= 22 && divide < Cap(len)
      invariant Digits(Magnitude(v, f), base, f.small) == Digits(divide, base, f.small) + done
      invariant Holds(str[..], done, len)
      decreases divide
    {
      CapStep(divide, base, len);
      var c := DigitChar(Rem(divide, base), f.small);
      NextDigit(divide, base, f.small, done);
      StoreDigit(str, done, len, c);
      done := [c] + done;
      divide := Quot(divide, base);
      len := len + 1;
    }
    assert Digits(0, base, f.small) + done == done;
    BodyOf(v, base, f);
    if v == 0 {
      StoreDigit(str, "", 0, '0');
      len := 1;
      done := ['0'] + "";
    }
    assert done == Body(v, base, f);
  }

  lemma BodyOf(v: LongLong, base: nat, f: Flags)
    requires IsBase(base)
    ensures if v == 0 then Body(v, base, f) == "0" && Magnitude(v, f) == 0
      else Body(v, base, f) == Digits(Magnitude(v, f), base, f.small) && Magnitude(v, f) > 0
  {
  }

  /** `memset(str, 0, 23)`. */
  method Clear(str: array<char>)
    modifies str
    ensures forall i :: 0 <= i < str.Length ==> str[i] == '\0'
  {
    var k := 0;
    while k < str.Length
      invariant 0 <= k <= str.Length && forall i :: 0 <= i < k ==> str[i] == '\0'
    {
      str[k] := '\0';
      k := k + 1;
    }
  }

  /** The buffer holds the digits of `done` backwards, then NULs. */
  predicate Holds(str: seq<char>, done: string, len: nat) {
    && |str| == 23 && len == |done| <= 23
    && (forall i :: 0 <= i < len ==> str[i] == done[len - 1 - i] && str[i] != '\0')
    && (forall i :: len <= i < 23 ==> str[i] == '\0')
  }

  method StoreDigit(str: array<char>, ghost done: string, len: nat, c: char)
    requires Holds(str[..], done, len) && len < 22 && c != '\0'
    modifies str
    ensures Holds(str[..], [c] + done, len + 1)
  {
    str[len] := c;
  }

  lemma NextDigit(m: nat, base: nat, small: bool, done: string)
    requires IsBase(base) && m > 0
    ensures DigitChar(Rem(m, base), small) != '\0'
    ensures Digits(m, base, small) + done
         == Digits(Quot(m, base), base, small) + ([DigitChar(Rem(m, base), small)] + done)
  {
    DigitIsNotNul(Rem(m, base), small);
    Reassociate(Digits(Quot(m, base), base, small), [DigitChar(Rem(m, base), small)], done);
  }

  lemma Reassociate(a: string, b: string, c: string)
    ensures (a + b) + c == a + (b + c)
  {
  }

  lemma DigitIsNotNul(d: nat, small: bool)
    requires d < 16
    ensures DigitChar(d, small) != '\0'
  {
  }

  // ---------- Emission ----------

  class Sink {
    var written: string

    constructor ()
      ensures written == ""
    {
      written := "";
    }

    /** `f`: hands one character on and returns 1. */
    method Put(c: char) returns (n: nat)
      modifies this
      ensures n == 1 && written == old(written) + [c]
    {
      written := written + [c];
      n := 1;
    }

    /** `while(n-- > 0) written += f(g, c, _buf)`. */
    method PutRun(c: char, n: int) returns (count: nat)
      modifies this
      ensures count == Max0(n) && written == old(written) + Run(c, Max0(n))
    {
      count := 0;
      var left := n;
      while left > 0
        invariant left == n - count && (n >= 0 ==> left >= 0) && (n < 0 ==> count == 0)
        invariant written == old(written) + Run(c, count)
      {
        var k := Put(c);
        assert Run(c, count + 1) == Run(c, count) + [c];
        count := count + k;
        left := left - 1;
      }
    }

    /** The digits of the buffer, last one first. */
    method PutDigits(str: array<char>, ghost body: string, len: nat) returns (count: nat)
      requires Holds(str[..], body, len)
      modifies this
      ensures count == len && written == old(written) + body
    {
      count := 0;
      var i := len;
      while i > 0
        invariant 0 <= i <= len && count == len - i
        invariant written == old(written) + body[..len - i]
      {
        var k := Put(str[i - 1]);
        assert body[..len - i + 1] == body[..len - i] + [body[len - i]];
        count := count + k;
        i := i - 1;
      }
      assert body[..len] == body;
    }

    method PutSignAndPrefix(v: LongLong, base: nat, f: Flags) returns (count: nat)
      requires IsBase(base)
      modifies this
      ensures count == |Sign(v, f)| + |Prefix(base, f)|
      ensures written == old(written) + Sign(v, f) + Prefix(base, f)
    {
      count := 0;
      var sign: char := '\0';
      sign := if v < 0 && f.signed then '-' else sign;
      sign := if v >= 0 && f.plus then '+' else sign;
      sign := if v >= 0 && f.space then ' ' else sign;
      if sign != '\0' {
        var k := Put(sign);
        count := count + k;
      }
      assert written == old(written) + Sign(v, f);
      if f.prefix && base == 16 {
        var k1 := Put('0');
        var k2 := Put(if f.small then 'x' else 'X');
        count := count + k1 + k2;
      } else if f.prefix && base == 8 {
        var k := Put('0');
        count := count + k;
      }
    }

    /** Padding spaces when they go in front, then the sign and prefix, then the precision zeros. */
    method PutFront(v: LongLong, base: nat, f: Flags, w: nat, p: int) returns (count: nat)
      requires IsBase(base)
      modifies this
      ensures written == old(written) + Front(v, base, f, w, p)
      ensures count == |Front(v, base, f, w, p)|
    {
      count := 0;
      ghost var start := written;
      ghost var spaces := if f.zeroPad || f.left then "" else Run(' ', w);
      if !f.zeroPad && !f.left { count := PutRun(' ', w); }
      assert written == start + spaces && count == |spaces|;
      var k := PutSignAndPrefix(v, base, f);
      count := count + k;
      Reassociate(start, spaces, Sign(v, f));
      Reassociate(start, spaces + Sign(v, f), Prefix(base, f));
      assert written == start + (spaces + Sign(v, f) + Prefix(base, f));
      k := PutRun('0', p);
      Reassociate(start, spaces + Sign(v, f) + Prefix(base, f), Run('0', Max0(p)));
      count := count + k;
    }

    /** Padding zeros when they were asked for, the digits, padding spaces when they go behind. */
    method PutBack(str: array<char>, ghost body: string, len: nat, f: Flags, w: nat) returns (count: nat)
      requires Holds(str[..], body, len)
      modifies this
      ensures written == old(written) + Back(body, f, w)
      ensures count == |Back(body, f, w)|
    {
      count := 0;
      if f.zeroPad { count := PutRun('0', w); }
      var k := PutDigits(str, body, len);
      count := count + k;
      if !f.zeroPad && f.left {
        k := PutRun(' ', w);
        count := count + k;
      }
    }

    /**
      `num`.  A precision of -1 means none was given.  The minimum value is left out when it is to be
      printed as signed: its negation overflows.
     */
    method Num(v: LongLong, base: nat, f: Flags, width: int, precision: int) returns (count: nat)
      requires IsBase(base) && (f.signed ==> v > -TWO63)
      modifies this
      ensures written == old(written) + Field(v, base, f, width, precision)
      ensures count == |Field(v, base, f, width, precision)|
    {
      var str := new char[23];
      var p := if precision == -1 then 0 else precision;
      var len := Convert(v, base, f, str);
      var w := Padding(v, base, f, width, len);
      count := PutFront(v, base, f, w, p);
      var k := PutBack(str, Body(v, base, f), len, f, w);
      count := count + k;
      Reassociate(old(written), Front(v, base, f, w, p), Back(Body(v, base, f), f, w));
      SamePrecision(v, base, f, width, precision);
    }
  }

  lemma SamePrecision(v: LongLong, base: nat, f: Flags, width: int, precision: int)
    requires IsBase(base)
    ensures var p := if precision == -1 then 0 else precision;
      Field(v, base, f, width, precision)
        == Front(v, base, f, Pad(v, base, f, width), p) + Back(Body(v, base, f), f, Pad(v, base, f, width))
  {
  }

  /** The width arithmetic of `num`: what is left of the width beside digits, prefix and sign. */
  method Padding(v: LongLong, base: nat, f: Flags, width: int, len: nat) returns (w: nat)
    requires IsBase(base) && len == |Body(v, base, f)|
    ensures w == Pad(v, base, f, width)
  {
    w := 0;
    if f.prefix && base == 16 { w := w + 2; } else if f.prefix && base == 8 { w := w + 1; }
    if (f.signed && v < 0) || (f.signed && f.plus) || (f.signed && f.space) { w := w + 1; }
    w := len + w;
    w := if width - w > 0 then width - w else 0;
  }
}
