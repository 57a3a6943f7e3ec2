/**
 What _vsnprintf of userland/printf.c prints, as a function of the format and the arguments: the integer
 specifiers d i u x X o b, and c, s, p and %. A format string ends at its first NUL or at the end of the sequence.
 */
module Format {
  import opened Prelude

  /** PRINTF_NTOA_BUFFER_SIZE: room for one converted number, padding zeros, prefix and sign included. */
  const NTOA: nat := 32

  datatype Flags = Flags(
    zeropad: bool, left: bool, plus: bool, space: bool, hash: bool, uppercase: bool,
    chr: bool, short: bool, long: bool, longLong: bool, precision: bool)

  const NO_FLAGS: Flags := Flags(false, false, false, false, false, false, false, false, false, false, false)

  // ---------- numbers ----------

  function Fill(c: char, k: int): (s: string)
    ensures |s| == Max(k, 0)
  {
    if k <= 0 then "" else Fill(c, k - 1) + [c]
  }

  function Reverse(s: string): (r: string)
    ensures |r| == |s|
  {
    if s == "" then "" else [s[|s| - 1]] + Reverse(s[..|s| - 1])
  }

  function DigitChar(d: nat, uppercase: bool): char
    requires d < 16
  {
    if d < 10 then ('0' as int + d) as char
    else ((if uppercase then 'A' else 'a') as int + d - 10) as char
  }

  /** The digits of v in a base, least significant first, as many as fit. */
  function Digits(v: nat, base: nat, uppercase: bool, room: nat): (s: string)
    requires 2 <= base <= 16 && 1 <= room
    ensures 1 <= |s| <= room
    decreases room
  {
    [DigitChar(v % base, uppercase)] +
    if v / base != 0 && 1 < room then Digits(v / base, base, uppercase, room - 1) else ""
  }

  function PadZeros(buf: string, k: nat): (s: string)
    requires |buf| <= NTOA
    ensures |s| == Max(|buf|, Min(k, NTOA)) <= NTOA
  {
    buf + Fill('0', Min(k, NTOA) - |buf|)
  }

  /** A zero-padded number leaves one column of its width to the sign. */
  function WidthLeft(negative: bool, width: nat, f: Flags): nat {
    if !f.left && width > 0 && f.zeropad && (negative || f.plus || f.space) then width - 1 else width
  }

  function LeadingZeros(buf: string, precision: nat, width: nat, f: Flags): (s: string)
    requires |buf| <= NTOA
    ensures |s| <= NTOA
  {
    if f.left then buf
    else if f.zeropad then PadZeros(PadZeros(buf, precision), width)
    else PadZeros(buf, precision)
  }

  function BaseLetter(buf: string, base: nat, f: Flags): (s: string)
    requires |buf| <= NTOA
    ensures |s| <= NTOA
  {
    if base == 16 && |buf| < NTOA then buf + (if f.uppercase then "X" else "x")
    else if base == 2 && |buf| < NTOA then buf + "b"
    else buf
  }

  /** The '#' prefix takes the place of padding zeros where there is just no room beside them. */
  function Prefix(buf: string, base: nat, precision: nat, width: nat, f: Flags): (s: string)
    requires |buf| <= NTOA
    ensures |s| <= NTOA
  {
    if !f.hash then buf
    else
      var full := !f.precision && |buf| > 0 && (|buf| == precision || |buf| == width);
      var b := if !full then buf
               else if |buf| > 1 && base == 16 then buf[..|buf| - 2] else buf[..|buf| - 1];
      var c := BaseLetter(b, base, f);
      if |c| < NTOA then c + "0" else c
  }

  function SignText(negative: bool, f: Flags): (s: string)
    ensures |s| <= 1 && (s == "" <==> !(negative || f.plus || f.space))
  {
    if negative then "-" else if f.plus then "+" else if f.space then " " else ""
  }

  function WithSign(buf: string, negative: bool, f: Flags): (s: string)
    requires |buf| <= NTOA
    ensures |s| <= NTOA
  {
    if |buf| < NTOA then buf + SignText(negative, f) else buf
  }

  /** _out_rev: the buffer backwards, with spaces on one side. */
  function Padded(buf: string, width: nat, f: Flags): string {
    (if !f.left && !f.zeropad then Fill(' ', width - |buf|) else "")
    + Reverse(buf)
    + (if f.left then Fill(' ', width - |buf|) else "")
  }

  /** _ntoa_format. */
  function FormatDigits(buf: string, negative: bool, base: nat, precision: nat, width: nat, f: Flags): string
    requires |buf| <= NTOA
  {
    var w := WidthLeft(negative, width, f);
    Padded(WithSign(Prefix(LeadingZeros(buf, precision, w, f), base, precision, w, f), negative, f), w, f)
  }

  /** The digit loop: nothing at all for a zero with a precision. */
  function NumberDigits(value: nat, base: nat, f: Flags): (s: string)
    requires 2 <= base <= 16
    ensures |s| <= NTOA
  {
    if f.precision && value == 0 then "" else Digits(value, base, f.uppercase, NTOA)
  }

  /** _ntoa_long and _ntoa_long_long. */
  function NumberText(value: nat, negative: bool, base: nat, precision: nat, width: nat, f: Flags): string
    requires 2 <= base <= 16
  {
    var g := if value == 0 then f.(hash := false) else f;
    FormatDigits(NumberDigits(value, base, g), negative, base, precision, width, g)
  }

  // ---------- arguments ----------

  type Word = w: nat | w < WORD_MOD

  /** One argument: a machine word, or a pointer to a string (without its NUL). */
  datatype Arg = Integer(w: Word) | Pointer(s: string)

  /** The modulus of the C type that the length modifiers select. */
  function TypeModulus(f: Flags): (m: nat)
    ensures m > 0
  {
    if f.longLong || f.long then WORD_MOD
    else if f.chr then 0x100
    else if f.short then 0x1_0000
    else UINT_MOD
  }

  function Abs(x: int): nat {
    if x < 0 then -x else x
  }

  // ---------- directives ----------

  function ParseFlags(fmt: string, i: nat, f: Flags): (r: (Flags, nat))
    ensures i <= r.1
    decreases |fmt| - i
  {
    match At(fmt, i)
    case '0' => ParseFlags(fmt, i + 1, f.(zeropad := true))
    case '-' => ParseFlags(fmt, i + 1, f.(left := true))
    case '+' => ParseFlags(fmt, i + 1, f.(plus := true))
    case ' ' => ParseFlags(fmt, i + 1, f.(space := true))
    case '#' => ParseFlags(fmt, i + 1, f.(hash := true))
    case _ => (f, i)
  }

  /** _atoi, on unsigned int. */
  function ParseNumber(fmt: string, i: nat, acc: nat): (r: (nat, nat))
    ensures i <= r.1 && (acc < UINT_MOD ==> r.0 < UINT_MOD)
    decreases |fmt| - i
  {
    if IsDigit(At(fmt, i)) then
      ParseNumber(fmt, i + 1, (acc * 10 + (At(fmt, i) as int - '0' as int)) % UINT_MOD)
    else (acc, i)
  }

  /** A directive as far as it has been read: up to position `at`, with the arguments still to be used. */
  datatype Directive = Directive(f: Flags, width: nat, precision: nat, at: nat, va: seq<Arg>)

  function ParseWidth(fmt: string, i: nat, f: Flags, va: seq<Arg>): (r: Option<Directive>)
    ensures r.Some? ==> i <= r.value.at && r.value.precision == 0
  {
    if IsDigit(At(fmt, i)) then
      var (width, j) := ParseNumber(fmt, i, 0);
      Some(Directive(f, width, 0, j, va))
    else if At(fmt, i) == '*' then
      if va == [] || !va[0].Integer? then None
      else
        var w := Signed(va[0].w, UINT_MOD);
        Some(Directive(if w < 0 then f.(left := true) else f, Abs(w), 0, i + 1, va[1..]))
    else Some(Directive(f, 0, 0, i, va))
  }

  function ParsePrecision(fmt: string, d: Directive): (r: Option<Directive>)
    ensures r.Some? ==> d.at <= r.value.at && (d.precision == 0 ==> r.value.precision > 0 ==> r.value.f.precision)
    ensures r.Some? && d.precision < UINT_MOD ==> r.value.precision < UINT_MOD
  {
    if At(fmt, d.at) != '.' then Some(d)
    else
      var e := d.(f := d.f.(precision := true), at := d.at + 1);
      if IsDigit(At(fmt, e.at)) then
        var (precision, j) := ParseNumber(fmt, e.at, 0);
        Some(e.(precision := precision, at := j))
      else if At(fmt, e.at) == '*' then
        if e.va == [] || !e.va[0].Integer? then None
        else Some(e.(precision := Max(Signed(e.va[0].w, UINT_MOD), 0), at := e.at + 1, va := e.va[1..]))
      else Some(e)
  }

  /** The length field. On x86_64 ptrdiff_t, intmax_t and size_t are as wide as long. */
  datatype Length = Int | Char | Short | Long | LongLong

  function ParseLengthField(fmt: string, i: nat): (r: (Length, nat))
    ensures i <= r.1
  {
    match At(fmt, i)
    case 'l' => if At(fmt, i + 1) == 'l' then (LongLong, i + 2) else (Long, i + 1)
    case 'h' => if At(fmt, i + 1) == 'h' then (Char, i + 2) else (Short, i + 1)
    case 't' | 'j' | 'z' => (Long, i + 1)
    case _ => (Int, i)
  }

  function WithLength(f: Flags, length: Length): Flags {
    f.(chr := f.chr || length.Char?, short := f.short || length.Char? || length.Short?,
       long := f.long || length.Long? || length.LongLong?, longLong := f.longLong || length.LongLong?)
  }

  function ParseLength(fmt: string, d: Directive): (r: Directive)
    ensures d.at <= r.at && r.va == d.va && r.precision == d.precision && r.f.precision == d.f.precision
  {
    var (length, j) := ParseLengthField(fmt, d.at);
    Directive(WithLength(d.f, length), d.width, d.precision, j, d.va)
  }

  /** Everything after the '%' and before the specifier. */
  function Parse(fmt: string, i: nat, va: seq<Arg>): (r: Option<Directive>)
    ensures r.Some? ==> i <= r.value.at && r.value.precision < UINT_MOD
    ensures r.Some? && r.value.precision > 0 ==> r.value.f.precision
  {
    var (f, j) := ParseFlags(fmt, i, NO_FLAGS);
    match ParseWidth(fmt, j, f, va)
    case None => None
    case Some(d) =>
      match ParsePrecision(fmt, d)
      case None => None
      case Some(e) => Some(ParseLength(fmt, e))
  }

  // ---------- specifiers ----------

  predicate IsIntegerSpecifier(c: char) {
    c == 'd' || c == 'i' || c == 'u' || c == 'x' || c == 'X' || c == 'o' || c == 'b'
  }

  predicate IsSignedSpecifier(c: char) {
    c == 'd' || c == 'i'
  }

  predicate IsFloatSpecifier(c: char) {
    c == 'f' || c == 'F' || c == 'e' || c == 'E' || c == 'g' || c == 'G'
  }

  function BaseOf(c: char): (b: nat)
    ensures 2 <= b <= 16
  {
    if c == 'x' || c == 'X' then 16 else if c == 'o' then 8 else if c == 'b' then 2 else 10
  }

  /** The flags that remain once the specifier is known. */
  function IntegerFlags(c: char, f: Flags): Flags {
    Flags(f.zeropad && !f.precision, f.left, f.plus && IsSignedSpecifier(c), f.space && IsSignedSpecifier(c),
          f.hash && BaseOf(c) != 10, f.uppercase || c == 'X', f.chr, f.short, f.long, f.longLong, f.precision)
  }

  function IntegerText(c: char, d: Directive, w: nat): string {
    var v := if IsSignedSpecifier(c) then Signed(w, TypeModulus(d.f)) else w % TypeModulus(d.f);
    NumberText(Abs(v), v < 0, BaseOf(c), d.precision, d.width, IntegerFlags(c, d.f))
  }

  /** Text in a field. Its length is counted by an unsigned int. */
  function Field(s: string, width: nat, f: Flags): string {
    var space := Fill(' ', width - |s| % UINT_MOD);
    if f.left then s + space else space + s
  }

  /** A string argument, cut to the precision when there is one. */
  function Cut(s: string, d: Directive): string {
    if d.f.precision && d.precision < |s| then s[..d.precision] else s
  }

  /** What the specifier prints, and the arguments it leaves. None: a missing or wrong argument, a float, or the end. */
  function Convert(c: char, d: Directive): (r: Option<(string, seq<Arg>)>) {
    if c == '\0' || IsFloatSpecifier(c) then None
    else if IsIntegerSpecifier(c) then
      if d.va == [] || !d.va[0].Integer? then None
      else Some((IntegerText(c, d, d.va[0].w), d.va[1..]))
    else if c == 'c' then
      if d.va == [] || !d.va[0].Integer? then None
      else Some((Field([(d.va[0].w % 0x100) as char], d.width, d.f), d.va[1..]))
    else if c == 's' then
      if d.va == [] || !d.va[0].Pointer? || '\0' in d.va[0].s then None
      else Some((Field(Cut(d.va[0].s, d), d.width, d.f), d.va[1..]))
    else if c == 'p' then
      if d.va == [] || !d.va[0].Integer? then None
      else
        var f := d.f.(zeropad := true, uppercase := true);
        Some((NumberText(d.va[0].w, false, 16, d.precision, 16, f), d.va[1..]))
    else Some(([c], d.va))
  }

  /** The text of the format from position i on. None when C leaves the call undefined, or a float is printed. */
  function RenderFrom(fmt: string, i: nat, va: seq<Arg>): Option<string>
    decreases |fmt| - i
  {
    var c := At(fmt, i);
    if c == '\0' then Some("")
    else if c != '%' then
      match RenderFrom(fmt, i + 1, va)
      case None => None
      case Some(rest) => Some([c] + rest)
    else
      match Parse(fmt, i + 1, va)
      case None => None
      case Some(d) =>
        match Convert(At(fmt, d.at), d)
        case None => None
        case Some((text, va')) =>
          match RenderFrom(fmt, d.at + 1, va')
          case None => None
          case Some(rest) => Some(text + rest)
  }

  function Render(fmt: string, va: seq<Arg>): Option<string> {
    RenderFrom(fmt, 0, va)
  }

  /** A format that is one integer directive prints that directive. */
  lemma OneDirective(fmt: string, va: seq<Arg>, d: Directive)
    requires At(fmt, 0) == '%' && Parse(fmt, 1, va) == Some(d) && |fmt| == d.at + 1
    requires IsIntegerSpecifier(fmt[d.at]) && d.va != [] && d.va[0].Integer?
    ensures Render(fmt, va) == Some(IntegerText(fmt[d.at], d, d.va[0].w))
  {
    hide Parse, IntegerText;
    var text := IntegerText(fmt[d.at], d, d.va[0].w);
    assert RenderFrom(fmt, d.at + 1, d.va[1..]) == Some("");
    assert text + "" == text;
  }
}
