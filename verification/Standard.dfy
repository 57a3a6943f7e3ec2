/**
 How section 7.21.6.1 of ISO/IEC 9899:2011 reads and prints a directive for an integer, apart from any code. The
 widths of the C types are those of x86_64.
 */
module Standard {
  import opened Prelude
  import opened Format
  import opened Numerals

  /**
   A directive: flags, field width, precision, the modulus of the argument's type, the position of the specifier,
   and the arguments not used yet. `dropped` records that a negative precision argument was taken as if there was
   no precision.
   */
  datatype Spec = Spec(
    left: bool, plus: bool, space: bool, hash: bool, zero: bool,
    width: nat, precision: Option<nat>, dropped: bool, modulus: nat, at: nat, va: seq<Arg>)

  // ---------- reading (paragraphs 4 to 7) ----------

  predicate IsFlag(c: char) {
    c == '-' || c == '+' || c == ' ' || c == '#' || c == '0'
  }

  /** The first position from i on that is no flag. */
  function FlagsEnd(fmt: string, i: nat): (j: nat)
    ensures i <= j
    decreases |fmt| - i
  {
    if IsFlag(At(fmt, i)) then FlagsEnd(fmt, i + 1) else i
  }

  predicate HasFlag(fmt: string, i: nat, j: nat, c: char) {
    exists k :: i <= k < j && At(fmt, k) == c
  }

  /** The first position from i on that is no digit. */
  function DigitsEnd(fmt: string, i: nat): (j: nat)
    ensures i <= j && forall k :: i <= k < j ==> IsDigit(At(fmt, k))
    decreases |fmt| - i
  {
    if IsDigit(At(fmt, i)) then DigitsEnd(fmt, i + 1) else i
  }

  /** The number that the digits from i up to j spell. */
  function Decimal(fmt: string, i: nat, j: nat): nat
    requires i <= j && forall k :: i <= k < j ==> IsDigit(At(fmt, k))
    decreases j
  {
    if j == i then 0 else
      assert IsDigit(At(fmt, j - 1));
      Decimal(fmt, i, j - 1) * 10 + (At(fmt, j - 1) as int - '0' as int)
  }

  /** An int argument. */
  function IntArgument(va: seq<Arg>): Option<int> {
    if va == [] || !va[0].Integer? then None else Some(Signed(va[0].w, UINT_MOD))
  }

  /** Field width: the value, whether it brings a '-' flag, the position after it and the arguments left. */
  function ReadWidth(fmt: string, i: nat, va: seq<Arg>): Option<(nat, bool, nat, seq<Arg>)> {
    if At(fmt, i) == '*' then
      match IntArgument(va)
      case None => None
      case Some(w) => Some((Abs(w), w < 0, i + 1, va[1..]))
    else Some((Decimal(fmt, i, DigitsEnd(fmt, i)), false, DigitsEnd(fmt, i), va))
  }

  /** Precision: the value, whether a negative one was dropped, the position after it and the arguments left. */
  function ReadPrecision(fmt: string, i: nat, va: seq<Arg>): Option<(Option<nat>, bool, nat, seq<Arg>)> {
    if At(fmt, i) != '.' then Some((None, false, i, va))
    else if At(fmt, i + 1) == '*' then
      match IntArgument(va)
      case None => None
      case Some(p) => Some((if p < 0 then None else Some(p), p < 0, i + 2, va[1..]))
    else Some((Some(Decimal(fmt, i + 1, DigitsEnd(fmt, i + 1))), false, DigitsEnd(fmt, i + 1), va))
  }

  /** Length modifier: the modulus of the type, and the position after it. */
  function ReadLengthModifier(fmt: string, i: nat): (nat, nat) {
    if At(fmt, i) == 'h' then
      if At(fmt, i + 1) == 'h' then (0x100, i + 2) else (0x1_0000, i + 1)
    else if At(fmt, i) == 'l' then (WORD_MOD, if At(fmt, i + 1) == 'l' then i + 2 else i + 1)
    else if At(fmt, i) == 'j' || At(fmt, i) == 'z' || At(fmt, i) == 't' then (WORD_MOD, i + 1)
    else (UINT_MOD, i)
  }

  /** What stands between '%' and the specifier. None: an argument for a '*' is missing or no integer. */
  function ReadSpec(fmt: string, i: nat, va: seq<Arg>): (r: Option<Spec>)
    ensures r.Some? ==> r.value.modulus > 0 && i <= r.value.at
  {
    var j := FlagsEnd(fmt, i);
    match ReadWidth(fmt, j, va)
    case None => None
    case Some((width, minus, k, va')) =>
      match ReadPrecision(fmt, k, va')
      case None => None
      case Some((precision, dropped, l, va'')) =>
        var (modulus, at) := ReadLengthModifier(fmt, l);
        Some(Spec(HasFlag(fmt, i, j, '-') || minus, HasFlag(fmt, i, j, '+'), HasFlag(fmt, i, j, ' '),
                  HasFlag(fmt, i, j, '#'), HasFlag(fmt, i, j, '0'),
                  width, precision, dropped, modulus, at, va''))
  }

  // ---------- printing (paragraphs 6 and 8) ----------

  /** What an integer specifier stands for: a signed argument or not, the base, and the case of its letters. */
  datatype Conversion = Conversion(signed: bool, base: nat, capital: bool)

  predicate IsConversion(c: char) {
    c == 'd' || c == 'i' || c == 'o' || c == 'u' || c == 'x' || c == 'X'
  }

  function ConversionOf(c: char): (k: Conversion)
    ensures 8 <= k.base <= 16
  {
    match c
    case 'd' => Conversion(true, 10, false)
    case 'i' => Conversion(true, 10, false)
    case 'o' => Conversion(false, 8, false)
    case 'x' => Conversion(false, 16, false)
    case 'X' => Conversion(false, 16, true)
    case _ => Conversion(false, 10, false)
  }

  /** The value of the argument in the type that specifier and length modifier give it. */
  function ValueOf(w: nat, c: char, spec: Spec): int
    requires spec.modulus > 0
  {
    if ConversionOf(c).signed then Signed(w, spec.modulus) else w % spec.modulus
  }

  /** A zero with an explicit precision has no digits of its own. */
  function IsoDigits(v: int, c: char, spec: Spec): (s: string)
    ensures v != 0 ==> s != ""
  {
    if v == 0 && spec.precision.Some? then "" else Numeral(Abs(v), ConversionOf(c).base, ConversionOf(c).capital)
  }

  function IsoSign(v: int, c: char, spec: Spec): (s: string)
    ensures |s| <= 1
  {
    if !ConversionOf(c).signed then ""
    else if v < 0 then "-" else if spec.plus then "+" else if spec.space then " " else ""
  }

  /** Alternative form of a non-zero hexadecimal number. */
  function IsoPrefix(v: int, c: char, spec: Spec): (s: string)
    ensures |s| <= 2
  {
    if spec.hash && v != 0 && c == 'x' then "0x" else if spec.hash && v != 0 && c == 'X' then "0X" else ""
  }

  /**
   The least number of digits: the precision; in the alternative octal form one more than the digits where their
   first is no 0; and with the '0' flag, unless it is overruled by '-' or a precision, as many as fill the field.
   */
  function IsoLeast(v: int, c: char, spec: Spec): int {
    var digits := IsoDigits(v, c, spec);
    var precision := if spec.precision.Some? then spec.precision.value else 1;
    var octal := if spec.hash && c == 'o' && (digits == "" || digits[0] != '0') then |digits| + 1 else 0;
    var filled :=
      if spec.zero && !spec.left && spec.precision.None?
      then spec.width - |IsoSign(v, c, spec)| - |IsoPrefix(v, c, spec)| else 0;
    Max(precision, Max(octal, filled))
  }

  function IsoCore(v: int, c: char, spec: Spec): string {
    var digits := IsoDigits(v, c, spec);
    IsoSign(v, c, spec) + IsoPrefix(v, c, spec) + Fill('0', IsoLeast(v, c, spec) - |digits|) + digits
  }

  /** Text in a field, at its left or its right end. */
  function Justified(core: string, width: nat, left: bool): string {
    if left then core + Fill(' ', width - |core|) else Fill(' ', width - |core|) + core
  }

  /** The text of a converted integer. ('#' has no defined meaning for d, i and u, and is taken to have none.) */
  function IsoText(v: int, c: char, spec: Spec): string {
    Justified(IsoCore(v, c, spec), spec.width, spec.left)
  }

  // ---------- characters and strings (paragraph 8) ----------

  /** The int argument converted to an unsigned char. */
  function IsoCharText(w: Word, spec: Spec): string {
    Justified([(w % 0x100) as char], spec.width, spec.left)
  }

  /** No more characters of a string than the precision says. */
  function IsoShown(s: string, spec: Spec): string {
    if spec.precision.Some? && spec.precision.value < |s| then s[..spec.precision.value] else s
  }

  function IsoStringText(s: string, spec: Spec): string {
    Justified(IsoShown(s, spec), spec.width, spec.left)
  }

  // ---------- formats (paragraph 3) ----------

  /** A directive's text and the arguments it leaves. None: no argument of its type, or a specifier not covered here. */
  function IsoDirective(c: char, spec: Spec): Option<(string, seq<Arg>)>
    requires spec.modulus > 0
  {
    if spec.va == [] then None
    else if IsConversion(c) && spec.va[0].Integer? then
      Some((IsoText(ValueOf(spec.va[0].w, c, spec), c, spec), spec.va[1..]))
    else if c == 'c' && spec.va[0].Integer? then Some((IsoCharText(spec.va[0].w, spec), spec.va[1..]))
    else if c == 's' && spec.va[0].Pointer? && '\0' !in spec.va[0].s then
      Some((IsoStringText(spec.va[0].s, spec), spec.va[1..]))
    else None
  }

  /** The text of a format from position i on: other characters as they are, "%%" as one, and the directives. */
  function IsoFormat(fmt: string, i: nat, va: seq<Arg>): Option<string>
    decreases |fmt| - i
  {
    if At(fmt, i) == '\0' then Some("")
    else if At(fmt, i) != '%' then
      match IsoFormat(fmt, i + 1, va)
      case None => None
      case Some(rest) => Some([At(fmt, i)] + rest)
    else if At(fmt, i + 1) == '%' then
      match IsoFormat(fmt, i + 2, va)
      case None => None
      case Some(rest) => Some("%" + rest)
    else
      match ReadSpec(fmt, i + 1, va)
      case None => None
      case Some(spec) =>
        match IsoDirective(At(fmt, spec.at), spec)
        case None => None
        case Some((text, left)) =>
          match IsoFormat(fmt, spec.at + 1, left)
          case None => None
          case Some(rest) => Some(text + rest)
  }
}
