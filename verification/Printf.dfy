/**
 _vsnprintf of userland/printf.c with its helpers, as loops that write into the caller's buffer. A null buffer
 stands for the null output function. `done` is the text put out so far, `start` what the buffer held before.
 */
module Printf {
  import opened Prelude
  import opened Format

  /** The buffer shows as much of the text as fits below maxlen, and is as before from there on. */
  ghost predicate Shows(buffer: array?<char>, maxlen: nat, start: string, done: string)
    reads buffer
  {
    buffer != null ==>
      && buffer.Length == |start| && maxlen <= buffer.Length
      && forall j :: 0 <= j < buffer.Length ==> buffer[j] == if j < |done| && j < maxlen then done[j] else start[j]
  }

  /** _out_buffer and _out_null. */
  method Out(c: char, buffer: array?<char>, idx: nat, maxlen: nat, ghost start: string, ghost done: string)
    requires Shows(buffer, maxlen, start, done) && idx == |done|
    modifies buffer
    ensures Shows(buffer, maxlen, start, done + [c])
  {
    if buffer != null && idx < maxlen {
      buffer[idx] := c;
    }
  }

  lemma FillFront(c: char, k: nat)
    ensures Fill(c, k + 1) == [c] + Fill(c, k)
  {
    if k > 0 {
      FillFront(c, k - 1);
      assert [c] + Fill(c, k - 1) + [c] == [c] + Fill(c, k);
    }
  }

  /** A loop that puts out the same character k times. */
  method OutMany(c: char, k: int, buffer: array?<char>, idx: nat, maxlen: nat, ghost start: string, ghost done: string)
    returns (idx': nat)
    requires Shows(buffer, maxlen, start, done) && idx == |done|
    modifies buffer
    ensures Shows(buffer, maxlen, start, done + Fill(c, k))
    ensures idx' == |done + Fill(c, k)|
  {
    idx' := idx;
    var i := 0;
    assert done + Fill(c, 0) == done;
    while i < k
      invariant 0 <= i && (i <= k || i == 0) && idx' == idx + i
      invariant Shows(buffer, maxlen, start, done + Fill(c, i))
    {
      Out(c, buffer, idx', maxlen, start, done + Fill(c, i));
      assert done + Fill(c, i) + [c] == done + Fill(c, i + 1);
      idx' := idx' + 1;
      i := i + 1;
    }
    assert Fill(c, i) == Fill(c, k);
  }

  /** The middle of _out_rev: the buffer, last character first. */
  method OutBackwards(buffer: array?<char>, idx: nat, maxlen: nat, buf: array<char>, len: nat,
                      ghost start: string, ghost done: string)
    returns (idx': nat)
    requires Shows(buffer, maxlen, start, done) && idx == |done|
    requires len <= buf.Length && buf != buffer
    modifies buffer
    ensures Shows(buffer, maxlen, start, done + Reverse(old(buf[..len])))
    ensures idx' == |done| + len
  {
    hide Shows;
    ghost var text := buf[..len];
    idx' := idx;
    var left := len;
    ghost var rev := "";
    assert text[..left] == text && done + rev == done;
    while left > 0
      invariant left <= len && buf[..len] == text
      invariant rev + Reverse(text[..left]) == Reverse(text)
      invariant idx' == |done + rev|
      invariant Shows(buffer, maxlen, start, done + rev)
    {
      left := left - 1;
      Out(buf[left], buffer, idx', maxlen, start, done + rev);
      assert text[..left + 1][..left] == text[..left];
      assert done + rev + [text[left]] == done + (rev + [text[left]]);
      rev := rev + [text[left]];
      idx' := idx' + 1;
    }
    assert rev + "" == rev;
  }

  /** _out_rev. */
  method OutRev(buffer: array?<char>, idx: nat, maxlen: nat, buf: array<char>, len: nat, width: nat, f: Flags,
                ghost start: string, ghost done: string)
    returns (idx': nat)
    requires Shows(buffer, maxlen, start, done) && idx == |done|
    requires len <= buf.Length && buf != buffer
    modifies buffer
    ensures Shows(buffer, maxlen, start, done + Padded(old(buf[..len]), width, f))
    ensures idx' == |done + Padded(old(buf[..len]), width, f)|
  {
    hide Shows, Fill, Reverse;
    ghost var text := buf[..len];
    ghost var lead := if !f.left && !f.zeropad then Fill(' ', width - len) else "";
    ghost var tail := if f.left then Fill(' ', width - len) else "";
    idx' := idx;
    if !f.left && !f.zeropad {
      idx' := OutMany(' ', width - len, buffer, idx', maxlen, start, done);
    } else {
      assert done + lead == done;
    }
    idx' := OutBackwards(buffer, idx', maxlen, buf, len, start, done + lead);
    if f.left {
      idx' := OutMany(' ', width - len, buffer, idx', maxlen, start, done + lead + Reverse(text));
    } else {
      assert done + lead + Reverse(text) + tail == done + lead + Reverse(text);
    }
    assert done + lead + Reverse(text) + tail == done + Padded(text, width, f);
  }

  /** A loop of _ntoa_format that adds zeros up to a length, as far as the buffer goes. */
  method AddZeros(buf: array<char>, len: nat, k: nat) returns (len': nat)
    requires buf.Length == NTOA && len <= NTOA
    modifies buf
    ensures len' <= NTOA && buf[..len'] == PadZeros(old(buf[..len]), k)
  {
    len' := len;
    while len' < k && len' < NTOA
      invariant len <= len' <= Max(len, Min(k, NTOA))
      invariant buf[..len'] == old(buf[..len]) + Fill('0', len' - len)
    {
      buf[len'] := '0';
      len' := len' + 1;
    }
  }

  /** The base letter of the '#' prefix. */
  method AddBaseLetter(buf: array<char>, len: nat, base: nat, f: Flags) returns (len': nat)
    requires buf.Length == NTOA && len <= NTOA
    modifies buf
    ensures len' <= NTOA && buf[..len'] == BaseLetter(old(buf[..len]), base, f)
  {
    len' := len;
    if base == 16 && !f.uppercase && len' < NTOA {
      buf[len'] := 'x';
      len' := len' + 1;
    } else if base == 16 && f.uppercase && len' < NTOA {
      buf[len'] := 'X';
      len' := len' + 1;
    } else if base == 2 && len' < NTOA {
      buf[len'] := 'b';
      len' := len' + 1;
    }
  }

  /** The '#' part of _ntoa_format. */
  method AddPrefix(buf: array<char>, len: nat, base: nat, precision: nat, width: nat, f: Flags) returns (len': nat)
    requires buf.Length == NTOA && len <= NTOA
    modifies buf
    ensures len' <= NTOA && buf[..len'] == Prefix(old(buf[..len]), base, precision, width, f)
  {
    hide BaseLetter;
    len' := len;
    if f.hash {
      if !f.precision && len' > 0 && (len' == precision || len' == width) {
        len' := len' - 1;
        if len' > 0 && base == 16 {
          len' := len' - 1;
        }
      }
      assert buf[..len'] == old(buf[..len])[..len'];
      len' := AddBaseLetter(buf, len', base, f);
      if len' < NTOA {
        buf[len'] := '0';
        len' := len' + 1;
      }
    }
  }

  /** The sign part of _ntoa_format. */
  method AddSign(buf: array<char>, len: nat, negative: bool, f: Flags) returns (len': nat)
    requires buf.Length == NTOA && len <= NTOA
    modifies buf
    ensures len' <= NTOA && buf[..len'] == WithSign(old(buf[..len]), negative, f)
  {
    len' := len;
    if len' < NTOA {
      if negative {
        buf[len'] := '-';
        len' := len' + 1;
      } else if f.plus {
        buf[len'] := '+';
        len' := len' + 1;
      } else if f.space {
        buf[len'] := ' ';
        len' := len' + 1;
      }
    }
  }

  /** _ntoa_format. */
  method NtoaFormat(buffer: array?<char>, idx: nat, maxlen: nat, buf: array<char>, len: nat, negative: bool, base: nat,
                    precision: nat, width: nat, f: Flags, ghost start: string, ghost done: string)
    returns (idx': nat)
    requires Shows(buffer, maxlen, start, done) && idx == |done|
    requires buf.Length == NTOA && len <= NTOA && buf != buffer
    modifies buffer, buf
    ensures Shows(buffer, maxlen, start, done + FormatDigits(old(buf[..len]), negative, base, precision, width, f))
    ensures idx' == |done + FormatDigits(old(buf[..len]), negative, base, precision, width, f)|
  {
    hide PadZeros, Prefix, WithSign, Padded, Shows;
    var w, l := width, len;
    if !f.left {
      if w > 0 && f.zeropad && (negative || f.plus || f.space) {
        w := w - 1;
      }
      l := AddZeros(buf, l, precision);
      if f.zeropad {
        l := AddZeros(buf, l, w);
      }
    }
    assert buf[..l] == LeadingZeros(old(buf[..len]), precision, w, f);
    l := AddPrefix(buf, l, base, precision, w, f);
    l := AddSign(buf, l, negative, f);
    idx' := OutRev(buffer, idx, maxlen, buf, l, w, f, start, done);
  }

  /** One round of the digit loop. */
  method NextDigit(v: nat, base: nat, uppercase: bool, ghost room: nat) returns (c: char, v': nat)
    requires 2 <= base <= 16 && 1 <= room
    ensures Digits(v, base, uppercase, room) ==
            [c] + if v' != 0 && 1 < room then Digits(v', base, uppercase, room - 1) else ""
  {
    c, v' := DigitChar(v % base, uppercase), v / base;
  }

  /** The digit loop of _ntoa_long and _ntoa_long_long. */
  method NtoaDigits(buf: array<char>, value: nat, base: nat, uppercase: bool) returns (len: nat)
    requires buf.Length == NTOA && 2 <= base <= 16
    modifies buf
    ensures len <= NTOA && buf[..len] == Digits(value, base, uppercase, NTOA)
  {
    hide Digits, DigitChar;
    len := 0;
    var v: nat, more := value, true;
    ghost var rest := Digits(value, base, uppercase, NTOA);
    while more
      invariant len <= NTOA && (more ==> len < NTOA)
      invariant rest == if more then Digits(v, base, uppercase, NTOA - len) else ""
      invariant buf[..len] + rest == Digits(value, base, uppercase, NTOA)
      decreases more, NTOA - len
    {
      ghost var sofar := buf[..len];
      var c, v' := NextDigit(v, base, uppercase, NTOA - len);
      buf[len] := c;
      len := len + 1;
      v := v';
      more := v != 0 && len < NTOA;
      ghost var tail := if more then Digits(v, base, uppercase, NTOA - len) else "";
      assert rest == [c] + tail;
      assert buf[..len] == sofar + [c];
      assert sofar + ([c] + tail) == sofar + [c] + tail;
      rest := tail;
    }
  }

  /** _ntoa_long and _ntoa_long_long, which differ in the type of the value only. */
  method Ntoa(buffer: array?<char>, idx: nat, maxlen: nat, value: nat, negative: bool, base: nat,
              precision: nat, width: nat, f: Flags, ghost start: string, ghost done: string)
    returns (idx': nat)
    requires Shows(buffer, maxlen, start, done) && idx == |done|
    requires 2 <= base <= 16
    modifies buffer
    ensures Shows(buffer, maxlen, start, done + NumberText(value, negative, base, precision, width, f))
    ensures idx' == |done + NumberText(value, negative, base, precision, width, f)|
  {
    hide Digits, FormatDigits, Shows;
    var buf := new char[NTOA];
    var len := 0;
    var g := if value == 0 then f.(hash := false) else f;
    if !g.precision || value != 0 {
      len := NtoaDigits(buf, value, base, g.uppercase);
    }
    assert buf[..len] == NumberDigits(value, base, g);
    idx' := NtoaFormat(buffer, idx, maxlen, buf, len, negative, base, precision, width, g, start, done);
  }

  // ---------- reading a directive ----------

  method ReadFlags(fmt: string, i: nat) returns (f: Flags, j: nat)
    ensures (f, j) == ParseFlags(fmt, i, NO_FLAGS)
  {
    f, j := NO_FLAGS, i;
    var n := true;
    while n
      invariant n ==> ParseFlags(fmt, j, f) == ParseFlags(fmt, i, NO_FLAGS)
      invariant !n ==> (f, j) == ParseFlags(fmt, i, NO_FLAGS)
      decreases n, |fmt| - j
    {
      match At(fmt, j)
      case '0' => f := f.(zeropad := true); j := j + 1;
      case '-' => f := f.(left := true); j := j + 1;
      case '+' => f := f.(plus := true); j := j + 1;
      case ' ' => f := f.(space := true); j := j + 1;
      case '#' => f := f.(hash := true); j := j + 1;
      case _ => n := false;
    }
  }

  /** _atoi. */
  method Atoi(fmt: string, i: nat) returns (value: nat, j: nat)
    ensures (value, j) == ParseNumber(fmt, i, 0)
  {
    value, j := 0, i;
    while IsDigit(At(fmt, j))
      invariant ParseNumber(fmt, j, value) == ParseNumber(fmt, i, 0)
      decreases |fmt| - j
    {
      value := (value * 10 + (At(fmt, j) as int - '0' as int)) % UINT_MOD;
      j := j + 1;
    }
  }

  /** The length field. */
  method ReadLength(fmt: string, i: nat, f: Flags) returns (g: Flags, j: nat)
    ensures (g, j) == (WithLength(f, ParseLengthField(fmt, i).0), ParseLengthField(fmt, i).1)
  {
    hide At, WithLength;
    NoLength(f);
    LongLength(f);
    LongLongLength(f);
    ShortLength(f);
    CharLength(f);
    g, j := f, i;
    match At(fmt, j)
    case 'l' =>
      g := g.(long := true);
      j := j + 1;
      if At(fmt, j) == 'l' {
        g := g.(longLong := true);
        j := j + 1;
      }
    case 'h' =>
      g := g.(short := true);
      j := j + 1;
      if At(fmt, j) == 'h' {
        g := g.(chr := true);
        j := j + 1;
      }
    case 't' | 'j' | 'z' =>
      g := g.(long := true);
      j := j + 1;
    case _ =>
  }

  lemma NoLength(f: Flags)
    ensures WithLength(f, Int) == f
  {
  }

  lemma LongLength(f: Flags)
    ensures WithLength(f, Long) == f.(long := true)
  {
  }

  lemma LongLongLength(f: Flags)
    ensures WithLength(f, LongLong) == f.(long := true).(longLong := true)
  {
  }

  lemma ShortLength(f: Flags)
    ensures WithLength(f, Short) == f.(short := true)
  {
  }

  lemma CharLength(f: Flags)
    ensures WithLength(f, Char) == f.(short := true).(chr := true)
  {
  }

  /** The fields between '%' and the specifier, in the order _vsnprintf reads them. */
  method ReadDirective(fmt: string, i: nat, va: seq<Arg>) returns (d: Directive)
    requires Parse(fmt, i, va).Some?
    ensures Parse(fmt, i, va) == Some(d)
  {
    hide ParseFlags, ParseNumber, ParseLengthField, WithLength, Signed;
    var f, j := ReadFlags(fmt, i);
    var width, precision, va' := 0, 0, va;
    if IsDigit(At(fmt, j)) {
      width, j := Atoi(fmt, j);
    } else if At(fmt, j) == '*' {
      var w := Signed(va'[0].w, UINT_MOD);
      if w < 0 {
        f := f.(left := true);
        width := -w;
      } else {
        width := w;
      }
      va' := va'[1..];
      j := j + 1;
    }
    if At(fmt, j) == '.' {
      f := f.(precision := true);
      j := j + 1;
      if IsDigit(At(fmt, j)) {
        precision, j := Atoi(fmt, j);
      } else if At(fmt, j) == '*' {
        var prec := Signed(va'[0].w, UINT_MOD);
        precision := if prec > 0 then prec else 0;
        va' := va'[1..];
        j := j + 1;
      }
    }
    f, j := ReadLength(fmt, j, f);
    d := Directive(f, width, precision, j, va');
  }

  // ---------- printing one ----------

  /** The case 'c' of _vsnprintf. `l` starts at 1. */
  method PutChar(buffer: array?<char>, idx: nat, maxlen: nat, c: char, width: nat, f: Flags,
                 ghost start: string, ghost done: string)
    returns (idx': nat)
    requires Shows(buffer, maxlen, start, done) && idx == |done|
    modifies buffer
    ensures Shows(buffer, maxlen, start, done + Field([c], width, f))
    ensures idx' == |done + Field([c], width, f)|
  {
    hide Shows, Fill;
    idx' := idx;
    if !f.left {
      idx' := OutMany(' ', width - 1, buffer, idx', maxlen, start, done);
      Out(c, buffer, idx', maxlen, start, done + Fill(' ', width - 1));
      assert done + Fill(' ', width - 1) + [c] == done + Field([c], width, f);
      idx' := idx' + 1;
    } else {
      Out(c, buffer, idx', maxlen, start, done);
      idx' := OutMany(' ', width - 1, buffer, idx' + 1, maxlen, start, done + [c]);
      assert done + [c] + Fill(' ', width - 1) == done + Field([c], width, f);
    }
  }

  /** _strnlen_s, on a string whose NUL stands after its last character. None: no limit. */
  method StrnLen(str: string, maxsize: Option<nat>) returns (l: nat)
    ensures l == (if maxsize.Some? && maxsize.value < |str| then maxsize.value else |str|) % UINT_MOD
  {
    var s, left := 0, maxsize;
    while s < |str| && left != Some(0)
      invariant s <= |str| && (maxsize.None? ==> left.None?)
      invariant maxsize.Some? ==> left.Some? && s + left.value == maxsize.value
    {
      left := if left.Some? then Some(left.value - 1) else None;
      s := s + 1;
    }
    l := s % UINT_MOD;
  }

  /** The middle of the case 's': the characters up to the NUL, but no more than the precision when there is one. */
  method PutChars(buffer: array?<char>, idx: nat, maxlen: nat, d: Directive, s: string,
                  ghost start: string, ghost done: string)
    returns (idx': nat)
    requires Shows(buffer, maxlen, start, done) && idx == |done|
    modifies buffer
    ensures Shows(buffer, maxlen, start, done + Cut(s, d))
    ensures idx' == |done + Cut(s, d)|
  {
    hide Shows;
    idx' := idx;
    var p, precision := 0, d.precision;
    assert done + s[..0] == done;
    while p < |s| && (!d.f.precision || precision > 0)
      invariant p <= |s| && idx' == |done| + p && (d.f.precision ==> p + precision == d.precision)
      invariant Shows(buffer, maxlen, start, done + s[..p])
    {
      precision := if d.f.precision then precision - 1 else precision;
      Out(s[p], buffer, idx', maxlen, start, done + s[..p]);
      assert done + s[..p] + [s[p]] == done + s[..p + 1];
      p := p + 1;
      idx' := idx' + 1;
    }
    assert s[..|s|] == s;
    assert s[..p] == Cut(s, d);
  }

  /** `l` in the case 's', as far as padding goes. */
  method CutLength(d: Directive, s: string) returns (l: nat)
    requires d.precision < UINT_MOD && (d.precision > 0 ==> d.f.precision)
    ensures l == |Cut(s, d)| % UINT_MOD
  {
    l := StrnLen(s, if d.precision > 0 then Some(d.precision) else None);
    if d.f.precision {
      l := if l < d.precision then l else d.precision;
    }
  }

  /** The case 's' of _vsnprintf. */
  method PutString(buffer: array?<char>, idx: nat, maxlen: nat, d: Directive, s: string,
                   ghost start: string, ghost done: string)
    returns (idx': nat)
    requires Shows(buffer, maxlen, start, done) && idx == |done|
    requires d.precision < UINT_MOD && (d.precision > 0 ==> d.f.precision)
    modifies buffer
    ensures Shows(buffer, maxlen, start, done + Field(Cut(s, d), d.width, d.f))
    ensures idx' == |done + Field(Cut(s, d), d.width, d.f)|
  {
    hide Shows, Fill, Cut;
    var l := CutLength(d, s);
    ghost var text, space := Cut(s, d), Fill(' ', d.width - l);
    idx' := idx;
    if !d.f.left {
      idx' := OutMany(' ', d.width - l, buffer, idx', maxlen, start, done);
      idx' := PutChars(buffer, idx', maxlen, d, s, start, done + space);
      assert done + space + text == done + Field(text, d.width, d.f);
    } else {
      idx' := PutChars(buffer, idx', maxlen, d, s, start, done);
      idx' := OutMany(' ', d.width - l, buffer, idx', maxlen, start, done + text);
      assert done + text + space == done + Field(text, d.width, d.f);
    }
  }

  /** The base, and the flags that a specifier sets and clears. */
  method ReadBase(c: char, flags: Flags) returns (base: nat, f: Flags)
    requires IsIntegerSpecifier(c)
    ensures base == BaseOf(c) && f == IntegerFlags(c, flags)
  {
    var zeropad, plus, space, hash, uppercase := flags.zeropad, flags.plus, flags.space, flags.hash, flags.uppercase;
    base := 10;
    if c == 'x' || c == 'X' {
      base := 16;
    } else if c == 'o' {
      base := 8;
    } else if c == 'b' {
      base := 2;
    } else {
      hash := false;
    }
    assert base == BaseOf(c) && hash == (flags.hash && BaseOf(c) != 10);
    hide BaseOf;
    if c == 'X' {
      uppercase := true;
    }
    if c != 'i' && c != 'd' {
      plus, space := false, false;
    }
    if flags.precision {
      zeropad := false;
    }
    f := Flags(zeropad, flags.left, plus, space, hash, uppercase,
               flags.chr, flags.short, flags.long, flags.longLong, flags.precision);
    ghost var g := IntegerFlags(c, flags);
    assert f.zeropad == g.zeropad && f.plus == g.plus && f.space == g.space;
    assert f.hash == g.hash && f.uppercase == g.uppercase;
  }

  /** The integer specifiers: base and flags, and then the value in the type that the length field selects. */
  method PutInteger(buffer: array?<char>, idx: nat, maxlen: nat, c: char, d: Directive, w: Word,
                    ghost start: string, ghost done: string)
    returns (idx': nat)
    requires Shows(buffer, maxlen, start, done) && idx == |done| && IsIntegerSpecifier(c)
    modifies buffer
    ensures Shows(buffer, maxlen, start, done + IntegerText(c, d, w))
    ensures idx' == |done + IntegerText(c, d, w)|
  {
    hide Shows, NumberText, Signed, BaseOf;
    var base, f := ReadBase(c, d.f);
    if c == 'i' || c == 'd' {
      var value;
      if f.longLong {
        value := Signed(w, WORD_MOD);
      } else if f.long {
        value := Signed(w, WORD_MOD);
      } else {
        value := if f.chr then Signed(w, 0x100) else if f.short then Signed(w, 0x1_0000) else Signed(w, UINT_MOD);
      }
      idx' := Ntoa(buffer, idx, maxlen, Abs(value), value < 0, base, d.precision, d.width, f, start, done);
    } else {
      var value;
      if f.longLong {
        value := w;
      } else if f.long {
        value := w;
      } else {
        value := if f.chr then w % 0x100 else if f.short then w % 0x1_0000 else w % UINT_MOD;
      }
      idx' := Ntoa(buffer, idx, maxlen, value, false, base, d.precision, d.width, f, start, done);
    }
  }

  /** The switch on the specifier. */
  method PutConversion(buffer: array?<char>, idx: nat, maxlen: nat, c: char, d: Directive,
                       ghost start: string, ghost done: string)
    returns (idx': nat, va: seq<Arg>)
    requires Shows(buffer, maxlen, start, done) && idx == |done|
    requires Convert(c, d).Some? && d.precision < UINT_MOD && (d.precision > 0 ==> d.f.precision)
    modifies buffer
    ensures Shows(buffer, maxlen, start, done + Convert(c, d).value.0)
    ensures idx' == |done + Convert(c, d).value.0|
    ensures va == Convert(c, d).value.1
  {
    hide Shows, NumberText, Field, IntegerText;
    va := d.va;
    if IsIntegerSpecifier(c) {
      idx' := PutInteger(buffer, idx, maxlen, c, d, va[0].w, start, done);
      va := va[1..];
    } else if c == 'c' {
      idx' := PutChar(buffer, idx, maxlen, (va[0].w % 0x100) as char, d.width, d.f, start, done);
      va := va[1..];
    } else if c == 's' {
      idx' := PutString(buffer, idx, maxlen, d, va[0].s, start, done);
      va := va[1..];
    } else if c == 'p' {
      idx' := Ntoa(buffer, idx, maxlen, va[0].w, false, 16, d.precision, 16,
                   d.f.(zeropad := true, uppercase := true), start, done);
      va := va[1..];
    } else {
      Out(c, buffer, idx, maxlen, start, done);
      idx' := idx + 1;
    }
  }

  /** The text after a directive is what is left of the whole. */
  lemma AfterDirective(fmt: string, i: nat, va: seq<Arg>)
    requires At(fmt, i) == '%' && RenderFrom(fmt, i, va).Some?
    ensures Parse(fmt, i + 1, va).Some?
    ensures var d := Parse(fmt, i + 1, va).value;
      && i < d.at && d.at < |fmt| && Convert(At(fmt, d.at), d).Some?
      && var (text, va') := Convert(At(fmt, d.at), d).value;
         RenderFrom(fmt, d.at + 1, va').Some?
         && RenderFrom(fmt, i, va) == Some(text + RenderFrom(fmt, d.at + 1, va').value)
  {
  }

  lemma AfterLiteral(fmt: string, i: nat, va: seq<Arg>)
    requires At(fmt, i) != '%' && At(fmt, i) != '\0' && RenderFrom(fmt, i, va).Some?
    ensures i < |fmt| && RenderFrom(fmt, i + 1, va).Some?
    ensures RenderFrom(fmt, i, va) == Some([At(fmt, i)] + RenderFrom(fmt, i + 1, va).value)
  {
  }

  lemma AtTheEnd(fmt: string, i: nat, va: seq<Arg>)
    requires At(fmt, i) == '\0'
    ensures RenderFrom(fmt, i, va) == Some("")
  {
  }

  /** The loop of _vsnprintf. */
  method PutAll(buffer: array?<char>, maxlen: nat, fmt: string, va: seq<Arg>, ghost start: string) returns (idx: nat)
    requires Render(fmt, va).Some? && Shows(buffer, maxlen, start, "")
    modifies buffer
    ensures idx == |Render(fmt, va).value| && Shows(buffer, maxlen, start, Render(fmt, va).value)
  {
    hide RenderFrom, Parse, Convert, Shows;
    idx := 0;
    var i, va' := 0, va;
    ghost var done, rest := "", Render(fmt, va).value;
    assert done + rest == rest;
    while At(fmt, i) != '\0'
      invariant idx == |done| && Shows(buffer, maxlen, start, done)
      invariant RenderFrom(fmt, i, va') == Some(rest) && Render(fmt, va) == Some(done + rest)
      decreases |fmt| - i
    {
      ghost var piece;
      if At(fmt, i) != '%' {
        AfterLiteral(fmt, i, va');
        piece := [At(fmt, i)];
        Out(At(fmt, i), buffer, idx, maxlen, start, done);
        idx := idx + 1;
        i := i + 1;
      } else {
        AfterDirective(fmt, i, va');
        var d := ReadDirective(fmt, i + 1, va');
        piece := Convert(At(fmt, d.at), d).value.0;
        idx, va' := PutConversion(buffer, idx, maxlen, At(fmt, d.at), d, start, done);
        i := d.at + 1;
      }
      rest := RenderFrom(fmt, i, va').value;
      assert done + (piece + rest) == done + piece + rest;
      done := done + piece;
    }
    AtTheEnd(fmt, i, va');
    assert done + rest == done;
  }

  /**
   _vsnprintf. The result does not depend on the buffer or its size, so that a call with a null buffer measures
   the text; a buffer of maxlen characters gets the text cut to maxlen - 1 and a NUL, and nothing more.
   */
  method Vsnprintf(buffer: array?<char>, maxlen: Word, fmt: string, va: seq<Arg>) returns (ret: int)
    requires Render(fmt, va).Some?
    requires buffer != null ==> maxlen <= buffer.Length
    modifies buffer
    ensures var text := Render(fmt, va).value;
      && ret == Signed(|text|, UINT_MOD) && (ret == |text| <==> |text| < 0x8000_0000)
      && (buffer != null && maxlen > 0 ==>
            var k := Min(|text|, maxlen - 1);
            && buffer[..k] == text[..k] && buffer[k] == '\0'
            && forall j :: k < j < buffer.Length ==> buffer[j] == old(buffer[j]))
      && (buffer != null && maxlen == 0 ==> buffer[..] == old(buffer[..]))
  {
    hide Render;
    var idx := PutAll(buffer, maxlen, fmt, va, if buffer == null then "" else buffer[..]);
    var last := if idx < maxlen then idx else (maxlen - 1) % WORD_MOD;
    if buffer != null && last < maxlen {
      buffer[last] := '\0';
    }
    ret := Signed(idx, UINT_MOD);
  }
}
