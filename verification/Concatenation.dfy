/** A format and the rest of it: each directive of userland/printf.c takes its own arguments, and leaves the others. */
module Concatenation {
  import opened Prelude
  import opened Format
  import opened Standard
  import opened Reading

  // ---------- the arguments of a format, as the standard reads it ----------

  /** The specifiers that take an argument: those of the standard but floats, and the code's own "%b". */
  predicate TakesArgument(c: char) {
    IsConversion(c) || c == 'c' || c == 's' || c == 'p' || c == 'b'
  }

  /** The arguments that a directive leaves. */
  function LeftBy(c: char, va: seq<Arg>): Option<seq<Arg>> {
    if !TakesArgument(c) then Some(va) else if va == [] then None else Some(va[1..])
  }

  /** The arguments that the directives of a format from position i on leave. */
  function ArgumentsLeft(fmt: string, i: nat, va: seq<Arg>): Option<seq<Arg>>
    decreases |fmt| - i
  {
    if At(fmt, i) == '\0' then Some(va)
    else if At(fmt, i) != '%' then ArgumentsLeft(fmt, i + 1, va)
    else
      match ReadSpec(fmt, i + 1, va)
      case None => None
      case Some(spec) =>
        match LeftBy(At(fmt, spec.at), spec.va)
        case None => None
        case Some(left) => ArgumentsLeft(fmt, spec.at + 1, left)
  }

  lemma ConvertTakes(c: char, d: Directive)
    requires Convert(c, d).Some?
    ensures LeftBy(c, d.va) == Some(Convert(c, d).value.1)
  {
    hide IntegerText, NumberText, Field, Cut;
  }

  // ---------- in front of something else ----------

  lemma {:induction false} FlagsInFront(f: string, g: string, i: nat, flags: Flags)
    requires ParseFlags(f, i, flags).1 < |f|
    ensures ParseFlags(f + g, i, flags) == ParseFlags(f, i, flags)
    decreases |f| - i
  {
    ParseOneFlag(f, i, flags);
    ParseOneFlag(f + g, i, flags);
    hide ParseFlags, WithFlag;
    if IsFlag(At(f, i)) {
      FlagsInFront(f, g, i + 1, WithFlag(flags, At(f, i)));
    }
  }

  lemma {:induction false} NumberInFront(f: string, g: string, i: nat, acc: nat)
    requires ParseNumber(f, i, acc).1 < |f|
    ensures ParseNumber(f + g, i, acc) == ParseNumber(f, i, acc)
    decreases |f| - i
  {
    if IsDigit(At(f, i)) {
      NumberInFront(f, g, i + 1, (acc * 10 + (At(f, i) as int - '0' as int)) % UINT_MOD);
    }
  }

  lemma WidthInFront(f: string, g: string, i: nat, flags: Flags, va: seq<Arg>, vb: seq<Arg>)
    requires ParseWidth(f, i, flags, va).Some? && ParseWidth(f, i, flags, va).value.at < |f|
    ensures var d := ParseWidth(f, i, flags, va).value;
      ParseWidth(f + g, i, flags, va + vb) == Some(Directive(d.f, d.width, d.precision, d.at, d.va + vb))
  {
    hide Signed;
    assert At(f + g, i) == At(f, i);
    if IsDigit(At(f, i)) {
      NumberInFront(f, g, i, 0);
    } else if At(f, i) == '*' {
      assert (va + vb)[1..] == va[1..] + vb;
    }
    hide ParseNumber, At;
  }

  lemma PrecisionInFront(f: string, g: string, d: Directive, vb: seq<Arg>)
    requires ParsePrecision(f, d).Some? && ParsePrecision(f, d).value.at < |f|
    ensures var e := ParsePrecision(f, d).value;
      ParsePrecision(f + g, Directive(d.f, d.width, d.precision, d.at, d.va + vb))
      == Some(Directive(e.f, e.width, e.precision, e.at, e.va + vb))
  {
    hide Signed;
    assert At(f + g, d.at) == At(f, d.at);
    if At(f, d.at) == '.' {
      assert At(f + g, d.at + 1) == At(f, d.at + 1);
      if IsDigit(At(f, d.at + 1)) {
        NumberInFront(f, g, d.at + 1, 0);
      } else if At(f, d.at + 1) == '*' {
        assert (d.va + vb)[1..] == d.va[1..] + vb;
      }
    }
    hide ParseNumber, At;
  }

  lemma LengthInFront(f: string, g: string, i: nat)
    requires ParseLengthField(f, i).1 < |f|
    ensures ParseLengthField(f + g, i) == ParseLengthField(f, i)
  {
  }

  /** A directive that ends in front of g is read the same there, with more arguments after its own. */
  lemma ParseInFront(f: string, g: string, i: nat, va: seq<Arg>, vb: seq<Arg>)
    requires Parse(f, i, va).Some? && Parse(f, i, va).value.at < |f|
    ensures var d := Parse(f, i, va).value;
      Parse(f + g, i, va + vb) == Some(Directive(d.f, d.width, d.precision, d.at, d.va + vb))
  {
    hide ParseFlags, ParseWidth, ParsePrecision, ParseLengthField, WithLength;
    var (flags, j) := ParseFlags(f, i, NO_FLAGS);
    FlagsInFront(f, g, i, NO_FLAGS);
    WidthInFront(f, g, j, flags, va, vb);
    var d := ParseWidth(f, j, flags, va).value;
    PrecisionInFront(f, g, d, vb);
    LengthInFront(f, g, ParsePrecision(f, d).value.at);
  }

  lemma ConvertWithMore(c: char, d: Directive, vb: seq<Arg>)
    requires Convert(c, d).Some?
    ensures var (text, left) := Convert(c, d).value;
      Convert(c, Directive(d.f, d.width, d.precision, d.at, d.va + vb)) == Some((text, left + vb))
  {
    hide NumberText, Field;
    if d.va != [] {
      assert (d.va + vb)[1..] == d.va[1..] + vb;
    }
  }

  // ---------- behind something else ----------

  lemma {:induction false} FlagsBehind(f: string, g: string, i: nat, flags: Flags)
    ensures var (flags', j) := ParseFlags(g, i, flags); ParseFlags(f + g, |f| + i, flags) == (flags', |f| + j)
    decreases |g| - i
  {
    ParseOneFlag(g, i, flags);
    ParseOneFlag(f + g, |f| + i, flags);
    assert At(f + g, |f| + i) == At(g, i);
    hide ParseFlags, WithFlag;
    if IsFlag(At(g, i)) {
      FlagsBehind(f, g, i + 1, WithFlag(flags, At(g, i)));
    }
  }

  lemma {:induction false} NumberBehind(f: string, g: string, i: nat, acc: nat)
    ensures var (n, j) := ParseNumber(g, i, acc); ParseNumber(f + g, |f| + i, acc) == (n, |f| + j)
    decreases |g| - i
  {
    assert At(f + g, |f| + i) == At(g, i);
    if IsDigit(At(g, i)) {
      NumberBehind(f, g, i + 1, (acc * 10 + (At(g, i) as int - '0' as int)) % UINT_MOD);
    }
  }

  /** A directive with its positions moved by the length of f. */
  function Moved(f: string, d: Directive): Directive {
    Directive(d.f, d.width, d.precision, |f| + d.at, d.va)
  }

  lemma WidthBehind(f: string, g: string, i: nat, flags: Flags, va: seq<Arg>)
    ensures ParseWidth(f + g, |f| + i, flags, va) ==
      match ParseWidth(g, i, flags, va) case None => None case Some(d) => Some(Moved(f, d))
  {
    hide Signed;
    assert At(f + g, |f| + i) == At(g, i);
    NumberBehind(f, g, i, 0);
    hide ParseNumber, At;
  }

  lemma PrecisionBehind(f: string, g: string, d: Directive)
    ensures ParsePrecision(f + g, Moved(f, d)) ==
      match ParsePrecision(g, d) case None => None case Some(e) => Some(Moved(f, e))
  {
    hide Signed;
    assert At(f + g, |f| + d.at) == At(g, d.at);
    assert At(f + g, |f| + (d.at + 1)) == At(g, d.at + 1);
    NumberBehind(f, g, d.at + 1, 0);
    hide ParseNumber, At;
  }

  lemma LengthBehind(f: string, g: string, i: nat)
    ensures var (length, j) := ParseLengthField(g, i); ParseLengthField(f + g, |f| + i) == (length, |f| + j)
  {
    assert At(f + g, |f| + i) == At(g, i) && At(f + g, |f| + (i + 1)) == At(g, i + 1);
    hide At;
  }

  lemma ParseBehind(f: string, g: string, i: nat, va: seq<Arg>)
    ensures Parse(f + g, |f| + i, va) ==
      match Parse(g, i, va) case None => None case Some(d) => Some(Moved(f, d))
  {
    hide ParseFlags, ParseWidth, ParsePrecision, ParseLengthField, WithLength;
    var (flags, j) := ParseFlags(g, i, NO_FLAGS);
    FlagsBehind(f, g, i, NO_FLAGS);
    WidthBehind(f, g, j, flags, va);
    if ParseWidth(g, j, flags, va).Some? {
      var d := ParseWidth(g, j, flags, va).value;
      PrecisionBehind(f, g, d);
      if ParsePrecision(g, d).Some? {
        LengthBehind(f, g, ParsePrecision(g, d).value.at);
      }
    }
  }

  lemma ConvertMoved(c: char, f: string, d: Directive)
    ensures Convert(c, Moved(f, d)) == Convert(c, d)
  {
    hide NumberText, Field;
  }

  lemma {:induction false} RenderBehind(f: string, g: string, i: nat, va: seq<Arg>)
    ensures RenderFrom(f + g, |f| + i, va) == RenderFrom(g, i, va)
    decreases |g| - i
  {
    hide Parse, Convert;
    assert At(f + g, |f| + i) == At(g, i);
    if At(g, i) == '\0' {
    } else if At(g, i) != '%' {
      RenderBehind(f, g, i + 1, va);
    } else {
      ParseBehind(f, g, i + 1, va);
      if Parse(g, i + 1, va).Some? {
        var d := Parse(g, i + 1, va).value;
        assert At(f + g, |f| + d.at) == At(g, d.at);
        ConvertMoved(At(g, d.at), f, d);
        if Convert(At(g, d.at), d).Some? {
          RenderBehind(f, g, d.at + 1, Convert(At(g, d.at), d).value.1);
        }
      }
    }
  }

  // ---------- one after the other ----------

  /**
   A format that takes exactly its arguments prints the same in front of any other format and any other arguments,
   and that one prints what it prints alone.
   */
  lemma {:induction false} RenderInFront(f: string, g: string, i: nat, va: seq<Arg>, vb: seq<Arg>)
    requires i <= |f| && '\0' !in f && RenderFrom(f, i, va).Some? && ArgumentsLeft(f, i, va) == Some([])
    ensures RenderFrom(f + g, i, va + vb) ==
      match Render(g, vb) case None => None case Some(rest) => Some(RenderFrom(f, i, va).value + rest)
    decreases |f| - i
  {
    hide Parse, Convert, ReadSpec, LeftBy;
    if i == |f| {
      RenderBehind(f, g, 0, vb);
      assert va + vb == vb;
      assert forall rest: string :: "" + rest == rest;
    } else {
      assert f[i] in f && At(f + g, i) == At(f, i);
      if At(f, i) != '%' {
        RenderInFront(f, g, i + 1, va, vb);
        var text := RenderFrom(f, i + 1, va).value;
        assert forall rest: string :: [At(f, i)] + (text + rest) == [At(f, i)] + text + rest;
      } else {
        DirectiveInFront(f, g, i + 1, va, vb);
        var d := Parse(f, i + 1, va).value;
        var (piece, left) := Convert(At(f, d.at), d).value;
        RenderInFront(f, g, d.at + 1, left, vb);
        var text := RenderFrom(f, d.at + 1, left).value;
        assert forall rest: string :: piece + (text + rest) == piece + text + rest;
      }
    }
  }

  lemma DirectiveInFront(f: string, g: string, i: nat, va: seq<Arg>, vb: seq<Arg>)
    requires Parse(f, i, va).Some?
    requires var d := Parse(f, i, va).value; Convert(At(f, d.at), d).Some?
    ensures var d := Parse(f, i, va).value;
      var (piece, left) := Convert(At(f, d.at), d).value;
      var d' := Directive(d.f, d.width, d.precision, d.at, d.va + vb);
      && d.at < |f| && At(f + g, d.at) == At(f, d.at)
      && Parse(f + g, i, va + vb) == Some(d') && Convert(At(f, d.at), d') == Some((piece, left + vb))
      && ReadSpec(f, i, va).Some? && ReadSpec(f, i, va).value.at == d.at
      && LeftBy(At(f, d.at), ReadSpec(f, i, va).value.va) == Some(left)
  {
    var d := Parse(f, i, va).value;
    assert d.at < |f|;
    ParseInFront(f, g, i, va, vb);
    DirectivesAgree(f, i, va);
    hide Parse, ReadSpec, LeftBy;
    ConvertTakes(At(f, d.at), d);
    ConvertWithMore(At(f, d.at), d, vb);
  }

  /** The theorem for whole formats. */
  lemma FormatsConcatenate(f: string, g: string, va: seq<Arg>, vb: seq<Arg>)
    requires '\0' !in f && Render(f, va).Some? && ArgumentsLeft(f, 0, va) == Some([])
    ensures Render(f + g, va + vb) ==
      match Render(g, vb) case None => None case Some(rest) => Some(Render(f, va).value + rest)
  {
    RenderInFront(f, g, 0, va, vb);
  }
}
