/** karm-cli/style.h: terminal colours, the `Style` builder and the ANSI
    escape sequences its formatter emits. */
module CliStyle {
  import opened Base

  /** The values of the `Color` enumeration: `_COLOR_UNDEF` (-1), the eight
      dark colours 0..7 and the eight light colours 60..67. */
  type CliColor = c: int | c == -1 || 0 <= c <= 7 || 60 <= c <= 67 witness -1

  const UNDEF: CliColor := -1
  const BLACK: CliColor := 0
  const RED: CliColor := 1
  const GREEN: CliColor := 2
  const YELLOW: CliColor := 3
  const BLUE: CliColor := 4
  const MAGENTA: CliColor := 5
  const CYAN: CliColor := 6
  const GRAY_LIGHT: CliColor := 7
  const GRAY_DARK: CliColor := 60
  const RED_LIGHT: CliColor := 61
  const GREEN_LIGHT: CliColor := 62
  const YELLOW_LIGHT: CliColor := 63
  const BLUE_LIGHT: CliColor := 64
  const MAGENTA_LIGHT: CliColor := 65
  const CYAN_LIGHT: CliColor := 66
  const WHITE: CliColor := 67

  const LIGHT_COLORS: seq<CliColor> :=
    [GRAY_DARK, RED_LIGHT, GREEN_LIGHT, YELLOW_LIGHT, BLUE_LIGHT, MAGENTA_LIGHT, CYAN_LIGHT, WHITE]

  const DARK_COLORS: seq<CliColor> :=
    [BLACK, RED, GREEN, YELLOW, BLUE, MAGENTA, CYAN, GRAY_LIGHT]

  const COLORS: seq<CliColor> :=
    [BLACK, RED, GREEN, YELLOW, BLUE, MAGENTA, CYAN, GRAY_LIGHT,
     GRAY_DARK, RED_LIGHT, GREEN_LIGHT, YELLOW_LIGHT, BLUE_LIGHT, MAGENTA_LIGHT, CYAN_LIGHT, WHITE]

  /** `COLORS` lists the dark colours and then the light ones, which are the
      dark ones shifted by 60. */
  lemma ColorTables()
    ensures COLORS == DARK_COLORS + LIGHT_COLORS
    ensures forall i | 0 <= i < 8 :: DARK_COLORS[i] == i && LIGHT_COLORS[i] == i + 60
  {
  }

  /** `random(seed)`: odd seeds pick a dark colour, even seeds a light one,
      indexed by bits 1-3 of the seed. */
  function Random(seed: U64): (c: CliColor)
    ensures seed % 2 == 1 ==> 0 <= c <= 7 && c == DARK_COLORS[(seed / 2) % 8]
    ensures seed % 2 == 0 ==> 60 <= c <= 67 && c == LIGHT_COLORS[(seed / 2) % 8]
  {
    ColorTables();
    if seed % 2 == 1 then (seed / 2) % 8 else (seed / 2) % 8 + 60
  }

  /** Every colour `random` picks is one of `COLORS`, and never `_COLOR_UNDEF`. */
  lemma RandomInColors(seed: U64)
    ensures Random(seed) in COLORS
    ensures Random(seed) != UNDEF
  {
    ColorTables();
    var i := (seed / 2) % 8;
    if seed % 2 == 1 {
      assert COLORS[i] == Random(seed);
    } else {
      assert COLORS[8 + i] == Random(seed);
    }
  }

  /** The value of a `Style`. */
  datatype Style = Style(
    reset: bool, fg: CliColor, bg: CliColor,
    bold: bool, underline: bool, blink: bool, reverse: bool, invisible: bool)

  /** `Style()`: both colours undefined and every flag false. */
  const DEFAULT_STYLE: Style := Style(false, UNDEF, UNDEF, false, false, false, false, false)

  /** The free `reset()`: the default style with only `_reset` set. */
  function ResetStyle(): (s: Style)
    ensures s.reset
    ensures s.(reset := false) == DEFAULT_STYLE
  {
    DEFAULT_STYLE.(reset := true)
  }

  /** A `Style` object on which the builder methods are called: each sets
      one field of the object and returns a copy of it. */
  class StyleBuilder {
    var reset: bool
    var fg: CliColor
    var bg: CliColor
    var bold: bool
    var underline: bool
    var blink: bool
    var reverse: bool
    var invisible: bool

    function Value(): Style
      reads this
    {
      Style(reset, fg, bg, bold, underline, blink, reverse, invisible)
    }

    /** `Style()`. */
    constructor ()
      ensures Value() == DEFAULT_STYLE
    {
      reset, fg, bg := false, UNDEF, UNDEF;
      bold, underline, blink, reverse, invisible := false, false, false, false, false;
    }

    /** `Style(fg)`. */
    constructor WithFg(color: CliColor)
      ensures Value() == DEFAULT_STYLE.(fg := color)
    {
      reset, fg, bg := false, color, UNDEF;
      bold, underline, blink, reverse, invisible := false, false, false, false, false;
    }

    /** `Style(fg, bg)`. */
    constructor WithColors(fore: CliColor, back: CliColor)
      ensures Value() == DEFAULT_STYLE.(fg := fore, bg := back)
    {
      reset, fg, bg := false, fore, back;
      bold, underline, blink, reverse, invisible := false, false, false, false, false;
    }

    method Fg(color: CliColor) returns (copy: Style)
      modifies this
      ensures Value() == old(Value()).(fg := color) && copy == Value()
    {
      fg := color;
      copy := Value();
    }

    method Bg(color: CliColor) returns (copy: Style)
      modifies this
      ensures Value() == old(Value()).(bg := color) && copy == Value()
    {
      bg := color;
      copy := Value();
    }

    method Bold() returns (copy: Style)
      modifies this
      ensures Value() == old(Value()).(bold := true) && copy == Value()
    {
      bold := true;
      copy := Value();
    }

    method Underline() returns (copy: Style)
      modifies this
      ensures Value() == old(Value()).(underline := true) && copy == Value()
    {
      underline := true;
      copy := Value();
    }

    method Blink() returns (copy: Style)
      modifies this
      ensures Value() == old(Value()).(blink := true) && copy == Value()
    {
      blink := true;
      copy := Value();
    }

    method Reverse() returns (copy: Style)
      modifies this
      ensures Value() == old(Value()).(reverse := true) && copy == Value()
    {
      reverse := true;
      copy := Value();
    }

    method Invisible() returns (copy: Style)
      modifies this
      ensures Value() == old(Value()).(invisible := true) && copy == Value()
    {
      invisible := true;
      copy := Value();
    }

    method Reset() returns (copy: Style)
      modifies this
      ensures Value() == old(Value()).(reset := true) && copy == Value()
    {
      reset := true;
      copy := Value();
    }
  }

  /** `Styled<T>`: a value, here the text its own formatter renders, with a style. */
  datatype Styled = Styled(inner: string, style: Style)

  /** The decimal digits of a natural number, as `{}` formats it. */
  function Decimal(n: nat): (s: string)
    ensures |s| >= 1
    ensures forall i | 0 <= i < |s| :: '0' <= s[i] <= '9'
  {
    if n < 10 then [Digit(n)] else Decimal(n / 10) + [Digit(n % 10)]
  }

  function Digit(d: nat): (c: char)
    requires d < 10
    ensures '0' <= c <= '9' && c as int - '0' as int == d
  {
    ('0' as int + d) as char
  }

  /** The value a string of decimal digits stands for. */
  function DigitsValue(s: string): int
  {
    if s == [] then 0 else DigitsValue(s[..|s| - 1]) * 10 + (s[|s| - 1] as int - '0' as int)
  }

  /** Reading the digits back gives the number. */
  lemma {:induction false} DecimalRoundTrip(n: nat)
    ensures DigitsValue(Decimal(n)) == n
  {
    if n >= 10 {
      DecimalRoundTrip(n / 10);
      var s := Decimal(n);
      assert s[..|s| - 1] == Decimal(n / 10);
    }
  }

  /** The escape character, 0x1B. */
  const ESC: char := 27 as char

  /** `\x1b[{code}m`, a Select Graphic Rendition sequence. */
  function Sgr(code: nat): string
  {
    [ESC, '['] + Decimal(code) + "m"
  }

  /** Whether step `k` of the formatter writes anything: steps 0 to 7 are, in
      order, reset, foreground, background, bold, underline, blink, reverse
      and invisible, and a step writes when its field is set. */
  predicate IsSet(s: Style, k: nat)
  {
    if k == 0 then s.reset
    else if k == 1 then s.fg != UNDEF
    else if k == 2 then s.bg != UNDEF
    else if k == 3 then s.bold
    else if k == 4 then s.underline
    else if k == 5 then s.blink
    else if k == 6 then s.reverse
    else k == 7 && s.invisible
  }

  /** The SGR code of step `k`. */
  function SgrCode(s: Style, k: nat): nat
  {
    if k == 0 then 0
    else if k == 1 then (if s.fg == UNDEF then 0 else s.fg + 30)
    else if k == 2 then (if s.bg == UNDEF then 0 else s.bg + 40)
    else if k == 3 then 1
    else if k == 4 then 4
    else if k == 5 then 5
    else if k == 6 then 7
    else 8
  }

  /** Step `k` of the formatter: its sequence, if its field is set. */
  function Piece(s: Style, k: nat): Option<string>
  {
    if IsSet(s, k) then Some(Sgr(SgrCode(s, k))) else None
  }

  /** The sequences steps `k` to 7 write, in order. */
  function CodesFrom(s: Style, k: nat): seq<string>
    decreases 8 - k
  {
    if k >= 8 then []
    else (if Piece(s, k).Some? then [Piece(s, k).value] else []) + CodesFrom(s, k + 1)
  }

  /** The escape sequences the ANSI formatter emits for a style. */
  function Codes(s: Style): seq<string>
  {
    CodesFrom(s, 0)
  }

  /** A sequence is emitted exactly when some remaining step writes it:
      only set fields produce output. */
  lemma {:induction false} CodesFromMembers(s: Style, k: nat)
    decreases 8 - k
    ensures forall p :: p in CodesFrom(s, k) <==> exists j | k <= j < 8 :: Piece(s, j) == Some(p)
  {
    if k < 8 {
      CodesFromMembers(s, k + 1);
      forall p
        ensures p in CodesFrom(s, k) <==> exists j | k <= j < 8 :: Piece(s, j) == Some(p)
      {
        if p in CodesFrom(s, k) && !(Piece(s, k).Some? && p == Piece(s, k).value) {
          assert p in CodesFrom(s, k + 1);
        }
      }
    }
  }

  /** A style with no field set from step `k` on emits nothing from there. */
  lemma {:induction false} CodesFromNone(s: Style, k: nat)
    requires forall j | k <= j < 8 :: Piece(s, j).None?
    decreases 8 - k
    ensures CodesFrom(s, k) == []
  {
    if k < 8 {
      CodesFromNone(s, k + 1);
    }
  }

  /** The default style emits nothing and the free `reset()` only `ESC[0m`. */
  lemma CodesExamples()
    ensures Codes(DEFAULT_STYLE) == []
    ensures Codes(ResetStyle()) == [[ESC] + "[0m"]
  {
    CodesFromNone(DEFAULT_STYLE, 0);
    CodesFromNone(ResetStyle(), 1);
    assert Piece(ResetStyle(), 0) == Some(Sgr(0));
    assert Codes(ResetStyle()) == [Sgr(0)] + CodesFrom(ResetStyle(), 1);
    assert Decimal(0) == "0";
    assert Sgr(0) == [ESC] + "[0m";
  }

  /** Bold text is marked exactly when the style is bold, and a reset comes
      before every other sequence. */
  lemma CodesOfBoldAndReset(s: Style)
    ensures Sgr(1) in Codes(s) <==> s.bold
    ensures s.reset ==> Codes(s)[0] == Sgr(0)
  {
    CodesFromMembers(s, 0);
    SgrInjective(1);
    assert s.bold ==> Piece(s, 3) == Some(Sgr(1));
  }

  /** Distinct codes give distinct sequences. */
  lemma SgrInjective(code: nat)
    ensures forall c: nat | c != code :: Sgr(c) != Sgr(code)
  {
    forall c: nat | c != code
      ensures Sgr(c) != Sgr(code)
    {
      if Sgr(c) == Sgr(code) {
        SgrShape(c);
        SgrShape(code);
        DecimalRoundTrip(c);
        DecimalRoundTrip(code);
      }
    }
  }

  /** `Sgr(code)` is `ESC`, `[`, the decimal digits of `code` and `m`. */
  lemma SgrShape(code: nat)
    ensures |Sgr(code)| >= 4 && Sgr(code)[0] == ESC && Sgr(code)[1] == '[' && Sgr(code)[|Sgr(code)| - 1] == 'm'
    ensures Sgr(code)[2..|Sgr(code)| - 1] == Decimal(code)
  {
  }

  /** A colour code is `30 + fg` (30-37 or 90-97) or `40 + bg` (40-47 or 100-107). */
  lemma ColorCodeRanges(c: CliColor)
    requires c != UNDEF
    ensures 30 <= c + 30 <= 37 || 90 <= c + 30 <= 97
    ensures 40 <= c + 40 <= 47 || 100 <= c + 40 <= 107
  {
  }

  /** A text writer, `Io::TextWriter`: `writeStr` takes the writer's state and
      a string and gives the new state and the number of units written. */
  type TextWriteFn<!W> = (W, string) -> (W, Res<nat>)

  /** Writing strings one after the other, adding the counts and stopping at
      the first error as `try$` does. */
  function EmitFrom<W>(write: TextWriteFn<W>, w: W, pieces: seq<string>, written: nat): (W, Res<nat>)
    decreases |pieces|
  {
    if pieces == [] then (w, Ok(written))
    else
      var step := write(w, pieces[0]);
      if step.1.Err? then (step.0, Err(step.1.error))
      else EmitFrom(write, step.0, pieces[1..], written + step.1.value)
  }

  /** A writer appending to an in-memory string, such as a `StringWriter`. */
  function Append(w: string, s: string): (string, Res<nat>)
  {
    (w + s, Ok(|s|))
  }

  function Concat(pieces: seq<string>): string
  {
    if pieces == [] then "" else pieces[0] + Concat(pieces[1..])
  }

  /** Into an appending writer every piece lands in order and the count is
      the total length. */
  lemma {:induction false} EmitAppend(w: string, pieces: seq<string>, written: nat)
    decreases |pieces|
    ensures EmitFrom(Append, w, pieces, written) == (w + Concat(pieces), Ok(written + |Concat(pieces)|))
  {
    if pieces != [] {
      var head, rest := pieces[0], Concat(pieces[1..]);
      assert Concat(pieces) == head + rest;
      EmitAppend(w + head, pieces[1..], written + |head|);
      assert (w + head) + rest == w + (head + rest);
      assert |head + rest| == |head| + |rest|;
    } else {
      assert w + Concat(pieces) == w;
    }
  }

  /** The formatter from step `k` on: each step whose field is set writes
      its sequence, an error ends the formatting as `try$` does, and the
      counts are added to `written`. */
  function FormatFrom<W>(write: TextWriteFn<W>, w: W, s: Style, k: nat, written: nat): (W, Res<nat>)
    decreases 8 - k
  {
    if k >= 8 then (w, Ok(written))
    else if Piece(s, k).None? then FormatFrom(write, w, s, k + 1, written)
    else
      var step := write(w, Piece(s, k).value);
      if step.1.Err? then (step.0, Err(step.1.error))
      else FormatFrom(write, step.0, s, k + 1, written + step.1.value)
  }

  /** Formatting from step `k` writes exactly `CodesFrom(s, k)`. */
  lemma {:induction false} FormatFromEmits<W>(write: TextWriteFn<W>, w: W, s: Style, k: nat, written: nat)
    decreases 8 - k
    ensures FormatFrom(write, w, s, k, written) == EmitFrom(write, w, CodesFrom(s, k), written)
  {
    if k < 8 {
      var piece := Piece(s, k);
      if piece.Some? {
        var step := write(w, piece.value);
        assert FormatFrom(write, w, s, k, written)
          == if step.1.Err? then (step.0, Err(step.1.error))
             else FormatFrom(write, step.0, s, k + 1, written + step.1.value);
        assert CodesFrom(s, k) == [piece.value] + CodesFrom(s, k + 1);
        EmitCons(write, w, piece.value, CodesFrom(s, k + 1), written);
        if step.1.Ok? {
          FormatFromEmits(write, step.0, s, k + 1, written + step.1.value);
        }
      } else {
        assert CodesFrom(s, k) == CodesFrom(s, k + 1);
        FormatFromEmits(write, w, s, k + 1, written);
      }
    }
  }

  /** One step of the formatter: writes the sequence of step `k`, if any. */
  method Step<W>(write: TextWriteFn<W>, w: W, s: Style, k: nat, written: nat)
    returns (w': W, written': nat, failed: Option<Error>)
    requires k < 8
    ensures failed.None? ==>
      FormatFrom(write, w', s, k + 1, written') == FormatFrom(write, w, s, k, written)
    ensures failed.Some? ==> (w', Err(failed.value)) == FormatFrom(write, w, s, k, written)
  {
    w', written', failed := w, written, None;
    var piece := Piece(s, k);
    if piece.Some? {
      var step := write(w, piece.value);
      w' := step.0;
      var res := step.1;
      if res.Err? {
        failed := Some(res.error);
        return;
      }
      written' := written + res.value;
    }
  }

  /** Emitting a first piece and then the rest. */
  lemma EmitCons<W>(write: TextWriteFn<W>, w: W, piece: string, rest: seq<string>, written: nat)
    ensures var step := write(w, piece);
      EmitFrom(write, w, [piece] + rest, written)
        == if step.1.Err? then (step.0, Err(step.1.error))
           else EmitFrom(write, step.0, rest, written + step.1.value)
  {
    assert ([piece] + rest)[0] == piece && ([piece] + rest)[1..] == rest;
  }

  /** `Formatter<Style>::format`: under the ANSI backend, one write per set
      field in the order of `Codes`, summing the counts; otherwise nothing. */
  method FormatStyle<W>(ansi: bool, write: TextWriteFn<W>, w: W, s: Style) returns (w': W, r: Res<nat>)
    ensures ansi ==> (w', r) == EmitFrom(write, w, Codes(s), 0)
    ensures !ansi ==> w' == w && r == Ok(0)
  {
    if !ansi {
      return w, Ok(0);
    }
    FormatFromEmits(write, w, s, 0, 0);
    ghost var goal := FormatFrom(write, w, s, 0, 0);
    var written: nat := 0;
    var failed: Option<Error>;
    w' := w;
    w', written, failed := Step(write, w', s, 0, written);
    if failed.Some? { return w', Err(failed.value); }
    assert FormatFrom(write, w', s, 1, written) == goal;
    w', written, failed := Step(write, w', s, 1, written);
    if failed.Some? { return w', Err(failed.value); }
    assert FormatFrom(write, w', s, 2, written) == goal;
    w', written, failed := Step(write, w', s, 2, written);
    if failed.Some? { return w', Err(failed.value); }
    assert FormatFrom(write, w', s, 3, written) == goal;
    w', written, failed := Step(write, w', s, 3, written);
    if failed.Some? { return w', Err(failed.value); }
    assert FormatFrom(write, w', s, 4, written) == goal;
    w', written, failed := Step(write, w', s, 4, written);
    if failed.Some? { return w', Err(failed.value); }
    assert FormatFrom(write, w', s, 5, written) == goal;
    w', written, failed := Step(write, w', s, 5, written);
    if failed.Some? { return w', Err(failed.value); }
    assert FormatFrom(write, w', s, 6, written) == goal;
    w', written, failed := Step(write, w', s, 6, written);
    if failed.Some? { return w', Err(failed.value); }
    assert FormatFrom(write, w', s, 7, written) == goal;
    w', written, failed := Step(write, w', s, 7, written);
    if failed.Some? { return w', Err(failed.value); }
    assert FormatFrom(write, w', s, 8, written) == goal;
    r := Ok(written);
  }

  /** `Formatter<Styled<T>>::format`: under the ANSI backend the style's
      sequences, the inner text and `ESC[0m`, adding the three counts;
      otherwise only the inner text. */
  method FormatStyled<W>(ansi: bool, write: TextWriteFn<W>, w: W, styled: Styled) returns (w': W, r: Res<nat>)
    ensures ansi ==> (w', r) == EmitFrom(write, w, Codes(styled.style) + [styled.inner, Sgr(0)], 0)
    ensures !ansi ==> (w', r) == write(w, styled.inner)
  {
    if !ansi {
      var step := write(w, styled.inner);
      return step.0, step.1;
    }
    var style;
    w', style := FormatStyle(true, write, w, styled.style);
    EmitSplit(write, w, Codes(styled.style), [styled.inner, Sgr(0)], 0);
    if style.Err? {
      return w', style;
    }
    EmitCons(write, w', styled.inner, [Sgr(0)], style.value);
    var inner := write(w', styled.inner);
    w' := inner.0;
    if inner.1.Err? {
      return w', Err(inner.1.error);
    }
    EmitCons(write, w', Sgr(0), [], inner.1.value + style.value);
    var tail := write(w', Sgr(0));
    w' := tail.0;
    if tail.1.Err? {
      return w', Err(tail.1.error);
    }
    r := Ok(style.value + inner.1.value + tail.1.value);
  }

  /** Emitting `p + q` is emitting `p` and, unless that failed, then `q`. */
  lemma {:induction false} EmitSplit<W>(write: TextWriteFn<W>, w: W, p: seq<string>, q: seq<string>, written: nat)
    decreases |p|
    ensures var first := EmitFrom(write, w, p, written);
      EmitFrom(write, w, p + q, written)
        == if first.1.Err? then first else EmitFrom(write, first.0, q, first.1.value)
  {
    if p != [] {
      assert (p + q)[0] == p[0] && (p + q)[1..] == p[1..] + q;
      var step := write(w, p[0]);
      if step.1.Ok? {
        EmitSplit(write, step.0, p[1..], q, written + step.1.value);
      }
    } else {
      assert p + q == q;
    }
  }

  /** Into an appending writer a styled value renders as its sequences, the
      text and `ESC[0m`, and the count is the length of all of it. */
  lemma StyledIntoString(w: string, styled: Styled)
    ensures EmitFrom(Append, w, Codes(styled.style) + [styled.inner, Sgr(0)], 0)
      == (w + Concat(Codes(styled.style)) + styled.inner + [ESC] + "[0m",
          Ok(|Concat(Codes(styled.style))| + |styled.inner| + 4))
  {
    ResetSequence();
    EmitAppendFramed(w, Codes(styled.style), styled.inner, Sgr(0));
    var front := w + Concat(Codes(styled.style)) + styled.inner;
    assert front + ([ESC] + "[0m") == front + [ESC] + "[0m";
  }

  /** `ESC[0m` is the sequence of code 0. */
  lemma ResetSequence()
    ensures Sgr(0) == [ESC] + "[0m"
  {
    assert Decimal(0) == "0";
  }

  /** Appending some pieces, a text and a closing piece. */
  lemma EmitAppendFramed(w: string, codes: seq<string>, inner: string, close: string)
    ensures EmitFrom(Append, w, codes + [inner, close], 0)
      == (w + Concat(codes) + inner + close, Ok(|Concat(codes)| + |inner| + |close|))
  {
    EmitAppend(w, codes + [inner, close], 0);
    ConcatAppend(codes, [inner, close]);
    assert Concat([inner, close]) == inner + close by {
      assert [inner, close][1..] == [close];
      assert Concat([close]) == close + Concat([]);
    }
    var c := Concat(codes);
    assert w + (c + (inner + close)) == w + c + inner + close;
  }

  /** Concatenation distributes over joining the lists of pieces. */
  lemma {:induction false} ConcatAppend(p: seq<string>, q: seq<string>)
    ensures Concat(p + q) == Concat(p) + Concat(q)
  {
    if p != [] {
      assert (p + q)[1..] == p[1..] + q;
      ConcatAppend(p[1..], q);
    } else {
      assert p + q == q;
    }
  }
}
