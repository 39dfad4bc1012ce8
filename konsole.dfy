/**
 * The writer: the colour stack, the current text colour and what the four
 * Write/WriteLine overloads send to the console, section by section.
 *
 * The C# class is static; here its state is one object: the colour stack,
 * Console.ForegroundColor (which the TextColor property reads and sets),
 * the console's default colour that Console.ResetColor restores, and the
 * sequence of writes made to standard output.
 */
module Konsole {
  import opened Text
  import opened Colors
  import opened Sections
  import opened Formats

  /** The colour stack (its top is the last element) and the current text colour. */
  datatype Pen = Pen(stack: seq<Color>, color: Color)

  /**
   * One write to standard output, in the colour current at the time:
   * Console.Write(format, args) with the composite format string and its
   * argument array (None for an unfilled, null slot), Console.Write(text)
   * with text written as it is, or the line break WriteLine ends with.
   */
  datatype Output<A> = Formatted(color: Color, text: string, args: seq<Option<A>>) | Verbatim(color: Color, text: string) | NewLine

  function Min(a: nat, b: nat): nat { if a <= b then a else b }

  /** The pop loop: up to n levels, each restoring the colour saved on top of the stack. */
  function Revert(p: Pen, n: nat): Pen
    decreases n
  {
    if n == 0 || p.stack == [] then p
    else Revert(Pen(p.stack[..|p.stack| - 1], p.stack[|p.stack| - 1]), n - 1)
  }

  /**
   * Reverting n levels pops min(n, depth) colours and restores the deepest
   * one popped; nothing changes when the stack is empty.
   */
  lemma {:induction false} RevertPops(p: Pen, n: nat)
    ensures var m := Min(n, |p.stack|); var r := Revert(p, n);
      && r.stack == p.stack[..|p.stack| - m]
      && r.color == if m == 0 then p.color else p.stack[|p.stack| - m]
    decreases n
  {
    if n != 0 && p.stack != [] {
      var q := Pen(p.stack[..|p.stack| - 1], p.stack[|p.stack| - 1]);
      RevertPops(q, n - 1);
      var m := Min(n - 1, |q.stack|);
      assert q.stack[..|q.stack| - m] == p.stack[..|p.stack| - (m + 1)];
      if m > 0 {
        assert q.stack[|q.stack| - m] == p.stack[|p.stack| - (m + 1)];
      }
    }
  }

  /** One section's colour action: a change pushes the current colour, then Back levels are reverted. */
  function Apply(p: Pen, s: KolorSection): Pen {
    var q := if s.ColorChange then Pen(p.stack + [p.color], s.Color) else p;
    Revert(q, s.Back)
  }

  /** The pen after the colour actions of all of secs, in order. */
  function ApplyAll(p: Pen, secs: seq<KolorSection>): Pen
    decreases |secs|
  {
    if secs == [] then p else Apply(ApplyAll(p, secs[..|secs| - 1]), secs[|secs| - 1])
  }

  /**
   * The argument array of a section with n slots, filled from format[f..]:
   * one argument per slot while arguments last, null slots after that; the
   * second component is where the next section's arguments begin.
   */
  function Bind<A>(format: seq<A>, f: nat, n: nat): (r: (seq<Option<A>>, nat))
    requires f <= |format|
    ensures |r.0| == n && r.1 == f + Min(n, |format| - f) && r.1 <= |format|
    ensures forall i :: 0 <= i < n ==> r.0[i] == if f + i < |format| then Some(format[f + i]) else None
    decreases n
  {
    if n == 0 then ([], f)
    else if f < |format| then
      var rest := Bind(format, f + 1, n - 1);
      ([Some(format[f])] + rest.0, rest.1)
    else
      var rest := Bind(format, f, n - 1);
      ([None] + rest.0, rest.1)
  }

  /** What a write produces: the pen at its end, the next argument index and the writes made. */
  datatype Shown<A> = Shown(pen: Pen, f: nat, out: seq<Output<A>>)

  /**
   * The loop of the formatted overloads over secs: apply the section's colour
   * action, bind its arguments, write its renumbered text with them.
   */
  function ShowFormatted<A>(st: Shown<A>, secs: seq<KolorSection>, format: seq<A>): (r: Shown<A>)
    requires st.f <= |format|
    ensures r.f <= |format|
    decreases |secs|
  {
    if secs == [] then st
    else
      var prev := ShowFormatted(st, secs[..|secs| - 1], format);
      var s := secs[|secs| - 1];
      var pen := Apply(prev.pen, s);
      var args := Bind(format, prev.f, s.Formats);
      Shown(pen, args.1, prev.out + [Formatted(pen.color, Renumber(s.Message, 0), args.0)])
  }

  /** The loop of the overloads without arguments: the section's text is written as it is. */
  function ShowVerbatim<A>(st: Shown<A>, secs: seq<KolorSection>): (r: Shown<A>)
    decreases |secs|
  {
    if secs == [] then st
    else
      var prev := ShowVerbatim(st, secs[..|secs| - 1]);
      var s := secs[|secs| - 1];
      var pen := Apply(prev.pen, s);
      Shown(pen, prev.f, prev.out + [Verbatim(pen.color, s.Message)])
  }

  /**
   * The argument array of one section: `new object[s.Formats]` filled by the
   * loop `for (i = 0; i < fmt.Length && f < format.Length; i++, f++)`.
   */
  method FillArgs<A>(format: seq<A>, f0: nat, n: nat) returns (fmt: array<Option<A>>, f: nat)
    requires f0 <= |format|
    ensures fresh(fmt)
    ensures fmt[..] == Bind(format, f0, n).0 && f == Bind(format, f0, n).1
  {
    fmt := new Option<A>[n](_ => None);
    var i := 0;
    f := f0;
    while i < fmt.Length && f < |format|
      invariant 0 <= i <= n && f == f0 + i && f <= |format|
      invariant forall k :: 0 <= k < n ==> fmt[k] == if k < i then Some(format[f0 + k]) else None
    {
      fmt[i] := Some(format[f]);
      i := i + 1;
      f := f + 1;
    }
    assert fmt[..] == Bind(format, f0, n).0;
  }

  class SuperKonsole<A> {
    var colorStack: seq<Color>
    var textColor: Color
    var output: seq<Output<A>>
    const defaultColor: Color

    function PenOf(): Pen
      reads this
    {
      Pen(colorStack, textColor)
    }

    /** The static state at start-up: an empty stack, the console in colour `current`. */
    constructor (current: Color, defaultColor: Color)
      ensures colorStack == [] && textColor == current && output == []
      ensures this.defaultColor == defaultColor
    {
      colorStack := [];
      textColor := current;
      output := [];
      this.defaultColor := defaultColor;
    }

    /** The colour action at the top of each section loop. */
    method ApplySection(s: KolorSection)
      modifies this
      ensures PenOf() == Apply(old(PenOf()), s) && output == old(output)
    {
      if s.ColorChange {
        colorStack := colorStack + [textColor];
        textColor := s.Color;
      }
      // `while ((b--) > 0 && ColorStack.Count > 0)`; b is not read afterwards
      var b: nat := s.Back;
      while b > 0 && |colorStack| > 0
        invariant Revert(PenOf(), b) == Apply(old(PenOf()), s) && output == old(output)
      {
        b := b - 1;
        textColor := colorStack[|colorStack| - 1];
        colorStack := colorStack[..|colorStack| - 1];
      }
    }

    /** The section loop of Write(msg, format) and WriteLine(msg, format). */
    method WriteSectionsFormatted(secs: seq<KolorSection>, format: seq<A>)
      modifies this
      ensures var r := ShowFormatted(Shown(old(PenOf()), 0, []), secs, format);
        PenOf() == r.pen && output == old(output) + r.out
    {
      ghost var start := Shown<A>.Shown(PenOf(), 0, []);
      var f := 0;
      var j := 0;
      while j < |secs|
        invariant 0 <= j <= |secs|
        invariant var r := ShowFormatted(start, secs[..j], format);
          PenOf() == r.pen && f == r.f && output == old(output) + r.out
      {
        var s := secs[j];
        assert secs[..j + 1][..j] == secs[..j];
        ApplySection(s);
        var fmt;
        fmt, f := FillArgs(format, f, s.Formats);
        var newmsg := FixFormats(s);
        output := output + [Formatted(textColor, newmsg, fmt[..])];
        j := j + 1;
      }
      assert secs[..j] == secs;
    }

    /** The section loop of Write(msg) and WriteLine(msg). */
    method WriteSectionsVerbatim(secs: seq<KolorSection>)
      modifies this
      ensures var r := ShowVerbatim(Shown<A>.Shown(old(PenOf()), 0, []), secs);
        PenOf() == r.pen && output == old(output) + r.out
    {
      ghost var start := Shown<A>.Shown(PenOf(), 0, []);
      var j := 0;
      while j < |secs|
        invariant 0 <= j <= |secs|
        invariant var r := ShowVerbatim(start, secs[..j]);
          PenOf() == r.pen && output == old(output) + r.out
      {
        var s := secs[j];
        assert secs[..j + 1][..j] == secs[..j];
        ApplySection(s);
        output := output + [Verbatim(textColor, s.Message)];
        j := j + 1;
      }
      assert secs[..j] == secs;
    }

    /** Write(object msg, params object[] format), with msg already turned into its string. */
    method WriteFormatted(msg: string, format: seq<A>)
      modifies this
      ensures var r := ShowFormatted(Shown(old(PenOf()), 0, []), SectionsOf(msg), format);
        PenOf() == r.pen && output == old(output) + r.out
    {
      var sect := GenerateSections(msg);
      WriteSectionsFormatted(sect, format);
    }

    /** WriteLine(object msg, params object[] format): the same writes, then the line break. */
    method WriteLineFormatted(msg: string, format: seq<A>)
      modifies this
      ensures var r := ShowFormatted(Shown(old(PenOf()), 0, []), SectionsOf(msg), format);
        PenOf() == r.pen && output == old(output) + r.out + [NewLine]
    {
      var sect := GenerateSections(msg);
      WriteSectionsFormatted(sect, format);
      output := output + [NewLine];
    }

    /** Write(object msg): each section's text is written as it is. */
    method Write(msg: string)
      modifies this
      ensures var r := ShowVerbatim(Shown<A>.Shown(old(PenOf()), 0, []), SectionsOf(msg));
        PenOf() == r.pen && output == old(output) + r.out
    {
      var sect := GenerateSections(msg);
      WriteSectionsVerbatim(sect);
    }

    /** WriteLine(object msg): the same writes, then the line break. */
    method WriteLine(msg: string)
      modifies this
      ensures var r := ShowVerbatim(Shown<A>.Shown(old(PenOf()), 0, []), SectionsOf(msg));
        PenOf() == r.pen && output == old(output) + r.out + [NewLine]
    {
      var sect := GenerateSections(msg);
      WriteSectionsVerbatim(sect);
      output := output + [NewLine];
    }

    /** ResetColor(): the console's default colour is back and the stack is emptied. */
    method ResetColor()
      modifies this
      ensures colorStack == [] && textColor == defaultColor && output == old(output)
    {
      textColor := defaultColor;
      colorStack := [];
    }
  }
}
