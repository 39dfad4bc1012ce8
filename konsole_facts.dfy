/**
 * What the writer promises: how the colour stack moves, that the format
 * arguments are handed out in order without gaps, that only WriteLine ends
 * the line, and what whole messages look like on the console.
 */
module KonsoleFacts {
  import opened Text
  import opened Colors
  import opened Sections
  import opened SectionsFacts
  import opened Formats
  import opened Konsole

  // ---- The colour stack ---------------------------------------------------------

  /** A section's action moves the stack by its push, then pops min(Back, depth) levels. */
  lemma ApplyDepth(p: Pen, s: KolorSection)
    ensures var d := |p.stack| + (if s.ColorChange then 1 else 0);
      |Apply(p, s).stack| == d - Min(s.Back, d)
  {
    var q := if s.ColorChange then Pen(p.stack + [p.color], s.Color) else p;
    RevertPops(q, s.Back);
  }

  /** With nothing saved, a section without a colour change leaves the pen as it is. */
  lemma EmptyStackKeeps(p: Pen, s: KolorSection)
    requires p.stack == [] && !s.ColorChange
    ensures Apply(p, s) == p
  {
    RevertPops(p, s.Back);
  }

  /** A colour change only (`&cyan;`, `%3;`). */
  predicate IsChange(s: KolorSection) {
    s.ColorChange && s.Back == 0
  }

  /** Colour changes only push: the old stack stays underneath, with the old colour on it. */
  lemma {:induction false} ChangesPush(p: Pen, secs: seq<KolorSection>)
    requires forall k :: 0 <= k < |secs| ==> IsChange(secs[k])
    ensures var q := ApplyAll(p, secs);
      && |q.stack| == |p.stack| + |secs|
      && q.stack[..|p.stack|] == p.stack
      && (secs != [] ==> q.stack[|p.stack|] == p.color)
    decreases |secs|
  {
    if secs != [] {
      var init := secs[..|secs| - 1];
      var s := secs[|secs| - 1];
      assert forall k :: 0 <= k < |init| ==> IsChange(init[k]) by {
        assert forall k :: 0 <= k < |init| ==> init[k] == secs[k];
      }
      ChangesPush(p, init);
      var prev := ApplyAll(p, init);
      assert IsChange(s);
      assert ApplyAll(p, secs) == Pen(prev.stack + [prev.color], s.Color);
      if init == [] {
        assert prev == p;
      }
    }
  }

  /** Reverting as many levels as there were colour changes gives back the pen from before them. */
  lemma ChangesReverted(p: Pen, secs: seq<KolorSection>)
    requires forall k :: 0 <= k < |secs| ==> IsChange(secs[k])
    ensures Revert(ApplyAll(p, secs), |secs|) == p
  {
    ChangesPush(p, secs);
    var q := ApplyAll(p, secs);
    RevertPops(q, |secs|);
    if secs == [] {
      assert ApplyAll(p, secs) == p;
    }
  }

  /**
   * n colour changes and then one revert of n levels (`&red;&blue;%**;`)
   * give back the colour and the stack they started from.
   */
  lemma ChangesThenRevert(p: Pen, secs: seq<KolorSection>, back: KolorSection)
    requires forall k :: 0 <= k < |secs| ==> IsChange(secs[k])
    requires !back.ColorChange && back.Back == |secs|
    ensures Apply(ApplyAll(p, secs), back) == p
  {
    ChangesReverted(p, secs);
  }

  /** Reverting a levels and then b more is reverting a + b levels. */
  lemma {:induction false} RevertAdd(p: Pen, a: nat, b: nat)
    ensures Revert(Revert(p, a), b) == Revert(p, a + b)
    decreases a
  {
    if a != 0 && p.stack != [] {
      RevertAdd(Pen(p.stack[..|p.stack| - 1], p.stack[|p.stack| - 1]), a - 1, b);
    }
  }

  /** The colour actions of a + b are those of a, then those of b. */
  lemma {:induction false} ApplyAllAppend(p: Pen, a: seq<KolorSection>, b: seq<KolorSection>)
    ensures ApplyAll(p, a + b) == ApplyAll(ApplyAll(p, a), b)
    decreases |b|
  {
    if b == [] {
      assert a + b == a;
    } else {
      var init := b[..|b| - 1];
      assert (a + b)[..|a + b| - 1] == a + init;
      ApplyAllAppend(p, a, init);
    }
  }

  /** A one-level revert (`&back;`, `%*;`) with nothing else. */
  predicate IsBack(s: KolorSection) {
    !s.ColorChange && s.Back == 1
  }

  /** n one-level reverts in a row revert n levels. */
  lemma {:induction false} BacksRevert(p: Pen, backs: seq<KolorSection>)
    requires forall k :: 0 <= k < |backs| ==> IsBack(backs[k])
    ensures ApplyAll(p, backs) == Revert(p, |backs|)
    decreases |backs|
  {
    if backs != [] {
      var init := backs[..|backs| - 1];
      BacksRevert(p, init);
      RevertAdd(p, |init|, 1);
    }
  }

  /**
   * n colour changes and then n one-level reverts (`&red;&blue;&back;&back;`)
   * give back the colour and the stack they started from.
   */
  lemma ChangesThenBacks(p: Pen, changes: seq<KolorSection>, backs: seq<KolorSection>)
    requires forall k :: 0 <= k < |changes| ==> IsChange(changes[k])
    requires forall k :: 0 <= k < |backs| ==> IsBack(backs[k])
    requires |backs| == |changes|
    ensures ApplyAll(p, changes + backs) == p
  {
    ApplyAllAppend(p, changes, backs);
    BacksRevert(ApplyAll(p, changes), backs);
    ChangesReverted(p, changes);
  }

  /** The single case: a change followed by a one-level revert restores the pen. */
  lemma ChangeThenBack(p: Pen, change: KolorSection, back: KolorSection)
    requires IsChange(change) && !back.ColorChange && back.Back == 1
    ensures Apply(Apply(p, change), back) == p
  {
    assert ApplyAll(p, [change]) == Apply(p, change) by {
      assert [change][..0] == [];
    }
    ChangesThenRevert(p, [change], back);
  }

  // ---- The writes of a message ---------------------------------------------

  /** A write loop's colour state is the colour actions of its sections, one write per section. */
  lemma {:induction false} ShowPen<A>(st: Shown<A>, secs: seq<KolorSection>, format: seq<A>)
    requires st.f <= |format|
    ensures ShowFormatted(st, secs, format).pen == ApplyAll(st.pen, secs)
    ensures ShowVerbatim(st, secs).pen == ApplyAll(st.pen, secs)
    ensures |ShowFormatted(st, secs, format).out| == |st.out| + |secs|
    ensures |ShowVerbatim(st, secs).out| == |st.out| + |secs|
    decreases |secs|
  {
    if secs != [] {
      ShowPen(st, secs[..|secs| - 1], format);
    }
  }

  /** The writes of either loop never include the line break. */
  lemma {:induction false} NoLineBreak<A>(st: Shown<A>, secs: seq<KolorSection>, format: seq<A>)
    requires st.f <= |format| && NewLine !in st.out
    ensures NewLine !in ShowFormatted(st, secs, format).out
    ensures NewLine !in ShowVerbatim(st, secs).out
    decreases |secs|
  {
    if secs != [] {
      NoLineBreak(st, secs[..|secs| - 1], format);
    }
  }

  /** The arguments a slot array actually holds, in slot order. */
  function Taken<A>(args: seq<Option<A>>): seq<A> {
    if args == [] then []
    else (if args[0].Some? then [args[0].value] else []) + Taken(args[1..])
  }

  /** Every argument handed to the console by the writes, in order. */
  function Passed<A>(out: seq<Output<A>>): seq<A> {
    if out == [] then []
    else
      var last := out[|out| - 1];
      Passed(out[..|out| - 1]) + (if last.Formatted? then Taken(last.args) else [])
  }

  /** The Formats counts of secs added up. */
  function TotalFormats(secs: seq<KolorSection>): nat {
    if secs == [] then 0 else TotalFormats(secs[..|secs| - 1]) + secs[|secs| - 1].Formats
  }

  /** One section's slots hold the next arguments of format, consecutively. */
  lemma {:induction false} TakenBind<A>(format: seq<A>, f: nat, n: nat)
    requires f <= |format|
    ensures Taken(Bind(format, f, n).0) == format[f..Bind(format, f, n).1]
    decreases n
  {
    if n > 0 {
      var r := Bind(format, f, n);
      if f < |format| {
        var rest := Bind(format, f + 1, n - 1);
        TakenBind(format, f + 1, n - 1);
        assert r.0[1..] == rest.0;
        assert format[f..r.1] == [format[f]] + format[f + 1..rest.1];
      } else {
        var rest := Bind(format, f, n - 1);
        TakenBind(format, f, n - 1);
        assert r.0[1..] == rest.0;
      }
    }
  }

  /**
   * The formatted overloads hand out format[0], format[1], ... in order, none
   * skipped and none twice: the writes hold exactly format[..f], and f is the
   * total of the sections' Formats, capped by the number of arguments.
   */
  lemma {:induction false} ArgumentsInOrder<A>(p: Pen, secs: seq<KolorSection>, format: seq<A>)
    ensures var r := ShowFormatted(Shown(p, 0, []), secs, format);
      && Passed(r.out) == format[..r.f]
      && r.f == Min(TotalFormats(secs), |format|)
    decreases |secs|
  {
    var r := ShowFormatted(Shown(p, 0, []), secs, format);
    if secs != [] {
      var init := secs[..|secs| - 1];
      var s := secs[|secs| - 1];
      var prev := ShowFormatted(Shown(p, 0, []), init, format);
      ArgumentsInOrder(p, init, format);
      var args := Bind(format, prev.f, s.Formats);
      TakenBind(format, prev.f, s.Formats);
      var x := Formatted(r.pen.color, Renumber(s.Message, 0), args.0);
      assert r.out == prev.out + [x] && r.f == args.1;
      PassedSnoc(prev.out, x);
      SliceJoin(format, prev.f, args.1);
    }
  }

  lemma PassedSnoc<A>(out: seq<Output<A>>, x: Output<A>)
    ensures Passed(out + [x]) == Passed(out) + (if x.Formatted? then Taken(x.args) else [])
  {
    assert (out + [x])[..|out|] == out;
  }

  lemma SliceJoin<T>(s: seq<T>, a: nat, b: nat)
    requires a <= b <= |s|
    ensures s[..a] + s[a..b] == s[..b]
  {
  }

  // ---- Whole messages -----------------------------------------------------------

  /** The verbatim loop, one section more. */
  lemma ShowVerbatimSnoc<A>(st: Shown<A>, secs: seq<KolorSection>, s: KolorSection)
    ensures var prev := ShowVerbatim(st, secs); var pen := Apply(prev.pen, s);
      ShowVerbatim(st, secs + [s]) == Shown(pen, prev.f, prev.out + [Verbatim(pen.color, s.Message)])
  {
    assert (secs + [s])[..|secs|] == secs;
  }

  /** The formatted loop, one section more. */
  lemma ShowFormattedSnoc<A>(st: Shown<A>, secs: seq<KolorSection>, s: KolorSection, format: seq<A>)
    requires st.f <= |format|
    ensures var prev := ShowFormatted(st, secs, format); var pen := Apply(prev.pen, s);
      var args := Bind(format, prev.f, s.Formats);
      ShowFormatted(st, secs + [s], format) == Shown(pen, args.1, prev.out + [Formatted(pen.color, Renumber(s.Message, 0), args.0)])
  {
    assert (secs + [s])[..|secs|] == secs;
  }

  lemma ShowVerbatimOne<A>(st: Shown<A>, s: KolorSection)
    ensures var pen := Apply(st.pen, s);
      ShowVerbatim(st, [s]) == Shown(pen, st.f, st.out + [Verbatim(pen.color, s.Message)])
  {
    assert [s][..0] == [];
  }

  lemma ShowFormattedOne<A>(st: Shown<A>, s: KolorSection, format: seq<A>)
    requires st.f <= |format|
    ensures var pen := Apply(st.pen, s); var args := Bind(format, st.f, s.Formats);
      ShowFormatted(st, [s], format) == Shown(pen, args.1, st.out + [Formatted(pen.color, Renumber(s.Message, 0), args.0)])
  {
    assert [s][..0] == [];
  }

  lemma NoActionKeeps(p: Pen, s: KolorSection)
    requires NoAction(s)
    ensures Apply(p, s) == p
  {
    RevertPops(p, 0);
  }

  /** Write(msg) of a non-empty message without markup: one write of msg, in the current colour. */
  lemma PlainWrite<A>(p: Pen, msg: string)
    requires Plain(msg) && msg != []
    ensures ShowVerbatim(Shown<A>.Shown(p, 0, []), SectionsOf(msg)) == Shown(p, 0, [Verbatim(p.color, msg)])
  {
    PlainMessage(msg);
    var s := NewSection(msg).(Formats := LoneBraces(msg));
    ShowVerbatimOne(Shown<A>.Shown(p, 0, []), s);
    NoActionKeeps(p, s);
  }

  /**
   * Write(msg, format) of a message without markup: one write of its
   * renumbered text with the first LoneBraces(msg) arguments.
   */
  lemma PlainWriteFormatted<A>(p: Pen, msg: string, format: seq<A>)
    requires Plain(msg) && msg != []
    ensures ShowFormatted(Shown(p, 0, []), SectionsOf(msg), format)
         == Shown(p, Min(LoneBraces(msg), |format|), [Formatted(p.color, Renumber(msg, 0), Bind(format, 0, LoneBraces(msg)).0)])
  {
    PlainMessage(msg);
    var s := NewSection(msg).(Formats := LoneBraces(msg));
    ShowFormattedOne(Shown(p, 0, []), s, format);
    NoActionKeeps(p, s);
  }

  /**
   * The three sections of a colour change and a one-level revert: the middle
   * one is written in the new colour, and the pen ends as it began.
   */
  lemma ChangeRevertShown<A>(p: Pen, s0: KolorSection, s1: KolorSection, s2: KolorSection)
    requires NoAction(s0) && IsChange(s1) && !s2.ColorChange && s2.Back == 1
    ensures ShowVerbatim(Shown<A>.Shown(p, 0, []), [s0, s1, s2])
         == Shown(p, 0, [Verbatim(p.color, s0.Message), Verbatim(s1.Color, s1.Message), Verbatim(p.color, s2.Message)])
  {
    var st := Shown<A>.Shown(p, 0, []);
    ShowVerbatimSnoc(st, [], s0);
    ShowVerbatimSnoc(st, [s0], s1);
    ShowVerbatimSnoc(st, [s0, s1], s2);
    assert [] + [s0] == [s0] && [s0] + [s1] == [s0, s1] && [s0, s1] + [s2] == [s0, s1, s2];
    NoActionKeeps(p, s0);
    var p1 := Pen(p.stack + [p.color], s1.Color);
    RevertPops(p1, 0);
    ChangeThenBack(p, s1, s2);
  }

  /**
   * Write(t0 + "&" + name + ";" + t1 + "%*;" + t2), for a name other than
   * `back`: t0 in the current colour, t1 in the named colour, t2 in the
   * current colour again, and the pen is as it was.
   */
  lemma ColorThenRevertWrite<A>(p: Pen, t0: string, name: string, t1: string, t2: string)
    requires Plain(t0) && Plain(t1) && Plain(t2)
    requires ';' !in name && (name == [] || name[0] != '&') && Trim(name) != "back"
    ensures ShowVerbatim(Shown<A>.Shown(p, 0, []), SectionsOf(t0 + "&" + name + ";" + t1 + "%*;" + t2))
         == Shown(p, 0, [Verbatim(p.color, t0), Verbatim(ResolveName(Trim(name)), t1), Verbatim(p.color, t2)])
  {
    ColorThenRevert(t0, name, t1, t2);
    ChangeRevertShown<A>(p, NewSection(t0).(Formats := LoneBraces(t0)),
      NamedDirective(Trim(name)).(Message := t1, Formats := LoneBraces(t1)),
      NewSection(t2).(Back := 1, Formats := LoneBraces(t2)));
  }
}
