/**
 * What the tokenizer promises: the escape and directive rules, the shape of
 * every section it emits, the end-of-input flush rule and the case of a
 * message without markup.
 */
module SectionsFacts {
  import opened Text
  import opened Colors
  import opened Sections

  // ---- Directives -------------------------------------------------------

  /** `&back;` reverts one level; any other name is a colour change, Gray when unknown. */
  lemma NamedDirectiveShape(name: string)
    ensures var s := NamedDirective(name);
      && s.Message == "" && s.Formats == 0 && OneAction(s)
      && (name == "back" ==> s.Back == 1 && !s.ColorChange)
      && (name != "back" ==> s.ColorChange && s.Back == 0 && s.Color == ResolveName(name))
  {
  }

  /** A body with k stars reverts k levels; any other body is a colour change by code. */
  lemma NumericDirectiveShape(body: string)
    ensures var s := NumericDirective(body);
      && s.Message == "" && s.Formats == 0 && OneAction(s)
      && ('*' in body ==> s.Back == multiset(body)['*'] && s.Back >= 1 && !s.ColorChange)
      && ('*' !in body ==> s.ColorChange && s.Back == 0 && s.Color == ResolveCode(body))
  {
    if '*' in body {
      assert multiset(body)['*'] >= 1;
    }
  }

  /** Every directive opens a section with exactly one action and no text yet. */
  lemma OpenedShape(ch: char, raw: string)
    ensures var s := Opened(ch, raw); s.Message == "" && s.Formats == 0 && OneAction(s)
  {
    NamedDirectiveShape(Trim(raw));
    NumericDirectiveShape(Trim(raw));
  }

  /** A `%` body that starts with neither white space, a sign nor a digit means code 7, which is Gray. */
  lemma CodeUnparsable(body: string)
    requires body == [] || (!IsNumberWhite(body[0]) && body[0] != '-' && body[0] != '+' && !IsDigit(body[0]))
    ensures ResolveCode(body) == Gray
  {
    TryParseIntRejects(body);
  }

  /** A code outside 0..15, negative or too large (or beyond 32 bits), gives Gray. */
  lemma CodeOutOfRange(sign: string, d: string, nuls: string)
    requires (sign == "" || sign == "-" || sign == "+") && d != [] && AllDigits(d) && AllNul(nuls)
    requires !(0 <= Signed(sign, DigitsValue(d)) < 16)
    ensures ResolveCode(sign + d + nuls) == Gray
  {
    TryParseSigned(sign, d, nuls);
  }

  /** A plus sign changes nothing: `%+3;` is `%3;`. */
  lemma CodePlusSign(d: string, nuls: string)
    requires d != [] && AllDigits(d) && AllNul(nuls)
    ensures ResolveCode("+" + d + nuls) == ResolveCode(d + nuls)
  {
    TryParsePlus(d, nuls);
  }

  /** A leading zero changes nothing: `%03;` is `%3;`. */
  lemma CodeLeadingZero(d: string)
    requires d != [] && AllDigits(d)
    ensures ResolveCode("0" + d) == ResolveCode(d)
  {
    TryParseLeadingZero(d);
  }

  /** Trailing NULs change nothing: `%3\0;` is `%3;`. */
  lemma CodeTrailingNuls(d: string, nuls: string)
    requires d != [] && AllDigits(d) && AllNul(nuls)
    ensures ResolveCode(d + nuls) == ResolveCode(d)
  {
    TryParseTrailingNuls(d, nuls);
  }

  /** Digits whose value is 0..15 give the colour with that code: `%3;` is DarkCyan. */
  lemma CodeDigits(d: string)
    requires d != [] && AllDigits(d) && DigitsValue(d) < 16
    ensures ResolveCode(d) == FromCode(DigitsValue(d))
  {
    TryParseDigits(d);
  }

  /** A code that means a colour resolves to the colour whose name the table lists. */
  lemma CodeAndNameResolveAlike(n: nat)
    requires n < 16
    ensures ResolveCode(Decimal(n)) == ResolveName(Name(FromCode(n)))
  {
    DecimalRoundTrip(n);
    NamesInDict();
  }

  // ---- Text without directives -------------------------------------------

  /** No directive character: '&' and '%' never occur. */
  predicate Plain(t: string) {
    '&' !in t && '%' !in t
  }

  /** The number of single (unescaped) `{` in t, read left to right as the scan does. */
  function LoneBraces(t: string): nat
    decreases |t|
  {
    if t == [] then 0
    else if |t| >= 2 && t[0] == '{' && t[1] == '{' then LoneBraces(t[2..])
    else if t[0] == '{' then 1 + LoneBraces(t[1..])
    else LoneBraces(t[1..])
  }

  /** The scan state after reading text without directives, token by token as Run does. */
  function ReadPlain(st: Scan, t: string): Scan
    decreases |t|
  {
    if t == [] then st
    else if |t| >= 2 && t[0] == '{' && t[1] == '{' then ReadPlain(st.(part := st.part + "{{"), t[2..])
    else if t[0] == '{' then ReadPlain(st.(sect := st.sect.(Formats := st.sect.Formats + 1), part := st.part + "{"), t[1..])
    else ReadPlain(st.(part := st.part + [t[0]]), t[1..])
  }

  /**
   * Reading text without directives never closes a section, so the scan goes
   * on with `rest` from the state ReadPlain gives, provided `rest` does not
   * start a `{{` pair with the end of t.
   */
  lemma {:induction false} RunPlain(st: Scan, t: string, rest: string)
    requires Plain(t)
    requires rest == [] || rest[0] != '{'
    ensures Run(st, t + rest) == Run(ReadPlain(st, t), rest)
    decreases |t|
  {
    if t == [] {
      assert t + rest == rest;
    } else {
      var s := t + rest;
      assert t[0] in t;
      assert Plain(t[1..]) by {
        assert forall c :: c in t[1..] ==> c in t;
      }
      if |t| >= 2 && t[0] == '{' && t[1] == '{' {
        assert Plain(t[2..]) by {
          assert forall c :: c in t[2..] ==> c in t;
        }
        assert s[2..] == t[2..] + rest;
        RunEscapedBrace(st, s);
        RunPlain(st.(part := st.part + "{{"), t[2..], rest);
      } else if t[0] == '{' {
        assert s[1..] == t[1..] + rest;
        RunBrace(st, s);
        RunPlain(st.(sect := st.sect.(Formats := st.sect.Formats + 1), part := st.part + "{"), t[1..], rest);
      } else {
        assert s[1..] == t[1..] + rest;
        RunOther(st, s);
        RunPlain(st.(part := st.part + [t[0]]), t[1..], rest);
      }
    }
  }

  /** Text without directives is copied verbatim (`{{` stays doubled) and each single `{` counts one format. */
  lemma {:induction false} ReadPlainIs(st: Scan, t: string)
    ensures ReadPlain(st, t) == st.(sect := st.sect.(Formats := st.sect.Formats + LoneBraces(t)), part := st.part + t)
    decreases |t|
  {
    if t == [] {
      assert st.part + t == st.part;
    } else if |t| >= 2 && t[0] == '{' && t[1] == '{' {
      ReadPlainIs(st.(part := st.part + "{{"), t[2..]);
      AppendSplit(st.part, "{{", t[2..], t);
    } else if t[0] == '{' {
      ReadPlainIs(st.(sect := st.sect.(Formats := st.sect.Formats + 1), part := st.part + "{"), t[1..]);
      AppendSplit(st.part, "{", t[1..], t);
    } else {
      ReadPlainIs(st.(part := st.part + [t[0]]), t[1..]);
      AppendSplit(st.part, [t[0]], t[1..], t);
    }
  }

  lemma AppendSplit(p: string, a: string, b: string, t: string)
    requires |a| <= |t| && a == t[..|a|] && b == t[|a|..]
    ensures p + a + b == p + t
  {
    assert t == a + b;
  }

  /** Run over text without directives, with the state reached named by the caller. */
  lemma RunPlainTo(st: Scan, t: string, rest: string, next: Scan)
    requires Plain(t)
    requires rest == [] || rest[0] != '{'
    requires next == st.(sect := st.sect.(Formats := st.sect.Formats + LoneBraces(t)), part := st.part + t)
    ensures Run(st, t + rest) == Run(next, rest)
  {
    RunPlain(st, t, rest);
    ReadPlainIs(st, t);
  }

  /** A message without directives is one section holding the whole message; an empty one gives none. */
  lemma PlainMessage(msg: string)
    requires Plain(msg)
    ensures msg == [] ==> SectionsOf(msg) == []
    ensures msg != [] ==> SectionsOf(msg) == [NewSection(msg).(Formats := LoneBraces(msg))]
  {
    RunPlainTo(Start, msg, [], Start.(sect := NewSection(msg).(Message := "", Formats := LoneBraces(msg)), part := msg));
    assert msg + [] == msg;
  }

  // ---- Directives inside a message ----------------------------------------

  /**
   * An unescaped directive `ch body;` closes the pending section (appending
   * exactly one section, even with empty text) and the scan resumes after
   * the ';'.
   */
  lemma RunDirectiveText(st: Scan, ch: char, body: string, rest: string)
    requires ch == '&' || ch == '%'
    requires ';' !in body && (body == [] || body[0] != ch)
    ensures Run(st, [ch] + body + [';'] + rest) == Run(Close(st, Opened(ch, body)), rest)
  {
    var tail := body + [';'] + rest;
    var s := [ch] + body + [';'] + rest;
    assert s == [ch] + tail;
    assert s[1..] == tail;
    assert |s| == 1 || s[1] != ch by {
      assert tail[0] == if body == [] then ';' else body[0];
    }
    SplitAtStop(body, rest, ';');
    RunDirectiveStep(st, s);
  }

  /** A directive whose body runs to the end of the input: the body is all that is left. */
  lemma RunUnterminated(st: Scan, ch: char, body: string)
    requires ch == '&' || ch == '%'
    requires ';' !in body && (body == [] || body[0] != ch)
    ensures Run(st, [ch] + body) == Close(st, Opened(ch, body))
  {
    var s := [ch] + body;
    if body != [] {
      assert s[1] == body[0];
    }
    RunDirectiveStep(st, s);
    assert s[1..] == body;
    UntilPrefix(body, [], ';');
    assert body + [] == body;
  }

  lemma NoWhiteSpaceTrim(s: string)
    requires NoWhiteSpace(s)
    ensures Trim(s) == s
  {
    TrimSpec(s);
  }

  // ---- End of input ----------------------------------------------------------

  /** A colour change at the very end opens a section with no text, which is dropped. */
  lemma TrailingColorDropped(st: Scan, name: string)
    requires ';' !in name && name != "back" && NoWhiteSpace(name) && (name == [] || name[0] != '&')
    ensures Flush(Run(st, ['&'] + name + [';'])) == st.lst + [st.sect.(Message := st.part)]
  {
    RunDirectiveText(st, '&', name, []);
    assert ['&'] + name + [';'] + [] == ['&'] + name + [';'];
    TrimSpec(name);
  }

  /** A revert at the very end is kept although it has no text. */
  lemma TrailingRevertKept(st: Scan, stars: string)
    requires ';' !in stars && '*' in stars && NoWhiteSpace(stars) && (stars == [] || stars[0] != '%')
    ensures Flush(Run(st, ['%'] + stars + [';'])) == st.lst + [st.sect.(Message := st.part), NewSection("").(Back := multiset(stars)['*'])]
  {
    RunDirectiveText(st, '%', stars, []);
    assert ['%'] + stars + [';'] + [] == ['%'] + stars + [';'];
    TrimSpec(stars);
    NumericDirectiveShape(stars);
  }

  // ---- The sections of every message ----------------------------------------

  /** No action at all: the shape of the first section. */
  predicate NoAction(s: KolorSection) {
    !s.ColorChange && s.Back == 0
  }

  /** What holds of every scan state: the first section has no action, every later one exactly one, and no text holds '&'. */
  predicate Good(st: Scan) {
    && '&' !in st.part && st.sect.Message == ""
    && (forall k :: 0 <= k < |st.lst| ==> '&' !in st.lst[k].Message)
    && (forall k :: 1 <= k < |st.lst| ==> OneAction(st.lst[k]))
    && (st.lst == [] ==> NoAction(st.sect))
    && (st.lst != [] ==> NoAction(st.lst[0]) && OneAction(st.sect))
  }

  /** The shape the emitted list has. */
  predicate GoodSections(lst: seq<KolorSection>) {
    && (forall k :: 0 <= k < |lst| ==> '&' !in lst[k].Message)
    && (lst != [] ==> NoAction(lst[0]))
    && (forall k :: 1 <= k < |lst| ==> OneAction(lst[k]))
  }

  lemma CloseGood(st: Scan, next: KolorSection)
    requires Good(st) && OneAction(next) && next.Message == ""
    ensures Good(Close(st, next))
  {
    var lst := st.lst + [st.sect.(Message := st.part)];
    assert forall k :: 0 <= k < |st.lst| ==> lst[k] == st.lst[k];
  }

  lemma {:induction false} RunGood(st: Scan, rest: string)
    requires Good(st)
    ensures Good(Run(st, rest))
    decreases |rest|, 1
  {
    if rest != [] {
      var ch := rest[0];
      if |rest| >= 2 && ch == '{' && rest[1] == '{' {
        RunEscapedBrace(st, rest);
        RunGood(st.(part := st.part + "{{"), rest[2..]);
      } else if ch == '{' {
        RunBrace(st, rest);
        RunGood(st.(sect := st.sect.(Formats := st.sect.Formats + 1), part := st.part + "{"), rest[1..]);
      } else if |rest| >= 2 && (ch == '&' || ch == '%') && rest[1] == ch {
        RunEscape(st, rest);
        RunGood(st.(part := st.part + "%"), rest[2..]);
      } else if ch == '&' || ch == '%' {
        RunDirectiveStep(st, rest);
        RunDirectiveGood(st, ch, rest[1..]);
      } else {
        RunOther(st, rest);
        RunGood(st.(part := st.part + [ch]), rest[1..]);
      }
    }
  }

  lemma {:induction false} RunDirectiveGood(st: Scan, ch: char, tail: string)
    requires Good(st)
    ensures Good(Run(Close(st, Opened(ch, Until(tail, ';'))), After(tail, ';')))
    decreases |tail| + 1, 0
  {
    OpenedShape(ch, Until(tail, ';'));
    CloseGood(st, Opened(ch, Until(tail, ';')));
    RunGood(Close(st, Opened(ch, Until(tail, ';'))), After(tail, ';'));
  }

  lemma FlushGood(st: Scan)
    requires Good(st)
    ensures GoodSections(Flush(st))
  {
    var lst := st.lst + [st.sect.(Message := st.part)];
    assert forall k :: 0 <= k < |st.lst| ==> lst[k] == st.lst[k];
    var lst2 := st.lst + [st.sect];
    assert forall k :: 0 <= k < |st.lst| ==> lst2[k] == st.lst[k];
  }

  /**
   * Every message: no section text holds '&', the first section has no
   * action, and every later section has exactly one.
   */
  lemma SectionsShape(msg: string)
    ensures GoodSections(SectionsOf(msg))
  {
    RunGood(Start, msg);
    FlushGood(Run(Start, msg));
  }

  // ---- Formats counts the single braces of its section's text --------------

  /** Whether the brace scan of t ends on a single `{` (one that a following `{` would pair with). */
  predicate EndsLone(t: string)
    decreases |t|
  {
    if t == [] then false
    else if |t| >= 2 && t[0] == '{' && t[1] == '{' then EndsLone(t[2..])
    else if t[0] == '{' then |t| == 1 || EndsLone(t[1..])
    else EndsLone(t[1..])
  }

  /** Appending text that cannot pair with a trailing single `{` adds the counts. */
  lemma {:induction false} LoneBracesAppend(p: string, q: string)
    requires !EndsLone(p) || q == [] || q[0] != '{'
    ensures LoneBraces(p + q) == LoneBraces(p) + LoneBraces(q)
    ensures EndsLone(p + q) == if q == [] then EndsLone(p) else EndsLone(q)
    decreases |p|
  {
    if p == [] {
      assert p + q == q;
    } else if |p| >= 2 && p[0] == '{' && p[1] == '{' {
      assert (p + q)[2..] == p[2..] + q;
      LoneBracesAppend(p[2..], q);
    } else if p[0] == '{' && |p| == 1 {
      if q == [] {
        assert p + q == p;
      } else {
        assert (p + q)[1..] == q;
      }
    } else {
      assert (p + q)[1..] == p[1..] + q;
      LoneBracesAppend(p[1..], q);
    }
  }

  /** What every scan state keeps, given the input `rest` still to read. */
  predicate Counted(st: Scan, rest: string) {
    && st.sect.Message == "" && st.sect.Formats == LoneBraces(st.part)
    && (forall k :: 0 <= k < |st.lst| ==> st.lst[k].Formats == LoneBraces(st.lst[k].Message))
    && (EndsLone(st.part) ==> rest == [] || rest[0] != '{')
  }

  /** Every section of the list counts the single braces of its text. */
  predicate CountedSections(lst: seq<KolorSection>) {
    forall k :: 0 <= k < |lst| ==> lst[k].Formats == LoneBraces(lst[k].Message)
  }

  /** Appending `q` to the pending text, with `add` more braces counted. */
  lemma AppendCounted(st: Scan, q: string, add: nat, rest: string)
    requires q != [] && Counted(st, q) && LoneBraces(q) == add
    requires EndsLone(q) ==> rest == [] || rest[0] != '{'
    ensures Counted(st.(sect := st.sect.(Formats := st.sect.Formats + add), part := st.part + q), rest)
  {
    LoneBracesAppend(st.part, q);
  }

  lemma {:induction false} RunCounted(st: Scan, rest: string)
    requires Counted(st, rest)
    ensures Counted(Run(st, rest), [])
    decreases |rest|, 1
  {
    if rest != [] {
      var ch := rest[0];
      if |rest| >= 2 && ch == '{' && rest[1] == '{' {
        RunEscapedBrace(st, rest);
        AppendCounted(st, "{{", 0, rest[2..]);
        RunCounted(st.(part := st.part + "{{"), rest[2..]);
      } else if ch == '{' {
        RunBrace(st, rest);
        AppendCounted(st, "{", 1, rest[1..]);
        RunCounted(st.(sect := st.sect.(Formats := st.sect.Formats + 1), part := st.part + "{"), rest[1..]);
      } else if |rest| >= 2 && (ch == '&' || ch == '%') && rest[1] == ch {
        RunEscape(st, rest);
        AppendCounted(st, "%", 0, rest[2..]);
        RunCounted(st.(part := st.part + "%"), rest[2..]);
      } else if ch == '&' || ch == '%' {
        RunDirectiveStep(st, rest);
        RunDirectiveCounted(st, ch, rest[1..]);
      } else {
        RunOther(st, rest);
        AppendCounted(st, [ch], 0, rest[1..]);
        RunCounted(st.(part := st.part + [ch]), rest[1..]);
      }
    }
  }

  lemma {:induction false} RunDirectiveCounted(st: Scan, ch: char, tail: string)
    requires st.sect.Message == "" && st.sect.Formats == LoneBraces(st.part)
    requires forall k :: 0 <= k < |st.lst| ==> st.lst[k].Formats == LoneBraces(st.lst[k].Message)
    ensures Counted(Run(Close(st, Opened(ch, Until(tail, ';'))), After(tail, ';')), [])
    decreases |tail| + 1, 0
  {
    var next := Close(st, Opened(ch, Until(tail, ';')));
    OpenedShape(ch, Until(tail, ';'));
    assert forall k :: 0 <= k < |st.lst| ==> next.lst[k] == st.lst[k];
    RunCounted(next, After(tail, ';'));
  }

  /**
   * Every message: each section's Formats is the number of single `{` in its
   * text, `{{` pairs not counted.
   */
  lemma FormatsCountBraces(msg: string)
    ensures CountedSections(SectionsOf(msg))
  {
    RunCounted(Start, msg);
    var st := Run(Start, msg);
    var lst := st.lst + [st.sect.(Message := st.part)];
    assert forall k :: 0 <= k < |st.lst| ==> lst[k] == st.lst[k];
    var lst2 := st.lst + [st.sect];
    assert forall k :: 0 <= k < |st.lst| ==> lst2[k] == st.lst[k];
  }

  // ---- Messages built from directives and text ---------------------------

  /** A directive `ch body;` and the plain text that follows it up to the next directive. */
  datatype Segment = Segment(ch: char, body: string, text: string)

  predicate WellFormed(g: Segment) {
    && (g.ch == '&' || g.ch == '%')
    && ';' !in g.body && (g.body == [] || g.body[0] != g.ch)
    && Plain(g.text)
  }

  /** The markup of the segments, one after the other. */
  function Markup(segs: seq<Segment>): string {
    if segs == [] then []
    else [segs[0].ch] + segs[0].body + [';'] + segs[0].text + Markup(segs[1..])
  }

  /** The section a segment stands for: the directive's section holding the segment's text. */
  function SectionOf(g: Segment): KolorSection {
    Opened(g.ch, g.body).(Message := g.text, Formats := LoneBraces(g.text))
  }

  /** A pending section survives the end of input when it has text or reverts. */
  function Kept(s: KolorSection): seq<KolorSection> {
    if s.Message == "" && s.Back == 0 then [] else [s]
  }

  /** The sections the segments stand for, the last one subject to the end-of-input rule. */
  function SegmentSections(segs: seq<Segment>): seq<KolorSection>
    requires segs != []
  {
    if |segs| == 1 then Kept(SectionOf(segs[0]))
    else [SectionOf(segs[0])] + SegmentSections(segs[1..])
  }

  /**
   * The reference reading of a message `t0` followed by segments: one section
   * for the leading text and one per directive, the last one dropped when it
   * has neither text nor a revert.
   */
  function Expected(t0: string, segs: seq<Segment>): seq<KolorSection> {
    var first := NewSection(t0).(Formats := LoneBraces(t0));
    if segs == [] then Kept(first) else [first] + SegmentSections(segs)
  }

  /** The scan state after the segments, starting from st. */
  function AfterSegments(st: Scan, segs: seq<Segment>): Scan
    decreases |segs|
  {
    if segs == [] then st
    else
      var g := segs[0];
      AfterSegments(Close(st, Opened(g.ch, g.body)).(sect := SectionOf(g).(Message := ""), part := g.text), segs[1..])
  }

  lemma {:induction false} RunSegments(st: Scan, segs: seq<Segment>)
    requires forall k :: 0 <= k < |segs| ==> WellFormed(segs[k])
    ensures Run(st, Markup(segs)) == AfterSegments(st, segs)
    decreases |segs|
  {
    if segs != [] {
      var g := segs[0];
      assert WellFormed(g);
      var rest := Markup(segs[1..]);
      var st1 := Close(st, Opened(g.ch, g.body));
      var st2 := st1.(sect := SectionOf(g).(Message := ""), part := g.text);
      assert Run(st, Markup(segs)) == Run(st1, g.text + rest) by {
        assert Markup(segs) == [g.ch] + g.body + [';'] + (g.text + rest);
        RunDirectiveText(st, g.ch, g.body, g.text + rest);
      }
      assert Run(st1, g.text + rest) == Run(st2, rest) by {
        assert rest == [] || rest[0] == segs[1].ch;
        SegmentOpens(st, g);
        RunPlainTo(st1, g.text, rest, st2);
      }
      assert Run(st2, rest) == AfterSegments(st2, segs[1..]) by {
        RunSegments(st2, segs[1..]);
      }
      assert AfterSegments(st, segs) == AfterSegments(st2, segs[1..]);
    }
  }

  /** After its directive, the state a segment's text is read into. */
  lemma SegmentOpens(st: Scan, g: Segment)
    ensures var st1 := Close(st, Opened(g.ch, g.body));
      st1.(sect := st1.sect.(Formats := st1.sect.Formats + LoneBraces(g.text)), part := st1.part + g.text)
      == st1.(sect := SectionOf(g).(Message := ""), part := g.text)
  {
    OpenedShape(g.ch, g.body);
  }

  /** The end of input right after a last segment's text. */
  lemma FlushOne(st: Scan, g: Segment)
    requires st.sect == SectionOf(g).(Message := "") && st.part == g.text
    ensures Flush(st) == st.lst + Kept(SectionOf(g))
  {
  }

  lemma AfterSegmentsStep(st: Scan, segs: seq<Segment>, next: Scan)
    requires segs != []
    requires next == Close(st, Opened(segs[0].ch, segs[0].body)).(sect := SectionOf(segs[0]).(Message := ""), part := segs[0].text)
    ensures AfterSegments(st, segs) == AfterSegments(next, segs[1..])
  {
  }

  /** Once the segments are read, the end of input keeps what SegmentSections says. */
  lemma {:induction false} FlushAfterSegments(st: Scan, segs: seq<Segment>)
    requires segs != []
    ensures Flush(AfterSegments(st, segs)) == st.lst + [st.sect.(Message := st.part)] + SegmentSections(segs)
    decreases |segs|, 1
  {
    var g := segs[0];
    var st1 := Close(st, Opened(g.ch, g.body)).(sect := SectionOf(g).(Message := ""), part := g.text);
    AfterSegmentsStep(st, segs, st1);
    if |segs| == 1 {
      FlushLastSegment(st1, segs);
    } else {
      FlushNextSegment(st1, segs);
    }
  }

  lemma FlushLastSegment(st1: Scan, segs: seq<Segment>)
    requires |segs| == 1
    requires st1.sect == SectionOf(segs[0]).(Message := "") && st1.part == segs[0].text
    ensures Flush(AfterSegments(st1, segs[1..])) == st1.lst + SegmentSections(segs)
  {
    assert AfterSegments(st1, segs[1..]) == st1;
    FlushOne(st1, segs[0]);
  }

  lemma {:induction false} FlushNextSegment(st1: Scan, segs: seq<Segment>)
    requires |segs| >= 2
    requires st1.sect == SectionOf(segs[0]).(Message := "") && st1.part == segs[0].text
    ensures Flush(AfterSegments(st1, segs[1..])) == st1.lst + SegmentSections(segs)
    decreases |segs|, 0
  {
    var x, tail := SectionOf(segs[0]), SegmentSections(segs[1..]);
    FlushAfterSegments(st1, segs[1..]);
    assert st1.sect.(Message := st1.part) == x;
    assert SegmentSections(segs) == [x] + tail;
    ConsAssoc(st1.lst, x, tail);
  }

  lemma ConsAssoc<T>(a: seq<T>, x: T, b: seq<T>)
    ensures a + [x] + b == a + ([x] + b)
  {
  }

  /** The scan state once the leading text `t0` is read. */
  function Leading(t0: string): Scan {
    Start.(sect := NewSection("").(Formats := LoneBraces(t0)), part := t0)
  }

  lemma MarkupRun(t0: string, segs: seq<Segment>)
    requires Plain(t0)
    requires forall k :: 0 <= k < |segs| ==> WellFormed(segs[k])
    ensures Run(Start, t0 + Markup(segs)) == AfterSegments(Leading(t0), segs)
  {
    var rest := Markup(segs);
    assert rest == [] || rest[0] == segs[0].ch;
    RunPlainTo(Start, t0, rest, Leading(t0));
    RunSegments(Leading(t0), segs);
  }

  /**
   * A message made of plain text and well-formed directives has exactly the
   * sections of the reference reading.
   */
  lemma MarkupSections(t0: string, segs: seq<Segment>)
    requires Plain(t0)
    requires forall k :: 0 <= k < |segs| ==> WellFormed(segs[k])
    ensures SectionsOf(t0 + Markup(segs)) == Expected(t0, segs)
  {
    MarkupRun(t0, segs);
    FlushLeading(t0, segs);
  }

  lemma FlushLeading(t0: string, segs: seq<Segment>)
    ensures Flush(AfterSegments(Leading(t0), segs)) == Expected(t0, segs)
  {
    var st := Leading(t0);
    assert st.sect.(Message := st.part) == NewSection(t0).(Formats := LoneBraces(t0));
    if segs != [] {
      FlushAfterSegments(st, segs);
    }
  }

  // ---- Worked messages --------------------------------------------------------

  lemma RevertSegment(t: string)
    ensures SectionOf(Segment('%', "*", t)) == NewSection(t).(Back := 1, Formats := LoneBraces(t))
  {
    NoWhiteSpaceTrim("*");
    assert multiset("*")['*'] == 1;
  }

  lemma ColorRevertMarkup(t0: string, name: string, t1: string, t2: string, segs: seq<Segment>)
    requires segs == [Segment('&', name, t1), Segment('%', "*", t2)]
    ensures t0 + Markup(segs) == t0 + "&" + name + ";" + t1 + "%*;" + t2
  {
    assert Markup(segs[1..]) == "%*;" + t2 by {
      assert segs[1..][1..] == [];
    }
  }

  lemma ExpectedTwo(t0: string, segs: seq<Segment>, last: KolorSection)
    requires |segs| == 2 && SectionOf(segs[1]) == last && last.Back > 0
    ensures Expected(t0, segs) == [NewSection(t0).(Formats := LoneBraces(t0)), SectionOf(segs[0]), last]
  {
    assert SegmentSections(segs[1..]) == Kept(SectionOf(segs[1]));
  }

  /**
   * Text, a colour change, more text, a one-level revert and more text (as in
   * `Hello, &cyan;World%*;!`) give three sections: the leading text, the text
   * in the new colour and the text after the revert.
   */
  lemma ColorThenRevert(t0: string, name: string, t1: string, t2: string)
    requires Plain(t0) && Plain(t1) && Plain(t2)
    requires ';' !in name && (name == [] || name[0] != '&')
    ensures SectionsOf(t0 + "&" + name + ";" + t1 + "%*;" + t2)
         == [NewSection(t0).(Formats := LoneBraces(t0)),
             NamedDirective(Trim(name)).(Message := t1, Formats := LoneBraces(t1)),
             NewSection(t2).(Back := 1, Formats := LoneBraces(t2))]
  {
    var segs := [Segment('&', name, t1), Segment('%', "*", t2)];
    assert WellFormed(segs[0]) && WellFormed(segs[1]);
    ColorRevertMarkup(t0, name, t1, t2, segs);
    MarkupSections(t0, segs);
    RevertSegment(t2);
    ExpectedTwo(t0, segs, NewSection(t2).(Back := 1, Formats := LoneBraces(t2)));
  }
}
