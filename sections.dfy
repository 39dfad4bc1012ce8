/**
 * The markup tokenizer: the KolorSection record and GenerateSections, which
 * splits a message into sections in one left-to-right pass.
 *
 * Run/SectionsOf below are the functional reading of the scan; the method
 * GenerateSections keeps the source's loop over an index and is proved to
 * compute SectionsOf.
 */
module Sections {
  import opened Text
  import opened Colors

  /** The KolorSection struct: one run of text with at most one colour action. */
  datatype KolorSection = KolorSection(Back: nat, ColorChange: bool, Color: Color, Message: string, Formats: nat)

  /** The struct's constructor KolorSection(string msg). */
  function NewSection(msg: string): (s: KolorSection)
    ensures s.Message == msg && s.Formats == 0
    ensures s.Back == 0 && !s.ColorChange && s.Color == Gray
  {
    KolorSection(0, false, Gray, msg, 0)
  }

  /** Exactly one action: a colour change with no revert, or a revert of one level or more. */
  predicate OneAction(s: KolorSection) {
    (s.ColorChange && s.Back == 0) || (!s.ColorChange && s.Back >= 1)
  }

  /** `&name;`: the colour named, Gray when the table does not know the name. */
  function ResolveName(name: string): (c: Color)
    ensures (exists k :: Name(k) == name) ==> Name(c) == name
    ensures (forall k :: Name(k) != name) ==> c == Gray
  {
    var found := TryFindColorName(name);
    if found.0 then found.1 else Gray
  }

  /** `%code;`: code 7 when the body does not parse, Gray when the code is not 0..15. */
  function ResolveCode(body: string): (c: Color)
    ensures var p := TryParseInt(body);
            c == if p.Some? && 0 <= p.value < 16 then FromCode(p.value) else Gray
  {
    var code := match TryParseInt(body) case Some(n) => n case None => 7;
    var found := TryFindColorCode(code);
    if found.0 then found.1 else Gray
  }

  /** The section a `&name;` directive opens; `name` is already trimmed. */
  function NamedDirective(name: string): KolorSection {
    if name != "back" then NewSection("").(Color := ResolveName(name), ColorChange := true)
    else NewSection("").(Back := 1)
  }

  /** The section a `%body;` directive opens; `body` is already trimmed. */
  function NumericDirective(body: string): KolorSection {
    if '*' !in body then NewSection("").(Color := ResolveCode(body), ColorChange := true)
    else NewSection("").(Back := multiset(body)['*'])
  }

  /**
   * The state of the scan: the finished list `lst`, the pending section
   * `sect` and the text `part` collected for it since the last directive.
   */
  datatype Scan = Scan(lst: seq<KolorSection>, sect: KolorSection, part: string)

  const Start: Scan := Scan([], NewSection(""), "")

  /** A directive closes the pending section with the text so far and opens `next`. */
  function Close(st: Scan, next: KolorSection): Scan {
    Scan(st.lst + [st.sect.(Message := st.part)], next, "")
  }

  /** The scan of the remaining input `rest` from state `st`, one token at a time. */
  function Run(st: Scan, rest: string): Scan
    decreases |rest|, 1
  {
    if rest == [] then st
    else
      var ch, tail := rest[0], rest[1..];
      if ch == '{' && tail != [] && tail[0] == '{' then
        Run(st.(part := st.part + "{{"), tail[1..])
      else if ch == '{' then
        Run(st.(sect := st.sect.(Formats := st.sect.Formats + 1), part := st.part + "{"), tail)
      else if ch == '&' && tail != [] && tail[0] == '&' then
        Run(st.(part := st.part + "%"), tail[1..])
      else if ch == '%' && tail != [] && tail[0] == '%' then
        Run(st.(part := st.part + "%"), tail[1..])
      else if ch == '&' || ch == '%' then
        RunDirective(st, ch, tail)
      else
        Run(st.(part := st.part + [ch]), tail)
  }

  /** The section that the directive `ch` with the raw body `raw` (up to ';') opens. */
  function Opened(ch: char, raw: string): KolorSection {
    var body := Trim(raw);
    if ch == '&' then NamedDirective(body) else NumericDirective(body)
  }

  /**
   * A directive that is not an escape: close the pending section, open the
   * directive's section and go on after the ';' (nothing is left when the
   * body runs to the end of the input).
   */
  function RunDirective(st: Scan, ch: char, tail: string): Scan
    decreases |tail| + 1, 0
  {
    Run(Close(st, Opened(ch, Until(tail, ';'))), After(tail, ';'))
  }

  /** End of input: the pending section is kept when it has text or reverts. */
  function Flush(st: Scan): seq<KolorSection> {
    if st.part != "" then st.lst + [st.sect.(Message := st.part)]
    else if st.sect.Back > 0 then st.lst + [st.sect]
    else st.lst
  }

  function SectionsOf(msg: string): seq<KolorSection> {
    Flush(Run(Start, msg))
  }

  // One step of Run, one lemma per kind of token.

  lemma RunEscapedBrace(st: Scan, rest: string)
    requires |rest| >= 2 && rest[0] == '{' && rest[1] == '{'
    ensures Run(st, rest) == Run(st.(part := st.part + "{{"), rest[2..])
  {
    assert rest[1..][1..] == rest[2..];
  }

  lemma RunBrace(st: Scan, rest: string)
    requires rest != [] && rest[0] == '{' && (|rest| == 1 || rest[1] != '{')
    ensures Run(st, rest) == Run(st.(sect := st.sect.(Formats := st.sect.Formats + 1), part := st.part + "{"), rest[1..])
  {
  }

  lemma RunEscape(st: Scan, rest: string)
    requires |rest| >= 2 && ((rest[0] == '&' && rest[1] == '&') || (rest[0] == '%' && rest[1] == '%'))
    ensures Run(st, rest) == Run(st.(part := st.part + "%"), rest[2..])
  {
    assert rest[1..][1..] == rest[2..];
  }

  /** The directive goes on after the ';' that ends its body; nothing is left when there is none. */
  lemma RunDirectiveStep(st: Scan, rest: string)
    requires rest != [] && (rest[0] == '&' || rest[0] == '%') && (|rest| == 1 || rest[1] != rest[0])
    ensures var tail := rest[1..];
      Run(st, rest) == Run(Close(st, Opened(rest[0], Until(tail, ';'))), After(tail, ';'))
  {
  }

  /** RunDirectiveStep, with the state reached and the input left named by the caller. */
  lemma RunDirectiveTo(st: Scan, rest: string, next: Scan, after: string)
    requires rest != [] && (rest[0] == '&' || rest[0] == '%') && (|rest| == 1 || rest[1] != rest[0])
    requires Close(st, Opened(rest[0], Until(rest[1..], ';'))) == next
    requires After(rest[1..], ';') == after
    ensures Run(st, rest) == Run(next, after)
  {
    RunDirectiveStep(st, rest);
  }

  lemma RunOther(st: Scan, rest: string)
    requires rest != [] && rest[0] != '{' && rest[0] != '&' && rest[0] != '%'
    ensures Run(st, rest) == Run(st.(part := st.part + [rest[0]]), rest[1..])
  {
  }

  /** Count(str, c): the number of occurrences of c in str. */
  method Count(str: string, c: char) returns (count: nat)
    ensures count == multiset(str)[c]
  {
    var i := 0;
    count := 0;
    while i < |str|
      invariant 0 <= i <= |str|
      invariant count == multiset(str[..i])[c]
    {
      assert str[..i + 1] == str[..i] + [str[i]];
      if str[i] == c {
        count := count + 1;
      }
      i := i + 1;
    }
    assert str[..i] == str;
  }

  /** Lines after a `&`: the section a trimmed name opens. */
  method OpenNamed(cl: string) returns (sect: KolorSection)
    ensures sect == NamedDirective(cl)
  {
    if cl != "back" {
      var found := TryFindColorName(cl);
      var color := found.1;
      if !found.0 {
        color := Gray;
      }
      assert color == ResolveName(cl);
      sect := NewSection("");
      sect := sect.(Color := color, ColorChange := true);
      assert sect == NamedDirective(cl);
    } else {
      sect := NewSection("");
      sect := sect.(Back := 1);
      assert sect == NamedDirective(cl);
    }
  }

  /** Lines after a `%`: the section a trimmed body opens. */
  method OpenNumeric(cl: string) returns (sect: KolorSection)
    ensures sect == NumericDirective(cl)
  {
    if '*' !in cl {
      var code := 7;
      var parsed := TryParseInt(cl);
      if parsed.Some? {
        code := parsed.value;
      }
      var found := TryFindColorCode(code);
      var color := found.1;
      if !found.0 {
        color := Gray;
      }
      assert color == ResolveCode(cl);
      sect := NewSection("");
      sect := sect.(Color := color, ColorChange := true);
    } else {
      var stars := Count(cl, '*');
      sect := NewSection("");
      sect := sect.(Back := stars);
    }
  }

  /**
   * The rest of a `&` or `%` branch once the escape check has failed: close
   * the pending section, read the body up to ';', open the next section and
   * step over the ';' (to |msg| + 1 when there is none).
   */
  method Directive(msg: string, i0: nat, lst0: seq<KolorSection>, sect0: KolorSection, part: string)
    returns (lst: seq<KolorSection>, sect: KolorSection, i: nat)
    requires 1 <= i0 <= |msg| && (msg[i0 - 1] == '&' || msg[i0 - 1] == '%')
    requires i0 == |msg| || msg[i0] != msg[i0 - 1]
    ensures i0 < i <= |msg| + 1 && sect.Message == ""
    ensures lst == lst0 + [sect0.(Message := part)]
    ensures sect == Opened(msg[i0 - 1], Until(Rest(msg, i0), ';'))
    ensures After(Rest(msg, i0), ';') == Rest(msg, i)
  {
    sect := sect0.(Message := part);
    lst := lst0 + [sect];

    var cl;
    cl, i := ReadUntil(msg, i0, ';');
    // body and afterBody: what the functional scan reads and where it resumes
    ghost var body, afterBody := Until(Rest(msg, i0), ';'), After(Rest(msg, i0), ';');
    assert cl == body && afterBody == Rest(msg, i + 1);
    sect := OpenSection(msg[i0 - 1], cl);
    assert sect == Opened(msg[i0 - 1], body);
    i := i + 1;
    assert afterBody == Rest(msg, i);
  }

  /** Trims the body read after `ch` and opens the section it names. */
  method OpenSection(ch: char, raw: string) returns (sect: KolorSection)
    ensures sect == Opened(ch, raw)
  {
    var cl := Trim(raw);
    if ch == '&' {
      sect := OpenNamed(cl);
    } else {
      sect := OpenNumeric(cl);
    }
  }

  /** GenerateSections(msg): the scan loop over index i; i may end at |msg| + 1. */
  method GenerateSections(msg: string) returns (lst: seq<KolorSection>)
    ensures lst == SectionsOf(msg)
  {
    ghost var goal := SectionsOf(msg);
    lst := [];
    var sect := NewSection("");
    var i: nat := 0;
    var part := "";
    while i < |msg|
      invariant i <= |msg| + 1
      invariant sect.Message == ""
      invariant Flush(Run(Scan(lst, sect, part), Rest(msg, i))) == goal
      decreases |msg| + 1 - i
    {
      // st and rest: the scan state and the input left when this step begins
      ghost var st := Scan(lst, sect, part);
      ghost var rest := Rest(msg, i);
      var ch := msg[i];
      i := i + 1;
      assert rest[1..] == Rest(msg, i);

      if ch == '{' {
        if i < |msg| && msg[i] == '{' {
          i := i + 1;
          part := part + "{{";
          assert Run(st, rest) == Run(Scan(lst, sect, part), Rest(msg, i)) by {
            RunEscapedBrace(st, rest);
            assert rest[2..] == Rest(msg, i);
          }
          continue;
        }
        sect := sect.(Formats := sect.Formats + 1);
      }

      if ch == '&' {
        if i < |msg| && msg[i] == '&' {
          i := i + 1;
          part := part + "%";
          assert Run(st, rest) == Run(Scan(lst, sect, part), Rest(msg, i)) by {
            RunEscape(st, rest);
            assert rest[2..] == Rest(msg, i);
          }
          continue;
        }
        lst, sect, i := Directive(msg, i, lst, sect, part);
        part := "";
        RunDirectiveTo(st, rest, Scan(lst, sect, part), Rest(msg, i));
        continue;
      }

      if ch == '%' {
        if i < |msg| && msg[i] == '%' {
          i := i + 1;
          part := part + "%";
          assert Run(st, rest) == Run(Scan(lst, sect, part), Rest(msg, i)) by {
            RunEscape(st, rest);
            assert rest[2..] == Rest(msg, i);
          }
          continue;
        }
        lst, sect, i := Directive(msg, i, lst, sect, part);
        part := "";
        RunDirectiveTo(st, rest, Scan(lst, sect, part), Rest(msg, i));
        continue;
      }

      part := part + [ch];
      assert Run(st, rest) == Run(Scan(lst, sect, part), Rest(msg, i)) by {
        if ch == '{' {
          RunBrace(st, rest);
        } else {
          RunOther(st, rest);
        }
      }
    }

    var str := part;
    if str != "" {
      sect := sect.(Message := str);
      lst := lst + [sect];
    } else if sect.Back > 0 {
      lst := lst + [sect];
    }
  }
}
