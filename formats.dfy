/**
 * FixFormats: the rewrite of a section's text into a composite format
 * string whose placeholders are numbered 0, 1, 2, ... in order, whatever
 * numbers the author wrote, so that each section indexes its own slice of
 * the arguments.
 */
module Formats {
  import opened Text
  import opened Sections
  import opened SectionsFacts

  /**
   * The placeholder written for `{body}` as the k-th of its section: `{k:spec}`
   * when the trimmed body splits on ':' into exactly two non-empty parts (spec
   * being the second), `{k}` otherwise.
   */
  function Placeholder(k: nat, body: string): (r: string)
    ensures |r| >= 3 && r[0] == '{' && r[|r| - 1] == '}'
  {
    var split := SplitNonEmpty(Trim(body), ':');
    if |split| == 2 then "{" + Decimal(k) + ":" + split[1] + "}" else "{" + Decimal(k) + "}"
  }

  /**
   * FixFormats' text and counter once it has gone on from `out` through
   * `rest` with k as the next placeholder number: `{{` is copied, a single
   * `{` and everything up to the next `}` (or the end) becomes placeholder k
   * and the counter moves on, every other character is copied.
   */
  function Fix(out: string, rest: string, k: nat): (string, nat)
    decreases |rest|, 1
  {
    if rest == [] then (out, k)
    else if |rest| >= 2 && rest[0] == '{' && rest[1] == '{' then Fix(out + "{{", rest[2..], k)
    else if rest[0] == '{' then FixPlaceholder(out, rest[1..], k)
    else Fix(out + [rest[0]], rest[1..], k)
  }

  /** After a single `{`: placeholder k for the body up to `}`, then the rest from k + 1. */
  function FixPlaceholder(out: string, tail: string, k: nat): (string, nat)
    decreases |tail| + 1, 0
  {
    Fix(out + Placeholder(k, Until(tail, '}')), After(tail, '}'), k + 1)
  }

  /** The rewrite of m with placeholders numbered from k. */
  function Renumber(m: string, k: nat): string {
    Fix([], m, k).0
  }

  /** How many placeholders the rewrite of m numbers: they are {0} .. {Numbered(m) - 1}. */
  function Numbered(m: string): nat {
    Fix([], m, 0).1
  }

  // One step of Fix, one lemma per kind of token, with the caller naming the
  // state reached: the text written so far and the input left.

  lemma FixEscapedTo(m: string, k: nat, out: string, i: nat, goal: (string, nat))
    requires i + 2 <= |m| && m[i] == '{' && m[i + 1] == '{'
    requires Fix(out, Rest(m, i), k) == goal
    ensures Fix(out + "{{", Rest(m, i + 2), k) == goal
  {
    assert m[i..][2..] == Rest(m, i + 2);
  }

  lemma FixPlaceholderTo(m: string, k: nat, out: string, i: nat, next: string, after: string, goal: (string, nat))
    requires i < |m| && m[i] == '{' && (i + 1 == |m| || m[i + 1] != '{')
    requires next == Placeholder(k, Until(Rest(m, i + 1), '}'))
    requires after == After(Rest(m, i + 1), '}')
    requires Fix(out, Rest(m, i), k) == goal
    ensures Fix(out + next, after, k + 1) == goal
  {
    assert m[i..][1..] == Rest(m, i + 1);
  }

  lemma FixOtherTo(m: string, k: nat, out: string, i: nat, goal: (string, nat))
    requires i < |m| && m[i] != '{'
    requires Fix(out, Rest(m, i), k) == goal
    ensures Fix(out + [m[i]], Rest(m, i + 1), k) == goal
  {
    assert m[i..][1..] == Rest(m, i + 1);
  }

  /**
   * After a single `{` at i0 - 1: reads the body up to `}`, trims it and
   * writes placeholder f; i ends on the `}` (or the end of m).
   */
  method ReadPlaceholder(m: string, i0: nat, f: nat) returns (next: string, i: nat)
    requires i0 <= |m|
    ensures i0 <= i <= |m|
    ensures next == Placeholder(f, Until(Rest(m, i0), '}'))
    ensures After(Rest(m, i0), '}') == Rest(m, i + 1)
  {
    var fmt;
    fmt, i := ReadUntil(m, i0, '}');
    fmt := Trim(fmt);
    var split := SplitNonEmpty(fmt, ':');
    if |split| == 2 {
      next := "{" + Decimal(f) + ":" + split[1] + "}";
    } else {
      next := "{" + Decimal(f) + "}";
    }
  }

  /**
   * One pass of FixFormats' loop from index i0: copy `{{`, write a
   * placeholder for a single `{`, or copy one other character.
   */
  method FixStep(m: string, i0: nat, f0: nat, out0: string) returns (out: string, i: nat, f: nat)
    requires i0 < |m|
    ensures i0 < i <= |m| + 1
    ensures Fix(out, Rest(m, i), f) == Fix(out0, Rest(m, i0), f0)
  {
    ghost var goal := Fix(out0, Rest(m, i0), f0);
    out, f := out0, f0;
    var ch := m[i0];
    i := i0 + 1;
    if ch == '{' {
      if i < |m| && m[i] == '{' {
        FixEscapedTo(m, f, out, i0, goal);
        out := out + "{{";
        i := i + 1;
        return;
      }
      var next;
      next, i := ReadPlaceholder(m, i, f);
      FixPlaceholderTo(m, f, out, i0, next, Rest(m, i + 1), goal);
      out := out + next;
      f := f + 1;
      i := i + 1;
      return;
    }
    FixOtherTo(m, f, out, i0, goal);
    out := out + [ch];
  }

  /**
   * FixFormats(sect): the loop over the section's text. The placeholder
   * counter starts at 0 on every call, so numbering restarts in each section.
   */
  method FixFormats(sect: KolorSection) returns (newmsg: string)
    ensures newmsg == Renumber(sect.Message, 0)
  {
    var m := sect.Message;
    var i: nat := 0;
    var f: nat := 0;
    newmsg := "";
    while i < |m|
      invariant i <= |m| + 1
      invariant Fix(newmsg, Rest(m, i), f) == Fix([], m, 0)
      decreases |m| + 1 - i
    {
      newmsg, i, f := FixStep(m, i, f, newmsg);
    }
  }

  // ---- What the rewrite keeps and what it numbers ---------------------------

  /** Text without `{` is copied as it is, and numbers nothing. */
  lemma {:induction false} NoBraceCopied(out: string, m: string, k: nat)
    requires '{' !in m
    ensures Fix(out, m, k) == (out + m, k)
    decreases |m|
  {
    if m == [] {
      assert out + m == out;
    } else {
      assert m[0] != '{';
      NoBraceCopied(out + [m[0]], m[1..], k);
      assert out + [m[0]] + m[1..] == out + m;
    }
  }

  /** Text without `{` comes out unchanged. */
  lemma NoBraceUnchanged(m: string, k: nat)
    requires '{' !in m
    ensures Renumber(m, k) == m
  {
    NoBraceCopied([], m, k);
  }

  /** `{index:spec}`, with any index and white space around it, keeps spec and numbers the placeholder k. */
  lemma PlaceholderWithSpec(k: nat, body: string, index: string, spec: string)
    requires index != [] && spec != [] && ':' !in index && ':' !in spec
    requires Trim(body) == index + [':'] + spec
    ensures Placeholder(k, body) == "{" + Decimal(k) + ":" + spec + "}"
  {
    SplitTwo(index, spec, ':');
  }

  /** A body without ':' (such as `{5}` or `{}`) becomes plain `{k}`. */
  lemma PlaceholderPlain(k: nat, body: string)
    requires ':' !in body
    ensures Placeholder(k, body) == "{" + Decimal(k) + "}"
  {
    TrimSpec(body);
    var t := Trim(body);
    SplitNoSeparator(t, ':');
  }

  /** `{:spec}` has only one part once the empty index is dropped, so spec is lost: `{k}`. */
  lemma PlaceholderNoIndex(k: nat, body: string, spec: string)
    requires spec != [] && ':' !in spec
    requires Trim(body) == [':'] + spec
    ensures Placeholder(k, body) == "{" + Decimal(k) + "}"
  {
    SplitLeadingSeparator(spec, ':');
  }

  /** `{a:b:c}` has three parts, so no spec is kept: `{k}`. */
  lemma PlaceholderThreeParts(k: nat, body: string, a: string, b: string, c: string)
    requires a != [] && b != [] && c != [] && ':' !in a && ':' !in b && ':' !in c
    requires Trim(body) == a + [':'] + b + [':'] + c
    ensures Placeholder(k, body) == "{" + Decimal(k) + "}"
  {
    SplitThree(a, b, c, ':');
  }

  lemma AfterStep(t: string, stop: char)
    requires t != [] && t[0] != stop
    ensures After(t, stop) == After(t[1..], stop)
  {
    var k := |Until(t[1..], stop)|;
    assert Until(t, stop) == [t[0]] + Until(t[1..], stop);
    if k < |t[1..]| {
      assert t[k + 2..] == t[1..][k + 1..];
    }
  }

  /** Skipping to after the next `}` never finds more single braces than were there. */
  lemma {:induction false} LoneBracesAfter(t: string)
    ensures LoneBraces(After(t, '}')) <= LoneBraces(t)
    decreases |t|
  {
    if t == [] {
    } else if t[0] == '}' {
      assert Until(t, '}') == [];
    } else if |t| >= 2 && t[0] == '{' && t[1] == '{' {
      AfterStep(t, '}');
      AfterStep(t[1..], '}');
      assert t[1..][1..] == t[2..];
      LoneBracesAfter(t[2..]);
    } else {
      AfterStep(t, '}');
      LoneBracesAfter(t[1..]);
    }
  }

  /**
   * The counter only moves on, and by no more than the number of single
   * braces in what is left: each placeholder starts at a single `{`.
   */
  lemma {:induction false} CounterWithinLoneBraces(out: string, rest: string, k: nat)
    ensures k <= Fix(out, rest, k).1 <= k + LoneBraces(rest)
    decreases |rest|
  {
    if rest == [] {
    } else if |rest| >= 2 && rest[0] == '{' && rest[1] == '{' {
      CounterWithinLoneBraces(out + "{{", rest[2..], k);
    } else if rest[0] == '{' {
      var tail := rest[1..];
      LoneBracesAfter(tail);
      CounterWithinLoneBraces(out + Placeholder(k, Until(tail, '}')), After(tail, '}'), k + 1);
    } else {
      CounterWithinLoneBraces(out + [rest[0]], rest[1..], k);
    }
  }

  /**
   * Every section of every message: the placeholders FixFormats writes,
   * numbered {0} .. {Numbered - 1}, all fall inside the section's Formats
   * argument slots.
   */
  lemma PlaceholdersFit(msg: string)
    ensures forall k :: 0 <= k < |SectionsOf(msg)| ==> Numbered(SectionsOf(msg)[k].Message) <= SectionsOf(msg)[k].Formats
  {
    FormatsCountBraces(msg);
    forall k | 0 <= k < |SectionsOf(msg)|
      ensures Numbered(SectionsOf(msg)[k].Message) <= SectionsOf(msg)[k].Formats
    {
      CounterWithinLoneBraces([], SectionsOf(msg)[k].Message, 0);
    }
  }
}
