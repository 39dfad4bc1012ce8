/**
 * The small pieces of .NET string handling that the markup engine relies on:
 * Char.IsWhiteSpace and String.Trim, scanning up to a terminator character,
 * String.Split with RemoveEmptyEntries, printing a non-negative int in
 * decimal and int.TryParse.
 */
module Text {

  datatype Option<+T> = None | Some(value: T)

  /** Char.IsWhiteSpace: the Unicode separators plus U+0009..U+000D and U+0085. */
  predicate IsWhiteSpace(c: char) {
    c == ' ' || ('\t' <= c <= '\r') || c == '\U{0085}' || c == '\U{00A0}' || c == '\U{1680}'
    || ('\U{2000}' <= c <= '\U{200A}') || c == '\U{2028}' || c == '\U{2029}'
    || c == '\U{202F}' || c == '\U{205F}' || c == '\U{3000}'
  }

  /** String.TrimStart(): drops the leading white space. */
  function TrimStart(s: string): (r: string)
    ensures |r| <= |s|
  {
    if s != [] && IsWhiteSpace(s[0]) then TrimStart(s[1..]) else s
  }

  /** String.TrimEnd(): drops the trailing white space. */
  function TrimEnd(s: string): (r: string)
    ensures |r| <= |s|
  {
    if s != [] && IsWhiteSpace(s[|s| - 1]) then TrimEnd(s[..|s| - 1]) else s
  }

  /** String.Trim(): TrimStart, then TrimEnd. */
  function Trim(s: string): (r: string)
    ensures |r| <= |s|
  {
    TrimEnd(TrimStart(s))
  }

  /** TrimStart removes exactly the leading run of white space. */
  lemma {:induction false} TrimStartSpec(s: string)
    ensures var r := TrimStart(s);
      && r == s[|s| - |r|..]
      && (r == [] || !IsWhiteSpace(r[0]))
      && (forall i :: 0 <= i < |s| - |r| ==> IsWhiteSpace(s[i]))
  {
    if s != [] && IsWhiteSpace(s[0]) {
      TrimStartSpec(s[1..]);
      forall i | 0 <= i < |s| - |TrimStart(s)|
        ensures IsWhiteSpace(s[i])
      {
        if i > 0 { assert s[i] == s[1..][i - 1]; }
      }
    }
  }

  /** TrimEnd removes exactly the trailing run of white space. */
  lemma {:induction false} TrimEndSpec(s: string)
    ensures var r := TrimEnd(s);
      && r == s[..|r|]
      && (r == [] || !IsWhiteSpace(r[|r| - 1]))
      && (forall i :: |r| <= i < |s| ==> IsWhiteSpace(s[i]))
  {
    if s != [] && IsWhiteSpace(s[|s| - 1]) {
      TrimEndSpec(s[..|s| - 1]);
    }
  }

  /**
   * Trim keeps the middle of s: neither end of the result is white space,
   * only white space was cut from either side, and a string without white
   * space is its own trim.
   */
  lemma TrimSpec(s: string)
    ensures var r := Trim(s);
      && (r == [] || (!IsWhiteSpace(r[0]) && !IsWhiteSpace(r[|r| - 1])))
      && var k := |s| - |TrimStart(s)|;
      && k + |r| <= |s| && r == s[k..k + |r|]
      && (forall i :: 0 <= i < k ==> IsWhiteSpace(s[i]))
      && (forall i :: k + |r| <= i < |s| ==> IsWhiteSpace(s[i]))
      && (NoWhiteSpace(s) ==> r == s)
  {
    var t := TrimStart(s);
    TrimStartSpec(s);
    TrimEndSpec(t);
    var r := TrimEnd(t);
    var k := |s| - |t|;
    if r != [] {
      assert r[0] == t[0];
    }
    assert r == s[k..k + |r|];
    forall i | k + |r| <= i < |s|
      ensures IsWhiteSpace(s[i])
    {
      assert s[i] == t[i - k];
    }
    if NoWhiteSpace(s) {
      if s != [] { assert !IsWhiteSpace(s[0]); }
      assert t == s;
      if t != [] { assert !IsWhiteSpace(t[|t| - 1]); }
    }
  }

  predicate NoWhiteSpace(s: string) {
    forall i :: 0 <= i < |s| ==> !IsWhiteSpace(s[i])
  }

  /** The characters of s before its first `stop` (all of s when there is none). */
  function Until(s: string, stop: char): (r: string)
    ensures |r| <= |s| && r == s[..|r|]
    ensures stop !in r
    ensures |r| == |s| || s[|r|] == stop
  {
    if s == [] || s[0] == stop then [] else [s[0]] + Until(s[1..], stop)
  }

  /** What follows the first `stop` of s; empty when s has no `stop`. */
  function After(s: string, stop: char): (r: string)
    ensures |r| <= |s|
    ensures stop in s ==> |r| < |s| && s == Until(s, stop) + [stop] + r
    ensures stop !in s ==> r == []
  {
    var k := |Until(s, stop)|;
    if k < |s| then s[k + 1..] else []
  }

  /** Splitting at the first `stop` gives back the text before it and the text after it. */
  lemma SplitAtStop(a: string, b: string, stop: char)
    requires stop !in a
    ensures Until(a + [stop] + b, stop) == a
    ensures After(a + [stop] + b, stop) == b
  {
    var s := a + [stop] + b;
    assert s == a + ([stop] + b);
    UntilPrefix(a, [stop] + b, stop);
    assert s[|a| + 1..] == b;
  }

  /** The suffix of s from index i; empty once a scan index has run past the end. */
  function Rest(s: string, i: nat): (r: string)
    ensures i < |s| ==> r == s[i..]
    ensures |s| <= i ==> r == []
  {
    if i < |s| then s[i..] else []
  }

  /**
   * A scan that collected s[start..i] and stopped at a `stop` or at the end
   * read exactly Until(s[start..], stop); stepping over the terminator with
   * `i++` leaves it at After(s[start..], stop), even past the end.
   */
  lemma ScanUntil(s: string, start: nat, i: nat, stop: char)
    requires start <= i <= |s|
    requires stop !in s[start..i]
    requires i == |s| || s[i] == stop
    ensures Until(s[start..], stop) == s[start..i]
    ensures After(s[start..], stop) == Rest(s, i + 1)
  {
    assert s[start..] == s[start..i] + s[i..];
    UntilPrefix(s[start..i], s[i..], stop);
    if i < |s| {
      assert s[start..][i - start + 1..] == s[i + 1..];
    } else {
      assert s[start..] == s[start..i];
    }
  }

  /**
   * Collects s[i0..] up to the next `stop` (or the end of s), as the inner
   * `while (i < s.Length && s[i] != stop)` loops do; the caller's `i++` then
   * steps over the terminator.
   */
  method ReadUntil(s: string, i0: nat, stop: char) returns (r: string, i: nat)
    requires i0 <= |s|
    ensures i0 <= i <= |s|
    ensures r == Until(Rest(s, i0), stop)
    ensures After(Rest(s, i0), stop) == Rest(s, i + 1)
  {
    r := "";
    i := i0;
    while i < |s| && s[i] != stop
      invariant i0 <= i <= |s|
      invariant r == s[i0..i] && stop !in r
    {
      r := r + [s[i]];
      i := i + 1;
    }
    assert Rest(s, i0) == s[i0..];
    ScanUntil(s, i0, i, stop);
  }

  /** The pieces joined back together, with `sep` between neighbours. */
  function Join(ps: seq<string>, sep: char): string
    requires ps != []
  {
    if |ps| == 1 then ps[0] else ps[0] + [sep] + Join(ps[1..], sep)
  }

  /**
   * Every piece of s between separators, empty pieces included: joined with
   * `sep` they give s back, and none holds `sep`, which fixes them uniquely.
   */
  function Pieces(s: string, sep: char): (r: seq<string>)
    ensures |r| >= 1 && Join(r, sep) == s
    ensures forall k :: 0 <= k < |r| ==> sep !in r[k]
    decreases |s|
  {
    if sep !in s then [s]
    else
      var r := [Until(s, sep)] + Pieces(After(s, sep), sep);
      assert r[1..] == Pieces(After(s, sep), sep);
      r
  }

  /** A first piece free of `sep` is split off as it is. */
  lemma PiecesCons(a: string, b: string, sep: char)
    requires sep !in a
    ensures Pieces(a + [sep] + b, sep) == [a] + Pieces(b, sep)
  {
    SplitAtStop(a, b, sep);
    assert (a + [sep] + b)[|a|] == sep;
  }

  /** The non-empty members of ps, in order. */
  function NonEmpty(ps: seq<string>): (r: seq<string>)
    ensures forall k :: 0 <= k < |r| ==> r[k] != [] && r[k] in ps
  {
    if ps == [] then []
    else if ps[0] == [] then NonEmpty(ps[1..])
    else [ps[0]] + NonEmpty(ps[1..])
  }

  /** NonEmpty is a filter: it keeps a non-empty entry, drops an empty one, and works piecewise. */
  lemma {:induction false} NonEmptyFilter(a: seq<string>, b: seq<string>)
    ensures NonEmpty(a + b) == NonEmpty(a) + NonEmpty(b)
    ensures |a| == 1 ==> NonEmpty(a) == if a[0] == [] then [] else a
    decreases |a|
  {
    if a == [] {
      assert a + b == b;
    } else {
      assert (a + b)[0] == a[0] && (a + b)[1..] == a[1..] + b;
      NonEmptyFilter(a[1..], b);
      if |a| == 1 {
        assert NonEmpty(a[1..]) == [];
      }
    }
  }

  /** String.Split(new char[] { sep }, StringSplitOptions.RemoveEmptyEntries): the non-empty pieces. */
  function SplitNonEmpty(s: string, sep: char): (r: seq<string>)
    ensures forall k :: 0 <= k < |r| ==> r[k] != [] && sep !in r[k]
  {
    NonEmpty(Pieces(s, sep))
  }

  lemma {:induction false} SplitTwo(a: string, b: string, sep: char)
    requires a != [] && b != [] && sep !in a && sep !in b
    ensures SplitNonEmpty(a + [sep] + b, sep) == [a, b]
  {
    var s := a + [sep] + b;
    UntilPrefix(a, [sep] + b, sep);
    assert s == a + ([sep] + b);
    assert Until(s, sep) == a;
    assert s[|a|] == sep;
    assert After(s, sep) == b by {
      assert s[|a| + 1..] == b;
    }
    assert Pieces(s, sep) == [a, b];
    assert NonEmpty([b]) == [b];
  }

  /** Three separator-free parts are the three pieces. */
  lemma PiecesThree(a: string, b: string, c: string, sep: char)
    requires sep !in a && sep !in b && sep !in c
    ensures Pieces(a + [sep] + b + [sep] + c, sep) == [a] + ([b] + [c])
  {
    var bc := b + [sep] + c;
    assert a + [sep] + b + [sep] + c == a + [sep] + bc;
    PiecesCons(b, c, sep);
    PiecesCons(a, bc, sep);
  }

  /** Three non-empty entries are all kept. */
  lemma NonEmptyThree(a: string, b: string, c: string)
    requires a != [] && b != [] && c != []
    ensures NonEmpty([a] + ([b] + [c])) == [a, b, c]
  {
    NonEmptyFilter([a], [b] + [c]);
    NonEmptyFilter([b], [c]);
    NonEmptyFilter([c], []);
    assert [c] + [] == [c];
  }

  /** `a:b:c` with non-empty, separator-free parts splits into [a, b, c]. */
  lemma SplitThree(a: string, b: string, c: string, sep: char)
    requires a != [] && b != [] && c != [] && sep !in a && sep !in b && sep !in c
    ensures SplitNonEmpty(a + [sep] + b + [sep] + c, sep) == [a, b, c]
  {
    PiecesThree(a, b, c, sep);
    NonEmptyThree(a, b, c);
  }

  /** `:b` drops the empty piece before the separator: one part, b. */
  lemma SplitLeadingSeparator(b: string, sep: char)
    requires b != [] && sep !in b
    ensures SplitNonEmpty([sep] + b, sep) == [b]
  {
    var e: string := [];
    assert e + [sep] + b == [sep] + b;
    PiecesCons(e, b, sep);
    assert Pieces(b, sep) == [b];
    NonEmptyFilter([e], [b]);
    NonEmptyFilter([b], []);
    assert [b] + [] == [b];
  }

  lemma {:induction false} SplitNoSeparator(s: string, sep: char)
    requires sep !in s
    ensures |SplitNonEmpty(s, sep)| < 2
  {
    assert Pieces(s, sep) == [s];
    if s == [] {
      assert NonEmpty([s]) == NonEmpty([]);
    } else {
      assert NonEmpty([s]) == [s] + NonEmpty([]);
    }
  }

  lemma {:induction false} UntilPrefix(a: string, rest: string, stop: char)
    requires stop !in a
    requires rest == [] || rest[0] == stop
    ensures Until(a + rest, stop) == a
  {
    if a != [] {
      assert (a + rest)[1..] == a[1..] + rest;
      UntilPrefix(a[1..], rest, stop);
    } else {
      assert a + rest == rest;
    }
  }

  predicate IsDigit(c: char) { '0' <= c <= '9' }

  predicate AllDigits(s: string) {
    forall i :: 0 <= i < |s| ==> IsDigit(s[i])
  }

  function DigitChar(d: nat): char
    requires d < 10
  {
    ['0', '1', '2', '3', '4', '5', '6', '7', '8', '9'][d]
  }

  function DigitValue(c: char): nat
    requires IsDigit(c)
  {
    (c as int - '0' as int) as nat
  }

  /** Int32.ToString() of a non-negative value, as StringBuilder.Append(int) writes it. */
  function Decimal(n: nat): (r: string)
    ensures r != [] && AllDigits(r)
    ensures r[0] == '0' ==> n == 0
  {
    if n < 10 then [DigitChar(n)] else Decimal(n / 10) + [DigitChar(n % 10)]
  }

  /** The value of a string of decimal digits, read left to right. */
  function DigitsValue(s: string): nat
    requires AllDigits(s)
  {
    if s == [] then 0 else DigitsValue(s[..|s| - 1]) * 10 + DigitValue(s[|s| - 1])
  }

  const IntMin: int := -0x8000_0000
  const IntMax: int := 0x7FFF_FFFF

  /** The white space int.TryParse skips before and after the number: ' ' and U+0009..U+000D. */
  predicate IsNumberWhite(c: char) { c == ' ' || ('\t' <= c <= '\r') }

  predicate AllNumberWhite(s: string) {
    forall i :: 0 <= i < |s| ==> IsNumberWhite(s[i])
  }

  /** Only NUL characters, which int.TryParse accepts after the number. */
  predicate AllNul(s: string) {
    forall i :: 0 <= i < |s| ==> s[i] == '\0'
  }

  function SkipNumberWhite(s: string): (r: string)
    ensures |r| <= |s| && r == s[|s| - |r|..]
    ensures AllNumberWhite(s[..|s| - |r|])
    ensures r == [] || !IsNumberWhite(r[0])
  {
    if s != [] && IsNumberWhite(s[0]) then
      var r := SkipNumberWhite(s[1..]);
      assert s[..|s| - |r|] == [s[0]] + s[1..][..|s| - 1 - |r|];
      r
    else s
  }

  /** The longest prefix of s made of decimal digits. */
  function LeadingDigits(s: string): (r: string)
    ensures |r| <= |s| && r == s[..|r|] && AllDigits(r)
    ensures |r| == |s| || !IsDigit(s[|r|])
  {
    if s != [] && IsDigit(s[0]) then [s[0]] + LeadingDigits(s[1..]) else []
  }

  /** The value a sign ("", "+" or "-") gives the digits' value n. */
  function Signed(sign: string, n: nat): int {
    if sign == "-" then -(n as int) else n
  }

  /**
   * int.TryParse(s) with NumberStyles.Integer and the invariant culture:
   * white space, an optional '-' or '+', one or more ASCII digits, white
   * space, then any number of NUL characters; the value must fit in 32 bits.
   */
  function TryParseInt(s: string): (r: Option<int>)
    ensures r.Some? ==> IntMin <= r.value <= IntMax
  {
    var t := SkipNumberWhite(s);
    var sign := SignOf(t);
    ParseDigits(sign, t[|sign|..])
  }

  /** The sign at the start of t, if there is one. */
  function SignOf(t: string): (r: string)
    ensures r == "" || r == "-" || r == "+"
    ensures |r| <= |t| && r == t[..|r|]
  {
    if t != [] && t[0] == '-' then "-" else if t != [] && t[0] == '+' then "+" else ""
  }

  /** The digits after the sign, then white space and NULs up to the end. */
  function ParseDigits(sign: string, body: string): (r: Option<int>)
    ensures r.Some? ==> IntMin <= r.value <= IntMax
  {
    var digits := LeadingDigits(body);
    if digits == [] || !AllNul(SkipNumberWhite(body[|digits|..])) then None
    else
      var v := Signed(sign, DigitsValue(digits));
      if IntMin <= v <= IntMax then Some(v) else None
  }

  lemma {:induction false} SkipNumberWhiteOf(ws: string, rest: string)
    requires AllNumberWhite(ws) && (rest == [] || !IsNumberWhite(rest[0]))
    ensures SkipNumberWhite(ws + rest) == rest
    decreases |ws|
  {
    if ws == [] {
      assert ws + rest == rest;
    } else {
      assert IsNumberWhite(ws[0]);
      assert (ws + rest)[1..] == ws[1..] + rest;
      SkipNumberWhiteOf(ws[1..], rest);
    }
  }

  lemma {:induction false} LeadingDigitsOf(d: string, rest: string)
    requires AllDigits(d) && (rest == [] || !IsDigit(rest[0]))
    ensures LeadingDigits(d + rest) == d
    decreases |d|
  {
    if d == [] {
      assert d + rest == rest;
    } else {
      assert IsDigit(d[0]);
      assert (d + rest)[1..] == d[1..] + rest;
      LeadingDigitsOf(d[1..], rest);
    }
  }

  lemma SignOfIs(sign: string, rest: string)
    requires (sign == "" || sign == "-" || sign == "+") && rest != [] && IsDigit(rest[0])
    ensures SignOf(sign + rest) == sign && (sign + rest)[|sign|..] == rest
    ensures !IsNumberWhite((sign + rest)[0])
  {
    if sign == "" {
      assert sign + rest == rest;
    } else {
      assert (sign + rest)[0] == sign[0];
    }
  }

  lemma ParseDigitsOf(sign: string, digits: string, trail: string, nuls: string)
    requires digits != [] && AllDigits(digits) && AllNumberWhite(trail) && AllNul(nuls)
    requires IntMin <= Signed(sign, DigitsValue(digits)) <= IntMax
    ensures ParseDigits(sign, digits + trail + nuls) == Some(Signed(sign, DigitsValue(digits)))
  {
    var body := digits + trail + nuls;
    assert body == digits + (trail + nuls);
    if nuls != [] {
      assert nuls[0] == '\0';
    }
    LeadingDigitsOf(digits, trail + nuls);
    assert body[|digits|..] == trail + nuls;
    SkipNumberWhiteOf(trail, nuls);
  }

  /**
   * Every input of the accepted shape parses to its signed value: white
   * space, an optional sign, digits, white space and NULs.
   */
  lemma TryParseIntAccepts(ws: string, sign: string, digits: string, trail: string, nuls: string)
    requires AllNumberWhite(ws) && (sign == "" || sign == "-" || sign == "+")
    requires digits != [] && AllDigits(digits) && AllNumberWhite(trail) && AllNul(nuls)
    requires IntMin <= Signed(sign, DigitsValue(digits)) <= IntMax
    ensures TryParseInt(ws + sign + digits + trail + nuls) == Some(Signed(sign, DigitsValue(digits)))
  {
    var body := digits + trail + nuls;
    var t := sign + body;
    Assoc5(ws, sign, digits, trail, nuls);
    assert body[0] == digits[0];
    SignOfIs(sign, body);
    SkipNumberWhiteOf(ws, t);
    ParseDigitsOf(sign, digits, trail, nuls);
  }

  /** Conversely, whatever parses has that shape and parses to its signed value. */
  lemma TryParseIntShape(s: string) returns (ws: string, sign: string, digits: string, trail: string, nuls: string)
    requires TryParseInt(s).Some?
    ensures s == ws + sign + digits + trail + nuls
    ensures AllNumberWhite(ws) && (sign == "" || sign == "-" || sign == "+")
    ensures digits != [] && AllDigits(digits) && AllNumberWhite(trail) && AllNul(nuls)
    ensures TryParseInt(s) == Some(Signed(sign, DigitsValue(digits)))
  {
    var t := SkipNumberWhite(s);
    ws := s[..|s| - |t|];
    sign := SignOf(t);
    var body := t[|sign|..];
    digits, trail, nuls := ParseDigitsShape(sign, body);
    SplitAt(t, |sign|);
    SplitAt(s, |s| - |t|);
    Assoc5(ws, sign, digits, trail, nuls);
  }

  lemma ParseDigitsShape(sign: string, body: string) returns (digits: string, trail: string, nuls: string)
    requires ParseDigits(sign, body).Some?
    ensures body == digits + trail + nuls
    ensures digits != [] && AllDigits(digits) && AllNumberWhite(trail) && AllNul(nuls)
    ensures ParseDigits(sign, body) == Some(Signed(sign, DigitsValue(digits)))
  {
    digits := LeadingDigits(body);
    var after := body[|digits|..];
    nuls := SkipNumberWhite(after);
    trail := after[..|after| - |nuls|];
    assert digits != [] && AllNul(nuls);
    SplitAt(after, |after| - |nuls|);
    SplitAt(body, |digits|);
    assert body == digits + trail + nuls by {
      Assoc3(digits, trail, nuls);
    }
  }

  lemma Assoc3(a: string, b: string, c: string)
    ensures a + (b + c) == a + b + c
  {
  }

  lemma Assoc5(a: string, b: string, c: string, d: string, e: string)
    ensures a + (b + (c + d + e)) == a + b + c + d + e
  {
  }

  lemma SplitAt<T>(s: seq<T>, n: nat)
    requires n <= |s|
    ensures s == s[..n] + s[n..]
  {
  }

  lemma {:induction false} DigitsValueDecimal(n: nat)
    ensures DigitsValue(Decimal(n)) == n
  {
    var r := Decimal(n);
    if n < 10 {
      assert DigitValue(DigitChar(n)) == n;
      assert r[..0] == [];
    } else {
      DigitsValueDecimal(n / 10);
      assert r[..|r| - 1] == Decimal(n / 10);
      assert DigitValue(DigitChar(n % 10)) == n % 10;
    }
  }

  /** Input that starts with neither white space, a sign nor a digit does not parse. */
  lemma TryParseIntRejects(s: string)
    requires s == [] || (!IsNumberWhite(s[0]) && s[0] != '-' && s[0] != '+' && !IsDigit(s[0]))
    ensures TryParseInt(s) == None
  {
    assert [] + s == s;
    SkipNumberWhiteOf([], s);
    assert SignOf(s) == "";
    assert s[0..] == s;
    assert LeadingDigits(s) == [];
  }

  /** After the sign, digits and then NULs give the signed value when it fits in 32 bits. */
  lemma ParseDigitsNuls(sign: string, d: string, nuls: string)
    requires d != [] && AllDigits(d) && AllNul(nuls)
    ensures var v := Signed(sign, DigitsValue(d));
      ParseDigits(sign, d + nuls) == if IntMin <= v <= IntMax then Some(v) else None
  {
    if nuls != [] {
      assert nuls[0] == '\0';
    }
    LeadingDigitsOf(d, nuls);
    assert (d + nuls)[|d|..] == nuls;
    assert [] + nuls == nuls;
    SkipNumberWhiteOf([], nuls);
  }

  /** Input starting with a sign or a digit goes straight to the digits after the sign. */
  lemma TryParseFromSign(sign: string, body: string)
    requires (sign == "" || sign == "-" || sign == "+") && body != [] && IsDigit(body[0])
    ensures TryParseInt(sign + body) == ParseDigits(sign, body)
  {
    SignOfIs(sign, body);
    assert [] + (sign + body) == sign + body;
    SkipNumberWhiteOf([], sign + body);
  }

  /** A sign, digits and NULs: the signed value when it fits in 32 bits, and no value otherwise. */
  lemma TryParseSigned(sign: string, d: string, nuls: string)
    requires (sign == "" || sign == "-" || sign == "+") && d != [] && AllDigits(d) && AllNul(nuls)
    ensures var v := Signed(sign, DigitsValue(d));
      TryParseInt(sign + d + nuls) == if IntMin <= v <= IntMax then Some(v) else None
  {
    assert sign + d + nuls == sign + (d + nuls);
    assert (d + nuls)[0] == d[0];
    TryParseFromSign(sign, d + nuls);
    ParseDigitsNuls(sign, d, nuls);
  }

  /** What a string of digits (after an optional plus sign, before NULs) parses to. */
  function UnsignedParse(d: string): Option<int>
    requires AllDigits(d)
  {
    if DigitsValue(d) <= IntMax then Some(DigitsValue(d) as int) else None
  }

  lemma TryParseUnsigned(d: string, nuls: string)
    requires d != [] && AllDigits(d) && AllNul(nuls)
    ensures TryParseInt(d + nuls) == UnsignedParse(d)
  {
    assert (d + nuls)[0] == d[0];
    TryParseDigitStart(d + nuls);
    ParseDigitsNuls("", d, nuls);
  }

  /** Input starting with a digit has no white space and no sign to skip. */
  lemma TryParseDigitStart(s: string)
    requires s != [] && IsDigit(s[0])
    ensures TryParseInt(s) == ParseDigits("", s)
  {
    assert [] + s == s;
    SkipNumberWhiteOf([], s);
    assert SignOf(s) == "";
    assert s[0..] == s;
  }

  /** A plus sign does not change what parses. */
  lemma TryParsePlus(d: string, nuls: string)
    requires d != [] && AllDigits(d) && AllNul(nuls)
    ensures TryParseInt("+" + d + nuls) == TryParseInt(d + nuls)
  {
    assert TryParseInt("+" + d + nuls) == UnsignedParse(d) by {
      TryParseSigned("+", d, nuls);
    }
    TryParseUnsigned(d, nuls);
  }

  /** A leading zero does not change what parses. */
  lemma TryParseLeadingZero(d: string)
    requires d != [] && AllDigits(d)
    ensures TryParseInt("0" + d) == TryParseInt(d)
  {
    LeadingZeroValue(d);
    assert TryParseInt("0" + d) == UnsignedParse(d) by {
      TryParseUnsigned("0" + d, "");
      assert "0" + d + "" == "0" + d;
    }
    assert d + "" == d;
    TryParseUnsigned(d, "");
  }

  /** Trailing NULs do not change what parses. */
  lemma TryParseTrailingNuls(d: string, nuls: string)
    requires d != [] && AllDigits(d) && AllNul(nuls)
    ensures TryParseInt(d + nuls) == TryParseInt(d)
  {
    TryParseUnsigned(d, nuls);
    assert d + "" == d;
    TryParseUnsigned(d, "");
  }

  /** A plain string of digits parses to its value when that fits in 32 bits. */
  lemma TryParseDigits(d: string)
    requires d != [] && AllDigits(d) && DigitsValue(d) <= IntMax
    ensures TryParseInt(d) == Some(DigitsValue(d) as int)
  {
    assert "" + d + "" == d;
    TryParseSigned("", d, "");
  }

  /** A leading zero does not change the value of a string of digits. */
  lemma {:induction false} LeadingZeroValue(d: string)
    requires AllDigits(d)
    ensures AllDigits("0" + d) && DigitsValue("0" + d) == DigitsValue(d)
    decreases |d|
  {
    var z := "0" + d;
    assert AllDigits(z) by {
      assert forall i :: 1 <= i < |z| ==> z[i] == d[i - 1];
    }
    if d == [] {
      assert z[..0] == [];
    } else {
      var init := d[..|d| - 1];
      assert z[..|z| - 1] == "0" + init;
      assert z[|z| - 1] == d[|d| - 1];
      LeadingZeroValue(init);
    }
  }

  /** Parsing what Decimal printed gives the number back. */
  lemma DecimalRoundTrip(n: nat)
    requires n <= IntMax
    ensures TryParseInt(Decimal(n)) == Some(n)
  {
    DigitsValueDecimal(n);
    TryParseDigits(Decimal(n));
  }
}
