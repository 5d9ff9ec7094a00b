/** How `re.sub` reads a replacement given as a string: backslash escapes
    are processed, `\1`-style and `\g<...>` references name groups, and an
    unknown letter escape is an error. `convert.py` builds its replacements
    for the title and the description with an f-string, so whatever the
    document's directive says is read this way too. */
module Escapes {
  import opened Text
  import opened Scan
  import opened Shapes

  /** A replacement string once read: the text it stands for, a `re.error`,
      or a `\g<...>` reference, which this model does not follow. */
  datatype Template = Literal(text: string) | Invalid | GroupSyntax

  function Then(p: string, r: Template): (q: Template)
    ensures r.Literal? <==> q.Literal?
    ensures q.Literal? ==> q.text == p + r.text
    ensures !r.Literal? ==> q == r
  {
    if r.Literal? then Literal(p + r.text) else r
  }

  predicate IsOctal(c: char)
  {
    '0' <= c <= '7'
  }

  function OctalDigit(c: char): (d: nat)
    requires IsOctal(c)
    ensures d < 8
  {
    c as int - '0' as int
  }

  /** The character of a single-letter escape: `\a \b \f \n \r \t \v`. */
  function Escape(c: char): (r: Option<char>)
    ensures r.Some? ==> IsAsciiLetter(c)
  {
    match c
    case 'a' => Some(7 as char)
    case 'b' => Some(8 as char)
    case 'f' => Some(12 as char)
    case 'n' => Some(10 as char)
    case 'r' => Some(13 as char)
    case 't' => Some(9 as char)
    case 'v' => Some(11 as char)
    case _ => None
  }

  /** The end of `\0` and the up to two octal digits that follow it. */
  function ZeroEnd(t: string): (n: nat)
    requires |t| >= 2
    ensures 2 <= n <= 4 && n <= |t|
    ensures forall k :: 2 <= k < n ==> IsOctal(t[k])
  {
    if |t| > 2 && IsOctal(t[2]) then
      if |t| > 3 && IsOctal(t[3]) then 4 else 3
    else 2
  }

  /** The character `\0`, `\0d` or `\0dd` stands for. */
  function ZeroValue(t: string): (c: char)
    requires |t| >= 2
  {
    var n := ZeroEnd(t);
    if n == 2 then 0 as char
    else if n == 3 then OctalDigit(t[2]) as char
    else (OctalDigit(t[2]) * 8 + OctalDigit(t[3])) as char
  }

  /** The template reader (`parse_template` for a pattern without groups):
      `\\` is a backslash, `\0` starts an octal escape, three octal digits
      make one character up to `\377`, any other digit is a reference to a
      group the pattern does not have, the letters `abfnrtv` are control
      characters and every other ASCII letter is an error; any other escaped
      character is kept with its backslash, and so is nothing: a trailing
      backslash is an error. Reading never lengthens the text, and only a
      backslash can make it fail. */
  function Parse(t: string): (r: Template)
    ensures r.Literal? ==> |r.text| <= |t|
    ensures !r.Literal? ==> exists k :: 0 <= k < |t| && t[k] == '\\'
    decreases |t|
  {
    if |t| == 0 then Literal("")
    else if t[0] != '\\' then Then([t[0]], Parse(t[1..]))
    else if |t| == 1 then Invalid
    else
      var c := t[1];
      if c == 'g' then GroupSyntax
      else if c == '0' then Then([ZeroValue(t)], Parse(t[ZeroEnd(t)..]))
      else if IsDigit(c) then
        if |t| >= 4 && IsOctal(c) && IsOctal(t[2]) && IsOctal(t[3]) then
          var v := OctalDigit(c) * 64 + OctalDigit(t[2]) * 8 + OctalDigit(t[3]);
          if v > 255 then Invalid else Then([v as char], Parse(t[4..]))
        else Invalid
      else if c == '\\' then Then("\\", Parse(t[2..]))
      else if Escape(c).Some? then Then([Escape(c).value], Parse(t[2..]))
      else if IsAsciiLetter(c) then Invalid
      else Then(t[..2], Parse(t[2..]))
  }

  predicate NoBackslash(t: string)
  {
    forall k :: 0 <= k < |t| ==> t[k] != '\\'
  }

  /** One step of `Parse` over an ordinary character. */
  lemma PlainStep(t: string)
    requires |t| > 0 && t[0] != '\\'
    ensures Parse(t) == Then([t[0]], Parse(t[1..]))
  {
  }

  /** One step of `Parse` over a backslash and a character with no digit,
      `g` or backslash meaning. */
  lemma EscapeStep(t: string)
    requires |t| >= 2 && t[0] == '\\' && t[1] != 'g' && !IsDigit(t[1]) && t[1] != '\\'
    ensures Escape(t[1]).Some? ==> Parse(t) == Then([Escape(t[1]).value], Parse(t[2..]))
    ensures Escape(t[1]).None? && IsAsciiLetter(t[1]) ==> Parse(t) == Invalid
  {
  }

  /** Text without a backslash is read as it stands. */
  lemma {:induction false} PlainThenParse(a: string, b: string)
    requires NoBackslash(a)
    ensures Parse(a + b) == Then(a, Parse(b))
    decreases |a|
  {
    if |a| == 0 {
      assert a + b == b;
      ThenThen([], [], Parse(b));
    } else {
      var t := a + b;
      assert t[0] == a[0] && t[1..] == a[1..] + b;
      PlainStep(t);
      PlainThenParse(a[1..], b);
      ThenThen([a[0]], a[1..], Parse(b));
      assert [a[0]] + a[1..] == a;
    }
  }

  lemma ThenThen(p: string, q: string, r: Template)
    ensures Then(p, Then(q, r)) == Then(p + q, r)
  {
    if r.Literal? {
      assert p + (q + r.text) == (p + q) + r.text;
    }
  }

  /** Text without a backslash is its own reading. */
  lemma ParsePlain(a: string)
    requires NoBackslash(a)
    ensures Parse(a) == Literal(a)
  {
    PlainThenParse(a, []);
    assert a + [] == a;
  }

  /** What the title and description replacements of `convert.py` do: every
      match is replaced by `before + value + after` read as a template, or
      `re.sub` raises before any replacement is made. */
  datatype Spliced = Done(text: string) | Raises | NotModelled

  function SpliceAsWritten(m: Matcher, s: string, before: string, value: string, after: string): (r: Spliced)
    requires Advances(m)
    ensures Parse(before + value + after).Invalid? <==> r.Raises?
  {
    match Parse(before + value + after)
    case Literal(text) => Done(Sub(m, s, Const(text)))
    case Invalid => Raises
    case GroupSyntax => NotModelled
  }

  /** Without a backslash anywhere, the template is the text itself. */
  lemma VerbatimWithoutBackslash(before: string, value: string, after: string)
    requires NoBackslash(before) && NoBackslash(value) && NoBackslash(after)
    ensures Parse(before + value + after) == Literal(before + value + after)
  {
    var t := before + value + after;
    forall k | 0 <= k < |t| ensures t[k] != '\\' {
      if k < |before| {
        assert t[k] == before[k];
      } else if k < |before| + |value| {
        assert t[k] == value[k - |before|];
      } else {
        assert t[k] == after[k - |before| - |value|];
      }
    }
    ParsePlain(t);
  }

  /** A Windows path such as `C:\temp` as the value: its `\t` is read as a
      tab, so the text the page receives is one character shorter than the
      value spliced in and holds a tab where the value had a backslash and
      a `t`. */
  lemma TabInValue(before: string, p: string, q: string, after: string)
    requires NoBackslash(before) && NoBackslash(p) && NoBackslash(q) && NoBackslash(after)
    ensures var value := p + "\\t" + q;
            var r := Parse(before + value + after);
            && r.Literal?
            && r.text == before + p + "\t" + q + after
            && |r.text| == |before + value + after| - 1
  {
    var c := p + ("\\t" + (q + after));
    TabTail(p, q, after);
    PlainThenParse(before, c);
    assert Parse(before + c) == Literal(before + (p + ("\t" + (q + after))));
    Regroup(before, p, "\\t", q, after);
    Regroup(before, p, "\t", q, after);
  }

  /** Reading `p\tq...` from the backslash on. */
  lemma TabTail(p: string, q: string, after: string)
    requires NoBackslash(p) && NoBackslash(q) && NoBackslash(after)
    ensures Parse(p + ("\\t" + (q + after))) == Literal(p + ("\t" + (q + after)))
  {
    var e := q + after;
    PlainThenParse(q, after);
    ParsePlain(after);
    TabThenParse(e);
    PlainThenParse(p, "\\t" + e);
  }

  lemma TabThenParse(e: string)
    ensures Parse("\\t" + e) == Then("\t", Parse(e))
  {
    var t := "\\t" + e;
    assert t[0] == '\\' && t[1] == 't' && t[2..] == e;
    EscapeStep(t);
  }

  lemma Regroup(a: string, b: string, c: string, d: string, e: string)
    ensures a + (b + c + d) + e == a + (b + (c + (d + e)))
    ensures a + (b + (c + (d + e))) == a + b + c + d + e
  {
  }

  /** A value holding `\d` (a regular-expression habit) makes `re.sub`
      raise: the conversion stops with `re.error`. */
  lemma BadEscapeRaises(before: string, after: string)
    requires NoBackslash(before)
    ensures Parse(before + "\\d" + after) == Invalid
  {
    PlainThenParse(before, "\\d" + after);
    assert before + "\\d" + after == before + ("\\d" + after);
    var t := "\\d" + after;
    assert t[0] == '\\' && t[1] == 'd';
    EscapeStep(t);
  }
}
