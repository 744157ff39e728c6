/**
  Printing and parsing templates are inverse, parsing yields normal segment lists, and the
  required argument count is the least one that covers every placeholder.
 */
module FormatTheorems {
  import opened Options
  import opened FormatTemplate

  // ----- normal templates -----

  ghost predicate FitsOption(n: Option<nat>)
  {
    n.Some? ==> n.value < USIZE
  }

  /** Right alignment exactly with a width; debug style without width and precision. */
  ghost predicate NormalPlaceholder(p: Placeholder)
  {
    && FitsOption(p.position) && FitsOption(p.width) && FitsOption(p.precision)
    && (p.align == Right <==> p.width.Some?)
    && (p.style == Debug ==> p.width.None? && p.precision.None?)
  }

  /** No empty and no adjacent literals. */
  ghost predicate Normal(segments: seq<Segment>)
  {
    && (forall i :: 0 <= i < |segments| ==>
          match segments[i]
          case Literal(text) => text != ""
          case Slot(p) => NormalPlaceholder(p))
    && (forall i :: 0 < i < |segments| ==> segments[i - 1].Slot? || segments[i].Slot?)
  }

  lemma ParsedMain(main: string)
    requires ParseMain(main).Some?
    ensures var (align, width) := ParseMain(main).value;
            FitsOption(width) && (align == Right <==> width.Some?)
  {
    hide ParseUsize;
  }

  lemma ParsedSpec(position: Option<nat>, spec: string)
    requires ParseSpec(position, spec).Some? && FitsOption(position)
    ensures NormalPlaceholder(ParseSpec(position, spec).value)
  {
    hide ParseUsize, ParseMain;
    var main := spec[..IndexOf(spec, '.')];
    if ParseMain(main).Some? {
      ParsedMain(main);
    }
  }

  lemma ParsedPlaceholder(body: string)
    requires ParsePlaceholder(body).Ok?
    ensures NormalPlaceholder(ParsePlaceholder(body).value)
  {
    hide ParseUsize, ParseSpec, IndexOf;
    var colon := IndexOf(body, ':');
    var spec := if colon < |body| then body[colon + 1..] else "";
    var position := if body[..colon] == "" then None else ParseUsize(body[..colon]);
    ParsedSpec(position, spec);
  }

  lemma ScannedHole(t: string)
    requires t != "" && Scan(t).Hole?
    ensures NormalPlaceholder(Scan(t).placeholder)
  {
    hide ParsePlaceholder, NormalPlaceholder;
    ParsedPlaceholder(t[1..][..IndexOf(t[1..], '}')]);
  }

  lemma NormalSlotFirst(literal: string, p: Placeholder, rest: seq<Segment>)
    requires NormalPlaceholder(p) && Normal(rest)
    ensures Normal(Flush(literal) + [Slot(p)] + rest)
  {
    hide NormalPlaceholder;
    var front := Flush(literal) + [Slot(p)];
    var all := front + rest;
    assert forall i :: 0 <= i < |all| ==> all[i] == if i < |front| then front[i] else rest[i - |front|];
  }

  /** Every successful parse is normal. */
  lemma {:induction false} ParsedIsNormal(t: string, literal: string)
    requires Parse(t, literal).Ok?
    ensures Normal(Parse(t, literal).value)
    decreases |t|
  {
    hide Scan, NormalPlaceholder;
    if t != "" {
      match Scan(t) {
        case Letter(c, n) =>
          ParsedIsNormal(t[n..], literal + [c]);
        case Hole(p, n) =>
          ScannedHole(t);
          ParsedIsNormal(t[n..], "");
          NormalSlotFirst(literal, p, Parse(t[n..], "").value);
      }
    }
  }

  // ----- printing -----

  function Decimal(n: nat): (s: string)
    ensures s != ""
    ensures forall k :: 0 <= k < |s| ==> '0' <= s[k] <= '9'
  {
    if n < 10 then [(n + '0' as int) as char] else Decimal(n / 10) + [(n % 10 + '0' as int) as char]
  }

  function PrintSpec(p: Placeholder): string
  {
    if p.style == Debug then "?" else
      PrintWidth(p) + if p.precision.Some? then "." + Decimal(p.precision.value) else ""
  }

  function PrintWidth(p: Placeholder): string
  {
    if p.width.Some? then ">" + Decimal(p.width.value) else ""
  }

  function PrintPlaceholder(p: Placeholder): string
  {
    (if p.position.Some? then Decimal(p.position.value) else "")
    + (if PrintSpec(p) == "" then "" else ":" + PrintSpec(p))
  }

  function EscapeChar(c: char): string
  {
    if c == '{' then "{{" else if c == '}' then "}}" else [c]
  }

  function Escape(text: string): string
  {
    if text == "" then "" else EscapeChar(text[0]) + Escape(text[1..])
  }

  function Print(segments: seq<Segment>): string
  {
    if segments == [] then "" else
      (match segments[0]
       case Literal(text) => Escape(text)
       case Slot(p) => "{" + PrintPlaceholder(p) + "}")
      + Print(segments[1..])
  }

  // ----- numbers are read back -----

  lemma {:induction false} DecimalReadBack(n: nat)
    ensures DecimalValue(Decimal(n)) == Some(n)
    decreases n
  {
    var s := Decimal(n);
    if n < 10 {
      assert s[..0] == "";
    } else {
      DecimalReadBack(n / 10);
      assert s[..|s| - 1] == Decimal(n / 10);
    }
  }

  lemma UsizeReadBack(n: nat)
    requires n < USIZE
    ensures ParseUsize(Decimal(n)) == Some(n)
  {
    hide DecimalValue, Decimal;
    DecimalReadBack(n);
    assert '0' <= Decimal(n)[0] <= '9';
  }

  // ----- placeholders are read back -----

  lemma FoundAt(a: string, c: char, b: string)
    requires forall k :: 0 <= k < |a| ==> a[k] != c
    ensures IndexOf(a + [c] + b, c) == |a|
    ensures (a + [c] + b)[..|a|] == a && (a + [c] + b)[|a| + 1..] == b
  {
    var s := a + [c] + b;
    assert forall k :: 0 <= k < |a| ==> s[k] == a[k];
    FirstIndex(s, c, |a|);
  }

  lemma MainReadBack(p: Placeholder)
    requires NormalPlaceholder(p)
    ensures ParseMain(PrintWidth(p)) == Some((p.align, p.width))
  {
    hide ParseUsize, Decimal;
    if p.width.Some? {
      UsizeReadBack(p.width.value);
      assert PrintWidth(p)[1..] == Decimal(p.width.value);
    }
  }

  lemma SpecWithDot(position: Option<nat>, main: string, precision: string)
    requires (forall k :: 0 <= k < |main| ==> main[k] != '.') && ParseMain(main).Some? && ParseUsize(precision).Some?
    ensures ParseSpec(position, main + ['.'] + precision)
         == Some(Placeholder(position, Display, ParseMain(main).value.0, ParseMain(main).value.1, ParseUsize(precision)))
  {
    hide ParseUsize, ParseMain, IndexOf;
    var spec := main + ['.'] + precision;
    FoundAt(main, '.', precision);
    assert spec[|main|] == '.';
  }

  lemma SpecWithoutDot(position: Option<nat>, main: string)
    requires (forall k :: 0 <= k < |main| ==> main[k] != '.') && main != "" && main != "?" && ParseMain(main).Some?
    ensures ParseSpec(position, main)
         == Some(Placeholder(position, Display, ParseMain(main).value.0, ParseMain(main).value.1, None))
  {
    hide ParseMain, IndexOf;
    NoIndex(main, '.');
    assert main[..|main|] == main;
  }

  lemma WidthText(p: Placeholder)
    ensures forall k :: 0 <= k < |PrintWidth(p)| ==> PrintWidth(p)[k] != '.'
    ensures p.width.Some? ==> PrintWidth(p) != "" && PrintWidth(p)[0] == '>'
    ensures p.width.None? ==> PrintWidth(p) == ""
  {
    hide Decimal;
  }

  lemma SpecReadBack(p: Placeholder)
    requires NormalPlaceholder(p)
    ensures ParseSpec(p.position, PrintSpec(p)) == Some(p)
  {
    if p.style == Display && (p.precision.Some? || p.width.Some?) {
      hide ParseUsize, ParseMain, Decimal, ParseSpec, PrintWidth;
      MainReadBack(p);
      WidthText(p);
      if p.precision.Some? {
        var precision := Decimal(p.precision.value);
        assert PrintSpec(p) == PrintWidth(p) + ['.'] + precision;
        UsizeReadBack(p.precision.value);
        SpecWithDot(p.position, PrintWidth(p), precision);
      } else {
        assert PrintSpec(p) == PrintWidth(p) + "" == PrintWidth(p);
        SpecWithoutDot(p.position, PrintWidth(p));
      }
    }
  }

  lemma BodyWithColon(position: string, spec: string)
    requires (forall k :: 0 <= k < |position| ==> position[k] != ':') && (position != "" ==> ParseUsize(position).Some?)
    requires ParseSpec(if position == "" then None else ParseUsize(position), spec).Some?
    ensures ParsePlaceholder(position + [':'] + spec)
         == Ok(ParseSpec(if position == "" then None else ParseUsize(position), spec).value)
  {
    hide ParseUsize, ParseSpec, IndexOf;
    FoundAt(position, ':', spec);
  }

  lemma BodyWithoutColon(position: string)
    requires (forall k :: 0 <= k < |position| ==> position[k] != ':') && (position != "" ==> ParseUsize(position).Some?)
    requires ParseSpec(if position == "" then None else ParseUsize(position), "").Some?
    ensures ParsePlaceholder(position) == Ok(ParseSpec(if position == "" then None else ParseUsize(position), "").value)
  {
    hide ParseUsize, ParseSpec, IndexOf;
    NoIndex(position, ':');
    assert position[..|position|] == position;
  }

  lemma PlaceholderReadBack(p: Placeholder)
    requires NormalPlaceholder(p)
    ensures ParsePlaceholder(PrintPlaceholder(p)) == Ok(p)
  {
    hide ParseUsize, ParseSpec, Decimal, PrintSpec, ParsePlaceholder;
    SpecReadBack(p);
    var position := if p.position.Some? then Decimal(p.position.value) else "";
    if p.position.Some? {
      UsizeReadBack(p.position.value);
    }
    if PrintSpec(p) == "" {
      assert PrintPlaceholder(p) == position;
      BodyWithoutColon(position);
    } else {
      assert PrintPlaceholder(p) == position + [':'] + PrintSpec(p);
      BodyWithColon(position, PrintSpec(p));
    }
  }

  lemma PlainBody(p: Placeholder)
    ensures forall k :: 0 <= k < |PrintPlaceholder(p)| ==> PrintPlaceholder(p)[k] != '}' && PrintPlaceholder(p)[k] != '{'
  {
    hide Decimal;
    var spec := PrintSpec(p);
    assert forall k :: 0 <= k < |spec| ==> spec[k] != '}' && spec[k] != '{';
  }

  lemma SlotReadBack(p: Placeholder, rest: string)
    requires NormalPlaceholder(p)
    ensures var t := "{" + PrintPlaceholder(p) + "}" + rest;
            Scan(t) == Hole(p, |PrintPlaceholder(p)| + 2) && t[|PrintPlaceholder(p)| + 2..] == rest
  {
    hide ParsePlaceholder, PrintPlaceholder, IndexOf;
    var body := PrintPlaceholder(p);
    var t := "{" + body + "}" + rest;
    PlainBody(p);
    PlaceholderReadBack(p);
    assert t[1..] == body + ['}'] + rest;
    FoundAt(body, '}', rest);
    assert t[1] == if body == "" then '}' else body[0];
  }

  // ----- literals are read back -----

  lemma ScanLetter(c: char, more: string)
    ensures Scan(EscapeChar(c) + more) == Letter(c, |EscapeChar(c)|)
    ensures (EscapeChar(c) + more)[|EscapeChar(c)|..] == more
  {
    hide ParsePlaceholder, IndexOf;
    var first := EscapeChar(c);
    var t := first + more;
    assert t[0] == c && (|first| == 2 ==> t[1] == c);
  }

  lemma ParseLetter(c: char, more: string, literal: string)
    ensures Parse(EscapeChar(c) + more, literal) == Parse(more, literal + [c])
  {
    assert EscapeChar(c) + more != "";
    hide Scan, EscapeChar;
    ScanLetter(c, more);
  }

  lemma EscapeNext(text: string, rest: string)
    requires text != ""
    ensures Escape(text) + rest == EscapeChar(text[0]) + (Escape(text[1..]) + rest)
  {
    hide EscapeChar;
  }

  lemma {:induction false} EscapeReadBack(text: string, rest: string, literal: string)
    ensures Parse(Escape(text) + rest, literal) == Parse(rest, literal + text)
    decreases |text|
  {
    hide Parse, EscapeChar;
    if text == "" {
      assert Escape(text) + rest == rest && literal + text == literal;
    } else {
      hide Escape;
      EscapeNext(text, rest);
      ParseLetter(text[0], Escape(text[1..]) + rest, literal);
      EscapeReadBack(text[1..], rest, literal + [text[0]]);
      assert literal + [text[0]] + text[1..] == literal + text;
    }
  }

  lemma ParseSlot(p: Placeholder, rest: string, literal: string)
    requires NormalPlaceholder(p)
    ensures Parse("{" + PrintPlaceholder(p) + "}" + rest, literal)
         == Prepend(Flush(literal) + [Slot(p)], Parse(rest, ""))
  {
    hide Scan, PrintPlaceholder, NormalPlaceholder;
    SlotReadBack(p, rest);
  }

  /** Parsing what was printed gives the segments back. */
  lemma {:induction false} PrintParse(segments: seq<Segment>, literal: string)
    requires Normal(segments) && (literal != "" && segments != [] ==> segments[0].Slot?)
    ensures Parse(Print(segments), literal) == Ok(Flush(literal) + segments)
    decreases |segments|
  {
    hide Parse, Print, Normal, Escape, PrintPlaceholder, NormalPlaceholder;
    if segments == [] {
      PrintNothing(literal);
    } else {
      NormalRest(segments);
      PrintFirst(segments);
      var rest := segments[1..];
      match segments[0] {
        case Literal(text) =>
          EscapeReadBack(text, Print(rest), literal);
          assert literal == "" && literal + text == text;
          PrintParse(rest, text);
          assert Flush(text) == [Literal(text)] && Flush(literal) == [];
          assert [] + segments == segments == [Literal(text)] + rest;
        case Slot(p) =>
          PrintParse(rest, "");
          ParseSlot(p, Print(rest), literal);
          assert Flush("") + rest == rest;
          assert Flush(literal) + [Slot(p)] + rest == Flush(literal) + segments;
      }
    }
  }

  lemma PrintNothing(literal: string)
    ensures Parse(Print([]), literal) == Ok(Flush(literal) + [])
  {
    assert Flush(literal) + [] == Flush(literal);
  }

  lemma PrintFirst(segments: seq<Segment>)
    requires segments != []
    ensures Print(segments) == match segments[0]
                               case Literal(text) => Escape(text) + Print(segments[1..])
                               case Slot(p) => "{" + PrintPlaceholder(p) + "}" + Print(segments[1..])
  {
    hide Escape, PrintPlaceholder;
  }

  lemma NormalRest(segments: seq<Segment>)
    requires Normal(segments) && segments != []
    ensures Normal(segments[1..])
    ensures segments[0].Literal? ==> segments[0].text != ""
    ensures segments[0].Slot? ==> NormalPlaceholder(segments[0].placeholder)
    ensures |segments| > 1 && segments[0].Literal? ==> segments[1].Slot?
  {
    hide NormalPlaceholder;
  }

  /** For every template: printing its parse and parsing again changes nothing. */
  lemma ParseRoundTrip(segments: seq<Segment>, t: string)
    ensures Normal(segments) ==> Parse(Print(segments), "") == Ok(segments)
    ensures Parse(t, "").Ok? ==> Parse(Print(Parse(t, "").value), "") == Parse(t, "")
  {
    hide Parse, Print, Normal;
    if Normal(segments) {
      PrintParse(segments, "");
      assert Flush("") + segments == segments;
    }
    if Parse(t, "").Ok? {
      var s := Parse(t, "").value;
      ParsedIsNormal(t, "");
      PrintParse(s, "");
      assert Flush("") + s == s;
    }
  }

  // ----- required arguments -----

  /** The argument indices the placeholders read: their own position, or the next automatic one. */
  ghost function Used(segments: seq<Segment>): set<nat>
  {
    if segments == [] then {} else
      var front, last := Used(segments[..|segments| - 1]), segments[|segments| - 1];
      if last.Literal? then front
      else if last.placeholder.position.Some? then front + {last.placeholder.position.value}
      else front + {AutoCount(segments[..|segments| - 1])}
  }

  ghost predicate Covers(n: nat, segments: seq<Segment>)
  {
    forall i :: i in Used(segments) ==> i < n
  }

  /** No explicit position is the largest machine word. */
  ghost predicate NoLastIndex(segments: seq<Segment>)
  {
    forall i :: 0 <= i < |segments| && segments[i].Slot? && segments[i].placeholder.position.Some? ==>
      segments[i].placeholder.position.value < USIZE - 1
  }

  ghost predicate CoversSlot(n: nat, p: Placeholder, auto: nat)
  {
    if p.position.Some? then p.position.value < n else auto < n
  }

  lemma CoversNext(n: nat, segments: seq<Segment>)
    requires segments != []
    ensures var front, last := segments[..|segments| - 1], segments[|segments| - 1];
            Covers(n, segments) <==> Covers(n, front) && (last.Slot? ==> CoversSlot(n, last.placeholder, AutoCount(front)))
  {
    hide AutoCount;
    var front := segments[..|segments| - 1];
    assert Used(front) <= Used(segments);
  }

  lemma {:induction false} LeastCount(segments: seq<Segment>, n: nat)
    requires NoLastIndex(segments)
    ensures Covers(n, segments) <==> n >= Max(AutoCount(segments), ExplicitRequired(segments))
    decreases |segments|
  {
    if segments != [] {
      hide Covers, Used;
      var k := |segments| - 1;
      var front := segments[..k];
      assert NoLastIndex(front);
      LeastCount(front, n);
      CoversNext(n, segments);
    } else {
      assert Used(segments) == {};
    }
  }

  lemma {:induction false} LastIndexUsed(segments: seq<Segment>, k: nat)
    requires k < |segments| && segments[k].Slot? && segments[k].placeholder.position.Some?
    ensures segments[k].placeholder.position.value in Used(segments)
    decreases |segments|
  {
    if k < |segments| - 1 {
      LastIndexUsed(segments[..|segments| - 1], k);
    }
  }

  lemma {:induction false} ExplicitFits(segments: seq<Segment>)
    ensures ExplicitRequired(segments) < USIZE
    decreases |segments|
  {
    if segments != [] {
      ExplicitFits(segments[..|segments| - 1]);
    }
  }

  /**
    The count covers every placeholder, and is the least that does, exactly when no explicit
    position is the largest machine word, whose successor wraps to zero (with fewer automatic
    placeholders than machine words).
   */
  lemma RequiredCountIff(segments: seq<Segment>)
    requires Normal(segments) && AutoCount(segments) < USIZE
    ensures Covers(Max(AutoCount(segments), ExplicitRequired(segments)), segments) <==> NoLastIndex(segments)
    ensures NoLastIndex(segments) ==>
              forall n: nat :: Covers(n, segments) <==> n >= Max(AutoCount(segments), ExplicitRequired(segments))
  {
    hide Covers, AutoCount, ExplicitRequired, Normal;
    var n := Max(AutoCount(segments), ExplicitRequired(segments));
    if NoLastIndex(segments) {
      LeastCount(segments, n);
      forall m: nat
        ensures Covers(m, segments) <==> m >= n
      {
        LeastCount(segments, m);
      }
    } else {
      var k :| 0 <= k < |segments| && segments[k].Slot? && segments[k].placeholder.position.Some?
            && segments[k].placeholder.position.value >= USIZE - 1;
      ExplicitFits(segments);
      LastIndexUsed(segments, k);
      NotCovered(segments, n, segments[k].placeholder.position.value);
    }
  }

  lemma NotCovered(segments: seq<Segment>, n: nat, i: nat)
    requires i in Used(segments) && n <= i
    ensures !Covers(n, segments)
  {
  }

  lemma OneSegment(x: Segment)
    ensures AutoCount([x]) == (if x.Slot? && x.placeholder.position.None? then 1 else 0)
    ensures x.Slot? && x.placeholder.position.Some? ==>
              ExplicitRequired([x]) == (x.placeholder.position.value + 1) % USIZE && x.placeholder.position.value in Used([x])
  {
    assert [x][..0] == [] && [x][..|[x]| - 1] == [];
    assert AutoCount([]) == 0 && ExplicitRequired([]) == 0;
  }

  /** Such a template parses: its placeholder reads the last index, and the count says none is needed. */
  lemma CountWraps()
    ensures var s := [Slot(Placeholder(Some(USIZE - 1), Display, Unaligned, None, None))];
            && Normal(s) && Parse(Print(s), "") == Ok(s)
            && Max(AutoCount(s), ExplicitRequired(s)) == 0 && !Covers(0, s)
  {
    var x := Slot(Placeholder(Some(USIZE - 1), Display, Unaligned, None, None));
    OneSegment(x);
    assert Normal([x]);
    hide Parse, Print, AutoCount, ExplicitRequired, Used, Normal;
    NotCovered([x], 0, USIZE - 1);
    ParseRoundTrip([x], "");
  }
}
