/**
  The template language itself, and the proof that the parser accepts exactly this language.
 */
module FormatGrammar {
  import opened Options
  import opened FormatTemplate
  import opened FormatTheorems

  // ----- numbers -----

  predicate Decimals(s: string)
  {
    s != "" && forall k :: 0 <= k < |s| ==> '0' <= s[k] <= '9'
  }

  /** The value of decimal digits, most significant first. */
  function NumberOf(s: string): int
  {
    if s == "" then 0 else NumberOf(s[..|s| - 1]) * 10 + (s[|s| - 1] as int - '0' as int)
  }

  /** Digits, possibly after a plus sign, of a number that fits a `usize`. */
  predicate SpellsNumber(s: string, n: nat)
  {
    && n < USIZE
    && ((Decimals(s) && NumberOf(s) == n) || (s != "" && s[0] == '+' && Decimals(s[1..]) && NumberOf(s[1..]) == n))
  }

  lemma {:induction false} DecimalIff(s: string)
    ensures DecimalValue(s).Some? <==> forall k :: 0 <= k < |s| ==> '0' <= s[k] <= '9'
    ensures DecimalValue(s).Some? ==> DecimalValue(s).value == NumberOf(s)
    decreases |s|
  {
    if s != "" {
      DecimalIff(s[..|s| - 1]);
    }
  }

  /** The parser reads a number from exactly its spellings. */
  lemma NumberIff(s: string, n: nat)
    ensures ParseUsize(s) == Some(n) <==> SpellsNumber(s, n)
  {
    DecimalIff(s);
    if s != "" {
      DecimalIff(s[1..]);
    }
    hide DecimalValue, NumberOf;
    assert Decimals(s) ==> s[0] != '+';
  }

  lemma NumberChars(s: string, n: nat)
    requires SpellsNumber(s, n)
    ensures s != "" && forall k :: 0 <= k < |s| ==> s[k] == '+' || '0' <= s[k] <= '9'
  {
    hide NumberOf;
    assert forall k :: 1 <= k < |s| ==> s[k] == s[1..][k - 1];
  }

  // ----- placeholders -----

  /** A width: nothing, or '>' and a number. */
  ghost predicate SpellsWidth(s: string, p: Placeholder)
  {
    if p.width.None? then s == "" && p.align == Unaligned
    else s != "" && s[0] == '>' && SpellsNumber(s[1..], p.width.value) && p.align == Right
  }

  /** A precision: nothing, or '.' and a number. */
  ghost predicate SpellsPrecision(s: string, p: Placeholder)
  {
    if p.precision.None? then s == "" else s != "" && s[0] == '.' && SpellsNumber(s[1..], p.precision.value)
  }

  ghost predicate SpellsSpec(spec: string, p: Placeholder)
  {
    if p.style == Debug then spec == "?" && p.align == Unaligned && p.width.None? && p.precision.None?
    else exists w, q :: SpellsParts(spec, w, q, p)
  }

  ghost predicate SpellsParts(spec: string, w: string, q: string, p: Placeholder)
  {
    spec == w + q && SpellsWidth(w, p) && SpellsPrecision(q, p)
  }

  ghost predicate SpellsPosition(s: string, p: Placeholder)
  {
    if p.position.None? then s == "" else SpellsNumber(s, p.position.value)
  }

  /** A body: a position, and possibly a colon and a spec. */
  ghost predicate SpellsBody(body: string, p: Placeholder)
  {
    || (SpellsPosition(body, p) && SpellsSpec("", p))
    || exists position, spec :: SpellsBoth(body, position, spec, p)
  }

  ghost predicate SpellsBoth(body: string, position: string, spec: string, p: Placeholder)
  {
    body == position + [':'] + spec && SpellsPosition(position, p) && SpellsSpec(spec, p)
  }

  lemma WidthParsed(w: string, p: Placeholder)
    requires p.style == Display
    ensures SpellsWidth(w, p) <==> ParseMain(w) == Some((p.align, p.width))
    ensures SpellsWidth(w, p) ==> (forall k :: 0 <= k < |w| ==> w[k] != '.') && w != "?"
  {
    hide ParseUsize, SpellsNumber;
    if p.width.Some? && w != "" {
      NumberIff(w[1..], p.width.value);
    }
    if SpellsWidth(w, p) && p.width.Some? {
      NumberChars(w[1..], p.width.value);
      assert forall k :: 1 <= k < |w| ==> w[k] == w[1..][k - 1];
    }
  }

  lemma SpecSpelled(spec: string, p: Placeholder)
    requires SpellsSpec(spec, p)
    ensures ParseSpec(p.position, spec) == Some(p)
  {
    if p.style == Display {
      hide ParseUsize, ParseMain, ParseSpec, SpellsWidth, SpellsNumber;
      var w, q :| SpellsParts(spec, w, q, p);
      WidthParsed(w, p);
      if p.precision.Some? {
        NumberIff(q[1..], p.precision.value);
        assert spec == w + ['.'] + q[1..];
        SpecWithDot(p.position, w, q[1..]);
      } else {
        assert spec == w;
        if w != "" {
          SpecWithoutDot(p.position, w);
        } else {
          EmptySpec(p);
        }
      }
    }
  }

  lemma EmptySpec(p: Placeholder)
    requires p.style == Display && SpellsWidth("", p) && p.precision.None?
    ensures ParseSpec(p.position, "") == Some(p)
  {
    hide ParseUsize;
  }

  lemma SpecParsed(position: Option<nat>, spec: string)
    requires ParseSpec(position, spec).Some?
    ensures SpellsSpec(spec, ParseSpec(position, spec).value) && ParseSpec(position, spec).value.position == position
  {
    hide ParseUsize, ParseMain, IndexOf, SpellsWidth, SpellsNumber;
    var p := ParseSpec(position, spec).value;
    if p.style == Display {
      var dot := IndexOf(spec, '.');
      var w, q := spec[..dot], spec[dot..];
      assert spec == w + q;
      if spec == "" {
        assert SpellsWidth("", p) by { NoWidth(p); }
        assert SpellsParts(spec, "", "", p);
      } else {
        WidthParsed(w, p);
        assert q == "" || q[1..] == spec[dot + 1..];
        if p.precision.Some? {
          NumberIff(q[1..], p.precision.value);
        }
        assert SpellsParts(spec, w, q, p);
      }
    }
  }

  lemma NoWidth(p: Placeholder)
    requires p.width.None? && p.align == Unaligned
    ensures SpellsWidth("", p)
  {
  }

  lemma PositionText(s: string, p: Placeholder)
    requires SpellsPosition(s, p)
    ensures forall k :: 0 <= k < |s| ==> s[k] != ':'
    ensures (s != "" ==> ParseUsize(s).Some?) && p.position == if s == "" then None else ParseUsize(s)
  {
    hide ParseUsize, SpellsNumber;
    if p.position.Some? {
      NumberChars(s, p.position.value);
      NumberIff(s, p.position.value);
    }
  }

  lemma BodySpelled(body: string, p: Placeholder)
    requires SpellsBody(body, p)
    ensures ParsePlaceholder(body) == Ok(p)
  {
    hide ParseUsize, ParseSpec, ParsePlaceholder, SpellsSpec, SpellsPosition;
    if SpellsPosition(body, p) && SpellsSpec("", p) {
      PositionText(body, p);
      SpecSpelled("", p);
      BodyWithoutColon(body);
    } else {
      var position, spec :| SpellsBoth(body, position, spec, p);
      PositionText(position, p);
      SpecSpelled(spec, p);
      BodyWithColon(position, spec);
    }
  }

  lemma BodyParsed(body: string)
    requires ParsePlaceholder(body).Ok?
    ensures SpellsBody(body, ParsePlaceholder(body).value)
  {
    hide ParseUsize, ParseSpec, IndexOf, SpellsSpec, SpellsNumber;
    var p := ParsePlaceholder(body).value;
    var colon := IndexOf(body, ':');
    var position := body[..colon];
    var spec := if colon < |body| then body[colon + 1..] else "";
    SpecParsed(if position == "" then None else ParseUsize(position), spec);
    if p.position.Some? {
      NumberIff(position, p.position.value);
    }
    assert SpellsPosition(position, p);
    if colon < |body| {
      assert body == position + [':'] + spec;
      assert SpellsBoth(body, position, spec, p);
    } else {
      assert body == position;
    }
  }

  /** A placeholder body is accepted, as `p`, exactly when it spells `p`. */
  lemma BodyIff(body: string, p: Placeholder)
    ensures ParsePlaceholder(body) == Ok(p) <==> SpellsBody(body, p)
  {
    hide ParsePlaceholder, SpellsBody;
    if ParsePlaceholder(body) == Ok(p) {
      BodyParsed(body);
    }
    if SpellsBody(body, p) {
      BodySpelled(body, p);
    }
  }

  // ----- templates -----

  datatype Unit = Char(c: char) | Place(body: string, placeholder: Placeholder)

  /** A body stops at the first closing brace and does not begin with an opening one. */
  predicate Plain(body: string)
  {
    (forall k :: 0 <= k < |body| ==> body[k] != '}') && (body != "" ==> body[0] != '{')
  }

  ghost predicate ValidUnit(u: Unit)
  {
    u.Place? ==> SpellsBody(u.body, u.placeholder) && Plain(u.body)
  }

  /** Braces are doubled in literals, placeholders stand in single braces. */
  function UnitText(u: Unit): (s: string)
    ensures s != ""
  {
    match u
    case Char(c) => EscapeChar(c)
    case Place(body, _) => "{" + body + "}"
  }

  function TextOf(units: seq<Unit>): string
  {
    if units == [] then "" else UnitText(units[0]) + TextOf(units[1..])
  }

  /** The segments of a template: runs of characters, and placeholders. */
  function Grouped(units: seq<Unit>, literal: string): seq<Segment>
    decreases |units|
  {
    if units == [] then Flush(literal)
    else match units[0]
      case Char(c) => Grouped(units[1..], literal + [c])
      case Place(_, p) => Flush(literal) + [Slot(p)] + Grouped(units[1..], "")
  }

  ghost predicate Template(t: string, units: seq<Unit>)
  {
    (forall u <- units :: ValidUnit(u)) && t == TextOf(units)
  }

  lemma ScanPlace(body: string, p: Placeholder, rest: string)
    requires ValidUnit(Place(body, p))
    ensures Scan("{" + body + "}" + rest) == Hole(p, |body| + 2)
    ensures ("{" + body + "}" + rest)[|body| + 2..] == rest
  {
    hide ParsePlaceholder, IndexOf, SpellsBody;
    var t := "{" + body + "}" + rest;
    BodySpelled(body, p);
    assert t[1..] == body + ['}'] + rest;
    FoundAt(body, '}', rest);
    assert t[1] == if body == "" then '}' else body[0];
  }

  lemma ParseUnit(u: Unit, rest: string, literal: string)
    requires ValidUnit(u)
    ensures Parse(UnitText(u) + rest, literal)
         == if u.Char? then Parse(rest, literal + [u.c])
            else Prepend(Flush(literal) + [Slot(u.placeholder)], Parse(rest, ""))
  {
    match u {
      case Char(c) =>
        hide Parse, EscapeChar;
        ParseLetter(c, rest, literal);
      case Place(body, p) =>
        hide Scan, ValidUnit;
        ScanPlace(body, p, rest);
        assert UnitText(u) + rest == "{" + body + "}" + rest;
    }
  }

  lemma {:induction false} TemplateParses(units: seq<Unit>, literal: string)
    requires forall u <- units :: ValidUnit(u)
    ensures Parse(TextOf(units), literal) == Ok(Grouped(units, literal))
    decreases |units|
  {
    if units != [] {
      hide Parse, ValidUnit, UnitText;
      var rest := units[1..];
      ParseUnit(units[0], TextOf(rest), literal);
      match units[0] {
        case Char(c) => TemplateParses(rest, literal + [c]);
        case Place(_, p) => TemplateParses(rest, "");
      }
    }
  }

  /** What the scanner takes from the front is one unit of the language. */
  lemma ScanIsUnit(t: string) returns (u: Unit)
    requires t != "" && !Scan(t).Bad?
    ensures ValidUnit(u) && UnitText(u) + t[Scan(t).length..] == t
    ensures Scan(t).Letter? ==> u == Char(Scan(t).c)
    ensures Scan(t).Hole? ==> u.Place? && u.placeholder == Scan(t).placeholder
  {
    hide *;
    ScannedText(t);
    match Scan(t) {
      case Letter(c, n) =>
        u := Char(c);
        UnitParts(u);
      case Hole(p, n) =>
        u := Place(t[1..n - 1], p);
        BodyParsed(u.body);
        UnitParts(u);
    }
  }

  lemma UnitParts(u: Unit)
    ensures u.Char? ==> ValidUnit(u) && UnitText(u) == EscapeChar(u.c)
    ensures u.Place? ==> UnitText(u) == "{" + u.body + "}"
    ensures u.Place? && SpellsBody(u.body, u.placeholder) && Plain(u.body) ==> ValidUnit(u)
  {
    hide SpellsBody, Plain, EscapeChar;
  }

  /** The text of what the scanner takes. */
  lemma ScannedText(t: string)
    requires t != ""
    ensures match Scan(t)
            case Bad(_) => true
            case Letter(c, n) => n <= |t| && t == EscapeChar(c) + t[n..]
            case Hole(p, n) =>
              2 <= n <= |t| && t == "{" + t[1..n - 1] + "}" + t[n..]
              && ParsePlaceholder(t[1..n - 1]) == Ok(p) && Plain(t[1..n - 1])
  {
    hide ParsePlaceholder, IndexOf;
    if Scan(t).Hole? {
      var close := IndexOf(t[1..], '}');
      HoleText(t, close);
      assert Plain(t[1..][..close]);
    }
  }

  lemma HoleText(t: string, close: nat)
    requires t != "" && t[0] == '{' && close + 1 < |t| && t[1..][close] == '}'
    ensures t[1..][..close] == t[1..close + 1] && t == "{" + t[1..close + 1] + "}" + t[close + 2..]
  {
    assert t[1..][close] == t[close + 1];
  }

  lemma {:induction false} ParsedTemplate(t: string, literal: string) returns (units: seq<Unit>)
    requires Parse(t, literal).Ok?
    ensures Template(t, units) && Parse(t, literal).value == Grouped(units, literal)
    decreases |t|
  {
    if t == "" {
      units := [];
    } else {
      hide Scan, ValidUnit, UnitText;
      var u := ScanIsUnit(t);
      var n := Scan(t).length;
      var rest: seq<Unit>;
      match Scan(t) {
        case Letter(c, _) => rest := ParsedTemplate(t[n..], literal + [c]);
        case Hole(p, _) => rest := ParsedTemplate(t[n..], "");
      }
      units := [u] + rest;
      assert units[1..] == rest;
    }
  }

  /** A template parses to `segments` exactly when it is written in the language and groups to them. */
  lemma ParsesIff(t: string, segments: seq<Segment>)
    ensures Parse(t, "") == Ok(segments) <==> exists units :: Template(t, units) && segments == Grouped(units, "")
  {
    hide Parse, ValidUnit, Grouped;
    if Parse(t, "") == Ok(segments) {
      var units := ParsedTemplate(t, "");
      assert Template(t, units) && segments == Grouped(units, "");
    }
    if units :| Template(t, units) && segments == Grouped(units, "") {
      TemplateParses(units, "");
    }
  }
}
