/**
  The templates that are refused, and why: the text in front of the fault is written in the
  template language, and the fault itself is one of three.
 */
module FormatErrors {
  import opened Options
  import opened FormatTemplate
  import opened FormatTheorems
  import opened FormatGrammar

  /** A closing brace that is not doubled. */
  predicate StrayClose(t: string)
  {
    t != "" && t[0] == '}' && (|t| > 1 ==> t[1] != '}')
  }

  /** An opening brace that is neither doubled nor ever closed. */
  predicate NeverClosed(t: string)
  {
    t != "" && t[0] == '{' && (|t| > 1 ==> t[1] != '{') && '}' !in t
  }

  /** A closed placeholder whose body spells none. */
  ghost predicate Unspelled(t: string, body: string)
  {
    && |t| >= |body| + 2 && t[..|body| + 2] == "{" + body + "}"
    && Plain(body) && forall p :: !SpellsBody(body, p)
  }

  /** The fault at the front of `t`, and the error it is reported as. */
  ghost predicate Faulty(t: string, error: Error)
  {
    match error
    case UnmatchedBrace => StrayClose(t) || NeverClosed(t)
    case UnsupportedSpec(body) => Unspelled(t, body)
  }

  ghost predicate Refused(t: string, units: seq<Unit>, rest: string, error: Error)
  {
    (forall u <- units :: ValidUnit(u)) && t == TextOf(units) + rest && Faulty(rest, error)
  }

  // ----- the scanner at a fault -----

  lemma NotSpelled(body: string)
    ensures ParsePlaceholder(body).Err? <==> forall p :: !SpellsBody(body, p)
    ensures ParsePlaceholder(body).Err? ==> ParsePlaceholder(body) == Err(UnsupportedSpec(body))
  {
    assert ParsePlaceholder(body).Err? ==> ParsePlaceholder(body) == Err(UnsupportedSpec(body));
    hide ParsePlaceholder, SpellsBody;
    if ParsePlaceholder(body).Ok? {
      BodyIff(body, ParsePlaceholder(body).value);
    } else {
      forall p
        ensures !SpellsBody(body, p)
      {
        BodyIff(body, p);
      }
    }
  }

  lemma CloseScan(t: string)
    requires t != "" && t[0] != '{'
    ensures StrayClose(t) ==> Scan(t) == Bad(UnmatchedBrace)
    ensures Scan(t).Bad? ==> StrayClose(t) && Scan(t) == Bad(UnmatchedBrace)
  {
  }

  lemma OpenScan(t: string)
    requires t != "" && t[0] == '{'
    ensures NeverClosed(t) ==> Scan(t) == Bad(UnmatchedBrace)
    ensures Scan(t) == Bad(UnmatchedBrace) ==> NeverClosed(t)
  {
    hide ParsePlaceholder, IndexOf;
    var close := IndexOf(t[1..], '}');
    if close < |t| - 1 {
      assert t[close + 1] == '}';
      NotSpelledError(t[1..][..close]);
    } else {
      assert forall k :: 1 <= k < |t| ==> t[k] == t[1..][k - 1];
    }
  }

  lemma NotSpelledError(body: string)
    ensures ParsePlaceholder(body).Err? ==> ParsePlaceholder(body).error == UnsupportedSpec(body)
  {
    NotSpelled(body);
  }

  lemma BodyScan(t: string, body: string)
    ensures Unspelled(t, body) ==> t != "" && Scan(t) == Bad(UnsupportedSpec(body))
  {
    if Unspelled(t, body) {
      NotSpelled(body);
      hide ParsePlaceholder, IndexOf, SpellsBody;
      var rest := t[|body| + 2..];
      assert t == "{" + body + "}" + rest;
      assert t[1..] == body + ['}'] + rest;
      FoundAt(body, '}', rest);
      assert t[1] == if body == "" then '}' else body[0];
    }
  }

  lemma ScannedBody(t: string, body: string)
    requires t != "" && Scan(t) == Bad(UnsupportedSpec(body))
    ensures Unspelled(t, body)
  {
    var close := IndexOf(t[1..], '}');
    NotSpelledError(t[1..][..close]);
    NotSpelled(t[1..][..close]);
    hide ParsePlaceholder, IndexOf, SpellsBody;
    HoleText(t, close);
    assert t[..close + 2] == "{" + t[1..close + 1] + "}";
  }

  /** The scanner reports exactly the faults. */
  lemma ScanFaultIff(t: string, error: Error)
    requires t != ""
    ensures Scan(t) == Bad(error) <==> Faulty(t, error)
  {
    hide Scan, StrayClose, NeverClosed, Unspelled;
    match error {
      case UnmatchedBrace =>
        FirstChar(t);
        if t[0] == '{' {
          OpenScan(t);
        } else {
          CloseScan(t);
        }
      case UnsupportedSpec(body) =>
        BodyScan(t, body);
        if Scan(t) == Bad(error) {
          ScannedBody(t, body);
        }
    }
  }

  lemma FirstChar(t: string)
    requires t != ""
    ensures StrayClose(t) ==> t[0] == '}'
    ensures NeverClosed(t) ==> t[0] == '{'
  {
  }

  // ----- whole templates -----

  lemma {:induction false} FaultRefused(units: seq<Unit>, rest: string, error: Error, literal: string)
    requires (forall u <- units :: ValidUnit(u)) && Faulty(rest, error)
    ensures Parse(TextOf(units) + rest, literal) == Err(error)
    decreases |units|
  {
    if units == [] {
      assert rest != "" by { hide SpellsBody; }
      assert "" + rest == rest;
      hide Scan, Faulty;
      ScanFaultIff(rest, error);
    } else {
      hide Parse, ValidUnit, UnitText, Faulty;
      var more := units[1..];
      assert TextOf(units) + rest == UnitText(units[0]) + (TextOf(more) + rest);
      ParseUnit(units[0], TextOf(more) + rest, literal);
      match units[0] {
        case Char(c) => FaultRefused(more, rest, error, literal + [c]);
        case Place(_, p) => FaultRefused(more, rest, error, "");
      }
    }
  }

  lemma ParseOnce(t: string, literal: string)
    requires Parse(t, literal).Err?
    ensures t != ""
    ensures Scan(t).Bad? ==> Parse(t, literal) == Err(Scan(t).error)
    ensures Scan(t).Letter? ==> Parse(t, literal) == Parse(t[Scan(t).length..], literal + [Scan(t).c])
    ensures Scan(t).Hole? ==>
              var rest := Parse(t[Scan(t).length..], ""); rest.Err? && Parse(t, literal) == rest
  {
    hide Scan;
  }

  lemma FaultFirst(t: string, error: Error)
    requires t != "" && Scan(t) == Bad(error)
    ensures Refused(t, [], t, error)
  {
    hide Scan, Faulty;
    ScanFaultIff(t, error);
    assert "" + t == t;
  }

  lemma UnitFirst(t: string, u: Unit, n: nat, more: seq<Unit>, rest: string, error: Error)
    requires n <= |t| && ValidUnit(u) && UnitText(u) + t[n..] == t && Refused(t[n..], more, rest, error)
    ensures Refused(t, [u] + more, rest, error)
  {
    hide ValidUnit, UnitText, Faulty;
    assert ([u] + more)[1..] == more;
    assert UnitText(u) + TextOf(more) + rest == UnitText(u) + (TextOf(more) + rest);
  }

  lemma {:induction false} RefusedFault(t: string, literal: string) returns (units: seq<Unit>, rest: string)
    requires Parse(t, literal).Err?
    ensures Refused(t, units, rest, Parse(t, literal).error)
    decreases |t|
  {
    hide *;
    ParseOnce(t, literal);
    match Scan(t) {
      case Bad(error) =>
        units, rest := [], t;
        FaultFirst(t, error);
      case Letter(c, n) =>
        var u := ScanIsUnit(t);
        units, rest := RefusedFault(t[n..], literal + [c]);
        UnitFirst(t, u, n, units, rest, Parse(t, literal).error);
        units := [u] + units;
      case Hole(p, n) =>
        var u := ScanIsUnit(t);
        units, rest := RefusedFault(t[n..], "");
        UnitFirst(t, u, n, units, rest, Parse(t, literal).error);
        units := [u] + units;
    }
  }

  /** A template is refused with an error exactly when well-written text ends in the fault of that name. */
  lemma RefusedIff(t: string, error: Error)
    ensures Parse(t, "") == Err(error) <==> exists units, rest :: Refused(t, units, rest, error)
  {
    if Parse(t, "") == Err(error) {
      hide Parse, Refused;
      var units, rest := RefusedFault(t, "");
    }
    if units, rest :| Refused(t, units, rest, error) {
      hide Parse, Faulty, ValidUnit;
      FaultRefused(units, rest, error, "");
    }
  }
}
