/**
  The step-budgeted regular expression matcher, and the pattern language it decides.
 */
module Regex {
  import opened Words

  const MAX_PATTERN := 256
  const MAX_INPUT := 65536
  const STEP_LIMIT := 65536

  const DOLLAR: byte := 36
  const STAR: byte := 42
  const DOT: byte := 46
  const BACKSLASH: byte := 92
  const CARET: byte := 94

  datatype Verdict = No | Yes | Exhausted
  datatype Answer = Answer(verdict: Verdict, steps: nat)

  /** `sengoo_regex_match_at` on the pattern's text and the rest of the input. */
  function MatchAt(p: seq<byte>, t: seq<byte>, steps: nat): (a: Answer)
    ensures steps <= a.steps
    ensures steps <= STEP_LIMIT ==> a.steps <= STEP_LIMIT
    ensures a.verdict == Exhausted ==> a.steps >= STEP_LIMIT
    decreases |p|, |t| + 1
  {
    if p == [] then Answer(Yes, steps)
    else if p == [DOLLAR] then Answer(Yes, steps)
    else if p[0] == CARET then MatchAt(p[1..], t, steps)
    else if steps >= STEP_LIMIT then Answer(Exhausted, steps)
    else if p[0] == DOT && |p| > 1 && p[1] == STAR then StarLoop(p[2..], t, 0, steps + 1)
    else if t == [] then Answer(No, steps + 1)
    else if p[0] == DOT then MatchAt(p[1..], t[1..], steps + 1)
    else if p[0] == BACKSLASH && |p| > 1 then
      if t[0] != p[1] then Answer(No, steps + 1) else MatchAt(p[2..], t[1..], steps + 1)
    else if p[0] != t[0] then Answer(No, steps + 1)
    else MatchAt(p[1..], t[1..], steps + 1)
  }

  /** The loop of `.*`: try the rest of the pattern at every later position. */
  function StarLoop(p: seq<byte>, t: seq<byte>, i: nat, steps: nat): (a: Answer)
    requires i <= |t| + 1
    ensures steps <= a.steps
    ensures steps <= STEP_LIMIT ==> a.steps <= STEP_LIMIT
    ensures a.verdict == Exhausted ==> a.steps >= STEP_LIMIT
    decreases |p|, |t| + 1 + |t| + 1 - i
  {
    if i > |t| then Answer(No, steps)
    else
      var tail := MatchAt(p, t[i..], steps);
      if tail.verdict == No then StarLoop(p, t, i + 1, tail.steps) else tail
  }

  method Match(p: seq<byte>, t: seq<byte>, steps0: nat) returns (verdict: Verdict, steps: nat)
    ensures Answer(verdict, steps) == MatchAt(p, t, steps0)
    decreases |p|
  {
    steps := steps0;
    if p == [] {
      return Yes, steps;
    }
    if p[0] == DOLLAR && |p| == 1 {
      return Yes, steps;
    }
    if p[0] == CARET {
      verdict, steps := Match(p[1..], t, steps);
      return;
    }
    if steps >= STEP_LIMIT {
      return Exhausted, steps;
    }
    steps := steps + 1;
    var c := p[0];
    if c == DOT && |p| > 1 && p[1] == STAR {
      for i := 0 to |t| + 1
        invariant StarLoop(p[2..], t, i, steps) == MatchAt(p, t, steps0)
      {
        var tail, after := Match(p[2..], t[i..], steps);
        steps := after;
        if tail == Exhausted {
          return Exhausted, steps;
        }
        if tail == Yes {
          return Yes, steps;
        }
      }
      return No, steps;
    }
    if t == [] {
      return No, steps;
    }
    if c == DOT {
      verdict, steps := Match(p[1..], t[1..], steps);
      return;
    }
    if c == BACKSLASH && |p| > 1 {
      if t[0] != p[1] {
        return No, steps;
      }
      verdict, steps := Match(p[2..], t[1..], steps);
      return;
    }
    if c != t[0] {
      return No, steps;
    }
    verdict, steps := Match(p[1..], t[1..], steps);
  }

  // ----- the pattern language -----

  datatype Token = Byte(value: byte) | Any | AnyRun

  /** Carets are skipped wherever they stand unescaped, and so is a final dollar sign. */
  function Tokens(p: seq<byte>): seq<Token>
    decreases |p|
  {
    if p == [] || p == [DOLLAR] then []
    else if p[0] == CARET then Tokens(p[1..])
    else if p[0] == DOT && |p| > 1 && p[1] == STAR then [AnyRun] + Tokens(p[2..])
    else if p[0] == DOT then [Any] + Tokens(p[1..])
    else if p[0] == BACKSLASH && |p| > 1 then [Byte(p[1])] + Tokens(p[2..])
    else [Byte(p[0])] + Tokens(p[1..])
  }

  /** The words a token sequence denotes. */
  ghost predicate Denotes(ts: seq<Token>, w: seq<byte>)
    decreases |ts|
  {
    if ts == [] then w == []
    else match ts[0]
      case Byte(value) => w != [] && w[0] == value && Denotes(ts[1..], w[1..])
      case Any => w != [] && Denotes(ts[1..], w[1..])
      case AnyRun => exists i :: 0 <= i <= |w| && Denotes(ts[1..], w[i..])
  }

  /** Some prefix of the text is a word of the pattern. */
  ghost predicate PrefixMatch(ts: seq<Token>, t: seq<byte>)
  {
    exists k :: 0 <= k <= |t| && Denotes(ts, t[..k])
  }

  lemma MatchNothing(t: seq<byte>)
    ensures PrefixMatch([], t)
  {
    assert Denotes([], t[..0]);
  }

  lemma MatchOne(ts: seq<Token>, t: seq<byte>)
    requires ts != [] && !ts[0].AnyRun?
    ensures PrefixMatch(ts, t)
       <==> t != [] && (ts[0].Byte? ==> t[0] == ts[0].value) && PrefixMatch(ts[1..], t[1..])
  {
    if PrefixMatch(ts, t) {
      var k :| 0 <= k <= |t| && Denotes(ts, t[..k]);
      assert t[..k][1..] == t[1..][..k - 1];
    }
    if t != [] && (ts[0].Byte? ==> t[0] == ts[0].value) && PrefixMatch(ts[1..], t[1..]) {
      var k :| 0 <= k <= |t[1..]| && Denotes(ts[1..], t[1..][..k]);
      assert t[..k + 1][1..] == t[1..][..k];
      assert Denotes(ts, t[..k + 1]);
    }
  }

  ghost predicate MatchFrom(ts: seq<Token>, t: seq<byte>, i: nat)
  {
    exists j :: i <= j <= |t| && PrefixMatch(ts, t[j..])
  }

  lemma MatchRun(ts: seq<Token>, t: seq<byte>)
    requires ts != [] && ts[0].AnyRun?
    ensures PrefixMatch(ts, t) <==> MatchFrom(ts[1..], t, 0)
  {
    if PrefixMatch(ts, t) {
      var k :| 0 <= k <= |t| && Denotes(ts, t[..k]);
      var i :| 0 <= i <= |t[..k]| && Denotes(ts[1..], t[..k][i..]);
      assert t[..k][i..] == t[i..][..k - i];
      assert PrefixMatch(ts[1..], t[i..]);
    }
    if MatchFrom(ts[1..], t, 0) {
      var j :| 0 <= j <= |t| && PrefixMatch(ts[1..], t[j..]);
      var k :| 0 <= k <= |t[j..]| && Denotes(ts[1..], t[j..][..k]);
      assert t[..j + k][j..] == t[j..][..k];
      assert Denotes(ts, t[..j + k]);
    }
  }

  lemma MatchFromStep(ts: seq<Token>, t: seq<byte>, i: nat)
    ensures i <= |t| ==> (MatchFrom(ts, t, i) <==> PrefixMatch(ts, t[i..]) || MatchFrom(ts, t, i + 1))
    ensures i > |t| ==> !MatchFrom(ts, t, i)
  {
    hide PrefixMatch;
  }

  // ----- matching without a budget -----

  /** The verdict and the steps of the matcher when nothing stops it. */
  datatype Full = Full(yes: bool, cost: nat)

  function Spend(f: Full): Full
  {
    f.(cost := f.cost + 1)
  }

  function Unlimited(p: seq<byte>, t: seq<byte>): Full
    decreases |p|, |t| + 1
  {
    if p == [] || p == [DOLLAR] then Full(true, 0)
    else if p[0] == CARET then Unlimited(p[1..], t)
    else if p[0] == DOT && |p| > 1 && p[1] == STAR then Spend(UnlimitedRun(p[2..], t, 0))
    else if t == [] then Full(false, 1)
    else if p[0] == DOT then Spend(Unlimited(p[1..], t[1..]))
    else if p[0] == BACKSLASH && |p| > 1 then
      if t[0] != p[1] then Full(false, 1) else Spend(Unlimited(p[2..], t[1..]))
    else if p[0] != t[0] then Full(false, 1)
    else Spend(Unlimited(p[1..], t[1..]))
  }

  function UnlimitedRun(p: seq<byte>, t: seq<byte>, i: nat): Full
    requires i <= |t| + 1
    decreases |p|, |t| + 1 + |t| + 1 - i
  {
    if i > |t| then Full(false, 0)
    else
      var here := Unlimited(p, t[i..]);
      if here.yes then here
      else
        var later := UnlimitedRun(p, t, i + 1);
        Full(later.yes, here.cost + later.cost)
  }

  /** A matcher that starts at `steps` and needs `f.cost` more: it answers within the limit or stops at it. */
  function Within(f: Full, steps: nat): Answer
  {
    if f.cost == 0 || steps + f.cost <= STEP_LIMIT then Answer(if f.yes then Yes else No, steps + f.cost)
    else Answer(Exhausted, if steps < STEP_LIMIT then STEP_LIMIT else steps)
  }

  /** The budget never changes a verdict, and it runs out exactly when the true cost exceeds it. */
  lemma {:induction false} BudgetExact(p: seq<byte>, t: seq<byte>, steps: nat)
    ensures MatchAt(p, t, steps) == Within(Unlimited(p, t), steps)
    decreases |p|, |t| + 1
  {
    hide StarLoop, UnlimitedRun, Within, Spend;
    WithinNow(steps);
    if p != [] && p != [DOLLAR] {
      if p[0] == CARET {
        BudgetExact(p[1..], t, steps);
      } else if p[0] == DOT && |p| > 1 && p[1] == STAR {
        WithinSpend(UnlimitedRun(p[2..], t, 0), steps);
        BudgetExactRun(p[2..], t, 0, steps + 1);
      } else if t != [] {
        var k := if p[0] == BACKSLASH && |p| > 1 then 2 else 1;
        WithinSpend(Unlimited(p[k..], t[1..]), steps);
        BudgetExact(p[k..], t[1..], steps + 1);
      }
    }
  }

  lemma WithinNow(steps: nat)
    ensures Within(Full(true, 0), steps) == Answer(Yes, steps)
    ensures Within(Full(false, 1), steps) == if steps >= STEP_LIMIT then Answer(Exhausted, steps) else Answer(No, steps + 1)
  {
  }

  lemma WithinSpend(f: Full, steps: nat)
    ensures Within(Spend(f), steps) == if steps >= STEP_LIMIT then Answer(Exhausted, steps) else Within(f, steps + 1)
  {
  }

  lemma {:induction false} BudgetExactRun(p: seq<byte>, t: seq<byte>, i: nat, steps: nat)
    requires i <= |t| + 1
    ensures StarLoop(p, t, i, steps) == Within(UnlimitedRun(p, t, i), steps)
    decreases |p|, |t| + 1 + |t| + 1 - i
  {
    hide MatchAt, Unlimited;
    if i <= |t| {
      BudgetExact(p, t[i..], steps);
      BudgetExactRun(p, t, i + 1, MatchAt(p, t[i..], steps).steps);
    }
  }

  // ----- the verdict is right -----

  /** The unbudgeted matcher decides the declarative prefix match. */
  lemma {:induction false} UnlimitedCorrect(p: seq<byte>, t: seq<byte>)
    ensures Unlimited(p, t).yes <==> PrefixMatch(Tokens(p), t)
    decreases |p|, |t| + 1
  {
    hide PrefixMatch, MatchFrom, UnlimitedRun;
    var ts := Tokens(p);
    if p == [] || p == [DOLLAR] {
      MatchNothing(t);
    } else if p[0] == CARET {
      UnlimitedCorrect(p[1..], t);
    } else if ts[0].AnyRun? {
      assert ts[1..] == Tokens(p[2..]);
      MatchRun(ts, t);
      UnlimitedRunCorrect(p[2..], t, 0);
    } else {
      MatchOne(ts, t);
      var k := if p[0] == BACKSLASH && |p| > 1 then 2 else 1;
      assert ts[1..] == Tokens(p[k..]);
      if t != [] {
        UnlimitedCorrect(p[k..], t[1..]);
      }
    }
  }

  lemma {:induction false} UnlimitedRunCorrect(p: seq<byte>, t: seq<byte>, i: nat)
    requires i <= |t| + 1
    ensures UnlimitedRun(p, t, i).yes <==> MatchFrom(Tokens(p), t, i)
    decreases |p|, |t| + 1 + |t| + 1 - i
  {
    hide Unlimited, Tokens, PrefixMatch, MatchFrom;
    MatchFromStep(Tokens(p), t, i);
    if i <= |t| {
      UnlimitedCorrect(p, t[i..]);
      UnlimitedRunCorrect(p, t, i + 1);
    }
  }

  /** Unless the budget ran out, the matcher decides the declarative prefix match. */
  lemma VerdictCorrect(p: seq<byte>, t: seq<byte>, steps: nat)
    ensures MatchAt(p, t, steps).verdict != Exhausted ==>
              (MatchAt(p, t, steps).verdict == Yes <==> PrefixMatch(Tokens(p), t))
  {
    hide MatchAt, Unlimited, PrefixMatch, Tokens;
    BudgetExact(p, t, steps);
    UnlimitedCorrect(p, t);
  }

  // ----- the cost -----

  function Runs(p: seq<byte>): nat
    decreases |p|
  {
    if p == [] then 0
    else if p[0] == DOT && |p| > 1 && p[1] == STAR then 1 + Runs(p[2..])
    else if p[0] == BACKSLASH && |p| > 1 then Runs(p[2..])
    else Runs(p[1..])
  }

  function Power(b: nat, e: nat): (r: nat)
    ensures b > 0 ==> r > 0
  {
    if e == 0 then 1 else b * Power(b, e - 1)
  }

  lemma Shrink(len: nat, k: nat, power: nat)
    requires 0 < k <= len && power > 0
    ensures 1 + (len - k) * power <= len * power
  {
    assert len * power == (len - k) * power + k * power;
    assert k * power >= power;
  }

  lemma StarArithmetic(turns: nat, n: nat, len: nat, power: nat)
    requires turns <= n
    ensures turns * (len * power) <= len * (n * power)
  {
    assert turns * (len * power) <= n * (len * power);
    assert n * (len * power) == len * (n * power);
  }

  lemma OneTurn(turns: nat, bound: nat)
    ensures (turns + 1) * bound == bound + turns * bound
  {
  }

  /** The cost is at most pattern length times text length to the number of `.*`. */
  lemma {:induction false} CostBounded(p: seq<byte>, t: seq<byte>, n: nat)
    requires |t| < n
    ensures Unlimited(p, t).cost <= |p| * Power(n, Runs(p))
    decreases |p|, |t| + 1
  {
    hide UnlimitedRun;
    if p != [] && p != [DOLLAR] {
      if p[0] == CARET {
        hide Power;
        CostBounded(p[1..], t, n);
        Shrink(|p|, 1, Power(n, Runs(p)));
      } else if p[0] == DOT && |p| > 1 && p[1] == STAR {
        var rest := p[2..];
        assert Power(n, Runs(p)) == n * Power(n, Runs(rest));
        hide Power;
        RunBounded(rest, t, 0, n);
        StarArithmetic(|t| + 1, n, |rest|, Power(n, Runs(rest)));
        Shrink(|p|, 2, Power(n, Runs(p)));
      } else {
        hide Power;
        var k := if p[0] == BACKSLASH && |p| > 1 then 2 else 1;
        assert Runs(p) == Runs(p[k..]);
        Shrink(|p|, k, Power(n, Runs(p)));
        if t != [] {
          CostBounded(p[k..], t[1..], n);
        }
      }
    }
  }

  lemma {:induction false} RunBounded(p: seq<byte>, t: seq<byte>, i: nat, n: nat)
    requires i <= |t| + 1 && |t| < n
    ensures UnlimitedRun(p, t, i).cost <= (|t| + 1 - i) * (|p| * Power(n, Runs(p)))
    decreases |p|, |t| + 1 + |t| + 1 - i
  {
    hide Unlimited, Power, Runs;
    if i <= |t| {
      var bound := |p| * Power(n, Runs(p));
      CostBounded(p, t[i..], n);
      OneTurn(|t| - i, bound);
      RunBounded(p, t, i + 1, n);
    }
  }

  /** A pattern whose bound stays within the limit is always decided; without `.*` every accepted pattern is. */
  lemma NeverExhausted(p: seq<byte>, t: seq<byte>)
    requires |p| * Power(|t| + 1, Runs(p)) <= STEP_LIMIT || (Runs(p) == 0 && |p| <= MAX_PATTERN)
    ensures MatchAt(p, t, 0).verdict != Exhausted
    ensures MatchAt(p, t, 0).verdict == Yes <==> PrefixMatch(Tokens(p), t)
  {
    assert Runs(p) == 0 ==> Power(|t| + 1, Runs(p)) == 1;
    hide MatchAt, Power, Runs, PrefixMatch, Tokens, Unlimited;
    CostBounded(p, t, |t| + 1);
    BudgetExact(p, t, 0);
    VerdictCorrect(p, t, 0);
  }

  /** Exhaustion is reported exactly when the true cost passes the limit, and then with the counter at it. */
  lemma ExhaustedIff(p: seq<byte>, t: seq<byte>)
    ensures MatchAt(p, t, 0).verdict == Exhausted <==> Unlimited(p, t).cost > STEP_LIMIT
    ensures MatchAt(p, t, 0).verdict == Exhausted ==> MatchAt(p, t, 0).steps == STEP_LIMIT
    ensures MatchAt(p, t, 0).verdict == Exhausted ==> |p| * Power(|t| + 1, Runs(p)) > STEP_LIMIT
    ensures MatchAt(p, t, 0).verdict == Exhausted && |p| <= MAX_PATTERN ==> Runs(p) > 0
  {
    hide MatchAt, Power, Runs, PrefixMatch, Tokens, Unlimited;
    BudgetExact(p, t, 0);
    if MatchAt(p, t, 0).verdict == Exhausted {
      if |p| * Power(|t| + 1, Runs(p)) <= STEP_LIMIT || (Runs(p) == 0 && |p| <= MAX_PATTERN) {
        NeverExhausted(p, t);
      }
    }
  }

  // ----- an input that exhausts the budget -----

  /** `n` times the letter a. */
  function Letters(n: nat): (t: seq<byte>)
    ensures |t| == n
  {
    seq(n, i => 97)
  }

  lemma {:induction false} SearchCost(n: nat, i: nat)
    requires i <= n + 1
    ensures UnlimitedRun([98], Letters(n), i) == Full(false, n + 1 - i)
    decreases n + 1 - i
  {
    if i <= n {
      var rest := Letters(n)[i..];
      assert rest == [] || rest[0] == 97;
      assert Unlimited([98], rest) == Full(false, 1);
      SearchCost(n, i + 1);
    }
  }

  /** The pattern `.*b` on the longest text without a b. */
  lemma LongTextExhausts()
    ensures MatchAt([DOT, STAR, 98], Letters(MAX_INPUT), 0) == Answer(Exhausted, STEP_LIMIT)
  {
    var p := [DOT, STAR, 98];
    assert p[2..] == [98];
    SearchCost(MAX_INPUT, 0);
    hide UnlimitedRun, MatchAt, Letters;
    assert Unlimited(p, Letters(MAX_INPUT)) == Full(false, MAX_INPUT + 2);
    hide Unlimited;
    BudgetExact(p, Letters(MAX_INPUT), 0);
  }

  // ----- the entry points -----

  const INVALID_ARGUMENT := 2
  const UNSUPPORTED := 8

  /** The C string a compiled pattern holds: the bytes before the first NUL. */
  function CString(s: seq<byte>): (r: seq<byte>)
    ensures |r| <= |s|
  {
    if s == [] || s[0] == 0 then [] else [s[0]] + CString(s[1..])
  }

  predicate Compiles(pattern: seq<byte>)
  {
    0 < |pattern| <= MAX_PATTERN
  }

  /** `sengoo_regex_is_match` on a compiled pattern: 1 or 0, or a negative status. */
  method IsMatch(pattern: seq<byte>, text: seq<byte>) returns (r: int)
    requires Compiles(pattern)
    ensures |text| > MAX_INPUT <==> r == -INVALID_ARGUMENT
    ensures r == 1 ==> PrefixMatch(Tokens(CString(pattern)), text)
    ensures r == 0 ==> !PrefixMatch(Tokens(CString(pattern)), text)
    ensures r == 1 || r == 0 || r == -INVALID_ARGUMENT || r == -UNSUPPORTED
    ensures |text| <= MAX_INPUT ==> (r == -UNSUPPORTED <==> Unlimited(CString(pattern), text).cost > STEP_LIMIT)
    ensures r == -UNSUPPORTED ==> Runs(CString(pattern)) > 0
  {
    if |text| > MAX_INPUT {
      return -INVALID_ARGUMENT;
    }
    var p := CString(pattern);
    var matched, steps := Match(p, text, 0);
    hide MatchAt, Tokens, PrefixMatch, Runs, CString, Power, Unlimited;
    ExhaustedIff(p, text);
    if matched == Exhausted {
      return -UNSUPPORTED;
    }
    VerdictCorrect(p, text, 0);
    r := if matched == Yes then 1 else 0;
  }
}
