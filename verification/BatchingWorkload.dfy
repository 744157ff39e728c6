/**
  The generated workload: a linear congruential generator draws arrival times and lengths,
  the list is sorted, and the loop runs on it.
 */
module BatchingWorkload {
  import opened Batching
  import opened BatchingTheorems

  const M32: int := 0x1_0000_0000

  function PythonNext(state: nat): nat
  {
    (state * 1664525 + 1013904223) % M32
  }

  function RustNext(state: nat): nat
  {
    (state * 1664525 % M32 + 1013904223) % M32
  }

  lemma {:induction false} ModuloSame(a: nat, b: nat, q: nat)
    requires b == a + M32 * q
    ensures a % M32 == b % M32
  {
    if q > 0 {
      ModuloSame(a, b - M32, q - 1);
      assert (b - M32) % M32 == b % M32;
    }
  }

  lemma NextsAgree(state: nat)
    ensures RustNext(state) == PythonNext(state)
  {
    var product := state * 1664525;
    ModuloSame(product % M32 + 1013904223, product + 1013904223, product / M32);
  }

  /** One step back: subtract the increment, and divide by the multiplier modulo 2^32. */
  function Previous(state: nat): nat
  {
    (state + (M32 - 1013904223)) * 4276115653 % M32
  }

  lemma ProductModulo(x: nat, n: nat)
    ensures x % M32 * n % M32 == x * n % M32
  {
    var q, r := x / M32, x % M32;
    assert x * n == M32 * (q * n) + r * n;
    ModuloSame(r * n, x * n, q * n);
  }

  lemma Undone(x: nat)
    ensures x * 1664525 * 4276115653 % M32 == x % M32 && x * 4276115653 * 1664525 % M32 == x % M32
  {
    assert x * 1664525 * 4276115653 == x * 4276115653 * 1664525 == x + M32 * (1657219 * x);
    ModuloSame(x, x + M32 * (1657219 * x), 1657219 * x);
  }

  lemma PreviousNext(state: nat)
    requires state < M32
    ensures Previous(PythonNext(state)) == state
  {
    var less := M32 - 1013904223;
    var sum := state * 1664525 + 1013904223;
    ModuloSame(sum % M32 + less, sum + less, sum / M32);
    ModuloSame(state * 1664525, sum + less, 1);
    ProductModulo(sum % M32 + less, 4276115653);
    ProductModulo(state * 1664525, 4276115653);
    Undone(state);
  }

  lemma NextPrevious(state: nat)
    requires state < M32
    ensures PythonNext(Previous(state)) == state
  {
    var shifted := state + (M32 - 1013904223);
    Undone(shifted);
    ProductModulo(shifted * 4276115653, 1664525);
    var next := Previous(state) * 1664525;
    ModuloSame(next % M32 + 1013904223, next + 1013904223, next / M32);
    ModuloSame(shifted % M32 + 1013904223, state + M32, shifted / M32);
  }

  /** No two states have the same successor, and every state has a predecessor. */
  lemma NextPermutes(state: nat)
    requires state < M32
    ensures Previous(PythonNext(state)) == state && PythonNext(Previous(state)) == state
  {
    hide Previous, PythonNext;
    PreviousNext(state);
    NextPrevious(state);
  }

  /** The generator after `k` draws. */
  function Draw(seed: nat, k: nat): nat
  {
    if k == 0 then seed else PythonNext(Draw(seed, k - 1))
  }

  function Spread(total: nat): (n: nat)
    ensures n > 0
  {
    if total / 3 > 1 then total / 3 else 1
  }

  function LengthOf(seed: nat, maxLen: nat, i: nat): (n: nat)
    requires maxLen > 0
    ensures 1 <= n <= maxLen
  {
    1 + Draw(seed, 2 * i + 2) % maxLen
  }

  /** The arrivals before sorting: request `i` uses draws 2i + 1 and 2i + 2. */
  function Raw(total: nat, maxLen: nat, seed: nat): (a: seq<Arrival>)
    requires maxLen > 0
    ensures |a| == total
    ensures forall i :: 0 <= i < total ==> a[i].id == i && a[i].time < Spread(total)
    ensures forall i :: 0 <= i < total ==> a[i].length == LengthOf(seed, maxLen, i)
  {
    seq(total, i requires 0 <= i < total =>
      Arrival(Draw(seed, 2 * i + 1) % Spread(total), i, LengthOf(seed, maxLen, i)))
  }

  method PythonArrivals(total: nat, maxLen: nat, seed: int) returns (arrivals: seq<Arrival>)
    requires maxLen > 0
    ensures arrivals == Raw(total, maxLen, seed % M32)
  {
    hide PythonNext, Spread;
    arrivals := [];
    var state := seed % M32;
    var spread := Spread(total);
    for id := 0 to total
      invariant state == Draw(seed % M32, 2 * id)
      invariant arrivals == Raw(total, maxLen, seed % M32)[..id]
    {
      state := PythonNext(state);
      var arrival := state % spread;
      state := PythonNext(state);
      var remaining := 1 + state % maxLen;
      arrivals := arrivals + [Arrival(arrival, id, remaining)];
    }
  }

  method RustArrivals(total: nat, maxLen: nat, seed: nat) returns (arrivals: seq<Arrival>)
    requires maxLen > 0 && seed < M32
    ensures arrivals == Raw(total, maxLen, seed)
  {
    hide PythonNext, RustNext, Spread;
    arrivals := [];
    var state := seed;
    var spread := Spread(total);
    for id := 0 to total
      invariant state == Draw(seed, 2 * id)
      invariant arrivals == Raw(total, maxLen, seed)[..id]
    {
      NextsAgree(state);
      state := RustNext(state);
      var arrival := state % spread;
      NextsAgree(state);
      state := RustNext(state);
      var remaining := 1 + state % maxLen;
      arrivals := arrivals + [Arrival(arrival, id, remaining)];
    }
  }

  // ----- sorting by arrival time, then id -----

  predicate Before(x: Arrival, y: Arrival)
  {
    x.time < y.time || (x.time == y.time && x.id <= y.id)
  }

  ghost predicate IsSortOf(raw: seq<Arrival>, sorted: seq<Arrival>)
  {
    && multiset(raw) == multiset(sorted)
    && forall i, j :: 0 <= i < j < |sorted| ==> Before(sorted[i], sorted[j])
  }

  lemma SplitLast(a: seq<Arrival>)
    requires a != []
    ensures multiset(a) == multiset(a[..|a| - 1]) + multiset{a[|a| - 1]}
  {
    assert a == a[..|a| - 1] + [a[|a| - 1]];
  }

  ghost predicate UniqueIds(all: multiset<Arrival>)
  {
    forall x, y :: x in all && y in all && x.id == y.id ==> x == y
  }

  lemma SameLast(a: seq<Arrival>, b: seq<Arrival>)
    requires multiset(a) == multiset(b) && UniqueIds(multiset(a)) && a != [] && |a| == |b|
    requires forall i, j :: 0 <= i < j < |a| ==> Before(a[i], a[j])
    requires forall i, j :: 0 <= i < j < |b| ==> Before(b[i], b[j])
    ensures a[|a| - 1] == b[|b| - 1]
  {
    var x, y := a[|a| - 1], b[|b| - 1];
    assert x in multiset(a) && y in multiset(b);
    var i :| 0 <= i < |b| && b[i] == x;
    var j :| 0 <= j < |a| && a[j] == y;
    assert Before(x, y) && Before(y, x);
  }

  lemma SameFront(a: seq<Arrival>, b: seq<Arrival>)
    requires multiset(a) == multiset(b) && a != [] && b != [] && a[|a| - 1] == b[|b| - 1]
    ensures multiset(a[..|a| - 1]) == multiset(b[..|b| - 1]) && multiset(a[..|a| - 1]) <= multiset(a)
  {
    SplitLast(a);
    SplitLast(b);
    assert multiset(a[..|a| - 1]) == multiset(a) - multiset{a[|a| - 1]};
    assert multiset(b[..|b| - 1]) == multiset(b) - multiset{b[|b| - 1]};
  }

  lemma SameLength(a: seq<Arrival>, b: seq<Arrival>)
    requires multiset(a) == multiset(b)
    ensures |a| == |b|
  {
    assert |a| == |multiset(a)| && |b| == |multiset(b)|;
  }

  lemma SortsOfFront(raw: seq<Arrival>, a: seq<Arrival>, b: seq<Arrival>)
    requires IsSortOf(raw, a) && IsSortOf(raw, b) && UniqueIds(multiset(raw)) && a != [] && |a| == |b|
    ensures var n := |a| - 1;
            a[n] == b[n] && IsSortOf(a[..n], a[..n]) && IsSortOf(a[..n], b[..n]) && UniqueIds(multiset(a[..n]))
  {
    SameLast(a, b);
    hide UniqueIds, Before;
    SameFront(a, b);
    UniqueInPart(multiset(a[..|a| - 1]), multiset(a));
  }

  /** Any two sorts give the same list, so it does not matter whose sort is used. */
  lemma {:induction false} SortsAgree(raw: seq<Arrival>, a: seq<Arrival>, b: seq<Arrival>)
    requires IsSortOf(raw, a) && IsSortOf(raw, b) && UniqueIds(multiset(raw))
    ensures a == b
    decreases |a|
  {
    hide *;
    SortLength(raw, a, b);
    if a != [] {
      var n := |a| - 1;
      SortsOfFront(raw, a, b);
      SortsAgree(a[..n], a[..n], b[..n]);
      SameParts(a, b, n);
    }
  }

  lemma SortLength(raw: seq<Arrival>, a: seq<Arrival>, b: seq<Arrival>)
    requires IsSortOf(raw, a) && IsSortOf(raw, b)
    ensures |a| == |b|
  {
    hide Before;
    SameLength(a, b);
  }

  lemma SameParts(a: seq<Arrival>, b: seq<Arrival>, n: nat)
    requires |a| == |b| == n + 1 && a[..n] == b[..n] && a[n] == b[n]
    ensures a == b
  {
    assert a == a[..n] + [a[n]] && b == b[..n] + [b[n]];
  }

  lemma UniqueInPart(part: multiset<Arrival>, all: multiset<Arrival>)
    requires part <= all && UniqueIds(all)
    ensures UniqueIds(part)
  {
  }

  // ----- sorting does not change what is owed -----

  lemma RemoveAt(b: seq<Arrival>, k: nat)
    requires k < |b|
    ensures multiset(b) == multiset(b[..k] + b[k + 1..]) + multiset{b[k]}
    ensures Owed(Requests(b)) == Owed(Requests(b[..k] + b[k + 1..])) + Need(b[k].length)
    ensures OwedIds(Requests(b)) == OwedIds(Requests(b[..k] + b[k + 1..])) + multiset{}[b[k].id := Need(b[k].length)]
  {
    var u, x, v := b[..k], b[k], b[k + 1..];
    assert b == u + [x] + v;
    RequestsConcat(u + [x], v);
    RequestsConcat(u, [x]);
    RequestsConcat(u, v);
    OwedConcat(Requests(u + [x]), Requests(v));
    OwedConcat(Requests(u), Requests([x]));
    OwedConcat(Requests(u), Requests(v));
    OwedOne(x);
  }

  lemma OwedOne(x: Arrival)
    ensures Owed(Requests([x])) == Need(x.length)
    ensures OwedIds(Requests([x])) == multiset{}[x.id := Need(x.length)]
  {
    var r := Requests([x]);
    assert r[..0] == [];
  }

  lemma {:induction false} OwedPermutes(a: seq<Arrival>, b: seq<Arrival>)
    requires multiset(a) == multiset(b)
    ensures Owed(Requests(a)) == Owed(Requests(b))
    ensures OwedIds(Requests(a)) == OwedIds(Requests(b))
    decreases |a|
  {
    hide Owed, OwedIds, Requests;
    assert |a| == |multiset(a)| == |multiset(b)| == |b|;
    if a == [] {
      assert b == [];
    } else {
      var n := |a| - 1;
      assert a[n] in multiset(b);
      var k :| 0 <= k < |b| && b[k] == a[n];
      RemoveAt(a, n);
      RemoveAt(b, k);
      assert a[..n] + a[n + 1..] == a[..n];
      assert multiset(a[..n]) == multiset(a) - multiset{a[n]};
      assert multiset(b[..k] + b[k + 1..]) == multiset(b) - multiset{b[k]};
      OwedPermutes(a[..n], b[..k] + b[k + 1..]);
    }
  }

  // ----- the whole benchmark -----

  ghost predicate Answers(decode: (seq<int>, nat) -> seq<int>)
  {
    forall ids, step :: |decode(ids, step)| == |ids| && FitI64(decode(ids, step))
  }

  lemma {:induction false} NeverFails(p: Params, s: Load)
    requires Good(p, s) && Positive(p) && Answers(p.decode)
    ensures Run(p, PythonHost(), s).Ends?
    decreases Owed(Pending(p, s)), Gap(p, s)
  {
    hide Owed, Gap, Pending, Round, Run;
    if s.finished < |p.arrivals| {
      assert !RoundFails(p, PythonHost(), s);
      RunStep(p, PythonHost(), s);
      NeverFails(p, Round(p, PythonHost(), s));
    } else {
      RunStop(p, PythonHost(), s);
    }
  }

  lemma LastTimeBelow(arrivals: seq<Arrival>, raw: seq<Arrival>, bound: nat)
    requires multiset(raw) == multiset(arrivals) && bound > 0
    requires forall i :: 0 <= i < |raw| ==> raw[i].time < bound
    ensures LastTime(arrivals) < bound
  {
    forall i | 0 <= i < |arrivals|
      ensures arrivals[i].time < bound
    {
      assert arrivals[i] in multiset(raw);
    }
    if arrivals == [] {
      assert LastTime(arrivals) == 0;
    }
  }

  /**
    Every benchmark run with positive limits: request `i` is decoded exactly as often as the
    generator said, in at most the arrival spread plus one step per token, and both programs
    report the same numbers.
   */
  lemma BenchmarkRun(total: nat, maxLen: nat, seed: nat, p: Params, i: nat)
    requires maxLen > 0 && IsSortOf(Raw(total, maxLen, seed), p.arrivals) && Positive(p) && Answers(p.decode)
    requires i < total
    ensures Run(p, PythonHost(), START).Ends?
    ensures var l := Run(p, PythonHost(), START).load;
            && multiset(l.emitted)[i] == LengthOf(seed, maxLen, i)
            && l.tokens == Owed(Requests(Raw(total, maxLen, seed)))
            && l.step < Spread(total) + l.tokens
    ensures Visible(Run(p, RustHost(), START)) == Visible(Run(p, PythonHost(), START))
  {
    hide Run, Owed, OwedIds, Spread, LengthOf, LastTime, PythonHost, RustHost;
    var raw := Raw(total, maxLen, seed);
    var h := PythonHost();
    NeverFails(p, START);
    TokensConserved(p, h);
    StepBounds(p, h);
    OwedPermutes(raw, p.arrivals);
    var rs := Requests(raw);
    OwedToEach(rs, i);
    LastTimeBelow(p.arrivals, raw, Spread(total));
    ProgramsAgree(p);
  }
}
