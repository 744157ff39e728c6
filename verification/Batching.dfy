/**
  The continuous-batching loop of the scheduler benchmark, written once in Python and
  once in Rust. Each round admits arrived requests, decodes one token for the requests at
  the front of the active list, and drops the ones that are done.
 */
module Batching {

  datatype Arrival = Arrival(time: nat, id: int, length: int)
  datatype Request = Request(id: int, remaining: int)

  /** `decode` is the kernel at a fixed iteration count: request ids and step to tokens. */
  datatype Params = Params(arrivals: seq<Arrival>, maxBatch: nat, maxNew: nat, decode: (seq<int>, nat) -> seq<int>)

  /** How the host language adds to the checksum, and which token lists it can take over. */
  datatype Host = Host(add: (int, int, int, nat) -> int, accepts: seq<int> -> bool)

  /** One call of the kernel: at which step, on which active list, and its answer. */
  datatype Call = Call(step: nat, active: seq<Request>, tokens: seq<int>)

  /** The loop variables, the ids decoded so far in order, and the kernel calls made. */
  datatype Load = Load(idx: nat, active: seq<Request>, finished: nat, checksum: int,
                       tokens: nat, step: nat, emitted: seq<int>, calls: seq<Call>)

  /** How a run of the loop ends, and what its caller sees of it. */
  datatype Ending = Ends(load: Load) | Fails
  datatype Outcome = Returned(checksum: int, tokens: nat, step: nat) | Failed

  function Visible(e: Ending): Outcome
  {
    match e
    case Ends(l) => Returned(l.checksum, l.tokens, l.step)
    case Fails => Failed
  }

  // ----- one round -----

  function Admissible(p: Params, idx: nat, step: nat, room: nat): (n: nat)
    requires idx <= |p.arrivals|
    ensures idx + n <= |p.arrivals| && n <= room
    ensures n == 0 <==> idx == |p.arrivals| || p.arrivals[idx].time > step || room == 0
    decreases room
  {
    if idx < |p.arrivals| && p.arrivals[idx].time <= step && room > 0
    then 1 + Admissible(p, idx + 1, step, room - 1) else 0
  }

  function Requests(arrivals: seq<Arrival>): (r: seq<Request>)
    ensures |r| == |arrivals|
  {
    seq(|arrivals|, i requires 0 <= i < |arrivals| => Request(arrivals[i].id, arrivals[i].length))
  }

  function IdsOf(batch: seq<Request>): (ids: seq<int>)
    ensures |ids| == |batch|
  {
    seq(|batch|, i requires 0 <= i < |batch| => batch[i].id)
  }

  /** The requests of a decoded batch that want more tokens. */
  function Unfinished(batch: seq<Request>): (rest: seq<Request>)
    ensures |rest| <= |batch|
  {
    if batch == [] then [] else
      var front, r := Unfinished(batch[..|batch| - 1]), batch[|batch| - 1];
      if r.remaining - 1 <= 0 then front else front + [Request(r.id, r.remaining - 1)]
  }

  function Summed(h: Host, checksum: int, batch: seq<Request>, tokens: seq<int>, step: nat): int
    requires |batch| == |tokens|
  {
    if batch == [] then checksum else
      var n := |batch| - 1;
      h.add(Summed(h, checksum, batch[..n], tokens[..n], step), tokens[n], batch[n].id, step)
  }

  function Admit(p: Params, s: Load): Load
    requires s.idx <= |p.arrivals|
  {
    var n := Admissible(p, s.idx, s.step, p.maxNew);
    s.(idx := s.idx + n, active := s.active + Requests(p.arrivals[s.idx..s.idx + n]))
  }

  function Consumed(p: Params, active: seq<Request>): (n: nat)
    ensures n <= |active| && n <= p.maxBatch
    ensures n == 0 <==> |active| == 0 || p.maxBatch == 0
  {
    if p.maxBatch < |active| then p.maxBatch else |active|
  }

  predicate Decodes(p: Params, h: Host, s: Load)
  {
    var batch := s.active[..Consumed(p, s.active)];
    var tokens := p.decode(IdsOf(batch), s.step);
    h.accepts(tokens) && |tokens| == |batch|
  }

  function Decode(p: Params, h: Host, s: Load): Load
    requires Decodes(p, h, s)
  {
    var batch := s.active[..Consumed(p, s.active)];
    var rest := Unfinished(batch);
    Load(s.idx, rest + s.active[|batch|..], s.finished + |batch| - |rest|,
         Summed(h, s.checksum, batch, p.decode(IdsOf(batch), s.step), s.step),
         s.tokens + |batch|, s.step + 1, s.emitted + IdsOf(batch),
         s.calls + [Call(s.step, s.active, p.decode(IdsOf(batch), s.step))])
  }

  predicate RoundFails(p: Params, h: Host, s: Load)
    requires s.idx <= |p.arrivals|
  {
    Admit(p, s).active != [] && !Decodes(p, h, Admit(p, s))
  }

  function Round(p: Params, h: Host, s: Load): Load
    requires s.idx <= |p.arrivals| && !RoundFails(p, h, s)
  {
    var a := Admit(p, s);
    if a.active == [] then a.(step := a.step + 1) else Decode(p, h, a)
  }

  const START := Load(0, [], 0, 0, 0, 0, [], [])

  // ----- what is still owed -----

  /** Tokens a request gets: its length, but at least one. */
  function Need(length: int): nat
  {
    if length <= 0 then 1 else length
  }

  function Owed(rs: seq<Request>): nat
  {
    if rs == [] then 0 else Owed(rs[..|rs| - 1]) + Need(rs[|rs| - 1].remaining)
  }

  /** Whose tokens they are: each id as often as it will be decoded. */
  function OwedIds(rs: seq<Request>): multiset<int>
  {
    if rs == [] then multiset{} else
      OwedIds(rs[..|rs| - 1]) + multiset{}[rs[|rs| - 1].id := Need(rs[|rs| - 1].remaining)]
  }

  predicate Good(p: Params, s: Load)
  {
    s.idx <= |p.arrivals| && s.finished + |s.active| == s.idx
  }

  function Pending(p: Params, s: Load): seq<Request>
    requires s.idx <= |p.arrivals|
  {
    s.active + Requests(p.arrivals[s.idx..])
  }

  /** Rounds until the next arrival, when nothing is active. */
  function Gap(p: Params, s: Load): nat
  {
    if s.active == [] && s.idx < |p.arrivals| && p.arrivals[s.idx].time > s.step
    then p.arrivals[s.idx].time - s.step else 0
  }

  // ----- lemmas on Owed -----

  lemma {:induction false} OwedConcat(a: seq<Request>, b: seq<Request>)
    ensures Owed(a + b) == Owed(a) + Owed(b)
    ensures OwedIds(a + b) == OwedIds(a) + OwedIds(b)
    decreases |b|
  {
    if b == [] {
      assert a + b == a;
    } else {
      var n := |b| - 1;
      assert (a + b)[..|a + b| - 1] == a + b[..n];
      OwedConcat(a, b[..n]);
    }
  }

  /** Decoding a batch pays one token per request, and forgets nobody who is owed more. */
  lemma {:induction false} DecodePays(batch: seq<Request>)
    ensures Owed(Unfinished(batch)) + |batch| == Owed(batch)
    ensures OwedIds(Unfinished(batch)) + multiset(IdsOf(batch)) == OwedIds(batch)
    decreases |batch|
  {
    if batch != [] {
      var n := |batch| - 1;
      var front, r := batch[..n], batch[n];
      DecodePays(front);
      assert IdsOf(batch) == IdsOf(front) + [r.id];
      var rest := Unfinished(front);
      if r.remaining - 1 > 0 {
        assert (rest + [Request(r.id, r.remaining - 1)])[..|rest|] == rest;
      }
    }
  }

  lemma RequestsConcat(a: seq<Arrival>, b: seq<Arrival>)
    ensures Requests(a + b) == Requests(a) + Requests(b)
  {
  }

  /** Admission moves requests from the arrival list to the active list, in order. */
  lemma AdmitKeeps(p: Params, s: Load)
    requires Good(p, s)
    ensures Good(p, Admit(p, s)) && Pending(p, Admit(p, s)) == Pending(p, s)
  {
    var n := Admissible(p, s.idx, s.step, p.maxNew);
    var arrived, later := p.arrivals[s.idx..s.idx + n], p.arrivals[s.idx + n..];
    assert p.arrivals[s.idx..] == arrived + later;
    RequestsConcat(arrived, later);
  }

  lemma DecodeKeeps(p: Params, h: Host, s: Load)
    requires Good(p, s) && Decodes(p, h, s)
    ensures var t, n := Decode(p, h, s), Consumed(p, s.active);
            && Good(p, t) && t.tokens == s.tokens + n
            && Owed(Pending(p, t)) + n == Owed(Pending(p, s))
            && multiset(t.emitted) + OwedIds(Pending(p, t)) == multiset(s.emitted) + OwedIds(Pending(p, s))
  {
    hide Summed, Decodes, Owed, OwedIds, Unfinished, IdsOf, Requests;
    var n := Consumed(p, s.active);
    var batch, rest := s.active[..n], s.active[n..];
    var later := Requests(p.arrivals[s.idx..]);
    var t := Decode(p, h, s);
    assert Pending(p, s) == batch + (rest + later);
    assert Pending(p, t) == Unfinished(batch) + (rest + later);
    OwedConcat(batch, rest + later);
    OwedConcat(Unfinished(batch), rest + later);
    DecodePays(batch);
    assert multiset(t.emitted) == multiset(s.emitted) + multiset(IdsOf(batch));
  }

  // ----- the run -----

  lemma RoundShrinks(p: Params, h: Host, s: Load)
    requires Good(p, s) && s.finished < |p.arrivals| && p.maxBatch > 0 && p.maxNew > 0
    requires !RoundFails(p, h, s)
    ensures var t := Round(p, h, s);
            && Good(p, t) && t.step == s.step + 1
            && Owed(Pending(p, t)) + t.tokens == Owed(Pending(p, s)) + s.tokens
            && (t.tokens > s.tokens || (Gap(p, t) < Gap(p, s) && t == s.(step := s.step + 1)))
  {
    hide Summed, Decodes, Owed, OwedIds, Requests, IdsOf, Unfinished;
    var a := Admit(p, s);
    AdmitKeeps(p, s);
    if a.active == [] {
      assert a.active == s.active;
    } else {
      DecodeKeeps(p, h, a);
    }
  }

  /** The whole loop, for positive limits. */
  function Run(p: Params, h: Host, s: Load): Ending
    requires Good(p, s) && p.maxBatch > 0 && p.maxNew > 0
    decreases Owed(Pending(p, s)), Gap(p, s)
  {
    if s.finished >= |p.arrivals| then Ends(s)
    else if RoundFails(p, h, s) then Fails
    else
      RoundShrinks(p, h, s);
      Run(p, h, Round(p, h, s))
  }

  // ----- the two hosts -----

  const M64: int := 0x1_0000_0000_0000_0000
  const M63: int := 0x8000_0000_0000_0000

  /** `wrap_i64`: the signed 64-bit integer congruent to `v`. */
  function Wrap(v: int): (w: int)
    ensures -M63 <= w < M63 && w % M64 == v % M64
  {
    var u := v % M64;
    if u >= M63 then u - M64 else u
  }

  function PythonAdd(checksum: int, token: int, id: int, step: nat): int
  {
    Wrap(checksum + token + id + step)
  }

  /** Three `wrapping_add`s. */
  function RustAdd(checksum: int, token: int, id: int, step: nat): int
  {
    Wrap(Wrap(Wrap(checksum + token) + id) + Wrap(step))
  }

  /** What one kernel answer adds: each token, with the id it is for and the step. */
  function TokenSum(ids: seq<int>, tokens: seq<int>, step: nat): int
    requires |ids| == |tokens|
  {
    if ids == [] then 0 else
      var n := |ids| - 1;
      TokenSum(ids[..n], tokens[..n], step) + tokens[n] + ids[n] + step
  }

  /** `checksum` is the signed 64-bit integer congruent to `sum`. */
  predicate Represents(checksum: int, sum: int)
  {
    -0x8000_0000_0000_0000 <= checksum < 0x8000_0000_0000_0000
    && checksum % 0x1_0000_0000_0000_0000 == sum % 0x1_0000_0000_0000_0000
  }

  lemma WrapRepresents(v: int)
    ensures Represents(Wrap(v), v)
  {
  }

  lemma SameRemainder(a: int, b: int, c: int)
    requires a % M64 == b % M64
    ensures (a + c) % M64 == (b + c) % M64
  {
    var k := a / M64 - b / M64;
    assert a + c == b + c + k * M64;
    Shifted(b + c, k);
  }

  lemma Shifted(v: int, k: int)
    ensures (v + k * M64) % M64 == v % M64
  {
  }

  lemma RepresentsNext(checksum: int, sum: int, d: int)
    requires Represents(checksum, sum)
    ensures Represents(Wrap(checksum + d), sum + d)
  {
    hide Wrap;
    SameRemainder(checksum, sum, d);
    WrapRepresents(checksum + d);
  }

  lemma RepresentsWrapped(checksum: int, sum: int, d: int)
    requires Represents(checksum, sum)
    ensures Represents(Wrap(checksum + Wrap(d)), sum + d)
  {
    hide Wrap;
    RepresentsNext(checksum, sum, Wrap(d));
    SameRemainder(Wrap(d), d, sum);
  }

  /** The tokens can be extracted as `Vec<i64>`. */
  predicate FitI64(tokens: seq<int>)
  {
    forall i :: 0 <= i < |tokens| ==> -M63 <= tokens[i] < M63
  }

  function PythonHost(): Host
  {
    Host(PythonAdd, tokens => true)
  }

  function RustHost(): Host
  {
    Host(RustAdd, FitI64)
  }

  ghost predicate Known(h: Host)
  {
    h == PythonHost() || h == RustHost()
  }

  lemma AddRepresents(h: Host, checksum: int, sum: int, token: int, id: int, step: nat)
    requires Known(h) && Represents(checksum, sum)
    ensures Represents(h.add(checksum, token, id, step), sum + token + id + step)
  {
    hide Represents, Wrap;
    RepresentsNext(checksum, sum, token + id + step);
    assert checksum + (token + id + step) == checksum + token + id + step;
    assert sum + (token + id + step) == sum + token + id + step;
    RepresentsNext(checksum, sum, token);
    RepresentsNext(Wrap(checksum + token), sum + token, id);
    RepresentsWrapped(Wrap(Wrap(checksum + token) + id), sum + token + id, step);
  }

  lemma TokenSumLast(batch: seq<Request>, tokens: seq<int>, step: nat, n: nat)
    requires |tokens| == |batch| == n + 1
    ensures TokenSum(IdsOf(batch), tokens, step)
         == TokenSum(IdsOf(batch[..n]), tokens[..n], step) + tokens[n] + batch[n].id + step
  {
    assert IdsOf(batch)[..n] == IdsOf(batch[..n]);
  }

  lemma {:induction false} SumRepresents(h: Host, checksum: int, sum: int, batch: seq<Request>, tokens: seq<int>, step: nat)
    requires |batch| == |tokens| && Known(h) && Represents(checksum, sum)
    ensures Represents(Summed(h, checksum, batch, tokens, step), sum + TokenSum(IdsOf(batch), tokens, step))
    decreases |batch|
  {
    hide Represents, Known, IdsOf;
    if batch != [] {
      var n := |batch| - 1;
      SumRepresents(h, checksum, sum, batch[..n], tokens[..n], step);
      hide TokenSum;
      TokenSumLast(batch, tokens, step, n);
      AddRepresents(h, Summed(h, checksum, batch[..n], tokens[..n], step),
                    sum + TokenSum(IdsOf(batch[..n]), tokens[..n], step), tokens[n], batch[n].id, step);
    }
  }

  lemma SumsRepresent(h: Host, checksum: int, batch: seq<Request>, tokens: seq<int>, step: nat)
    requires |batch| == |tokens| && Known(h)
    ensures forall sum :: Represents(checksum, sum) ==>
              Represents(Summed(h, checksum, batch, tokens, step), sum + TokenSum(IdsOf(batch), tokens, step))
  {
    hide *;
    forall sum | Represents(checksum, sum)
      ensures Represents(Summed(h, checksum, batch, tokens, step), sum + TokenSum(IdsOf(batch), tokens, step))
    {
      SumRepresents(h, checksum, sum, batch, tokens, step);
    }
  }

  // ----- the loops -----

  method AdmitArrivals(p: Params, idx0: nat, active0: seq<Request>, step: nat) returns (idx: nat, active: seq<Request>)
    requires idx0 <= |p.arrivals|
    ensures idx == idx0 + Admissible(p, idx0, step, p.maxNew)
    ensures active == active0 + Requests(p.arrivals[idx0..idx])
  {
    var admitted := 0;
    idx, active := idx0, active0;
    assert active0 + Requests(p.arrivals[idx0..idx0]) == active0;
    while idx < |p.arrivals| && p.arrivals[idx].time <= step && admitted < p.maxNew
      invariant admitted <= p.maxNew && idx == idx0 + admitted <= |p.arrivals|
      invariant active == active0 + Requests(p.arrivals[idx0..idx])
      invariant admitted + Admissible(p, idx, step, p.maxNew - admitted) == Admissible(p, idx0, step, p.maxNew)
      decreases p.maxNew - admitted
    {
      assert Requests(p.arrivals[idx0..idx + 1])
          == Requests(p.arrivals[idx0..idx]) + [Request(p.arrivals[idx].id, p.arrivals[idx].length)];
      active := active + [Request(p.arrivals[idx].id, p.arrivals[idx].length)];
      idx := idx + 1;
      admitted := admitted + 1;
    }
  }

  /** The per-token loop of the Python program. */
  method PythonTokens(batch: seq<Request>, tokens: seq<int>, step: nat, checksum0: int, finished0: nat)
    returns (nextActive: seq<Request>, checksum: int, finished: nat)
    requires |tokens| == |batch|
    ensures nextActive == Unfinished(batch)
    ensures checksum == Summed(PythonHost(), checksum0, batch, tokens, step)
    ensures forall sum :: Represents(checksum0, sum) ==> Represents(checksum, sum + TokenSum(IdsOf(batch), tokens, step))
    ensures finished == finished0 + |batch| - |nextActive|
  {
    hide Summed, Unfinished, Wrap, Represents, TokenSum, IdsOf;
    nextActive, checksum, finished := [], checksum0, finished0;
    NothingDecoded(PythonHost(), checksum0, batch, tokens, step);
    for i := 0 to |batch|
      invariant nextActive == Unfinished(batch[..i])
      invariant checksum == Summed(PythonHost(), checksum0, batch[..i], tokens[..i], step)
      invariant finished == finished0 + i - |nextActive|
    {
      TokenDecoded(PythonHost(), checksum0, batch, tokens, step, i);
      var r := batch[i];
      checksum := Wrap(checksum + tokens[i] + r.id + step);
      var remaining := r.remaining - 1;
      if remaining <= 0 {
        finished := finished + 1;
      } else {
        nextActive := nextActive + [Request(r.id, remaining)];
      }
    }
    assert batch[..|batch|] == batch && tokens[..|tokens|] == tokens;
    SumsRepresent(PythonHost(), checksum0, batch, tokens, step);
  }

  /** The per-token loop of the Rust program. */
  method RustTokens(batch: seq<Request>, tokens: seq<int>, step: nat, checksum0: int, finished0: nat)
    returns (nextActive: seq<Request>, checksum: int, finished: nat)
    requires |tokens| == |batch|
    ensures nextActive == Unfinished(batch)
    ensures checksum == Summed(RustHost(), checksum0, batch, tokens, step)
    ensures forall sum :: Represents(checksum0, sum) ==> Represents(checksum, sum + TokenSum(IdsOf(batch), tokens, step))
    ensures finished == finished0 + |batch| - |nextActive|
  {
    hide Summed, Unfinished, Wrap, Represents, TokenSum, IdsOf;
    nextActive, checksum, finished := [], checksum0, finished0;
    NothingDecoded(RustHost(), checksum0, batch, tokens, step);
    for i := 0 to |batch|
      invariant nextActive == Unfinished(batch[..i])
      invariant checksum == Summed(RustHost(), checksum0, batch[..i], tokens[..i], step)
      invariant finished == finished0 + i - |nextActive|
    {
      TokenDecoded(RustHost(), checksum0, batch, tokens, step, i);
      var r := batch[i];
      checksum := Wrap(checksum + tokens[i]);
      checksum := Wrap(checksum + r.id);
      checksum := Wrap(checksum + Wrap(step));
      var remaining := r.remaining - 1;
      if remaining <= 0 {
        finished := finished + 1;
      } else {
        nextActive := nextActive + [Request(r.id, remaining)];
      }
    }
    assert batch[..|batch|] == batch && tokens[..|tokens|] == tokens;
    SumsRepresent(RustHost(), checksum0, batch, tokens, step);
  }

  lemma NothingDecoded(h: Host, checksum: int, batch: seq<Request>, tokens: seq<int>, step: nat)
    requires |tokens| == |batch|
    ensures Unfinished(batch[..0]) == [] && Summed(h, checksum, batch[..0], tokens[..0], step) == checksum
  {
  }

  lemma TokenDecoded(h: Host, checksum: int, batch: seq<Request>, tokens: seq<int>, step: nat, i: nat)
    requires |tokens| == |batch| && i < |batch|
    ensures Unfinished(batch[..i + 1]) == Unfinished(batch[..i])
            + if batch[i].remaining - 1 <= 0 then [] else [Request(batch[i].id, batch[i].remaining - 1)]
    ensures Summed(h, checksum, batch[..i + 1], tokens[..i + 1], step)
         == h.add(Summed(h, checksum, batch[..i], tokens[..i], step), tokens[i], batch[i].id, step)
  {
    assert batch[..i + 1][..i] == batch[..i] && tokens[..i + 1][..i] == tokens[..i];
  }

  /** The loop of the Python program. */
  method PythonScheduler(p: Params) returns (r: Outcome)
    requires p.maxBatch > 0 && p.maxNew > 0
    ensures r == Visible(Run(p, PythonHost(), START))
  {
    hide Summed, Unfinished, Requests, IdsOf, Admissible, Owed, Gap, Pending, Wrap, Run;
    ghost var h := PythonHost();
    var idx, finished, total, step := 0, 0, 0, 0;
    var active: seq<Request>, checksum := [], 0;
    ghost var s, goal := START, Run(p, h, START);
    while finished < |p.arrivals|
      invariant s.idx == idx && s.active == active && s.finished == finished
      invariant s.checksum == checksum && s.tokens == total && s.step == step
      invariant Good(p, s) && Run(p, h, s) == goal
      decreases Owed(Pending(p, s)), Gap(p, s)
    {
      ghost var a := Admit(p, s);
      idx, active := AdmitArrivals(p, idx, active, step);
      RunStep(p, h, s);
      if active == [] {
        step := step + 1;
        s := a.(step := step);
        continue;
      }
      var batch := if p.maxBatch < |active| then active[..p.maxBatch] else active;
      assert batch == a.active[..Consumed(p, a.active)];
      var tokens := p.decode(IdsOf(batch), step);
      if |tokens| != |batch| {
        return Failed;
      }
      var next, sum, done := PythonTokens(batch, tokens, step, checksum, finished);
      checksum, finished, total := sum, done, total + |batch|;
      if |batch| < |active| {
        next := next + active[|batch|..];
      }
      active := next;
      step := step + 1;
      s := Decode(p, h, a);
    }
    RunStop(p, h, s);
    r := Returned(checksum, total, step);
  }

  /** The loop of the Rust program. */
  method RustScheduler(p: Params) returns (r: Outcome)
    requires p.maxBatch > 0 && p.maxNew > 0
    ensures r == Visible(Run(p, RustHost(), START))
  {
    hide Summed, Unfinished, Requests, IdsOf, Admissible, Owed, Gap, Pending, Wrap, Run;
    ghost var h := RustHost();
    var idx, finished, total, step := 0, 0, 0, 0;
    var active: seq<Request>, checksum := [], 0;
    ghost var s, goal := START, Run(p, h, START);
    while finished < |p.arrivals|
      invariant s.idx == idx && s.active == active && s.finished == finished
      invariant s.checksum == checksum && s.tokens == total && s.step == step
      invariant Good(p, s) && Run(p, h, s) == goal
      decreases Owed(Pending(p, s)), Gap(p, s)
    {
      ghost var a := Admit(p, s);
      idx, active := AdmitArrivals(p, idx, active, step);
      RunStep(p, h, s);
      if active == [] {
        step := step + 1;
        s := a.(step := step);
        continue;
      }
      var consumed := if p.maxBatch <= |active| then p.maxBatch else |active|;
      var batch := active[..consumed];
      var tokens := p.decode(IdsOf(batch), step);
      if !FitI64(tokens) {
        return Failed;
      }
      if |tokens| != consumed {
        return Failed;
      }
      var next, sum, done := RustTokens(batch, tokens, step, checksum, finished);
      checksum, finished, total := sum, done, total + |batch|;
      if |batch| < |active| {
        next := next + active[|batch|..];
      }
      active := next;
      step := step + 1;
      s := Decode(p, h, a);
    }
    RunStop(p, h, s);
    r := Returned(checksum, total, step);
  }

  lemma RunStop(p: Params, h: Host, s: Load)
    requires Good(p, s) && p.maxBatch > 0 && p.maxNew > 0 && s.finished >= |p.arrivals|
    ensures Run(p, h, s) == Ends(s)
  {
  }

  lemma RunStep(p: Params, h: Host, s: Load)
    requires Good(p, s) && p.maxBatch > 0 && p.maxNew > 0 && s.finished < |p.arrivals|
    ensures RoundFails(p, h, s) ==> Run(p, h, s) == Fails
    ensures !RoundFails(p, h, s) ==>
              var t := Round(p, h, s);
              && Good(p, t) && Run(p, h, s) == Run(p, h, t)
              && Owed(Pending(p, t)) <= Owed(Pending(p, s))
              && (Owed(Pending(p, t)) < Owed(Pending(p, s)) || Gap(p, t) < Gap(p, s))
  {
    hide Owed, Gap, Pending, Round, RoundFails;
    if !RoundFails(p, h, s) {
      RoundShrinks(p, h, s);
    }
  }
}
