/**
  The generator of Unicode property lookups: a table of code point intervals is sorted and
  merged, and compiled into nested comparisons.
 */
module UnicodeTree {
  import opened Options

  datatype Row = Row(lo: int, hi: int, value: int)

  predicate Contains(r: Row, cp: int)
  {
    r.lo <= cp <= r.hi
  }

  /** How many rows contain a code point. */
  function Cover(rows: seq<Row>, cp: int): nat
  {
    if rows == [] then 0 else
      Cover(rows[..|rows| - 1], cp) + if Contains(rows[|rows| - 1], cp) then 1 else 0
  }

  /** Some row gives the code point the value. */
  predicate Gives(rows: seq<Row>, cp: int, value: int)
  {
    rows != [] &&
    (Gives(rows[..|rows| - 1], cp, value) || (Contains(rows[|rows| - 1], cp) && rows[|rows| - 1].value == value))
  }

  ghost predicate Overlapping(rows: seq<Row>)
  {
    exists cp :: Cover(rows, cp) >= 2
  }

  /** Rows as the data files write them: first code point, last code point. */
  predicate Spans(rows: seq<Row>)
  {
    forall i :: 0 <= i < |rows| ==> rows[i].lo <= rows[i].hi
  }

  // ----- sorting -----

  /** Tuples compare by their first, then second, then third component. */
  predicate Leq(x: Row, y: Row)
  {
    x.lo < y.lo || (x.lo == y.lo && (x.hi < y.hi || (x.hi == y.hi && x.value <= y.value)))
  }

  predicate Ordered(rows: seq<Row>)
  {
    forall i, j :: 0 <= i < j < |rows| ==> Leq(rows[i], rows[j])
  }

  function Insert(x: Row, s: seq<Row>): (r: seq<Row>)
    ensures |r| == |s| + 1
    decreases |s|
  {
    if s == [] then [x]
    else if Leq(s[|s| - 1], x) then s + [x]
    else Insert(x, s[..|s| - 1]) + [s[|s| - 1]]
  }

  function Sort(rows: seq<Row>): (r: seq<Row>)
    ensures |r| == |rows|
  {
    if rows == [] then [] else Insert(rows[|rows| - 1], Sort(rows[..|rows| - 1]))
  }

  // ----- merging -----

  /** `merged` on sorted rows; None is the ValueError. */
  function MergeSorted(s: seq<Row>): Option<seq<Row>>
  {
    if s == [] then Some([]) else
      var front, x := MergeSorted(s[..|s| - 1]), s[|s| - 1];
      if front.None? then None else MergeOne(front.value, x)
  }

  function MergeOne(result: seq<Row>, x: Row): Option<seq<Row>>
  {
    var n := |result| - 1;
    if result != [] && x.lo <= result[n].hi then None
    else if result != [] && x.lo == result[n].hi + 1 && x.value == result[n].value
    then Some(result[..n] + [Row(result[n].lo, x.hi, x.value)])
    else Some(result + [x])
  }

  lemma MergeNext(s: seq<Row>, i: nat)
    requires i < |s|
    ensures MergeSorted(s[..i]).Some? ==> MergeSorted(s[..i + 1]) == MergeOne(MergeSorted(s[..i]).value, s[i])
  {
    assert s[..i + 1][..i] == s[..i];
  }

  method Merged(rows: seq<Row>) returns (r: Option<seq<Row>>)
    ensures r == MergeSorted(Sort(rows))
  {
    hide Sort, MergeSorted;
    var s := Sort(rows);
    var result: seq<Row> := [];
    MergeNothing(s);
    for i := 0 to |s|
      invariant MergeSorted(s[..i]) == Some(result)
    {
      MergeNext(s, i);
      var x, n := s[i], |result| - 1;
      if result != [] && x.lo <= result[n].hi {
        MergeStaysNone(s, i + 1);
        return None;
      }
      if result != [] && x.lo == result[n].hi + 1 && x.value == result[n].value {
        result := result[n := Row(result[n].lo, x.hi, x.value)];
        assert result == result[..n] + [result[n]];
      } else {
        result := result + [x];
      }
    }
    assert s[..|s|] == s;
    r := Some(result);
  }

  lemma MergeNothing(s: seq<Row>)
    ensures MergeSorted(s[..0]) == Some([])
  {
  }

  lemma {:induction false} MergeStaysNone(s: seq<Row>, i: nat)
    requires i <= |s| && MergeSorted(s[..i]).None?
    ensures MergeSorted(s).None?
    decreases |s|
  {
    if i == |s| {
      assert s[..i] == s;
    } else {
      assert s[..|s| - 1][..i] == s[..i];
      MergeStaysNone(s[..|s| - 1], i);
    }
  }

  // ----- the emitted program -----

  datatype Expr = Literal(value: int) | IfBelow(bound: int, yes: Expr, no: Expr) | IfAtMost(bound: int, yes: Expr, no: Expr)

  function Eval(e: Expr, cp: int): int
  {
    match e
    case Literal(value) => value
    case IfBelow(bound, yes, no) => if cp < bound then Eval(yes, cp) else Eval(no, cp)
    case IfAtMost(bound, yes, no) => if cp <= bound then Eval(yes, cp) else Eval(no, cp)
  }

  function Tree(rows: seq<Row>): Expr
    decreases |rows|
  {
    if rows == [] then Literal(0) else
      var middle := |rows| / 2;
      var row := rows[middle];
      IfBelow(row.lo, Tree(rows[..middle]), IfAtMost(row.hi, Literal(row.value), Tree(rows[middle + 1..])))
  }

  /** Rows inspected on the longest path. */
  function Depth(e: Expr): nat
  {
    match e
    case Literal(_) => 0
    case IfBelow(_, yes, no) => 1 + if Depth(yes) >= Depth(no) then Depth(yes) else Depth(no)
    case IfAtMost(_, yes, no) => if Depth(yes) >= Depth(no) then Depth(yes) else Depth(no)
  }

  // ----- sorting keeps the meaning -----

  lemma CoverAppend(s: seq<Row>, x: Row, cp: int)
    ensures Cover(s + [x], cp) == Cover(s, cp) + if Contains(x, cp) then 1 else 0
  {
    assert (s + [x])[..|s|] == s;
  }

  lemma GivesAppend(s: seq<Row>, x: Row, cp: int, v: int)
    ensures Gives(s + [x], cp, v) <==> Gives(s, cp, v) || (Contains(x, cp) && x.value == v)
  {
    assert (s + [x])[..|s|] == s;
  }

  lemma {:induction false} InsertKeeps(x: Row, s: seq<Row>, cp: int, v: int)
    ensures Cover(Insert(x, s), cp) == Cover(s + [x], cp)
    ensures Gives(Insert(x, s), cp, v) <==> Gives(s + [x], cp, v)
    decreases |s|
  {
    if s == [] {
      assert s + [x] == [x];
    } else if !Leq(s[|s| - 1], x) {
      var n := |s| - 1;
      var front, y := s[..n], s[n];
      hide Cover, Gives, Contains;
      InsertKeeps(x, front, cp, v);
      assert s == front + [y];
      CoverAppend(Insert(x, front), y, cp);
      GivesAppend(Insert(x, front), y, cp, v);
      CoverAppend(front, x, cp);
      GivesAppend(front, x, cp, v);
      CoverAppend(front, y, cp);
      GivesAppend(front, y, cp, v);
      CoverAppend(s, x, cp);
      GivesAppend(s, x, cp, v);
    }
  }

  lemma {:induction false} SortKeeps(rows: seq<Row>, cp: int, v: int)
    ensures Cover(Sort(rows), cp) == Cover(rows, cp)
    ensures Gives(Sort(rows), cp, v) <==> Gives(rows, cp, v)
    decreases |rows|
  {
    if rows != [] {
      var n := |rows| - 1;
      var front, x := rows[..n], rows[n];
      SortKeeps(front, cp, v);
      hide Cover, Gives, Contains, Insert;
      assert rows == front + [x];
      InsertKeeps(x, Sort(front), cp, v);
      CoverAppend(Sort(front), x, cp);
      GivesAppend(Sort(front), x, cp, v);
      CoverAppend(front, x, cp);
      GivesAppend(front, x, cp, v);
    }
  }

  lemma {:induction false} InsertOrders(x: Row, s: seq<Row>)
    requires Ordered(s)
    ensures Ordered(Insert(x, s))
    ensures forall i :: 0 <= i < |s| + 1 ==> Insert(x, s)[i] == x || Insert(x, s)[i] in s
    decreases |s|
  {
    if s != [] && !Leq(s[|s| - 1], x) {
      var n := |s| - 1;
      InsertOrders(x, s[..n]);
      var r := Insert(x, s[..n]);
      forall i | 0 <= i < |r|
        ensures Leq(r[i], s[n])
      {
        if r[i] != x {
          assert r[i] in s[..n];
        }
      }
    }
  }

  lemma {:induction false} SortOrders(rows: seq<Row>)
    ensures Ordered(Sort(rows))
    ensures Spans(rows) ==> Spans(Sort(rows))
    decreases |rows|
  {
    if rows != [] {
      var n := |rows| - 1;
      SortOrders(rows[..n]);
      hide Leq;
      InsertOrders(rows[n], Sort(rows[..n]));
      if Spans(rows) {
        assert Spans(rows[..n]);
        forall i | 0 <= i < |rows|
          ensures Sort(rows)[i].lo <= Sort(rows)[i].hi
        {
          assert Sort(rows)[i] == rows[n] || Sort(rows)[i] in Sort(rows[..n]);
        }
      }
    }
  }
}
