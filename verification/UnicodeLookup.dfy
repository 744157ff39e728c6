/**
  The compiled lookup finds what the table says. Rows are taken as they come: a row may be
  reversed, with its first code point above its last, and then joining it to the row before
  can cut that row short. The theorems say exactly when that happens and what it does.
 */
module UnicodeLookup {
  import opened Options
  import opened UnicodeTree
  import opened UnicodeTheorems

  // ----- merged tables -----

  /** Rows in order, each ending before the next begins; a row may be reversed. */
  ghost predicate Apart(m: seq<Row>)
  {
    forall i, j :: 0 <= i < j < |m| ==> m[i].hi < m[j].lo && m[i].lo <= m[j].lo
  }

  /** `r` is what merging made of sorted rows that end in `y`. */
  ghost predicate EndsLike(r: seq<Row>, y: Row)
  {
    r != [] && r[|r| - 1].hi == y.hi && r[|r| - 1].lo <= y.lo
  }

  lemma MergeOneApart(r: seq<Row>, y: Row, x: Row)
    requires Apart(r) && EndsLike(r, y) && y.lo <= x.lo && MergeOne(r, x).Some?
    ensures Apart(MergeOne(r, x).value) && EndsLike(MergeOne(r, x).value, x)
  {
    var n := |r| - 1;
    assert forall i :: 0 <= i < n ==> r[i].hi < r[n].lo && r[i].lo <= r[n].lo;
  }

  lemma {:induction false} MergeApart(s: seq<Row>)
    requires Ordered(s) && MergeSorted(s).Some?
    ensures Apart(MergeSorted(s).value)
    ensures s == [] ==> MergeSorted(s).value == []
    ensures s != [] ==> EndsLike(MergeSorted(s).value, s[|s| - 1])
    decreases |s|
  {
    if |s| > 1 {
      var n := |s| - 1;
      MergeApart(s[..n]);
      assert Leq(s[n - 1], s[n]);
      MergeOneApart(MergeSorted(s[..n]).value, s[n - 1], s[n]);
    } else if |s| == 1 {
      assert MergeSorted(s[..0]) == Some([]);
    }
  }

  // ----- cutting a row short -----

  /** The row at `i` is joined to the row before, and ends before it does. */
  predicate ClipsAt(s: seq<Row>, i: nat)
  {
    0 < i < |s| && s[i].lo == s[i - 1].hi + 1 && s[i].value == s[i - 1].value && s[i].hi < s[i - 1].hi
  }

  ghost predicate Clips(s: seq<Row>, v: int)
  {
    exists i: nat :: ClipsAt(s, i) && s[i].value == v
  }

  lemma ClipsNext(s: seq<Row>, v: int)
    requires s != []
    ensures Clips(s, v) <==> Clips(s[..|s| - 1], v) || (ClipsAt(s, |s| - 1) && s[|s| - 1].value == v)
  {
    var n := |s| - 1;
    if i: nat :| ClipsAt(s[..n], i) && s[..n][i].value == v {
      assert ClipsAt(s, i);
    }
    if i: nat :| ClipsAt(s, i) && s[i].value == v {
      assert i < n ==> ClipsAt(s[..n], i);
    }
  }

  ghost predicate SameValue(a: seq<Row>, b: seq<Row>, v: int)
  {
    forall cp :: Gives(a, cp, v) <==> Gives(b, cp, v)
  }

  lemma AppendSameValue(a: seq<Row>, b: seq<Row>, x: Row, v: int)
    requires SameValue(a, b, v)
    ensures SameValue(a + [x], b + [x], v)
  {
    hide Gives;
    forall cp
      ensures Gives(a + [x], cp, v) <==> Gives(b + [x], cp, v)
    {
      GivesAppend(a, x, cp, v);
      GivesAppend(b, x, cp, v);
    }
  }

  /** Joining keeps the value unless the joined row of that value ends earlier. */
  lemma JoinKeeps(front: seq<Row>, y: Row, x: Row, v: int)
    requires y.lo <= x.lo == y.hi + 1 && x.value == y.value && (x.hi >= y.hi || x.value != v)
    ensures SameValue(front + [Row(y.lo, x.hi, x.value)], front + [y] + [x], v)
  {
    hide Gives;
    var z := Row(y.lo, x.hi, x.value);
    forall cp
      ensures Gives(front + [z], cp, v) <==> Gives(front + [y] + [x], cp, v)
    {
      GivesAppend(front, z, cp, v);
      GivesAppend(front, y, cp, v);
      GivesAppend(front + [y], x, cp, v);
    }
  }

  lemma MergeOneKeepsValue(r: seq<Row>, y: Row, x: Row, v: int)
    requires EndsLike(r, y) && y.lo <= x.lo && MergeOne(r, x).Some?
    requires r[|r| - 1].value == x.value == v && x.lo == y.hi + 1 ==> x.hi >= y.hi
    ensures SameValue(MergeOne(r, x).value, r + [x], v)
  {
    var n := |r| - 1;
    if x.lo == r[n].hi + 1 && x.value == r[n].value {
      assert r == r[..n] + [r[n]];
      JoinKeeps(r[..n], r[n], x, v);
    }
  }

  lemma SameValueTrans(a: seq<Row>, b: seq<Row>, c: seq<Row>, v: int)
    requires SameValue(a, b, v) && SameValue(b, c, v)
    ensures SameValue(a, c, v)
  {
    hide Gives;
  }

  /** The last row of a merged table has the value of the last sorted row. */
  lemma LastValue(s: seq<Row>)
    requires s != [] && MergeSorted(s).Some?
    ensures MergeSorted(s).value != [] && MergeSorted(s).value[|MergeSorted(s).value| - 1].value == s[|s| - 1].value
  {
  }

  lemma {:induction false} UnclippedKeeps(s: seq<Row>, v: int)
    requires Ordered(s) && MergeSorted(s).Some? && !Clips(s, v)
    ensures SameValue(MergeSorted(s).value, s, v)
    decreases |s|
  {
    if s != [] {
      var n := |s| - 1;
      var front, x := s[..n], s[n];
      var r := MergeSorted(front).value;
      ClipsNext(s, v);
      UnclippedKeeps(front, v);
      AppendSameValue(r, front, x, v);
      assert s == front + [x];
      if n > 0 {
        MergeApart(front);
        LastValue(front);
        assert Leq(s[n - 1], s[n]) && !(ClipsAt(s, n) && s[n].value == v);
        hide SameValue;
        MergeOneKeepsValue(r, s[n - 1], x, v);
        SameValueTrans(MergeOne(r, x).value, r + [x], s, v);
      } else {
        assert r == [] && MergeOne(r, x).value == r + [x];
      }
    }
  }

  // ----- a code point lost -----

  ghost predicate Outside(m: seq<Row>, cp: int)
  {
    forall i :: 0 <= i < |m| ==> !Contains(m[i], cp)
  }

  /** A lost code point stays lost, whatever rows follow. */
  lemma StaysLost(r: seq<Row>, y: Row, x: Row, cp: int)
    requires EndsLike(r, y) && Outside(r, cp) && cp < y.lo <= x.lo && MergeOne(r, x).Some?
    ensures Outside(MergeOne(r, x).value, cp)
  {
  }

  lemma ClipLoses(r: seq<Row>, y: Row, x: Row)
    requires Apart(r) && EndsLike(r, y) && Leq(y, x) && r[|r| - 1].value == y.value
    requires x.lo == y.hi + 1 && x.value == y.value && x.hi < y.hi
    ensures MergeOne(r, x).Some? && Outside(MergeOne(r, x).value, y.hi) && Contains(y, y.hi) && y.hi < x.lo
  {
    var n := |r| - 1;
    assert forall i :: 0 <= i < n ==> r[i].hi < r[n].lo;
  }

  lemma {:induction false} ClippedLoses(s: seq<Row>, v: int) returns (cp: int)
    requires Ordered(s) && MergeSorted(s).Some? && Clips(s, v)
    ensures Gives(s, cp, v) && Outside(MergeSorted(s).value, cp) && cp < s[|s| - 1].lo
    decreases |s|
  {
    var n := |s| - 1;
    var front, x := s[..n], s[n];
    ClipsNext(s, v);
    ClipsAtLast(s);
    MergeFront(s);
    hide *;
    MergeApart(front);
    LastValue(front);
    if Clips(front, v) {
      cp := ClippedLoses(front, v);
      StaysLost(MergeSorted(front).value, s[n - 1], x, cp);
    } else {
      cp := s[n - 1].hi;
      ClipLoses(MergeSorted(front).value, s[n - 1], x);
      RowGives(front, n - 1, cp);
    }
    GivesAppend(front, x, cp, v);
  }

  lemma ClipsAtLast(s: seq<Row>)
    ensures s != [] && ClipsAt(s, |s| - 1) ==>
      var n := |s| - 1;
      n > 0 && s[n].lo == s[n - 1].hi + 1 && s[n].value == s[n - 1].value && s[n].hi < s[n - 1].hi
  {
  }

  /** The rows before the last, once something in the table clips. */
  lemma MergeFront(s: seq<Row>)
    requires Ordered(s) && MergeSorted(s).Some? && |s| > 1
    ensures var n := |s| - 1;
            && s == s[..n] + [s[n]] && Ordered(s[..n]) && s[..n][n - 1] == s[n - 1]
            && Leq(s[n - 1], s[n]) && s[n - 1].lo <= s[n].lo
            && MergeSorted(s[..n]).Some? && MergeSorted(s) == MergeOne(MergeSorted(s[..n]).value, s[n])
  {
    hide *;
    OrderedLast(s);
    LeqStarts(s[|s| - 2], s[|s| - 1]);
    MergeUnfolds(s);
  }

  lemma OrderedLast(s: seq<Row>)
    requires Ordered(s) && |s| > 1
    ensures var n := |s| - 1;
            s == s[..n] + [s[n]] && Ordered(s[..n]) && s[..n][n - 1] == s[n - 1] && Leq(s[n - 1], s[n])
  {
    hide Leq;
  }

  lemma LeqStarts(x: Row, y: Row)
    requires Leq(x, y)
    ensures x.lo <= y.lo
  {
  }

  lemma MergeUnfolds(s: seq<Row>)
    requires s != [] && MergeSorted(s).Some?
    ensures var n := |s| - 1;
            MergeSorted(s[..n]).Some? && MergeSorted(s) == MergeOne(MergeSorted(s[..n]).value, s[n])
  {
    hide MergeOne;
  }

  lemma {:induction false} RowGives(rows: seq<Row>, i: nat, cp: int)
    requires i < |rows| && Contains(rows[i], cp)
    ensures Gives(rows, cp, rows[i].value)
    decreases |rows|
  {
    if i < |rows| - 1 {
      RowGives(rows[..|rows| - 1], i, cp);
    }
  }

  lemma {:induction false} GivenByRow(rows: seq<Row>, cp: int, v: int) returns (i: nat)
    requires Gives(rows, cp, v)
    ensures i < |rows| && Contains(rows[i], cp) && rows[i].value == v
    decreases |rows|
  {
    i := |rows| - 1;
    if Gives(rows[..i], cp, v) {
      i := GivenByRow(rows[..i], cp, v);
    }
  }

  /** Merging keeps the code points of a value exactly when no row of that value is cut short. */
  lemma MergeKeepsIff(s: seq<Row>, v: int)
    requires Ordered(s) && MergeSorted(s).Some?
    ensures SameValue(MergeSorted(s).value, s, v) <==> !Clips(s, v)
  {
    hide MergeSorted, Clips, Gives;
    if Clips(s, v) {
      var cp := ClippedLoses(s, v);
      if Gives(MergeSorted(s).value, cp, v) {
        var i := GivenByRow(MergeSorted(s).value, cp, v);
      }
    } else {
      UnclippedKeeps(s, v);
    }
  }

  /** Merging never gives a code point a value it did not have. */
  lemma {:induction false} NothingInvented(s: seq<Row>, cp: int, v: int)
    requires Ordered(s) && MergeSorted(s).Some? && Gives(MergeSorted(s).value, cp, v)
    ensures Gives(s, cp, v)
    decreases |s|
  {
    if s != [] {
      var n := |s| - 1;
      var front, x := s[..n], s[n];
      var r := MergeSorted(front).value;
      assert s == front + [x];
      MergeApart(front);
      assert n > 0 ==> Leq(s[n - 1], s[n]);
      hide Gives;
      MergeOneInvents(r, x, cp, v);
      GivesAppend(front, x, cp, v);
      if Gives(r, cp, v) {
        NothingInvented(front, cp, v);
      }
    }
  }

  lemma MergeOneInvents(r: seq<Row>, x: Row, cp: int, v: int)
    requires MergeOne(r, x).Some? && Gives(MergeOne(r, x).value, cp, v)
    requires r != [] ==> r[|r| - 1].lo <= x.lo
    ensures Gives(r, cp, v) || (Contains(x, cp) && x.value == v)
  {
    hide Gives;
    GivesAppend(r, x, cp, v);
    if r != [] {
      var n := |r| - 1;
      assert r == r[..n] + [r[n]];
      GivesAppend(r[..n], r[n], cp, v);
      GivesAppend(r[..n], Row(r[n].lo, x.hi, x.value), cp, v);
    }
  }

  // ----- the compiled lookup -----

  lemma TreeEval(m: seq<Row>, cp: int)
    requires m != []
    ensures var k := |m| / 2;
            Eval(Tree(m), cp) == if cp < m[k].lo then Eval(Tree(m[..k]), cp)
                                 else if cp <= m[k].hi then m[k].value
                                 else Eval(Tree(m[k + 1..]), cp)
  {
    var k := |m| / 2;
    var inner := IfAtMost(m[k].hi, Literal(m[k].value), Tree(m[k + 1..]));
    assert Tree(m) == IfBelow(m[k].lo, Tree(m[..k]), inner);
    assert Eval(inner, cp) == if cp <= m[k].hi then Eval(Literal(m[k].value), cp) else Eval(Tree(m[k + 1..]), cp);
  }

  /** The emitted comparisons find the value of the row that holds the code point, or 0. */
  lemma {:induction false} LookupCorrect(m: seq<Row>, cp: int)
    requires Apart(m)
    ensures forall i :: 0 <= i < |m| && Contains(m[i], cp) ==> Eval(Tree(m), cp) == m[i].value
    ensures Outside(m, cp) ==> Eval(Tree(m), cp) == 0
    decreases |m|
  {
    if m != [] {
      hide *;
      var k := |m| / 2;
      TreeEval(m, cp);
      ApartParts(m, k, cp);
      LookupCorrect(m[..k], cp);
      LookupCorrect(m[k + 1..], cp);
      forall i | 0 <= i < |m| && Contains(m[i], cp)
        ensures Eval(Tree(m), cp) == m[i].value
      {
        Side(m, k, i, cp);
        assert i < k ==> m[..k][i] == m[i];
        assert i > k ==> m[k + 1..][i - k - 1] == m[i];
      }
    }
  }

  lemma ApartParts(m: seq<Row>, k: nat, cp: int)
    requires Apart(m) && k < |m|
    ensures Apart(m[..k]) && Apart(m[k + 1..])
    ensures Outside(m, cp) ==> Outside(m[..k], cp) && Outside(m[k + 1..], cp) && !(m[k].lo <= cp <= m[k].hi)
  {
  }

  /** The comparisons with the middle row lead to the side of the row that holds the code point. */
  lemma Side(m: seq<Row>, k: nat, i: nat, cp: int)
    requires Apart(m) && k < |m| && i < |m| && Contains(m[i], cp)
    ensures i < k ==> cp < m[k].lo
    ensures i == k ==> m[k].lo <= cp <= m[k].hi
    ensures i > k ==> m[k].lo <= cp && cp > m[k].hi
  {
  }

  /** The program finds every row's value, and 0 outside every row. */
  ghost predicate Finds(e: Expr, rows: seq<Row>)
  {
    forall cp :: FindsAt(e, rows, cp)
  }

  ghost predicate FindsAt(e: Expr, rows: seq<Row>, cp: int)
  {
    (forall i :: 0 <= i < |rows| && Contains(rows[i], cp) ==> Eval(e, cp) == rows[i].value)
    && (Outside(rows, cp) ==> Eval(e, cp) == 0)
  }

  /** From any table to the program: exactly the cut rows of a value other than 0 are not found. */
  lemma GeneratedLookup(rows: seq<Row>)
    requires MergeSorted(Sort(rows)).Some?
    ensures Finds(Tree(MergeSorted(Sort(rows)).value), rows) <==> forall v :: v != 0 ==> !Clips(Sort(rows), v)
  {
    hide Tree, Eval, MergeSorted, Sort, Clips, FindsAt, Gives, Apart;
    var s := Sort(rows);
    var e := Tree(MergeSorted(s).value);
    SortOrders(rows);
    MergeApart(s);
    if v :| v != 0 && Clips(s, v) {
      var cp := ClippedLoses(s, v);
      SortKeeps(rows, cp, v);
      NotFound(rows, cp, v);
      assert !FindsAt(e, rows, cp);
    } else {
      forall cp
        ensures FindsAt(e, rows, cp)
      {
        Found(rows, cp);
      }
    }
  }

  lemma NotFound(rows: seq<Row>, cp: int, v: int)
    requires MergeSorted(Sort(rows)).Some? && Apart(MergeSorted(Sort(rows)).value)
    requires v != 0 && Gives(rows, cp, v) && Outside(MergeSorted(Sort(rows)).value, cp)
    ensures !FindsAt(Tree(MergeSorted(Sort(rows)).value), rows, cp)
  {
    hide Tree, Eval, MergeSorted, Sort, Gives;
    LookupCorrect(MergeSorted(Sort(rows)).value, cp);
    var i := GivenByRow(rows, cp, v);
  }

  lemma Found(rows: seq<Row>, cp: int)
    requires MergeSorted(Sort(rows)).Some? && Apart(MergeSorted(Sort(rows)).value)
    requires forall v :: v != 0 ==> !Clips(Sort(rows), v)
    ensures FindsAt(Tree(MergeSorted(Sort(rows)).value), rows, cp)
  {
    hide Tree, Eval, MergeSorted, Sort, Gives, Clips, Apart;
    var m := MergeSorted(Sort(rows)).value;
    LookupCorrect(m, cp);
    forall i | 0 <= i < |rows| && Contains(rows[i], cp)
      ensures Eval(Tree(m), cp) == rows[i].value
    {
      FoundRow(rows, i, cp);
    }
    if Outside(rows, cp) && !Outside(m, cp) {
      var j :| 0 <= j < |m| && Contains(m[j], cp);
      var k := FromRow(rows, j, cp);
    }
  }

  /** A merged row's code points come from a row of that value. */
  lemma FromRow(rows: seq<Row>, j: nat, cp: int) returns (k: nat)
    requires MergeSorted(Sort(rows)).Some? && j < |MergeSorted(Sort(rows)).value|
    requires Contains(MergeSorted(Sort(rows)).value[j], cp)
    ensures k < |rows| && Contains(rows[k], cp) && rows[k].value == MergeSorted(Sort(rows)).value[j].value
  {
    hide MergeSorted, Sort, Gives;
    var m := MergeSorted(Sort(rows)).value;
    SortOrders(rows);
    RowGives(m, j, cp);
    NothingInvented(Sort(rows), cp, m[j].value);
    SortKeeps(rows, cp, m[j].value);
    k := GivenByRow(rows, cp, m[j].value);
  }

  lemma FoundRow(rows: seq<Row>, i: nat, cp: int)
    requires MergeSorted(Sort(rows)).Some? && Apart(MergeSorted(Sort(rows)).value)
    requires i < |rows| && Contains(rows[i], cp) && (rows[i].value != 0 ==> !Clips(Sort(rows), rows[i].value))
    ensures Eval(Tree(MergeSorted(Sort(rows)).value), cp) == rows[i].value
  {
    hide Tree, Eval, MergeSorted, Sort, Gives, Clips, Apart;
    var m, v := MergeSorted(Sort(rows)).value, rows[i].value;
    LookupCorrect(m, cp);
    if v != 0 {
      SortOrders(rows);
      RowGives(rows, i, cp);
      SortKeeps(rows, cp, v);
      MergeKeepsIff(Sort(rows), v);
      var j := GivenByRow(m, cp, v);
    } else if !Outside(m, cp) {
      var j :| 0 <= j < |m| && Contains(m[j], cp);
      var k := FromRow(rows, j, cp);
      SameRow(rows, i, k, cp);
    }
  }

  /** Rows that are not refused share no code point. */
  lemma SameRow(rows: seq<Row>, i: nat, k: nat, cp: int)
    requires MergeSorted(Sort(rows)).Some?
    requires i < |rows| && k < |rows| && Contains(rows[i], cp) && Contains(rows[k], cp)
    ensures i == k
  {
    hide MergeSorted, Sort;
    RaisesIff(rows);
    if i < k {
      CoveredTwice(rows, i, k, cp);
    } else if k < i {
      CoveredTwice(rows, k, i, cp);
    }
  }

  lemma {:induction false} CoveredTwice(rows: seq<Row>, i: nat, k: nat, cp: int)
    requires i < k < |rows| && Contains(rows[i], cp) && Contains(rows[k], cp)
    ensures Cover(rows, cp) >= 2
    decreases |rows|
  {
    var n := |rows| - 1;
    if k < n {
      CoveredTwice(rows[..n], i, k, cp);
    } else if Cover(rows[..n], cp) == 0 {
      CoveredOnce(rows[..n], i, cp);
    }
  }

  lemma {:induction false} CoveredOnce(rows: seq<Row>, i: nat, cp: int)
    requires i < |rows| && Contains(rows[i], cp)
    ensures Cover(rows, cp) >= 1
    decreases |rows|
  {
    if i < |rows| - 1 {
      CoveredOnce(rows[..|rows| - 1], i, cp);
    }
  }

  /** Without reversed rows nothing is cut, so the program always finds what the table says. */
  lemma SpansFound(rows: seq<Row>)
    requires Spans(rows) && MergeSorted(Sort(rows)).Some?
    ensures Finds(Tree(MergeSorted(Sort(rows)).value), rows)
  {
    hide Tree, Eval, MergeSorted, Sort, FindsAt;
    SortOrders(rows);
    GeneratedLookup(rows);
  }

  /** The generator accepts these two rows and loses the code points 3, 4 and 5 of the first. */
  lemma ReversedRowLosesCodePoints()
    ensures var rows := [Row(3, 5, 7), Row(6, 2, 7)];
            MergeSorted(Sort(rows)) == Some([Row(3, 2, 7)]) && !Finds(Tree([Row(3, 2, 7)]), rows)
  {
    var x, y, z := Row(3, 5, 7), Row(6, 2, 7), Row(3, 2, 7);
    var rows := [x, y];
    SortTwo(x, y);
    hide Sort, Tree, Finds;
    MergeTwo(x, y);
    assert ClipsAt(rows, 1) && rows[1].value == 7;
    assert Clips(Sort(rows), 7);
    GeneratedLookup(rows);
    assert MergeSorted(Sort(rows)) == Some([z]);
  }

  lemma SortTwo(x: Row, y: Row)
    requires Leq(x, y)
    ensures Sort([x, y]) == [x, y]
  {
    assert [x, y][..1] == [x] && [x][..0] == [];
    assert Sort([x]) == Insert(x, Sort([]));
  }

  lemma MergeTwo(x: Row, y: Row)
    requires y.lo == x.hi + 1 && x.value == y.value
    ensures MergeSorted([x, y]) == Some([Row(x.lo, y.hi, y.value)])
  {
    hide MergeSorted;
    MergeNothing([x, y]);
    MergeNext([x, y], 0);
    MergeNext([x, y], 1);
    assert [x, y][..1] == [x] && [x, y][..2] == [x, y];
    assert [x][..0] + [Row(x.lo, y.hi, y.value)] == [Row(x.lo, y.hi, y.value)];
  }
}
