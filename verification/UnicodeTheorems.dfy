/**
  Merging keeps the meaning of a table and is canonical, it raises on overlaps, and lookups
  are logarithmic.
 */
module UnicodeTheorems {
  import opened Options
  import opened Words
  import opened UnicodeTree

  /** Non-empty intervals in order, none touching an equal neighbour. */
  ghost predicate Normal(rows: seq<Row>)
  {
    && Spans(rows)
    && (forall i, j :: 0 <= i < j < |rows| ==> rows[i].hi < rows[j].lo)
    && (forall i :: 0 < i < |rows| ==> !Touching(rows[i - 1], rows[i]))
  }

  predicate Touching(x: Row, y: Row)
  {
    y.lo == x.hi + 1 && x.value == y.value
  }

  ghost predicate SameMeaning(a: seq<Row>, b: seq<Row>)
  {
    && (forall cp :: Cover(a, cp) == Cover(b, cp))
    && (forall cp, v :: Gives(a, cp, v) <==> Gives(b, cp, v))
  }

  // ----- rows below and above a code point -----

  lemma {:induction false} NotCovered(rows: seq<Row>, cp: int)
    requires forall i :: 0 <= i < |rows| ==> !Contains(rows[i], cp)
    ensures Cover(rows, cp) == 0 && forall v :: !Gives(rows, cp, v)
    decreases |rows|
  {
    if rows != [] {
      NotCovered(rows[..|rows| - 1], cp);
    }
  }

  lemma {:induction false} CoverConcat(a: seq<Row>, b: seq<Row>, cp: int, v: int)
    ensures Cover(a + b, cp) == Cover(a, cp) + Cover(b, cp)
    ensures Gives(a + b, cp, v) <==> Gives(a, cp, v) || Gives(b, cp, v)
    decreases |b|
  {
    if b == [] {
      assert a + b == a;
    } else {
      var n := |b| - 1;
      assert (a + b)[..|a + b| - 1] == a + b[..n];
      CoverConcat(a, b[..n], cp, v);
    }
  }

  // ----- merging -----

  lemma AppendNormal(r: seq<Row>, x: Row)
    requires Normal(r) && x.lo <= x.hi
    requires r != [] ==> r[|r| - 1].hi < x.lo && !Touching(r[|r| - 1], x)
    ensures Normal(r + [x])
  {
    var s := r + [x];
    forall i | 0 <= i < |r|
      ensures r[i].hi < x.lo
    {
      if i < |r| - 1 {
        assert r[i].hi < r[|r| - 1].lo <= r[|r| - 1].hi;
      }
    }
  }

  lemma ExtendNormal(r: seq<Row>, hi: int)
    requires Normal(r) && r != [] && r[|r| - 1].hi < hi
    ensures var n := |r| - 1; Normal(r[..n] + [Row(r[n].lo, hi, r[n].value)])
  {
  }

  /** Joining two touching rows gives each code point the same rows and values. */
  lemma ExtendMeaning(front: seq<Row>, y: Row, x: Row, cp: int, v: int)
    requires y.lo <= y.hi && x.lo <= x.hi && x.lo == y.hi + 1 && x.value == y.value
    ensures Cover(front + [Row(y.lo, x.hi, x.value)], cp) == Cover(front + [y] + [x], cp)
    ensures Gives(front + [Row(y.lo, x.hi, x.value)], cp, v) <==> Gives(front + [y] + [x], cp, v)
  {
    hide Cover, Gives;
    var z := Row(y.lo, x.hi, x.value);
    CoverAppend(front, z, cp);
    GivesAppend(front, z, cp, v);
    CoverAppend(front, y, cp);
    GivesAppend(front, y, cp, v);
    CoverAppend(front + [y], x, cp);
    GivesAppend(front + [y], x, cp, v);
  }

  /** One turn of the merge loop keeps the meaning and the normal form. */
  lemma MergeOneKeeps(r: seq<Row>, x: Row)
    requires Normal(r) && x.lo <= x.hi && MergeOne(r, x).Some?
    ensures var m := MergeOne(r, x).value;
            Normal(m) && m != [] && m[|m| - 1].hi == x.hi && SameMeaning(m, r + [x])
  {
    var n := |r| - 1;
    var m := MergeOne(r, x).value;
    if r != [] && x.lo == r[n].hi + 1 && x.value == r[n].value {
      ExtendNormal(r, x.hi);
      hide Normal, Cover, Gives;
      assert r == r[..n] + [r[n]];
      forall cp
        ensures Cover(m, cp) == Cover(r + [x], cp)
      {
        ExtendMeaning(r[..n], r[n], x, cp, 0);
      }
      forall cp, v
        ensures Gives(m, cp, v) <==> Gives(r + [x], cp, v)
      {
        ExtendMeaning(r[..n], r[n], x, cp, v);
      }
    } else {
      AppendNormal(r, x);
    }
  }

  lemma AppendSame(a: seq<Row>, b: seq<Row>, x: Row)
    requires SameMeaning(a, b)
    ensures SameMeaning(a + [x], b + [x])
  {
    hide Cover, Gives;
    forall cp
      ensures Cover(a + [x], cp) == Cover(b + [x], cp)
    {
      CoverAppend(a, x, cp);
      CoverAppend(b, x, cp);
    }
    forall cp, v
      ensures Gives(a + [x], cp, v) <==> Gives(b + [x], cp, v)
    {
      GivesAppend(a, x, cp, v);
      GivesAppend(b, x, cp, v);
    }
  }

  lemma {:induction false} MergeKeeps(s: seq<Row>)
    requires Ordered(s) && Spans(s) && MergeSorted(s).Some?
    ensures var m := MergeSorted(s).value;
            && Normal(m) && SameMeaning(m, s)
            && (m == [] <==> s == []) && (s != [] ==> m[|m| - 1].hi == s[|s| - 1].hi)
    decreases |s|
  {
    if s != [] {
      hide *;
      var n := |s| - 1;
      var front, x := s[..n], s[n];
      MergeLast(s);
      var r := MergeSorted(front).value;
      MergeKeeps(front);
      MergeOneKeeps(r, x);
      AppendSame(r, front, x);
      SameTrans(MergeOne(r, x).value, r + [x], s);
    }
  }

  lemma MergeLast(s: seq<Row>)
    requires s != [] && Ordered(s) && Spans(s) && MergeSorted(s).Some?
    ensures var front, x := s[..|s| - 1], s[|s| - 1];
            && s == front + [x] && Ordered(front) && Spans(front) && x.lo <= x.hi
            && MergeSorted(front).Some? && MergeSorted(s) == MergeOne(MergeSorted(front).value, x)
  {
    hide Leq, MergeOne;
  }

  lemma SameTrans(a: seq<Row>, b: seq<Row>, c: seq<Row>)
    requires SameMeaning(a, b) && SameMeaning(b, c)
    ensures SameMeaning(a, c)
  {
    hide Cover, Gives;
  }

  lemma {:induction false} NormalCover(m: seq<Row>, cp: int)
    requires Normal(m)
    ensures Cover(m, cp) <= 1
    decreases |m|
  {
    if m != [] {
      var n := |m| - 1;
      assert Normal(m[..n]);
      NormalCover(m[..n], cp);
      if Contains(m[n], cp) {
        NotCovered(m[..n], cp);
      }
    }
  }

  /** A refused table names a code point in two rows. */
  lemma {:induction false} RefusedOverlaps(s: seq<Row>) returns (cp: int)
    requires Ordered(s) && Spans(s) && MergeSorted(s).None?
    ensures Cover(s, cp) >= 2
    decreases |s|
  {
    var n := |s| - 1;
    var front, x := s[..n], s[n];
    assert s == front + [x];
    if MergeSorted(front).None? {
      cp := RefusedOverlaps(front);
      CoverAppend(front, x, cp);
    } else {
      cp := x.lo;
      MergeKeeps(front);
      assert front != [];
      assert Leq(s[n - 1], s[n]);
      assert Contains(front[n - 1], cp);
      CoverAppend(front, x, cp);
    }
  }

  ghost predicate Collides(s: seq<Row>)
  {
    exists i :: 0 < i < |s| && s[i].lo <= s[i - 1].hi
  }

  /** On any sorted rows, well formed or not, the merge raises exactly when a row starts inside its predecessor. */
  lemma {:induction false} RaisesOnCollision(s: seq<Row>)
    ensures MergeSorted(s).None? <==> Collides(s)
    ensures MergeSorted(s).Some? && s != [] ==>
              MergeSorted(s).value != [] && MergeSorted(s).value[|MergeSorted(s).value| - 1].hi == s[|s| - 1].hi
    decreases |s|
  {
    if s != [] {
      var n := |s| - 1;
      RaisesOnCollision(s[..n]);
      CollidesLast(s);
      hide Collides;
    }
  }

  lemma CollidesLast(s: seq<Row>)
    requires s != []
    ensures Collides(s) <==> Collides(s[..|s| - 1]) || (|s| > 1 && s[|s| - 1].lo <= s[|s| - 2].hi)
  {
    var n := |s| - 1;
    if i :| 0 < i < n && s[..n][i].lo <= s[..n][i - 1].hi {
      assert s[i].lo <= s[i - 1].hi;
    }
    if i :| 0 < i < |s| && s[i].lo <= s[i - 1].hi {
      assert i < n ==> s[..n][i].lo <= s[..n][i - 1].hi;
    }
    if |s| > 1 && s[n].lo <= s[n - 1].hi {
      assert s[n].lo <= s[n - 1].hi;
    }
  }

  /** A code point in two rows makes sorted rows collide, reversed rows between them or not. */
  lemma {:induction false} OverlapCollides(s: seq<Row>, cp: int)
    requires Ordered(s) && Cover(s, cp) >= 2
    ensures Collides(s)
    decreases |s|
  {
    var n := |s| - 1;
    var front := s[..n];
    if Cover(front, cp) >= 2 {
      OverlapCollides(front, cp);
      var i :| 0 < i < n && front[i].lo <= front[i - 1].hi;
      assert s[i].lo <= s[i - 1].hi;
    } else {
      var k := CoveredAt(front, cp);
      assert Leq(s[k], s[k + 1]) && (k + 1 < n ==> Leq(s[k + 1], s[n]));
      assert s[k + 1].lo <= s[k + 1 - 1].hi;
    }
  }

  lemma {:induction false} CoveredAt(s: seq<Row>, cp: int) returns (k: nat)
    requires Cover(s, cp) >= 1
    ensures k < |s| && Contains(s[k], cp)
    decreases |s|
  {
    k := |s| - 1;
    if !Contains(s[k], cp) {
      k := CoveredAt(s[..k], cp);
    }
  }

  /** `merged` raises whenever two rows share a code point, and on rows with lo <= hi only then. */
  lemma RaisesIff(rows: seq<Row>)
    ensures Overlapping(rows) ==> MergeSorted(Sort(rows)).None?
    ensures Spans(rows) ==> (MergeSorted(Sort(rows)).None? <==> Overlapping(rows))
  {
    hide Cover, Gives, Normal, MergeSorted, Collides;
    var s := Sort(rows);
    SortOrders(rows);
    RaisesOnCollision(s);
    if Overlapping(rows) {
      var cp :| Cover(rows, cp) >= 2;
      SortKeeps(rows, cp, 0);
      OverlapCollides(s, cp);
    } else if Spans(rows) && MergeSorted(s).None? {
      var cp := RefusedOverlaps(s);
      SortKeeps(rows, cp, 0);
    }
  }

  // ----- parts of a table -----

  lemma SplitAt(rows: seq<Row>, k: nat, cp: int, v: int)
    requires k < |rows|
    ensures Cover(rows, cp) == Cover(rows[..k], cp) + (if Contains(rows[k], cp) then 1 else 0) + Cover(rows[k + 1..], cp)
    ensures Gives(rows, cp, v)
       <==> Gives(rows[..k], cp, v) || (Contains(rows[k], cp) && rows[k].value == v) || Gives(rows[k + 1..], cp, v)
  {
    hide Cover, Gives;
    assert rows == rows[..k] + [rows[k]] + rows[k + 1..];
    CoverConcat(rows[..k] + [rows[k]], rows[k + 1..], cp, v);
    CoverAppend(rows[..k], rows[k], cp);
    GivesAppend(rows[..k], rows[k], cp, v);
  }

  lemma NormalParts(m: seq<Row>, k: nat)
    requires Normal(m) && k < |m|
    ensures Normal(m[..k]) && Normal(m[k + 1..])
  {
  }

  // ----- depth -----

  /** The longest path inspects exactly floor(log2 n) + 1 of n rows. */
  lemma {:induction false} TreeDepth(rows: seq<Row>)
    ensures rows == [] ==> Depth(Tree(rows)) == 0
    ensures rows != [] ==> Depth(Tree(rows)) > 0 && Pow2(Depth(Tree(rows)) - 1) <= |rows| < Pow2(Depth(Tree(rows)))
    decreases |rows|
  {
    hide *;
    if rows == [] {
      EmptyDepth();
    } else {
      var n, k := |rows|, |rows| / 2;
      TreeDepth(rows[..k]);
      TreeDepth(rows[k + 1..]);
      NodeDepth(rows);
      HalvesDepth(n, Depth(Tree(rows[..k])), Depth(Tree(rows[k + 1..])));
    }
  }

  lemma EmptyDepth()
    ensures Depth(Tree([])) == 0
  {
  }

  lemma NodeDepth(rows: seq<Row>)
    requires rows != []
    ensures var a, b := Depth(Tree(rows[..|rows| / 2])), Depth(Tree(rows[|rows| / 2 + 1..]));
            Depth(Tree(rows)) == 1 + if a >= b then a else b
  {
    var k := |rows| / 2;
    var inner := IfAtMost(rows[k].hi, Literal(rows[k].value), Tree(rows[k + 1..]));
    assert Depth(inner) == Depth(Tree(rows[k + 1..]));
    assert Tree(rows) == IfBelow(rows[k].lo, Tree(rows[..k]), inner);
  }

  lemma HalvesDepth(n: nat, a: nat, b: nat)
    requires n > 0
    requires n / 2 == 0 ==> a == 0
    requires n / 2 > 0 ==> a > 0 && Pow2(a - 1) <= n / 2 < Pow2(a)
    requires n - n / 2 - 1 == 0 ==> b == 0
    requires n - n / 2 - 1 > 0 ==> b > 0 && Pow2(b - 1) <= n - n / 2 - 1 < Pow2(b)
    ensures b <= a && Pow2(a) <= n < Pow2(a + 1)
  {
    if b > a {
      Pow2Grows(a, b - 1);
    }
  }

  // ----- merging is canonical -----

  lemma CoverFirst(m: seq<Row>, cp: int)
    requires Normal(m) && m != []
    ensures Cover(m, cp) == (if Contains(m[0], cp) then 1 else 0) + Cover(m[1..], cp)
    ensures forall v :: Gives(m, cp, v) <==> (Contains(m[0], cp) && m[0].value == v) || Gives(m[1..], cp, v)
    ensures cp < m[0].lo ==> Cover(m, cp) == 0
    ensures cp <= m[0].hi ==> Cover(m[1..], cp) == 0 && forall v :: !Gives(m[1..], cp, v)
  {
    if cp <= m[0].hi {
      NotCovered(m[1..], cp);
    }
    if cp < m[0].lo {
      NotCovered(m, cp);
    }
    hide Cover, Gives, Normal;
    SplitFirst(m, cp, 0);
    forall v
      ensures Gives(m, cp, v) <==> (Contains(m[0], cp) && m[0].value == v) || Gives(m[1..], cp, v)
    {
      SplitFirst(m, cp, v);
    }
  }

  lemma SplitFirst(m: seq<Row>, cp: int, v: int)
    requires m != []
    ensures Cover(m, cp) == (if Contains(m[0], cp) then 1 else 0) + Cover(m[1..], cp)
    ensures Gives(m, cp, v) <==> (Contains(m[0], cp) && m[0].value == v) || Gives(m[1..], cp, v)
  {
    SplitAt(m, 0, cp, v);
    assert m[..0] == [];
  }

  /** Just past the first row there is a gap or another value. */
  lemma AfterFirst(m: seq<Row>)
    requires Normal(m) && m != []
    ensures !Gives(m, m[0].hi + 1, m[0].value)
  {
    var cp := m[0].hi + 1;
    CoverFirst(m, cp);
    if |m| > 1 {
      var rest := m[1..];
      NormalParts(m, 0);
      CoverFirst(rest, cp);
      hide Gives;
      if Contains(rest[0], cp) {
        assert !Touching(m[0], m[1]);
      } else {
        NotCovered(rest, cp);
      }
    }
  }

  lemma SameFirst(a: seq<Row>, b: seq<Row>)
    requires Normal(a) && Normal(b) && SameMeaning(a, b) && a != []
    ensures b != [] && a[0].lo >= b[0].lo
    ensures a[0].lo == b[0].lo ==> a[0].value == b[0].value && a[0].hi >= b[0].hi
  {
    CoverFirst(a, a[0].lo);
    if b != [] {
      CoverFirst(b, a[0].lo);
      if a[0].lo == b[0].lo {
        assert Gives(a, a[0].lo, a[0].value);
        assert Gives(b, a[0].lo, a[0].value);
        if a[0].hi < b[0].hi {
          AfterFirst(a);
          CoverFirst(b, a[0].hi + 1);
        }
      }
    }
  }

  lemma SameRest(a: seq<Row>, b: seq<Row>)
    requires Normal(a) && Normal(b) && SameMeaning(a, b) && a != [] && b != [] && a[0] == b[0]
    ensures SameMeaning(a[1..], b[1..])
  {
    hide Cover, Gives, Normal;
    forall cp
      ensures Cover(a[1..], cp) == Cover(b[1..], cp)
    {
      CoverFirst(a, cp);
      CoverFirst(b, cp);
    }
    forall cp, v
      ensures Gives(a[1..], cp, v) <==> Gives(b[1..], cp, v)
    {
      CoverFirst(a, cp);
      CoverFirst(b, cp);
      assert Gives(a, cp, v) <==> Gives(b, cp, v);
    }
  }

  /** Two normal tables with the same meaning are the same table. */
  lemma {:induction false} NormalUnique(a: seq<Row>, b: seq<Row>)
    requires Normal(a) && Normal(b) && SameMeaning(a, b)
    ensures a == b
    decreases |a|
  {
    hide Cover, Gives;
    if a == [] {
      if b != [] {
        assert SameMeaning(b, a);
        SameFirst(b, a);
      }
    } else {
      SameFirst(a, b);
      assert SameMeaning(b, a);
      SameFirst(b, a);
      SameRest(a, b);
      NormalParts(a, 0);
      NormalParts(b, 0);
      hide SameMeaning, Normal;
      NormalUnique(a[1..], b[1..]);
      assert a == [a[0]] + a[1..] && b == [b[0]] + b[1..];
    }
  }

  lemma SortMeaning(rows: seq<Row>)
    ensures SameMeaning(Sort(rows), rows)
  {
    hide Cover, Gives, Sort;
    forall cp
      ensures Cover(Sort(rows), cp) == Cover(rows, cp)
    {
      SortKeeps(rows, cp, 0);
    }
    forall cp, v
      ensures Gives(Sort(rows), cp, v) <==> Gives(rows, cp, v)
    {
      SortKeeps(rows, cp, v);
    }
  }

  /** Tables with the same meaning are generated into the same program. */
  lemma GenerationCanonical(a: seq<Row>, b: seq<Row>)
    requires Spans(a) && Spans(b) && SameMeaning(a, b)
    requires MergeSorted(Sort(a)).Some? && MergeSorted(Sort(b)).Some?
    ensures MergeSorted(Sort(a)) == MergeSorted(Sort(b))
  {
    hide Cover, Gives, Normal, MergeSorted, Sort;
    SortOrders(a);
    SortOrders(b);
    MergeKeeps(Sort(a));
    MergeKeeps(Sort(b));
    SortMeaning(a);
    SortMeaning(b);
    NormalUnique(MergeSorted(Sort(a)).value, MergeSorted(Sort(b)).value);
  }
}
