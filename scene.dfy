/**
 * The board queries of src/scene.rs: the out-of-bounds test on the head and
 * the duplicate-cell scan behind self-collision. Drawing is not modelled, and
 * the output handle the source keeps in the scene is dropped.
 */
module Scenes {
  import opened Wrappers
  import opened Snakes

  /**
   * A board `width` columns by `height` rows whose outer `borderWidth` band is
   * wall. `Scene::new` stores the three values as given, without validation,
   * and `width()` / `height()` return them: here they are the constructor
   * and the fields of this datatype.
   */
  datatype Scene = Scene(width: U16, height: U16, borderWidth: U16)

  /** The `u16` subtractions `width - border_width` and `height - border_width` do not underflow. */
  predicate BorderFits(s: Scene)
  {
    s.borderWidth <= s.width && s.borderWidth <= s.height
  }

  /** `p` lies strictly inside the border band on all four sides. */
  predicate InInterior(s: Scene, p: Pos)
  {
    s.borderWidth < p.x < s.width - s.borderWidth && s.borderWidth < p.y < s.height - s.borderWidth
  }

  /** The head has reached or crossed the border band on some side. */
  function IsSnakeOutOfBound(s: Scene, body: seq<Pos>): (r: bool)
    requires BorderFits(s) && |body| >= 1
    ensures r <==> !InInterior(s, body[0])
  {
    var x, y := body[0].x, body[0].y;
    x <= s.borderWidth || x >= s.width - s.borderWidth ||
    y <= s.borderWidth || y >= s.height - s.borderWidth
  }

  /** Only the head is tested: the rest of the body never matters. */
  lemma OutOfBoundOnlyHead(s: Scene, b1: seq<Pos>, b2: seq<Pos>)
    requires BorderFits(s) && |b1| >= 1 && |b2| >= 1 && b1[0] == b2[0]
    ensures IsSnakeOutOfBound(s, b1) == IsSnakeOutOfBound(s, b2)
  {
  }

  /**
   * A head on row 0 or column 0, where Left and Up stall instead of
   * underflowing, is out of bounds for every border width, 0 included.
   */
  lemma EdgeIsOutOfBound(s: Scene, body: seq<Pos>)
    requires BorderFits(s) && |body| >= 1
    requires body[0].x == 0 || body[0].y == 0
    ensures IsSnakeOutOfBound(s, body)
  {
  }

  /** Every cell differs from every other. */
  predicate Distinct(v: seq<Pos>)
  {
    forall i, j :: 0 <= i < j < |v| ==> v[i] != v[j]
  }

  /** The set of cells `v` occupies. */
  function Cells(v: seq<Pos>): set<Pos>
  {
    set p | p in v
  }

  /**
   * The scan of `find_duplicate_tuples`: `seen` holds the cells already passed;
   * the first cell met again is returned.
   */
  function Scan(v: seq<Pos>, seen: seq<Pos>): (r: Option<Pos>)
    ensures r.Some? ==> r.value in v && (r.value in seen || multiset(v)[r.value] >= 2)
    ensures r.None? ==> forall i :: 0 <= i < |v| ==> v[i] !in seen
    decreases |v|
  {
    if v == [] then None
    else if v[0] in seen then Some(v[0])
    else
      assert v == [v[0]] + v[1..];
      Scan(v[1..], seen + [v[0]])
  }

  /** What `find_duplicate_tuples(v)` returns: a cell the input holds at least twice, if any. */
  function FindDuplicate(v: seq<Pos>): (r: Option<Pos>)
    ensures r.Some? ==> multiset(v)[r.value] >= 2
  {
    Scan(v, [])
  }

  /** One step of the scan over `w` from index `k`, with `w[..k]` already seen. */
  lemma ScanStep(w: seq<Pos>, k: nat)
    requires k < |w|
    ensures Scan(w[k..], w[..k]) ==
      if w[k] in w[..k] then Some(w[k]) else Scan(w[k + 1..], w[..k + 1])
  {
    assert w[k..][0] == w[k];
    assert w[k..][1..] == w[k + 1..];
    assert w[..k] + [w[k]] == w[..k + 1];
  }

  /**
   * Scanning `w` from index `k` with `w[..k]` already seen finds nothing iff no
   * cell from `k` on repeats an earlier one.
   */
  lemma {:induction false} ScanFromNone(w: seq<Pos>, k: nat)
    requires k <= |w|
    ensures Scan(w[k..], w[..k]).None? <==> forall m :: k <= m < |w| ==> w[m] !in w[..m]
    decreases |w| - k
  {
    if k < |w| {
      ScanStep(w, k);
      if w[k] !in w[..k] {
        ScanFromNone(w, k + 1);
      }
    }
  }

  /**
   * When the scan from index `k` finds a cell, it is the first cell from `k` on
   * that repeats an earlier one.
   */
  lemma {:induction false} ScanFromSome(w: seq<Pos>, k: nat)
    requires k <= |w| && Scan(w[k..], w[..k]).Some?
    ensures exists j :: (k <= j < |w| && w[j] == Scan(w[k..], w[..k]).value && w[j] in w[..j] &&
                         forall m :: k <= m < j ==> w[m] !in w[..m])
    decreases |w| - k
  {
    if k < |w| {
      ScanStep(w, k);
      if w[k] !in w[..k] {
        ScanFromSome(w, k + 1);
      } else {
        assert k <= k < |w| && w[k] == Scan(w[k..], w[..k]).value && w[k] in w[..k];
      }
    }
  }

  /** No cell repeats an earlier one iff all cells are pairwise distinct. */
  lemma DistinctIffNoEarlierRepeat(v: seq<Pos>)
    ensures Distinct(v) <==> forall m :: 0 <= m < |v| ==> v[m] !in v[..m]
  {
  }

  /** `find_duplicate_tuples` returns `None` iff the cells are pairwise distinct. */
  lemma FindDuplicateNoneIff(v: seq<Pos>)
    ensures FindDuplicate(v).None? <==> Distinct(v)
  {
    assert v[0..] == v && v[..0] == [];
    ScanFromNone(v, 0);
    DistinctIffNoEarlierRepeat(v);
  }

  /**
   * A duplicate found is the cell at the smallest index `j` that repeats some
   * earlier index.
   */
  lemma FindDuplicateIsFirstRepeat(v: seq<Pos>)
    requires FindDuplicate(v).Some?
    ensures exists j :: (0 <= j < |v| && v[j] == FindDuplicate(v).value &&
                         (exists i :: 0 <= i < j && v[i] == v[j]) &&
                         forall m, i :: 0 <= i < m < j ==> v[i] != v[m])
  {
    assert v[0..] == v && v[..0] == [];
    ScanFromSome(v, 0);
    var j :| 0 <= j < |v| && v[j] == FindDuplicate(v).value && v[j] in v[..j] &&
      forall m :: 0 <= m < j ==> v[m] !in v[..m];
    var i :| 0 <= i < j && v[..j][i] == v[j];
    forall m, i' | 0 <= i' < m < j ensures v[i'] != v[m] {
      assert v[i'] == v[..m][i'];
    }
  }

  /**
   * The scan as the source writes it: `seen` grows by one cell per step and the
   * first cell already in `seen` is returned at once.
   */
  method FindDuplicateTuples(v: seq<Pos>) returns (r: Option<Pos>)
    ensures r == FindDuplicate(v)
    ensures r.None? <==> Distinct(v)
  {
    var seen: seq<Pos> := [];
    var i := 0;
    assert v[0..] == v && v[..0] == [];
    while i < |v|
      invariant 0 <= i <= |v|
      invariant seen == v[..i]
      invariant Scan(v[i..], v[..i]) == FindDuplicate(v)
    {
      var tuple := v[i];
      ScanStep(v, i);
      if tuple in seen {
        FindDuplicateNoneIff(v);
        return Some(tuple);
      }
      seen := seen + [tuple];
      assert seen == v[..i + 1];
      i := i + 1;
    }
    assert v[i..] == [];
    FindDuplicateNoneIff(v);
    return None;
  }

  /** The body holds some cell twice; a one-cell body never touches itself. */
  function IsSnakeTouchHimself(body: seq<Pos>): (r: bool)
    ensures r <==> !Distinct(body)
    ensures |body| <= 1 ==> !r
  {
    FindDuplicateNoneIff(body);
    match FindDuplicate(body)
    case Some(_) => true
    case None => false
  }

  /**
   * A body is free of repeats iff it occupies as many distinct cells as it has
   * segments; never more.
   */
  lemma {:induction false} DistinctIffAllCellsDifferent(v: seq<Pos>)
    ensures |Cells(v)| <= |v|
    ensures Distinct(v) <==> |Cells(v)| == |v|
  {
    if v != [] {
      var n := |v|;
      var u, last := v[..n - 1], v[n - 1];
      DistinctIffAllCellsDifferent(u);
      assert v == u + [last];
      assert Cells(v) == Cells(u) + {last};
      if last in u {
        var i :| 0 <= i < |u| && u[i] == last;
        assert v[i] == v[n - 1];
        assert Cells(v) == Cells(u);
      } else {
        assert last !in Cells(u);
        assert |Cells(v)| == |Cells(u)| + 1;
        if Distinct(u) {
          forall i, j | 0 <= i < j < n ensures v[i] != v[j] {
            if j < n - 1 {
              assert v[i] == u[i] && v[j] == u[j];
            } else {
              assert v[i] == u[i];
            }
          }
        } else {
          var i, j :| 0 <= i < j < |u| && u[i] == u[j];
          assert v[i] == v[j];
        }
      }
    }
  }
}
