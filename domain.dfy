/**
 * The domain statistics `loadCSV` in assignment2/script.js returns with the
 * records: per-axis maximum and minimum (the minimum clamped to at most 0)
 * and the distinct non-empty categories in first-seen order.
 */
module Domain {
  import opened Wrappers
  import opened Csv

  /** What `loadCSV` resolves to. */
  datatype Summary = Summary(
    maxX: real, minX: real, maxY: real, minY: real,
    categories: seq<string>, points: seq<Point>)

  /** `Math.max(...s)` on a non-empty list: an element no element exceeds. */
  function MaxOf(s: seq<real>): (m: real)
    requires |s| > 0
    ensures m in s
    ensures forall i :: 0 <= i < |s| ==> s[i] <= m
  {
    if |s| == 1 then s[0]
    else
      var rest := MaxOf(s[1..]);
      assert forall i :: 1 <= i < |s| ==> s[i] == s[1..][i - 1];
      if s[0] >= rest then s[0] else rest
  }

  /** `Math.min(...s)` on a non-empty list: an element no element is below. */
  function MinOf(s: seq<real>): (m: real)
    requires |s| > 0
    ensures m in s
    ensures forall i :: 0 <= i < |s| ==> m <= s[i]
  {
    if |s| == 1 then s[0]
    else
      var rest := MinOf(s[1..]);
      assert forall i :: 1 <= i < |s| ==> s[i] == s[1..][i - 1];
      if s[0] <= rest then s[0] else rest
  }

  function Xs(ps: seq<Point>): seq<real>
  {
    seq(|ps|, i requires 0 <= i < |ps| => ps[i].x)
  }

  function Ys(ps: seq<Point>): seq<real>
  {
    seq(|ps|, i requires 0 <= i < |ps| => ps[i].y)
  }

  // ---------------------------------------------------------------------
  // Unique categories: [...new Set(data.map(d => d.category).filter(v => v))]
  // ---------------------------------------------------------------------

  /** No element occurs twice. */
  predicate NoDup<T(==)>(s: seq<T>)
  {
    forall i, j :: 0 <= i < j < |s| ==> s[i] != s[j]
  }

  /**
   * The categories of the points, in order, with `undefined` and the empty
   * string (the falsy values) filtered out.
   */
  function Present(ps: seq<Point>): (cs: seq<string>)
    ensures forall c :: c in cs <==> c != "" && exists i :: 0 <= i < |ps| && ps[i].category == Some(c)
  {
    if ps == [] then []
    else
      var init := Present(ps[..|ps| - 1]);
      var last := ps[|ps| - 1];
      assert forall i :: 0 <= i < |ps| - 1 ==> ps[..|ps| - 1][i] == ps[i];
      if last.category.Some? && last.category.value != "" then init + [last.category.value] else init
  }

  /**
   * The iteration order of a `Set` built by inserting the elements of `s`
   * one by one: an element is appended when it is first seen.
   */
  function Distinct(s: seq<string>): (d: seq<string>)
    ensures NoDup(d)
    ensures forall x :: x in d <==> x in s
  {
    if s == [] then []
    else
      var init := Distinct(s[..|s| - 1]);
      assert s == s[..|s| - 1] + [s[|s| - 1]];
      if s[|s| - 1] in init then init else init + [s[|s| - 1]]
  }

  /** `uniqueCategories` */
  function UniqueCategories(ps: seq<Point>): seq<string>
  {
    Distinct(Present(ps))
  }

  /** Some point has category `c`. */
  ghost predicate Occurs(ps: seq<Point>, c: string)
  {
    exists i :: 0 <= i < |ps| && ps[i].category == Some(c)
  }

  /** The position of the first point whose category is `c`. */
  function FirstPoint(ps: seq<Point>, c: string): (i: nat)
    requires Occurs(ps, c)
    ensures i < |ps| && ps[i].category == Some(c)
    ensures forall j :: 0 <= j < i ==> ps[j].category != Some(c)
  {
    if ps[0].category == Some(c) then 0
    else
      assert Occurs(ps[1..], c) by {
        var i :| 0 <= i < |ps| && ps[i].category == Some(c);
        assert ps[1..][i - 1] == ps[i];
      }
      1 + FirstPoint(ps[1..], c)
  }

  lemma FirstPointPrefix(ps: seq<Point>, n: nat, c: string)
    requires n <= |ps| && Occurs(ps[..n], c)
    ensures Occurs(ps, c) && FirstPoint(ps[..n], c) == FirstPoint(ps, c)
  {
    var i := FirstPoint(ps[..n], c);
    assert ps[i] == ps[..n][i];
  }

  /** Inserting one more element into the `Set`. */
  lemma DistinctSnoc(s: seq<string>, x: string)
    ensures Distinct(s + [x]) == if x in Distinct(s) then Distinct(s) else Distinct(s) + [x]
  {
    assert (s + [x])[..|s|] == s;
  }

  /** Collecting the categories of one more point. */
  lemma PresentSnoc(ps: seq<Point>, p: Point)
    ensures Present(ps + [p]) ==
      if p.category.Some? && p.category.value != "" then Present(ps) + [p.category.value] else Present(ps)
  {
    assert (ps + [p])[..|ps|] == ps;
  }

  /** A category first seen at the last point is first seen there. */
  lemma FirstPointLast(ps: seq<Point>, c: string)
    requires ps != [] && ps[|ps| - 1].category == Some(c) && !Occurs(ps[..|ps| - 1], c)
    ensures Occurs(ps, c) && FirstPoint(ps, c) == |ps| - 1
  {
  }

  /** Every category of `u` occurs, and `u` lists them in order of first occurrence. */
  ghost predicate FirstSeenOrder(ps: seq<Point>, u: seq<string>)
  {
    (forall x :: x in u ==> Occurs(ps, x)) &&
    (forall a, b :: 0 <= a < b < |u| ==> FirstPoint(ps, u[a]) < FirstPoint(ps, u[b]))
  }

  /** Appending points does not move where earlier categories are first seen. */
  lemma FirstSeenOrderExtends(ps: seq<Point>, n: nat, u: seq<string>)
    requires n <= |ps| && FirstSeenOrder(ps[..n], u)
    ensures FirstSeenOrder(ps, u)
    ensures forall x :: x in u ==> FirstPoint(ps, x) < n
  {
    forall x | x in u ensures Occurs(ps, x) && FirstPoint(ps, x) == FirstPoint(ps[..n], x) {
      FirstPointPrefix(ps, n, x);
    }
  }

  /** A category first seen after all of `u` goes at the end of the order. */
  lemma FirstSeenOrderAppend(ps: seq<Point>, u: seq<string>, c: string)
    requires FirstSeenOrder(ps, u) && forall x :: x in u ==> FirstPoint(ps, x) < |ps| - 1
    requires Occurs(ps, c) && FirstPoint(ps, c) == |ps| - 1
    ensures FirstSeenOrder(ps, u + [c])
  {
    var v := u + [c];
    forall a, b | 0 <= a < b < |v| ensures FirstPoint(ps, v[a]) < FirstPoint(ps, v[b]) {
      assert v[a] == u[a];
      if b < |u| {
        assert v[b] == u[b];
      }
    }
  }

  /**
   * `uniqueCategories` holds no duplicate and no empty category, and holds
   * exactly the non-empty categories that occur.
   */
  lemma UniqueCategoriesMembers(ps: seq<Point>)
    ensures var u := UniqueCategories(ps);
      NoDup(u) && "" !in u && (forall c :: c in u <==> c != "" && Occurs(ps, c))
  {
  }

  /** `uniqueCategories` lists the categories in the order in which they first occur. */
  lemma {:induction false} UniqueCategoriesOrder(ps: seq<Point>)
    ensures FirstSeenOrder(ps, UniqueCategories(ps))
    decreases |ps|
  {
    if ps != [] {
      var n := |ps| - 1;
      var init, last := ps[..n], ps[n];
      assert ps == init + [last];
      UniqueCategoriesOrder(init);
      var ui := UniqueCategories(init);
      FirstSeenOrderExtends(ps, n, ui);
      PresentSnoc(init, last);
      if last.category.Some? && last.category.value != "" {
        var c := last.category.value;
        DistinctSnoc(Present(init), c);
        if c !in ui {
          UniqueCategoriesMembers(init);
          FirstPointLast(ps, c);
          FirstSeenOrderAppend(ps, ui, c);
        }
      }
    }
  }

  // ---------------------------------------------------------------------
  // The summary loadCSV resolves to
  // ---------------------------------------------------------------------

  /**
   * The statistics of a non-empty record list: `maxX` is the largest `x`,
   * `minX` the smallest `x` clamped to at most 0 (and likewise for `y`).
   */
  function Summarize(ps: seq<Point>): (s: Summary)
    requires |ps| > 0
    ensures s.points == ps
    ensures s.minX <= 0.0 && s.minY <= 0.0
    ensures forall i :: 0 <= i < |ps| ==> s.minX <= ps[i].x <= s.maxX && s.minY <= ps[i].y <= s.maxY
    ensures exists i :: 0 <= i < |ps| && ps[i].x == s.maxX
    ensures exists i :: 0 <= i < |ps| && ps[i].y == s.maxY
    ensures s.minX == 0.0 || exists i :: 0 <= i < |ps| && ps[i].x == s.minX
    ensures s.minY == 0.0 || exists i :: 0 <= i < |ps| && ps[i].y == s.minY
  {
    var xs, ys := Xs(ps), Ys(ps);
    var minX := MinOf(xs);
    var minY := MinOf(ys);
    assert forall i :: 0 <= i < |ps| ==> xs[i] == ps[i].x && ys[i] == ps[i].y;
    Summary(MaxOf(xs), if minX < 0.0 then minX else 0.0,
            MaxOf(ys), if minY < 0.0 then minY else 0.0,
            UniqueCategories(ps), ps)
  }

  /**
   * `loadCSV` after the text has been fetched: `None` when no row survives
   * (where the source would compute infinite bounds).
   */
  function LoadCsv(text: string, parse: string -> Option<real>): (r: Option<Summary>)
    ensures r.None? <==> ParseRows(Rows(text), parse) == []
    ensures r.Some? ==> r.value.points == ParseRows(Rows(text), parse)
    ensures r.Some? ==> r.value.categories == UniqueCategories(r.value.points)
  {
    var ps := ParseRows(Rows(text), parse);
    if ps == [] then None else Some(Summarize(ps))
  }
}
