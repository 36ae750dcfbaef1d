/**
 * Post-processing of template matching: `match` in the source.
 *
 * The normalised cross-correlation itself (`cv2.matchTemplate` with
 * `TM_CCOEFF_NORMED`) is a foreign numeric call; its result, the score map,
 * is an input here: row `y`, column `x` holds the score of the template placed
 * with its top-left corner at `(x, y)`. What the model covers is what the
 * source does with that map: thresholding (strictly above `conf` in multi mode,
 * the single maximum at least `conf` otherwise), converting a top-left
 * position into the template's centre, and sorting by descending confidence.
 */
module Matching {
  import opened Wrappers
  import opened Geometry

  /** The default minimum confidence of a match. */
  const DefaultConfidence: real := 0.95

  /** One match: the confidence it was found with and the template's centre. */
  datatype Match = Match(conf: real, point: Point) {

    /** Matches are compared by confidence alone (`__lt__`, `__le__`,
        `__gt__`, `__ge__`); the point takes no part. */
    predicate Lt(other: Match) { conf < other.conf }
    predicate Le(other: Match) { conf <= other.conf }
    predicate Gt(other: Match) { conf > other.conf }
    predicate Ge(other: Match) { conf >= other.conf }
  }

  /** A template image, reduced to what the post-processing reads of it: its
      shape. `id` tells templates of equal shape apart. */
  datatype Template = Template(id: nat, width: nat, height: nat)

  /** The score map `cv2.matchTemplate` returns, row by row. */
  type ScoreMap = seq<seq<real>>

  predicate IsCell(g: ScoreMap, y: int, x: int) {
    0 <= y < |g| && 0 <= x < |g[y]|
  }

  /** The template's centre when its top-left corner is at `(x, y)`. */
  function Centre(t: Template, y: int, x: int): Point {
    Point(x + t.width / 2, y + t.height / 2)
  }

  /** The match reported for cell `(y, x)`. */
  function MatchAt(g: ScoreMap, t: Template, y: int, x: int): Match
    requires IsCell(g, y, x)
  {
    Match(g[y][x], Centre(t, y, x))
  }

  /** `m` is the match of some cell whose score is strictly above `conf`. */
  ghost predicate IsHit(g: ScoreMap, t: Template, conf: real, m: Match) {
    exists y, x :: IsCell(g, y, x) && g[y][x] > conf && m == MatchAt(g, t, y, x)
  }

  // ---------------------------------------------------------------------------
  // Multi mode: every cell above the threshold, in row-major order.

  /** The matches of the cells `(y, 0) .. (y, n - 1)` above `conf`, in order. */
  function RowHits(g: ScoreMap, t: Template, conf: real, y: int, n: nat): seq<Match>
    requires 0 <= y < |g| && n <= |g[y]|
  {
    if n == 0 then []
    else RowHits(g, t, conf, y, n - 1) + (if g[y][n - 1] > conf then [MatchAt(g, t, y, n - 1)] else [])
  }

  /** The matches of all cells of rows `0 .. m - 1` above `conf`, row-major. */
  function Hits(g: ScoreMap, t: Template, conf: real, m: nat): seq<Match>
    requires m <= |g|
  {
    if m == 0 then [] else Hits(g, t, conf, m - 1) + RowHits(g, t, conf, m - 1, |g[m - 1]|)
  }

  lemma {:induction false} RowHitsIff(g: ScoreMap, t: Template, conf: real, y: int, n: nat, m: Match)
    requires 0 <= y < |g| && n <= |g[y]|
    ensures m in RowHits(g, t, conf, y, n) <==> exists x :: 0 <= x < n && g[y][x] > conf && m == MatchAt(g, t, y, x)
  {
    if n > 0 {
      RowHitsIff(g, t, conf, y, n - 1, m);
      if g[y][n - 1] > conf && m == MatchAt(g, t, y, n - 1) {
        assert m in RowHits(g, t, conf, y, n);
      }
    }
  }

  lemma {:induction false} HitsIff(g: ScoreMap, t: Template, conf: real, k: nat, m: Match)
    requires k <= |g|
    ensures m in Hits(g, t, conf, k) <==>
      exists y, x :: 0 <= y < k && IsCell(g, y, x) && g[y][x] > conf && m == MatchAt(g, t, y, x)
  {
    if k > 0 {
      HitsIff(g, t, conf, k - 1, m);
      RowHitsIff(g, t, conf, k - 1, |g[k - 1]|, m);
      if m in RowHits(g, t, conf, k - 1, |g[k - 1]|) {
        var x :| 0 <= x < |g[k - 1]| && g[k - 1][x] > conf && m == MatchAt(g, t, k - 1, x);
        assert IsCell(g, k - 1, x);
      }
    }
  }

  /** No match occurs twice. */
  ghost predicate Distinct(s: seq<Match>) {
    forall i, j :: 0 <= i < j < |s| ==> s[i] != s[j]
  }

  lemma DistinctAppend(a: seq<Match>, b: seq<Match>)
    requires Distinct(a) && Distinct(b)
    requires forall m :: m in a ==> m !in b
    ensures Distinct(a + b)
  {
    forall i, j | 0 <= i < j < |a + b|
      ensures (a + b)[i] != (a + b)[j]
    {
      if i < |a| && j >= |a| {
        assert (a + b)[i] in a && (a + b)[j] in b;
      }
    }
  }

  /** Each cell of a row contributes at most once, and distinct cells have
      distinct centres. */
  lemma {:induction false} RowHitsDistinct(g: ScoreMap, t: Template, conf: real, y: int, n: nat)
    requires 0 <= y < |g| && n <= |g[y]|
    ensures Distinct(RowHits(g, t, conf, y, n))
  {
    if n > 0 {
      RowHitsDistinct(g, t, conf, y, n - 1);
      var prev := RowHits(g, t, conf, y, n - 1);
      if g[y][n - 1] > conf {
        var m := MatchAt(g, t, y, n - 1);
        RowHitsIff(g, t, conf, y, n - 1, m);
        DistinctAppend(prev, [m]);
      } else {
        assert RowHits(g, t, conf, y, n) == prev + [];
      }
    }
  }

  /** Multi mode never reports the same match twice. */
  lemma {:induction false} HitsDistinct(g: ScoreMap, t: Template, conf: real, k: nat)
    requires k <= |g|
    ensures Distinct(Hits(g, t, conf, k))
  {
    if k > 0 {
      HitsDistinct(g, t, conf, k - 1);
      RowHitsDistinct(g, t, conf, k - 1, |g[k - 1]|);
      var row := RowHits(g, t, conf, k - 1, |g[k - 1]|);
      forall m | m in Hits(g, t, conf, k - 1)
        ensures m !in row
      {
        HitsIff(g, t, conf, k - 1, m);
        RowHitsIff(g, t, conf, k - 1, |g[k - 1]|, m);
      }
      DistinctAppend(Hits(g, t, conf, k - 1), row);
    }
  }

  // ---------------------------------------------------------------------------
  // Single mode: the location of the maximum, as `cv2.minMaxLoc` reports it.

  /** The column of the first maximal score among `(y, 0) .. (y, n - 1)`. */
  function RowMax(g: ScoreMap, y: int, n: nat): (x: nat)
    requires 0 <= y < |g| && 0 < n <= |g[y]|
    ensures x < n
  {
    if n == 1 then 0
    else
      var b := RowMax(g, y, n - 1);
      if g[y][n - 1] > g[y][b] then n - 1 else b
  }

  /** `RowMax` finds a maximal score, and no earlier column holds as much. */
  lemma {:induction false} RowMaxIsFirstMax(g: ScoreMap, y: int, n: nat)
    requires 0 <= y < |g| && 0 < n <= |g[y]|
    ensures forall j :: 0 <= j < n ==> g[y][j] <= g[y][RowMax(g, y, n)]
    ensures forall j :: 0 <= j < RowMax(g, y, n) ==> g[y][j] < g[y][RowMax(g, y, n)]
  {
    if n > 1 {
      RowMaxIsFirstMax(g, y, n - 1);
    }
  }

  /** The cell `(y, x)` comes before the cell `(y', x')` in row-major order. */
  predicate Before(y: int, x: int, y': int, x': int) {
    y < y' || (y == y' && x < x')
  }

  /** The first maximal cell of rows `0 .. m - 1` in row-major order, or
      `None` when those rows hold no cell. */
  function MaxLocIn(g: ScoreMap, m: nat): (loc: Option<(int, int)>)
    requires m <= |g|
    ensures loc.Some? ==> 0 <= loc.value.0 < m && IsCell(g, loc.value.0, loc.value.1)
  {
    if m == 0 then None
    else
      var prev := MaxLocIn(g, m - 1);
      if |g[m - 1]| == 0 then prev
      else
        var x := RowMax(g, m - 1, |g[m - 1]|);
        if prev.None? || g[m - 1][x] > g[prev.value.0][prev.value.1] then Some((m - 1, x)) else prev
  }

  /** `MaxLocIn` finds nothing exactly when the rows hold no cell, and
      otherwise the first maximal cell in row-major order. */
  lemma {:induction false} MaxLocInIsFirstMax(g: ScoreMap, m: nat)
    requires m <= |g|
    ensures MaxLocIn(g, m).None? <==> forall y :: 0 <= y < m ==> |g[y]| == 0
    ensures MaxLocIn(g, m).Some? ==> forall y, x :: 0 <= y < m && IsCell(g, y, x) ==>
      g[y][x] <= g[MaxLocIn(g, m).value.0][MaxLocIn(g, m).value.1]
    ensures MaxLocIn(g, m).Some? ==> forall y, x :: IsCell(g, y, x) && Before(y, x, MaxLocIn(g, m).value.0, MaxLocIn(g, m).value.1) ==>
      g[y][x] < g[MaxLocIn(g, m).value.0][MaxLocIn(g, m).value.1]
  {
    if m > 0 {
      MaxLocInIsFirstMax(g, m - 1);
      if |g[m - 1]| > 0 {
        RowMaxIsFirstMax(g, m - 1, |g[m - 1]|);
      }
    }
  }

  /** The location of the maximum of the whole map. */
  function MaxLoc(g: ScoreMap): (loc: Option<(int, int)>)
    ensures loc.Some? ==> IsCell(g, loc.value.0, loc.value.1)
  {
    MaxLocIn(g, |g|)
  }

  /** The single-mode candidate: the maximum, kept when its score is at least `conf`. */
  function Best(g: ScoreMap, t: Template, conf: real): seq<Match> {
    match MaxLoc(g)
    case None => []
    case Some(loc) => if g[loc.0][loc.1] >= conf then [MatchAt(g, t, loc.0, loc.1)] else []
  }

  // ---------------------------------------------------------------------------
  // `sorted(r, key=lambda r: r.conf, reverse=True)`: a stable sort by
  // descending confidence.

  ghost predicate SortedDesc(s: seq<Match>) {
    forall i, j :: 0 <= i < j < |s| ==> s[i].conf >= s[j].conf
  }

  /** Puts `m` before the first element whose confidence is not above its own. */
  function Insert(m: Match, s: seq<Match>): seq<Match> {
    if s == [] || m.conf >= s[0].conf then [m] + s
    else [s[0]] + Insert(m, s[1..])
  }

  function SortDesc(s: seq<Match>): seq<Match> {
    if s == [] then [] else Insert(s[0], SortDesc(s[1..]))
  }

  /** Inserting into a sorted list keeps it sorted; the new head is the
      inserted match or the old head. */
  lemma {:induction false} InsertSorted(m: Match, s: seq<Match>)
    requires SortedDesc(s)
    ensures SortedDesc(Insert(m, s))
    ensures Insert(m, s)[0] == m || (s != [] && Insert(m, s)[0] == s[0])
  {
    if s != [] && m.conf < s[0].conf {
      InsertSorted(m, s[1..]);
    }
  }

  /** Inserting adds exactly the inserted match. */
  lemma {:induction false} InsertPermutation(m: Match, s: seq<Match>)
    ensures multiset(Insert(m, s)) == multiset(s) + multiset{m}
  {
    if s != [] && m.conf < s[0].conf {
      InsertPermutation(m, s[1..]);
      assert s == [s[0]] + s[1..];
    }
  }

  /** Inserting a new match into a list without repetitions keeps it so. */
  lemma {:induction false} InsertDistinct(m: Match, s: seq<Match>)
    requires Distinct(s) && m !in s
    ensures Distinct(Insert(m, s))
  {
    if s == [] || m.conf >= s[0].conf {
      DistinctAppend([m], s);
    } else {
      assert Distinct(s[1..]);
      InsertDistinct(m, s[1..]);
      InsertPermutation(m, s[1..]);
      assert s[0] !in multiset(Insert(m, s[1..]));
      DistinctAppend([s[0]], Insert(m, s[1..]));
    }
  }

  /** Sorting a list without repetitions keeps it so. */
  lemma {:induction false} SortDescDistinct(s: seq<Match>)
    requires Distinct(s)
    ensures Distinct(SortDesc(s))
  {
    if s != [] {
      assert Distinct(s[1..]);
      SortDescDistinct(s[1..]);
      SortDescPermutation(s[1..]);
      assert s[0] !in multiset(SortDesc(s[1..]));
      InsertDistinct(s[0], SortDesc(s[1..]));
    }
  }

  /** The sort's result is ordered by non-increasing confidence. */
  lemma {:induction false} SortDescSorted(s: seq<Match>)
    ensures SortedDesc(SortDesc(s))
  {
    if s != [] {
      SortDescSorted(s[1..]);
      InsertSorted(s[0], SortDesc(s[1..]));
    }
  }

  /** The sort's result is a permutation of its input. */
  lemma {:induction false} SortDescPermutation(s: seq<Match>)
    ensures multiset(SortDesc(s)) == multiset(s)
  {
    if s != [] {
      SortDescPermutation(s[1..]);
      InsertPermutation(s[0], SortDesc(s[1..]));
      assert s == [s[0]] + s[1..];
    }
  }

  // ---------------------------------------------------------------------------
  // `match` for one template.

  /** What `match(source, target, conf, mult)` returns, given the score map
      of `target` against `source`. */
  function MatchSpec(g: ScoreMap, t: Template, conf: real, mult: bool): seq<Match> {
    SortDesc(if mult then Hits(g, t, conf, |g|) else Best(g, t, conf))
  }

  /** `match` for one template: collects the candidates into `r`, then sorts. */
  method MatchTemplate(g: ScoreMap, t: Template, conf: real, mult: bool) returns (r: seq<Match>)
    ensures r == MatchSpec(g, t, conf, mult)
    ensures SortedDesc(r)
  {
    var found: seq<Match> := [];
    if mult {
      var y := 0;
      while y < |g|
        invariant 0 <= y <= |g|
        invariant found == Hits(g, t, conf, y)
      {
        var x := 0;
        while x < |g[y]|
          invariant 0 <= x <= |g[y]|
          invariant found == Hits(g, t, conf, y) + RowHits(g, t, conf, y, x)
        {
          if g[y][x] > conf {
            found := found + [MatchAt(g, t, y, x)];
          }
          assert RowHits(g, t, conf, y, x + 1) ==
            RowHits(g, t, conf, y, x) + (if g[y][x] > conf then [MatchAt(g, t, y, x)] else []);
          x := x + 1;
        }
        assert Hits(g, t, conf, y + 1) == Hits(g, t, conf, y) + RowHits(g, t, conf, y, |g[y]|);
        y := y + 1;
      }
    } else {
      var loc := MaxLoc(g);
      if loc.Some? && g[loc.value.0][loc.value.1] >= conf {
        found := [MatchAt(g, t, loc.value.0, loc.value.1)];
      }
      assert found == Best(g, t, conf);
    }
    r := SortDesc(found);
    SortDescSorted(found);
  }

  /** The score maps of one source image against any template. */
  type Scorer = Template -> ScoreMap

  /** `match` for a list of templates: one result list per template, in the
      order of the templates, each computed on its own. */
  method MatchEach(scorer: Scorer, ts: seq<Template>, conf: real, mult: bool) returns (r: seq<seq<Match>>)
    ensures |r| == |ts|
    ensures forall i :: 0 <= i < |ts| ==> r[i] == MatchSpec(scorer(ts[i]), ts[i], conf, mult)
  {
    r := [];
    for i := 0 to |ts|
      invariant |r| == i
      invariant forall j :: 0 <= j < i ==> r[j] == MatchSpec(scorer(ts[j]), ts[j], conf, mult)
    {
      var found := MatchTemplate(scorer(ts[i]), ts[i], conf, mult);
      r := r + [found];
    }
  }

  // ---------------------------------------------------------------------------
  // Properties of `match`.

  /** Multi mode returns exactly the matches of the cells whose score is
      strictly above `conf`, each placed at the template's centre, and each
      of them once. */
  lemma MultiModeExact(g: ScoreMap, t: Template, conf: real, m: Match)
    ensures m in MatchSpec(g, t, conf, true) <==> IsHit(g, t, conf, m)
    ensures forall i, j :: 0 <= i < j < |MatchSpec(g, t, conf, true)| ==>
      MatchSpec(g, t, conf, true)[i] != MatchSpec(g, t, conf, true)[j]
  {
    var h := Hits(g, t, conf, |g|);
    HitsDistinct(g, t, conf, |g|);
    SortDescDistinct(h);
    SortDescPermutation(h);
    assert m in MatchSpec(g, t, conf, true) <==> m in multiset(h);
    HitsIff(g, t, conf, |g|, m);
  }

  /** Single mode returns at most one match, and one exactly when some score
      is at least `conf`; that match carries the maximal score and sits at the
      centre of the template placed at a maximal cell. */
  lemma SingleModeBest(g: ScoreMap, t: Template, conf: real)
    ensures |MatchSpec(g, t, conf, false)| <= 1
    ensures MatchSpec(g, t, conf, false) != [] <==> exists y, x :: IsCell(g, y, x) && g[y][x] >= conf
    ensures forall m :: m in MatchSpec(g, t, conf, false) ==>
      && m.conf >= conf
      && (forall y, x :: IsCell(g, y, x) ==> g[y][x] <= m.conf)
      && exists y, x :: IsCell(g, y, x) && m == MatchAt(g, t, y, x)
  {
    var b := Best(g, t, conf);
    assert SortDesc(b) == b by {
      if b != [] {
        assert b[1..] == [];
      }
    }
    MaxLocInIsFirstMax(g, |g|);
    var loc := MaxLoc(g);
    if loc.Some? {
      var (y, x) := loc.value;
      assert IsCell(g, y, x);
    }
  }

  /** The elements of `s` whose confidence is `c`, in their order in `s`. */
  function WithConf(s: seq<Match>, c: real): seq<Match> {
    if s == [] then [] else (if s[0].conf == c then [s[0]] else []) + WithConf(s[1..], c)
  }

  /** Filtering by confidence distributes over concatenation. */
  lemma {:induction false} WithConfAppend(a: seq<Match>, b: seq<Match>, c: real)
    ensures WithConf(a + b, c) == WithConf(a, c) + WithConf(b, c)
  {
    if a != [] {
      assert (a + b)[0] == a[0] && (a + b)[1..] == a[1..] + b;
      WithConfAppend(a[1..], b, c);
    } else {
      assert a + b == b;
    }
  }

  /** Inserting puts the new match ahead of those of equal confidence. */
  lemma {:induction false} InsertStable(m: Match, s: seq<Match>, c: real)
    ensures WithConf(Insert(m, s), c) == (if m.conf == c then [m] else []) + WithConf(s, c)
  {
    var mine := WithConf([m], c);
    assert [m][1..] == [] && WithConf([], c) == [];
    assert mine == (if m.conf == c then [m] else []) + [];
    if s == [] || m.conf >= s[0].conf {
      WithConfAppend([m], s, c);
    } else {
      var rest := Insert(m, s[1..]);
      InsertStable(m, s[1..], c);
      WithConfAppend([s[0]], rest, c);
      assert s == [s[0]] + s[1..];
      WithConfAppend([s[0]], s[1..], c);
      assert [s[0]][1..] == [];
      assert WithConf([s[0]], c) == (if s[0].conf == c then [s[0]] else []) + [];
      var head := WithConf([s[0]], c);
      assert head == [] || mine == [];
    }
  }

  /** The sort is stable: matches of equal confidence keep their order, as
      Python's `sorted` keeps them even with `reverse=True`. With the sort's
      own contract (sorted, a permutation) this fixes its result entirely. */
  lemma {:induction false} SortStable(s: seq<Match>, c: real)
    ensures WithConf(SortDesc(s), c) == WithConf(s, c)
  {
    if s != [] {
      SortStable(s[1..], c);
      InsertStable(s[0], SortDesc(s[1..]), c);
    }
  }

  /** Comparison of matches is a total preorder on confidence; matches of
      equal confidence and different points are tied, not equal. */
  lemma MatchOrdering(a: Match, b: Match, c: Match)
    ensures a.Lt(b) <==> b.Gt(a)
    ensures a.Le(b) <==> b.Ge(a)
    ensures a.Lt(b) <==> !a.Ge(b)
    ensures a.Le(b) || b.Le(a)
    ensures a.Le(b) && b.Le(c) ==> a.Le(c)
    ensures a.conf == b.conf ==> a.Le(b) && b.Le(a) && !a.Lt(b) && !b.Lt(a)
  {
  }

  /** Sorted by descending confidence means every match is `>=` every later one. */
  lemma SortedDescByGe(s: seq<Match>)
    ensures SortedDesc(s) <==> forall i, j :: 0 <= i < j < |s| ==> s[i].Ge(s[j])
  {
  }

  /** Two occurrences scored 0.92 and 0.97 (columns 0 and 1 of one row),
      with a 20 x 10 template: single mode at 0.95 finds the 0.97 one. */
  lemma SingleModeExample()
    ensures MatchSpec([[0.92, 0.97]], Template(0, 20, 10), 0.95, false) == [Match(0.97, Point(11, 5))]
  {
    var g: ScoreMap := [[0.92, 0.97]];
    assert RowMax(g, 0, 1) == 0;
    assert RowMax(g, 0, 2) == 1;
    assert MaxLocIn(g, 0) == None;
    assert MaxLoc(g) == Some((0, 1));
    assert Best(g, Template(0, 20, 10), 0.95) == [Match(0.97, Point(11, 5))];
    assert SortDesc([Match(0.97, Point(11, 5))]) == Insert(Match(0.97, Point(11, 5)), []);
  }

  /** The same map in multi mode at 0.95: only 0.97 is above the threshold. */
  lemma MultiModeExample()
    ensures MatchSpec([[0.92, 0.97]], Template(0, 20, 10), 0.95, true) == [Match(0.97, Point(11, 5))]
  {
    var g: ScoreMap := [[0.92, 0.97]];
    var t := Template(0, 20, 10);
    assert RowHits(g, t, 0.95, 0, 1) == [];
    assert RowHits(g, t, 0.95, 0, 2) == [Match(0.97, Point(11, 5))];
    assert Hits(g, t, 0.95, 1) == Hits(g, t, 0.95, 0) + RowHits(g, t, 0.95, 0, 2);
    assert SortDesc([Match(0.97, Point(11, 5))]) == Insert(Match(0.97, Point(11, 5)), []);
  }

  /** The cells of that map above 0.90, in row-major order. */
  lemma RankingExampleHits()
    ensures Hits([[0.92, 0.97]], Template(0, 20, 10), 0.90, 1) ==
      [Match(0.92, Point(10, 5)), Match(0.97, Point(11, 5))]
  {
    var g: ScoreMap := [[0.92, 0.97]];
    var t := Template(0, 20, 10);
    var lo, hi := Match(0.92, Point(10, 5)), Match(0.97, Point(11, 5));
    assert RowHits(g, t, 0.90, 0, 1) == [lo];
    assert RowHits(g, t, 0.90, 0, 2) == [lo, hi];
    assert Hits(g, t, 0.90, 1) == Hits(g, t, 0.90, 0) + RowHits(g, t, 0.90, 0, 2);
  }

  /** Sorting puts the 0.97 match ahead of the 0.92 one found before it. */
  lemma RankingExampleSort()
    ensures SortDesc([Match(0.92, Point(10, 5)), Match(0.97, Point(11, 5))]) ==
      [Match(0.97, Point(11, 5)), Match(0.92, Point(10, 5))]
  {
    var lo, hi := Match(0.92, Point(10, 5)), Match(0.97, Point(11, 5));
    var s := [lo, hi];
    assert s[0] == lo && s[1..] == [hi];
    var one := [hi];
    assert one[0] == hi && one[1..] == [];
    assert SortDesc(one) == Insert(hi, SortDesc([])) == [hi];
    assert SortDesc(s) == Insert(lo, one) == [hi] + Insert(lo, []);
  }

  /** The same map in multi mode at 0.90: both, the better one first. */
  lemma MultiModeRankingExample()
    ensures MatchSpec([[0.92, 0.97]], Template(0, 20, 10), 0.90, true) ==
      [Match(0.97, Point(11, 5)), Match(0.92, Point(10, 5))]
  {
    RankingExampleHits();
    RankingExampleSort();
  }
}
