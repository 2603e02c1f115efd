/** The order in which matrix-multiplication programs take output tiles, and that together they take each tile once. */
module TileSchedule {
  import opened Basics

  // ---------------------------------------------------------------- division with remainder

  /** Adding a multiple of the divisor does not change the remainder. */
  lemma AddMultiple(x: int, k: int, d: int)
    requires d > 0
    ensures (x + k * d) % d == x % d
  {
    ModuloBounds(x, d);
    assert x + k * d == (x / d + k) * d + x % d by { assert (x / d + k) * d == (x / d) * d + k * d; }
    QuotientUnique(x + k * d, d, x / d + k, x % d);
  }

  // ---------------------------------------------------------------- grouped program ids

  /** A grid of m by n tiles taken in groups of `group` rows of tiles. */
  datatype Grid = Grid(m: nat, n: nat, group: nat) {

    predicate Valid() {
      group > 0
    }

    predicate Has(t: (int, int)) {
      0 <= t.0 < m && 0 <= t.1 < n
    }

    function NumTiles(): nat {
      m * n
    }
  }

  lemma OneMoreStep(k: nat, d: nat)
    ensures (k + 1) * d == k * d + d
  {
  }

  lemma Positive(a: int, b: int)
    requires a > 0 && b > 0
    ensures a * b > 0
  {
  }

  lemma FactorPositive(a: nat, b: nat)
    requires a * b > 0
    ensures a > 0 && b > 0
  {
  }

  /** Where a tile id lies: its group q, and the offset r in the group. */
  lemma TileInGroup(g: Grid, tile: nat) returns (q: nat, r: nat)
    requires g.Valid() && tile < g.NumTiles()
    ensures g.n > 0 && g.group * g.n > 0
    ensures q == tile / (g.group * g.n) && r == tile % (g.group * g.n) && tile == q * (g.group * g.n) + r
    ensures q * g.group < g.m
    ensures var size := Min(g.m - q * g.group, g.group); size > 0 && r < size * g.n
  {
    FactorPositive(g.m, g.n);
    Positive(g.group, g.n);
    var p := g.group * g.n;
    q, r := tile / p, tile % p;
    ModuloBounds(tile, p);
    var first := q * g.group;
    assert q * p == first * g.n by { Associate(q, g.group, g.n); }
    if first >= g.m {
      TimesMonotone(g.m, first, g.n);
    }
    Distribute(g.m, first, g.n);
  }

  lemma Associate(a: int, b: int, c: int)
    ensures a * (b * c) == (a * b) * c
  {
  }

  /** The mapping of the plain and the persistent kernel; the latter takes the row from the whole tile id. */
  function ComputePid(g: Grid, tile: nat, rotate: bool): (int, int)
    requires g.Valid() && tile < g.NumTiles()
  {
    assert g.n > 0 && g.group * g.n > 0 by { var q, r := TileInGroup(g, tile); }
    var numPidInGroup := g.group * g.n;
    var groupId := tile / numPidInGroup;
    var firstPidM := groupId * g.group;
    var groupSizeM := Min(g.m - firstPidM, g.group);
    assert groupSizeM > 0 by { var q, r := TileInGroup(g, tile); }
    (firstPidM + (if rotate then tile else tile % numPidInGroup) % groupSizeM, (tile % numPidInGroup) / groupSizeM)
  }

  /** The tile id of a tile: the inverse of both mappings. */
  function TileOf(g: Grid, t: (int, int), rotate: bool): int
    requires g.Valid() && g.Has(t)
  {
    var groupId := t.0 / g.group;
    var first := groupId * g.group;
    assert 0 <= t.0 - first < g.group by { ModuloBounds(t.0, g.group); }
    var size := Min(g.m - first, g.group);
    var base := groupId * (g.group * g.n);
    base + t.1 * size + (if rotate then (t.0 - first - base) % size else t.0 - first)
  }

  /** The pid of a tile id given by its group, its column, and its place within the column. */
  lemma PidOfParts(g: Grid, tile: nat, rotate: bool, q: nat, c: nat, k: nat)
    requires g.Valid() && q * g.group < g.m && c < g.n
    requires var size := Min(g.m - q * g.group, g.group); k < size && tile == q * (g.group * g.n) + c * size + k
    ensures tile < g.NumTiles()
    ensures var size := Min(g.m - q * g.group, g.group);
      ComputePid(g, tile, rotate) == (q * g.group + (if rotate then (q * (g.group * g.n) + k) % size else k), c)
  {
    var first, p := q * g.group, g.group * g.n;
    var size := Min(g.m - first, g.group);
    var r := c * size + k;
    PlaceInGroup(g, c, k, size);
    assert q * p == first * g.n by { Associate(q, g.group, g.n); }
    Distribute(g.m, first, g.n);
    TimesMonotone(size, g.m - first, g.n);
    QuotientUnique(tile, p, q, r);
    QuotientUnique(r, size, c, k);
    if rotate {
      AddMultiple(q * p + k, c, size);
    }
  }

  lemma PlaceInGroup(g: Grid, c: nat, k: nat, size: nat)
    requires c < g.n && k < size <= g.group
    ensures c * size + k < size * g.n <= g.group * g.n
  {
    TimesMonotone(c + 1, g.n, size);
    assert (c + 1) * size == c * size + size;
    TimesMonotone(size, g.group, g.n);
  }

  /** The tile id of the tile in column c and the given row of group q. */
  lemma TileOfParts(g: Grid, q: nat, row: nat, c: nat, rotate: bool)
    requires g.Valid() && c < g.n && row < Min(g.m - q * g.group, g.group)
    ensures g.Has((q * g.group + row, c))
    ensures var size, base := Min(g.m - q * g.group, g.group), q * (g.group * g.n);
      TileOf(g, (q * g.group + row, c), rotate) == base + c * size + (if rotate then (row - base) % size else row)
  {
    TimesMonotone(0, q, g.group);
    QuotientUnique(q * g.group + row, g.group, q, row);
  }

  /** Every tile id names a tile of the grid, and its inverse gives the id back. */
  lemma PidInGrid(g: Grid, tile: nat, rotate: bool)
    requires g.Valid() && tile < g.NumTiles()
    ensures g.Has(ComputePid(g, tile, rotate)) && TileOf(g, ComputePid(g, tile, rotate), rotate) == tile
  {
    hide ComputePid, TileOf;
    var q, r := TileInGroup(g, tile);
    var size, base := Min(g.m - q * g.group, g.group), q * (g.group * g.n);
    ModuloBounds(r, size);
    var c, k := r / size, r % size;
    ColumnBound(r, size, g.n);
    PidOfParts(g, tile, rotate, q, c, k);
    ModuloBounds(base + k, size);
    TileOfParts(g, q, if rotate then (base + k) % size else k, c, rotate);
    if rotate {
      RotateBack(base, k, size);
    }
  }

  lemma ColumnBound(r: nat, size: nat, n: nat)
    requires size > 0 && r < size * n
    ensures r / size < n
  {
    ModuloBounds(r, size);
    if r / size >= n {
      TimesMonotone(n, r / size, size);
    }
  }

  /** Rotating within a group and back. */
  lemma RotateBack(base: int, k: int, size: int)
    requires size > 0 && 0 <= k < size
    ensures ((base + k) % size - base) % size == k
  {
    var x := base + k;
    ModuloBounds(x, size);
    var y := x % size - base;
    assert y == k + (-(x / size)) * size by { assert (-(x / size)) * size == -((x / size) * size); }
    AddMultiple(k, -(x / size), size);
    QuotientUnique(k, size, 0, k);
  }

  /** Every tile of the grid is named by exactly the id its inverse gives. */
  lemma TileHasPid(g: Grid, t: (int, int), rotate: bool)
    requires g.Valid() && g.Has(t)
    ensures 0 <= TileOf(g, t, rotate) < g.NumTiles() && ComputePid(g, TileOf(g, t, rotate), rotate) == t
  {
    hide ComputePid, TileOf;
    var q: nat := t.0 / g.group;
    ModuloBounds(t.0, g.group);
    var base, row := q * (g.group * g.n), t.0 - q * g.group;
    var size := Min(g.m - q * g.group, g.group);
    TileOfParts(g, q, row, t.1, rotate);
    ModuloBounds(row - base, size);
    NonNegative(q, g.group, g.n);
    NonNegative(t.1, size, 1);
    PidOfParts(g, TileOf(g, t, rotate), rotate, q, t.1, if rotate then (row - base) % size else row);
    if rotate {
      RotateForth(base, row, size);
    }
  }

  lemma NonNegative(a: int, b: int, c: int)
    requires a >= 0 && b >= 0 && c >= 0
    ensures a * (b * c) >= 0
  {
  }

  lemma RotateForth(base: int, row: int, size: int)
    requires size > 0 && 0 <= row < size
    ensures (base + (row - base) % size) % size == row
  {
    var x := row - base;
    ModuloBounds(x, size);
    assert base + x % size == row + (-(x / size)) * size by { assert (-(x / size)) * size == -((x / size) * size); }
    AddMultiple(row, -(x / size), size);
    QuotientUnique(row, size, 0, row);
  }

  /** Both mappings are bijections from tile ids to tiles, also when the last group is short. */
  lemma PidsAreABijection(g: Grid, rotate: bool)
    requires g.Valid()
    ensures forall tile: nat :: tile < g.NumTiles() ==> g.Has(ComputePid(g, tile, rotate))
    ensures forall a: nat, b: nat ::
      a < g.NumTiles() && b < g.NumTiles() && ComputePid(g, a, rotate) == ComputePid(g, b, rotate) ==> a == b
    ensures forall t: (int, int) :: g.Has(t) ==>
      exists tile: nat :: tile < g.NumTiles() && ComputePid(g, tile, rotate) == t
  {
    hide ComputePid, TileOf, Grid.NumTiles;
    forall tile: nat | tile < g.NumTiles()
      ensures g.Has(ComputePid(g, tile, rotate)) && TileOf(g, ComputePid(g, tile, rotate), rotate) == tile
    {
      PidInGrid(g, tile, rotate);
    }
    forall t: (int, int) | g.Has(t)
      ensures exists tile: nat :: tile < g.NumTiles() && ComputePid(g, tile, rotate) == t
    {
      TileHasPid(g, t, rotate);
    }
  }

  /** Group of rows by group of rows, column by column in a group, and from top to bottom in a column of it. */
  ghost predicate TakenBefore(g: Grid, s: (int, int), t: (int, int))
    requires g.Valid()
  {
    || s.0 / g.group < t.0 / g.group
    || (s.0 / g.group == t.0 / g.group && s.1 < t.1)
    || (s.0 / g.group == t.0 / g.group && s.1 == t.1 && s.0 < t.0)
  }

  /** The group of a tile id, and the column and the row in the group that the plain kernel takes. */
  lemma PartsOfPid(g: Grid, tile: nat) returns (q: nat, c: nat, k: nat)
    requires g.Valid() && tile < g.NumTiles()
    ensures q * g.group < g.m && c < g.n && k < Min(g.m - q * g.group, g.group)
    ensures tile == q * (g.group * g.n) + c * Min(g.m - q * g.group, g.group) + k
    ensures ComputePid(g, tile, false) == (q * g.group + k, c) && (q * g.group + k) / g.group == q
  {
    hide ComputePid;
    var r;
    q, r := TileInGroup(g, tile);
    var size := Min(g.m - q * g.group, g.group);
    ModuloBounds(r, size);
    ColumnBound(r, size, g.n);
    c, k := r / size, r % size;
    PidOfParts(g, tile, false, q, c, k);
    QuotientUnique(q * g.group + k, g.group, q, k);
  }

  lemma TakenFirst(g: Grid, a: nat, b: nat)
    requires g.Valid() && a < g.NumTiles() && b < g.NumTiles()
    requires TakenBefore(g, ComputePid(g, a, false), ComputePid(g, b, false))
    ensures a < b
  {
    hide ComputePid;
    var q, c, k := PartsOfPid(g, a);
    var q', c', k' := PartsOfPid(g, b);
    var size := Min(g.m - q * g.group, g.group);
    PlaceInGroup(g, c, k, size);
    if q < q' {
      OneMoreStep(q, g.group * g.n);
      TimesMonotone(q + 1, q', g.group * g.n);
      NonNegative(c', Min(g.m - q' * g.group, g.group), 1);
    } else if c < c' {
      OneMoreStep(c, size);
      TimesMonotone(c + 1, c', size);
    }
  }

  /** The order in which the plain kernel takes the tiles. */
  lemma PidOrder(g: Grid, a: nat, b: nat)
    requires g.Valid() && a < g.NumTiles() && b < g.NumTiles()
    ensures a < b <==> TakenBefore(g, ComputePid(g, a, false), ComputePid(g, b, false))
  {
    hide ComputePid, Grid.NumTiles;
    PidInGrid(g, a, false);
    PidInGrid(g, b, false);
    if TakenBefore(g, ComputePid(g, a, false), ComputePid(g, b, false)) {
      TakenFirst(g, a, b);
    } else if a != b {
      TakenFirst(g, b, a);
    }
  }

  /** The persistent kernel differs only within the columns of a short last group, where it rotates the rows. */
  lemma RotatedPid(g: Grid, tile: nat)
    requires g.Valid() && tile < g.NumTiles()
    ensures var s, t := ComputePid(g, tile, false), ComputePid(g, tile, true);
      && s.1 == t.1 && s.0 / g.group == t.0 / g.group
      && ((s.0 / g.group + 1) * g.group <= g.m ==> s == t)
  {
    hide ComputePid;
    var q, c, k := PartsOfPid(g, tile);
    var size := Min(g.m - q * g.group, g.group);
    var k' := (q * (g.group * g.n) + k) % size;
    PidOfParts(g, tile, true, q, c, k);
    ModuloBounds(q * (g.group * g.n) + k, size);
    QuotientUnique(q * g.group + k', g.group, q, k');
    OneMoreStep(q, g.group);
    if size == g.group {
      assert q * (g.group * g.n) == (q * g.n) * g.group by { Associate(q, g.n, g.group); }
      AddMultiple(k, q * g.n, size);
      QuotientUnique(k, size, 0, k);
    }
  }

  // ---------------------------------------------------------------- strided loops

  /** s is what a loop from start to end in steps of `step` goes through. */
  ghost predicate IsStrided(s: seq<nat>, start: nat, step: nat, end: nat) {
    && (forall k :: 0 <= k < |s| ==> s[k] == start + k * step && s[k] < end)
    && start + |s| * step >= end
  }

  /** With one loop for each start below step, every number below end comes up in exactly one of them, once. */
  lemma StridesPartition(loops: seq<seq<nat>>, step: nat, end: nat, t: nat) returns (p: nat, k: nat)
    requires step > 0 && t < end && Min(step, end) <= |loops| <= step
    requires forall q :: 0 <= q < |loops| ==> IsStrided(loops[q], q, step, end)
    ensures p < |loops| && k < |loops[p]| && loops[p][k] == t
    ensures forall q, j :: 0 <= q < |loops| && 0 <= j < |loops[q]| && loops[q][j] == t ==> q == p && j == k
  {
    p, k := t % step, t / step;
    ModuloBounds(t, step);
    TimesMonotone(0, k, step);
    assert IsStrided(loops[p], p, step, end);
    if k >= |loops[p]| {
      TimesMonotone(|loops[p]|, k, step);
    }
    forall q, j | 0 <= q < |loops| && 0 <= j < |loops[q]| && loops[q][j] == t
      ensures q == p && j == k
    {
      assert IsStrided(loops[q], q, step, end);
      QuotientUnique(t, step, j, q);
    }
  }

  /** One visit of a persistent program: its tile id, the tile it computed and the tile it stored to. */
  datatype Visit = Visit(tile: nat, computed: (int, int), stored: (int, int))

  function TileIds(visits: seq<Visit>): seq<nat> {
    seq(|visits|, k requires 0 <= k < |visits| => visits[k].tile)
  }

  /** The tile computed and the tile stored are both the one the id names. */
  ghost predicate IsConsistent(g: Grid, v: Visit)
    requires g.Valid()
  {
    v.tile < g.NumTiles() && v.computed == v.stored == ComputePid(g, v.tile, true)
  }

  ghost predicate AllConsistent(g: Grid, visits: seq<Visit>)
    requires g.Valid()
  {
    forall k :: 0 <= k < |visits| ==> IsConsistent(g, visits[k])
  }

  /** The loop of one persistent program; the stored tile comes from a separate counter. */
  method PersistentProgram(g: Grid, startPid: nat, numSms: nat) returns (visits: seq<Visit>)
    requires g.Valid() && numSms > 0
    ensures IsStrided(TileIds(visits), startPid, numSms, g.NumTiles()) && AllConsistent(g, visits)
  {
    hide ComputePid;
    var numTiles := g.NumTiles();
    var tileIdC := startPid - numSms;
    visits := [];
    var tileId := startPid;
    while tileId < numTiles
      invariant tileId == startPid + |visits| * numSms && tileIdC == tileId - numSms
      invariant forall k :: 0 <= k < |visits| ==> visits[k].tile == startPid + k * numSms
      invariant AllConsistent(g, visits)
      decreases numTiles - tileId
    {
      var computed := ComputePid(g, tileId, true);
      tileIdC := tileIdC + numSms;
      var stored := ComputePid(g, tileIdC, true);
      OneMoreStep(|visits|, numSms);
      visits := visits + [Visit(tileId, computed, stored)];
      tileId := tileId + numSms;
    }
  }

  /** Launching min(NUM_SMS, tiles) persistent programs. */
  method LaunchPersistent(g: Grid, numSms: nat) returns (all: seq<seq<Visit>>)
    requires g.Valid() && numSms > 0
    ensures IsLaunch(g, numSms, all)
  {
    hide AllConsistent, IsStrided, Grid.NumTiles;
    all := [];
    for pid := 0 to Min(numSms, g.NumTiles())
      invariant |all| == pid
      invariant forall q :: 0 <= q < pid ==>
        IsStrided(TileIds(all[q]), q, numSms, g.NumTiles()) && AllConsistent(g, all[q])
    {
      var visits := PersistentProgram(g, pid, numSms);
      all := all + [visits];
    }
  }

  ghost predicate IsLaunch(g: Grid, numSms: nat, all: seq<seq<Visit>>)
    requires g.Valid()
  {
    && |all| == Min(numSms, g.NumTiles())
    && forall q :: 0 <= q < |all| ==> IsStrided(TileIds(all[q]), q, numSms, g.NumTiles()) && AllConsistent(g, all[q])
  }

  /** In a launch every tile of the output is computed and stored by exactly one program, exactly once. */
  lemma PersistentCoversEachTileOnce(g: Grid, numSms: nat, all: seq<seq<Visit>>, t: (int, int)) returns (p: nat, k: nat)
    requires g.Valid() && numSms > 0 && g.Has(t) && IsLaunch(g, numSms, all)
    ensures p < |all| && k < |all[p]| && all[p][k].computed == t == all[p][k].stored
    ensures forall q, j :: 0 <= q < |all| && 0 <= j < |all[q]| && all[q][j].stored == t ==> q == p && j == k
  {
    hide ComputePid, IsStrided, Grid.NumTiles, TileOf;
    TileHasPid(g, t, true);
    var tile: nat := TileOf(g, t, true);
    var loops := seq(|all|, q requires 0 <= q < |all| => TileIds(all[q]));
    p, k := StridesPartition(loops, numSms, g.NumTiles(), tile);
    assert AllConsistent(g, all[p]) && IsConsistent(g, all[p][k]);
    forall q, j | 0 <= q < |all| && 0 <= j < |all[q]| && all[q][j].stored == t
      ensures q == p && j == k
    {
      assert AllConsistent(g, all[q]) && IsConsistent(g, all[q][j]);
      PidInGrid(g, all[q][j].tile, true);
      assert loops[q][j] == tile;
    }
  }

  // ---------------------------------------------------------------- grouped problems

  /** The numbers of row and column tiles of each problem. */
  type Problems = seq<(nat, nat)>

  /** The number of tiles of the problems before g. */
  function Offset(ps: Problems, g: nat): nat
    requires g <= |ps|
  {
    if g == 0 then 0 else Offset(ps, g - 1) + ps[g - 1].0 * ps[g - 1].1
  }

  /** A problem and a tile of it. */
  datatype Place = Place(problem: nat, row: nat, col: nat)

  ghost predicate HasTile(ps: Problems, v: Place) {
    v.problem < |ps| && v.row < ps[v.problem].0 && v.col < ps[v.problem].1
  }

  /** The id of a tile among those of all problems, problem by problem and row by row. */
  function FlatTile(ps: Problems, v: Place): nat
    requires v.problem < |ps|
  {
    Offset(ps, v.problem) + v.row * ps[v.problem].1 + v.col
  }

  lemma {:induction false} OffsetMonotone(ps: Problems, g: nat, h: nat)
    requires g <= h <= |ps|
    ensures Offset(ps, g) <= Offset(ps, h)
  {
    if g < h {
      OffsetMonotone(ps, g, h - 1);
    }
  }

  lemma FlatTileInProblem(ps: Problems, v: Place)
    requires HasTile(ps, v)
    ensures Offset(ps, v.problem) <= FlatTile(ps, v) < Offset(ps, v.problem + 1) <= Offset(ps, |ps|)
  {
    var m, n := ps[v.problem].0, ps[v.problem].1;
    OneMoreStep(v.row, n);
    TimesMonotone(v.row + 1, m, n);
    TimesMonotone(0, v.row, n);
    OffsetMonotone(ps, v.problem + 1, |ps|);
  }

  /** Different tiles have different ids. */
  lemma FlatTileUnique(ps: Problems, v: Place, w: Place)
    requires HasTile(ps, v) && HasTile(ps, w) && FlatTile(ps, v) == FlatTile(ps, w)
    ensures v == w
  {
    FlatTileInProblem(ps, v);
    FlatTileInProblem(ps, w);
    if v.problem < w.problem {
      OffsetMonotone(ps, v.problem + 1, w.problem);
    } else if w.problem < v.problem {
      OffsetMonotone(ps, w.problem + 1, v.problem);
    } else {
      var n, x := ps[v.problem].1, FlatTile(ps, v) - Offset(ps, v.problem);
      QuotientUnique(x, n, v.row, v.col);
      QuotientUnique(x, n, w.row, w.col);
    }
  }

  /** Problem by problem, row by row, and from left to right within a row. */
  ghost predicate ComesBefore(v: Place, w: Place) {
    || v.problem < w.problem
    || (v.problem == w.problem && v.row < w.row)
    || (v.problem == w.problem && v.row == w.row && v.col < w.col)
  }

  lemma EarlierIsLower(ps: Problems, v: Place, w: Place)
    requires HasTile(ps, v) && HasTile(ps, w) && ComesBefore(v, w)
    ensures FlatTile(ps, v) < FlatTile(ps, w)
  {
    FlatTileInProblem(ps, v);
    FlatTileInProblem(ps, w);
    if v.problem < w.problem {
      OffsetMonotone(ps, v.problem + 1, w.problem);
    } else if v.row < w.row {
      OneMoreStep(v.row, ps[v.problem].1);
      TimesMonotone(v.row + 1, w.row, ps[v.problem].1);
    }
  }

  /** The ids run through the tiles row by row. */
  lemma FlatTileOrder(ps: Problems, v: Place, w: Place)
    requires HasTile(ps, v) && HasTile(ps, w)
    ensures FlatTile(ps, v) < FlatTile(ps, w) <==> ComesBefore(v, w)
  {
    hide FlatTile, HasTile;
    if ComesBefore(v, w) {
      EarlierIsLower(ps, v, w);
    } else if v != w {
      EarlierIsLower(ps, w, v);
    }
  }

  /** Every id below the number of tiles names one. */
  lemma {:induction false} EveryIdIsATile(ps: Problems, n: nat, id: nat) returns (v: Place)
    requires n <= |ps| && id < Offset(ps, n)
    ensures HasTile(ps, v) && FlatTile(ps, v) == id
  {
    var g := n - 1;
    if id < Offset(ps, g) {
      v := EveryIdIsATile(ps, g, id);
    } else {
      var x := id - Offset(ps, g);
      FactorPositive(ps[g].0, ps[g].1);
      RowBound(x, ps[g].0, ps[g].1);
      v := Place(g, x / ps[g].1, x % ps[g].1);
    }
  }

  ghost predicate AllPlaces(ps: Problems, visits: seq<Place>) {
    forall k :: 0 <= k < |visits| ==> HasTile(ps, visits[k])
  }

  ghost function FlatIds(ps: Problems, visits: seq<Place>): (ids: seq<nat>)
    requires AllPlaces(ps, visits)
    ensures |ids| == |visits| && forall k :: 0 <= k < |visits| ==> ids[k] == FlatTile(ps, visits[k])
  {
    seq(|visits|, k requires 0 <= k < |visits| => FlatTile(ps, visits[k]))
  }

  /** One program of the grouped kernel: it walks through the problems, taking every NUM_SM-th tile. */
  method GroupedProgram(ps: Problems, pid: nat, numSm: nat) returns (visits: seq<Place>)
    requires numSm > 0
    ensures AllPlaces(ps, visits) && IsStrided(FlatIds(ps, visits), pid, numSm, Offset(ps, |ps|))
  {
    var tileIdx, lastProblemEnd := pid, 0;
    visits := [];
    for g := 0 to |ps|
      invariant lastProblemEnd == Offset(ps, g) && tileIdx >= lastProblemEnd && tileIdx == pid + |visits| * numSm
      invariant forall k :: 0 <= k < |visits| ==> IsNth(ps, visits[k], pid, k, numSm, lastProblemEnd)
    {
      var numNTiles := ps[g].1;
      var numTiles := ps[g].0 * numNTiles;
      while tileIdx >= lastProblemEnd && tileIdx < lastProblemEnd + numTiles
        invariant tileIdx >= lastProblemEnd && tileIdx == pid + |visits| * numSm
        invariant forall k :: 0 <= k < |visits| ==> IsNth(ps, visits[k], pid, k, numSm, lastProblemEnd + numTiles)
        decreases lastProblemEnd + numTiles - tileIdx
      {
        var tileIdxInGemm := tileIdx - lastProblemEnd;
        FactorPositive(ps[g].0, numNTiles);
        RowBound(tileIdxInGemm, ps[g].0, numNTiles);
        OneMoreStep(|visits|, numSm);
        visits := visits + [Place(g, tileIdxInGemm / numNTiles, tileIdxInGemm % numNTiles)];
        tileIdx := tileIdx + numSm;
      }
      lastProblemEnd := lastProblemEnd + numTiles;
    }
  }

  /** v is the k-th tile of a loop that started at pid, and lies before `end`. */
  ghost predicate IsNth(ps: Problems, v: Place, pid: nat, k: nat, numSm: nat, end: nat) {
    HasTile(ps, v) && FlatTile(ps, v) == pid + k * numSm && FlatTile(ps, v) < end
  }

  lemma RowBound(x: nat, m: nat, n: nat)
    requires n > 0 && x < m * n
    ensures x / n < m && x == (x / n) * n + x % n
  {
    ColumnBound(x, n, m);
    ModuloBounds(x, n);
  }

  /** A program takes its tiles row by row. */
  lemma VisitsInOrder(ps: Problems, visits: seq<Place>, pid: nat, numSm: nat, i: nat, j: nat)
    requires numSm > 0 && AllPlaces(ps, visits) && IsStrided(FlatIds(ps, visits), pid, numSm, Offset(ps, |ps|))
    requires i < j < |visits|
    ensures ComesBefore(visits[i], visits[j])
  {
    hide FlatTile, HasTile, Offset, ComesBefore;
    OneMoreStep(i, numSm);
    TimesMonotone(i + 1, j, numSm);
    assert FlatIds(ps, visits)[i] < FlatIds(ps, visits)[j];
    FlatTileOrder(ps, visits[i], visits[j]);
  }

  ghost predicate IsGroupedLaunch(ps: Problems, numSm: nat, all: seq<seq<Place>>) {
    && |all| == numSm
    && forall q :: 0 <= q < |all| ==>
      AllPlaces(ps, all[q]) && IsStrided(FlatIds(ps, all[q]), q, numSm, Offset(ps, |ps|))
  }

  /** Launching NUM_SM programs over all problems. */
  method LaunchGrouped(ps: Problems, numSm: nat) returns (all: seq<seq<Place>>)
    requires numSm > 0
    ensures IsGroupedLaunch(ps, numSm, all)
  {
    hide IsStrided, AllPlaces;
    all := [];
    for pid := 0 to numSm
      invariant |all| == pid
      invariant forall q :: 0 <= q < pid ==>
        AllPlaces(ps, all[q]) && IsStrided(FlatIds(ps, all[q]), q, numSm, Offset(ps, |ps|))
    {
      var visits := GroupedProgram(ps, pid, numSm);
      all := all + [visits];
    }
  }

  /** In a launch every tile of every problem is taken by exactly one program, exactly once. */
  lemma GroupedCoversEachTileOnce(ps: Problems, numSm: nat, all: seq<seq<Place>>, v: Place) returns (p: nat, k: nat)
    requires numSm > 0 && HasTile(ps, v) && IsGroupedLaunch(ps, numSm, all)
    ensures p < |all| && k < |all[p]| && all[p][k] == v
    ensures forall q, j :: 0 <= q < |all| && 0 <= j < |all[q]| && all[q][j] == v ==> q == p && j == k
  {
    hide IsStrided, HasTile, FlatTile, Offset;
    PlaceInProblem(ps, v);
    var loops := seq(|all|, q requires 0 <= q < |all| => FlatIds(ps, all[q]));
    p, k := StridesPartition(loops, numSm, Offset(ps, |ps|), FlatTile(ps, v));
    assert AllPlaces(ps, all[p]) && loops[p][k] == FlatTile(ps, all[p][k]) by { PlaceInProblem(ps, all[p][k]); }
    FlatTileUnique(ps, all[p][k], v);
    forall q, j | 0 <= q < |all| && 0 <= j < |all[q]| && all[q][j] == v
      ensures q == p && j == k
    {
      assert AllPlaces(ps, all[q]) && loops[q][j] == FlatTile(ps, v);
    }
  }

  lemma PlaceInProblem(ps: Problems, v: Place)
    requires HasTile(ps, v)
    ensures v.problem < |ps| && FlatTile(ps, v) < Offset(ps, |ps|)
  {
    FlatTileInProblem(ps, v);
  }
}
