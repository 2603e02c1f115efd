/** The lock-protected accumulation of weight gradients over rows, and the final reduction of the group buffers. */
module LayerNorm {
  import opened Basics

  /** One gradient cell of a row program: not computed, in a register, or stored to the group's buffer. */
  datatype CellPc = Waiting | Ready(value: real) | Stored

  /** A row program: spinning for the lock, then inside the critical section, then finished. */
  datatype Prog =
    | Spinning
    | Counting
    | Branching(count: int)
    | Updating(first: bool, cells: seq<CellPc>)
    | Releasing
    | Finished

  datatype State = State(locks: seq<int>, counts: seq<int>, bufs: seq<seq<real>>, progs: seq<Prog>)

  /**
   * The launch: rows of partial gradients, each with the cells of DW followed by those of DB, and the number of groups.
   */
  datatype Launch = Launch(partials: seq<seq<real>>, groups: nat, width: nat) {

    ghost predicate Valid() {
      groups > 0 && forall r :: 0 <= r < |partials| ==> |partials[r]| == width
    }

    function LockId(row: nat): (g: nat)
      requires groups > 0
      ensures g < groups
    {
      row % groups
    }
  }

  ghost predicate Shaped(l: Launch, s: State) {
    && l.Valid() && |s.locks| == |s.counts| == |s.bufs| == l.groups && |s.progs| == |l.partials|
    && (forall g :: 0 <= g < l.groups ==> |s.bufs[g]| == l.width)
    && forall r :: 0 <= r < |s.progs| && s.progs[r].Updating? ==> |s.progs[r].cells| == l.width
  }

  // ---------------------------------------------------------------- the steps of a row program

  /** The compare-and-swap on the lock succeeds. */
  ghost predicate TakeLock(l: Launch, s: State, s': State, r: nat)
    requires Shaped(l, s) && r < |s.progs|
  {
    var g := l.LockId(r);
    s.progs[r].Spinning? && s.locks[g] == 0 && s' == s.(locks := s.locks[g := 1], progs := s.progs[r := Counting])
  }

  ghost predicate LoadCount(l: Launch, s: State, s': State, r: nat)
    requires Shaped(l, s) && r < |s.progs|
  {
    s.progs[r].Counting? && s' == s.(progs := s.progs[r := Branching(s.counts[l.LockId(r)])])
  }

  /** The first program of a group marks the buffer as used; the others will add to it. */
  ghost predicate Branch(l: Launch, s: State, s': State, r: nat)
    requires Shaped(l, s) && r < |s.progs|
  {
    var g := l.LockId(r);
    && s.progs[r].Branching?
    && var first := s.progs[r].count == 0;
       s' == s.(counts := if first then s.counts[g := 1] else s.counts,
                progs := s.progs[r := Updating(first, seq(l.width, _ => Waiting))])
  }

  /** A thread computes the value of its cell, loading what the buffer holds unless the program is the first. */
  ghost predicate LoadCell(l: Launch, s: State, s': State, r: nat, j: nat)
    requires Shaped(l, s) && r < |s.progs| && j < l.width
  {
    && s.progs[r].Updating? && s.progs[r].cells[j].Waiting?
    && var p := s.progs[r];
       var v := if p.first then l.partials[r][j] else l.partials[r][j] + s.bufs[l.LockId(r)][j];
       s' == s.(progs := s.progs[r := p.(cells := p.cells[j := Ready(v)])])
  }

  /** A thread stores its cell, whether or not the others have loaded theirs. */
  ghost predicate StoreCell(l: Launch, s: State, s': State, r: nat, j: nat)
    requires Shaped(l, s) && r < |s.progs| && j < l.width
  {
    && s.progs[r].Updating? && s.progs[r].cells[j].Ready?
    && var p, g := s.progs[r], l.LockId(r);
       s' == s.(bufs := s.bufs[g := s.bufs[g][j := p.cells[j].value]],
                progs := s.progs[r := p.(cells := p.cells[j := Stored])])
  }

  /** The barrier: all threads of the program have stored. */
  ghost predicate Sync(l: Launch, s: State, s': State, r: nat)
    requires Shaped(l, s) && r < |s.progs|
  {
    && s.progs[r].Updating? && (forall j :: 0 <= j < l.width ==> s.progs[r].cells[j].Stored?)
    && s' == s.(progs := s.progs[r := Releasing])
  }

  ghost predicate ReleaseLock(l: Launch, s: State, s': State, r: nat)
    requires Shaped(l, s) && r < |s.progs|
  {
    s.progs[r].Releasing? && s' == s.(locks := s.locks[l.LockId(r) := 0], progs := s.progs[r := Finished])
  }

  ghost predicate StepOf(l: Launch, s: State, s': State, r: nat)
    requires Shaped(l, s) && r < |s.progs|
  {
    || TakeLock(l, s, s', r) || LoadCount(l, s, s', r) || Branch(l, s, s', r)
    || Sync(l, s, s', r) || ReleaseLock(l, s, s', r)
    || exists j: nat :: j < l.width && (LoadCell(l, s, s', r, j) || StoreCell(l, s, s', r, j))
  }

  ghost predicate Step(l: Launch, s: State, s': State) {
    Shaped(l, s) && exists r: nat :: r < |s.progs| && StepOf(l, s, s', r)
  }

  /** Locks and counts start at zero; the buffers may hold anything. */
  ghost predicate Initial(l: Launch, s: State) {
    && Shaped(l, s) && (forall g :: 0 <= g < l.groups ==> s.locks[g] == 0 && s.counts[g] == 0)
    && forall r :: 0 <= r < |s.progs| ==> s.progs[r].Spinning?
  }

  ghost predicate IsRun(l: Launch, run: seq<State>) {
    run != [] && Initial(l, run[0]) && forall i :: 0 <= i < |run| - 1 ==> Step(l, run[i], run[i + 1])
  }

  // ---------------------------------------------------------------- what every step keeps

  predicate Critical(p: Prog) {
    !p.Spinning? && !p.Finished?
  }

  /** The programs of group g that have stored all they have to. */
  ghost function Completed(l: Launch, s: State, g: nat): (c: set<nat>)
    requires l.groups > 0
    ensures forall r: nat ::
      r in c <==> r < |s.progs| && l.LockId(r) == g && (s.progs[r].Releasing? || s.progs[r].Finished?)
  {
    set r: nat | r < |s.progs| && l.LockId(r) == g && (s.progs[r].Releasing? || s.progs[r].Finished?)
  }

  /** The sum of cell j over the rows of s below n. */
  ghost function Sum(l: Launch, rows: set<nat>, j: nat, n: nat): real
    requires l.Valid() && j < l.width && n <= |l.partials|
  {
    if n == 0 then 0.0 else Sum(l, rows, j, n - 1) + (if n - 1 in rows then l.partials[n - 1][j] else 0.0)
  }

  ghost function Total(l: Launch, rows: set<nat>, j: nat): real
    requires l.Valid() && j < l.width
  {
    Sum(l, rows, j, |l.partials|)
  }

  lemma {:induction false} SumAgree(l: Launch, a: set<nat>, b: set<nat>, j: nat, n: nat)
    requires l.Valid() && j < l.width && n <= |l.partials| && forall r: nat :: r < n ==> (r in a <==> r in b)
    ensures Sum(l, a, j, n) == Sum(l, b, j, n)
  {
    if n > 0 {
      SumAgree(l, a, b, j, n - 1);
    }
  }

  lemma {:induction false} SumInsert(l: Launch, a: set<nat>, r: nat, j: nat, n: nat)
    requires l.Valid() && j < l.width && r < n <= |l.partials| && r !in a
    ensures Sum(l, a + {r}, j, n) == Sum(l, a, j, n) + l.partials[r][j]
  {
    if r == n - 1 {
      SumAgree(l, a + {r}, a, j, n - 1);
    } else {
      SumInsert(l, a, r, j, n - 1);
    }
  }

  lemma {:induction false} SumNothing(l: Launch, j: nat, n: nat)
    requires l.Valid() && j < l.width && n <= |l.partials|
    ensures Sum(l, {}, j, n) == 0.0
  {
    if n > 0 {
      SumNothing(l, j, n - 1);
    }
  }

  /** At most one program is in the critical section of a group, and the lock says whether one is. */
  ghost predicate Exclusive(l: Launch, s: State, g: nat)
    requires Shaped(l, s) && g < l.groups
  {
    && (forall q, r :: 0 <= q < r < |s.progs| && l.LockId(q) == l.LockId(r) == g ==>
          !(Critical(s.progs[q]) && Critical(s.progs[r])))
    && (s.locks[g] == 0 || s.locks[g] == 1)
    && (s.locks[g] == 0 <==> forall r :: 0 <= r < |s.progs| && l.LockId(r) == g ==> !Critical(s.progs[r]))
  }

  ghost predicate HasBegun(p: Prog) {
    p.Updating? || p.Releasing? || p.Finished?
  }

  /** The count is zero until the first program of the group branches. */
  ghost predicate Counted(l: Launch, s: State, g: nat)
    requires Shaped(l, s) && g < l.groups
  {
    && (s.counts[g] == 0 <==> forall r :: 0 <= r < |s.progs| && l.LockId(r) == g ==> !HasBegun(s.progs[r]))
    && forall r :: 0 <= r < |s.progs| && l.LockId(r) == g ==>
         (s.progs[r].Branching? ==> s.progs[r].count == s.counts[g])
         && (s.progs[r].Updating? ==> (s.progs[r].first <==> Completed(l, s, g) == {}))
  }

  /** What cell j of a program in the middle of its update has to do with the buffer. */
  ghost predicate CellInv(l: Launch, s: State, r: nat, j: nat)
    requires Shaped(l, s) && r < |s.progs| && j < l.width && s.progs[r].Updating?
  {
    var g := l.LockId(r);
    var before := Total(l, Completed(l, s, g), j);
    match s.progs[r].cells[j]
    case Waiting => Completed(l, s, g) != {} ==> s.bufs[g][j] == before
    case Ready(v) => v == before + l.partials[r][j]
    case Stored => s.bufs[g][j] == before + l.partials[r][j]
  }

  /** While nobody updates it, a buffer that has been used holds the sum of the completed rows. */
  ghost predicate Summed(l: Launch, s: State, g: nat)
    requires Shaped(l, s) && g < l.groups
  {
    && (forall r, j :: 0 <= r < |s.progs| && l.LockId(r) == g && s.progs[r].Updating? && 0 <= j < l.width ==>
          CellInv(l, s, r, j))
    && ((forall r :: 0 <= r < |s.progs| && l.LockId(r) == g ==> !s.progs[r].Updating?) ==>
          Completed(l, s, g) != {} ==> forall j :: 0 <= j < l.width ==> s.bufs[g][j] == Total(l, Completed(l, s, g), j))
  }

  ghost predicate GroupInv(l: Launch, s: State, g: nat)
    requires Shaped(l, s) && g < l.groups
  {
    Exclusive(l, s, g) && Counted(l, s, g) && Summed(l, s, g)
  }

  ghost predicate Inv(l: Launch, s: State) {
    Shaped(l, s) && forall g :: 0 <= g < l.groups ==> GroupInv(l, s, g)
  }

  // ---------------------------------------------------------------- steps keep the invariant

  /** The step of a program changes only itself and, at most, its own group's lock, count and buffer. */
  ghost predicate OnlyTouches(l: Launch, s: State, s': State, r: nat)
    requires Shaped(l, s) && r < |s.progs|
  {
    && Shaped(l, s') && s'.progs == s.progs[r := s'.progs[r]]
    && forall g :: 0 <= g < l.groups && g != l.LockId(r) ==>
         s'.locks[g] == s.locks[g] && s'.counts[g] == s.counts[g] && s'.bufs[g] == s.bufs[g]
  }

  lemma StepTouches(l: Launch, s: State, s': State, r: nat)
    requires Shaped(l, s) && r < |s.progs| && StepOf(l, s, s', r)
    ensures OnlyTouches(l, s, s', r)
  {
  }

  /** Other groups see nothing of it. */
  lemma OtherGroups(l: Launch, s: State, s': State, r: nat, g: nat)
    requires Shaped(l, s) && r < |s.progs| && OnlyTouches(l, s, s', r) && g < l.groups && g != l.LockId(r)
    requires GroupInv(l, s, g)
    ensures GroupInv(l, s', g)
  {
    hide Sum;
    assert Completed(l, s', g) == Completed(l, s, g);
    forall q, j | 0 <= q < |s'.progs| && l.LockId(q) == g && s'.progs[q].Updating? && 0 <= j < l.width
      ensures CellInv(l, s', q, j)
    {
      assert CellInv(l, s, q, j);
    }
  }

  /** A program in the critical section is alone there. */
  lemma AloneInside(l: Launch, s: State, r: nat)
    requires Shaped(l, s) && r < |s.progs| && Exclusive(l, s, l.LockId(r)) && Critical(s.progs[r])
    ensures s.locks[l.LockId(r)] == 1
    ensures forall q :: 0 <= q < |s.progs| && q != r && l.LockId(q) == l.LockId(r) ==> !Critical(s.progs[q])
  {
  }

  lemma TakeLockKeeps(l: Launch, s: State, s': State, r: nat)
    requires Shaped(l, s) && Shaped(l, s') && r < |s.progs| && TakeLock(l, s, s', r) && GroupInv(l, s, l.LockId(r))
    ensures GroupInv(l, s', l.LockId(r))
  {
    var g := l.LockId(r);
    hide Sum, CellInv;
    assert Completed(l, s', g) == Completed(l, s, g);
  }

  lemma LoadCountKeeps(l: Launch, s: State, s': State, r: nat)
    requires Shaped(l, s) && Shaped(l, s') && r < |s.progs| && LoadCount(l, s, s', r) && GroupInv(l, s, l.LockId(r))
    ensures GroupInv(l, s', l.LockId(r))
  {
    var g := l.LockId(r);
    hide Sum, CellInv;
    AloneInside(l, s, r);
    assert Completed(l, s', g) == Completed(l, s, g);
  }

  lemma BranchKeeps(l: Launch, s: State, s': State, r: nat)
    requires Shaped(l, s) && Shaped(l, s') && r < |s.progs| && Branch(l, s, s', r) && GroupInv(l, s, l.LockId(r))
    ensures GroupInv(l, s', l.LockId(r))
  {
    var g := l.LockId(r);
    hide Sum;
    AloneInside(l, s, r);
    assert Completed(l, s', g) == Completed(l, s, g);
    assert s.counts[g] == 0 <==> Completed(l, s, g) == {} by { BeforeBranching(l, s, r); }
  }

  /** Between programs, a count of zero means that none has completed. */
  lemma BeforeBranching(l: Launch, s: State, r: nat)
    requires Shaped(l, s) && r < |s.progs| && GroupInv(l, s, l.LockId(r)) && s.progs[r].Branching?
    ensures s.counts[l.LockId(r)] == 0 <==> Completed(l, s, l.LockId(r)) == {}
  {
  }

  lemma LoadCellKeeps(l: Launch, s: State, s': State, r: nat, j: nat)
    requires Shaped(l, s) && Shaped(l, s') && r < |s.progs| && j < l.width
    requires LoadCell(l, s, s', r, j) && GroupInv(l, s, l.LockId(r))
    ensures GroupInv(l, s', l.LockId(r))
  {
    var g := l.LockId(r);
    hide Total;
    AloneInside(l, s, r);
    assert Completed(l, s', g) == Completed(l, s, g);
    assert Completed(l, s, g) == {} ==> Total(l, Completed(l, s, g), j) == 0.0 by { TotalNothing(l, j); }
    assert CellInv(l, s, r, j);
    forall k | 0 <= k < l.width
      ensures CellInv(l, s', r, k)
    {
      assert CellInv(l, s, r, k);
    }
  }

  lemma TotalNothing(l: Launch, j: nat)
    requires l.Valid() && j < l.width
    ensures Total(l, {}, j) == 0.0
  {
    SumNothing(l, j, |l.partials|);
  }

  lemma StoreCellKeeps(l: Launch, s: State, s': State, r: nat, j: nat)
    requires Shaped(l, s) && Shaped(l, s') && r < |s.progs| && j < l.width
    requires StoreCell(l, s, s', r, j) && GroupInv(l, s, l.LockId(r))
    ensures GroupInv(l, s', l.LockId(r))
  {
    var g := l.LockId(r);
    hide Total;
    AloneInside(l, s, r);
    assert Completed(l, s', g) == Completed(l, s, g);
    forall k | 0 <= k < l.width
      ensures CellInv(l, s', r, k)
    {
      assert CellInv(l, s, r, k);
    }
  }

  /** Past the barrier the row counts as completed, and every cell of the buffer includes it. */
  lemma SyncKeeps(l: Launch, s: State, s': State, r: nat)
    requires Shaped(l, s) && Shaped(l, s') && r < |s.progs| && Sync(l, s, s', r) && GroupInv(l, s, l.LockId(r))
    ensures GroupInv(l, s', l.LockId(r))
  {
    var g := l.LockId(r);
    hide Total;
    AloneInside(l, s, r);
    assert Completed(l, s', g) == Completed(l, s, g) + {r};
    forall j | 0 <= j < l.width
      ensures s'.bufs[g][j] == Total(l, Completed(l, s', g), j)
    {
      assert CellInv(l, s, r, j) && s.progs[r].cells[j].Stored?;
      TotalInsert(l, Completed(l, s, g), r, j);
    }
  }

  lemma TotalInsert(l: Launch, a: set<nat>, r: nat, j: nat)
    requires l.Valid() && j < l.width && r < |l.partials| && r !in a
    ensures Total(l, a + {r}, j) == Total(l, a, j) + l.partials[r][j]
  {
    SumInsert(l, a, r, j, |l.partials|);
  }

  lemma ReleaseLockKeeps(l: Launch, s: State, s': State, r: nat)
    requires Shaped(l, s) && Shaped(l, s') && r < |s.progs| && ReleaseLock(l, s, s', r) && GroupInv(l, s, l.LockId(r))
    ensures GroupInv(l, s', l.LockId(r))
  {
    var g := l.LockId(r);
    hide Total, CellInv;
    AloneInside(l, s, r);
    assert Completed(l, s', g) == Completed(l, s, g);
  }

  lemma StepKeepsInv(l: Launch, s: State, s': State)
    requires Inv(l, s) && Step(l, s, s')
    ensures Inv(l, s')
  {
    hide GroupInv;
    var r: nat :| r < |s.progs| && StepOf(l, s, s', r);
    StepTouches(l, s, s', r);
    forall g | 0 <= g < l.groups
      ensures GroupInv(l, s', g)
    {
      if g != l.LockId(r) {
        OtherGroups(l, s, s', r, g);
      } else {
        OwnGroup(l, s, s', r);
      }
    }
  }

  lemma OwnGroup(l: Launch, s: State, s': State, r: nat)
    requires Shaped(l, s) && Shaped(l, s') && r < |s.progs| && StepOf(l, s, s', r) && GroupInv(l, s, l.LockId(r))
    ensures GroupInv(l, s', l.LockId(r))
  {
    hide GroupInv, TakeLock, LoadCount, Branch, Sync, ReleaseLock, LoadCell, StoreCell;
    if TakeLock(l, s, s', r) {
      TakeLockKeeps(l, s, s', r);
    } else if LoadCount(l, s, s', r) {
      LoadCountKeeps(l, s, s', r);
    } else if Branch(l, s, s', r) {
      BranchKeeps(l, s, s', r);
    } else if Sync(l, s, s', r) {
      SyncKeeps(l, s, s', r);
    } else if ReleaseLock(l, s, s', r) {
      ReleaseLockKeeps(l, s, s', r);
    } else {
      var j: nat :| j < l.width && (LoadCell(l, s, s', r, j) || StoreCell(l, s, s', r, j));
      if LoadCell(l, s, s', r, j) {
        LoadCellKeeps(l, s, s', r, j);
      } else {
        StoreCellKeeps(l, s, s', r, j);
      }
    }
  }

  lemma InitialInv(l: Launch, s: State)
    requires Initial(l, s)
    ensures Inv(l, s)
  {
  }

  lemma {:induction false} RunKeepsInv(l: Launch, run: seq<State>, i: nat)
    requires IsRun(l, run) && i < |run|
    ensures Inv(l, run[i])
  {
    hide Inv;
    if i == 0 {
      InitialInv(l, run[0]);
    } else {
      RunKeepsInv(l, run, i - 1);
      assert Step(l, run[i - 1], run[i - 1 + 1]);
      StepKeepsInv(l, run[i - 1], run[i]);
    }
  }

  // ---------------------------------------------------------------- the accumulation

  /** Two programs of a group are never in the critical section together. */
  lemma MutualExclusion(l: Launch, run: seq<State>, i: nat, q: nat, r: nat)
    requires IsRun(l, run) && i < |run|
    ensures Shaped(l, run[i])
    ensures q < r < |l.partials| && q % l.groups == r % l.groups ==>
      !(Critical(run[i].progs[q]) && Critical(run[i].progs[r]))
  {
    RunKeepsInv(l, run, i);
    if q < r < |l.partials| && l.LockId(q) == l.LockId(r) {
      assert GroupInv(l, run[i], l.LockId(q));
    }
  }

  /** The rows of group g: those that leave g when divided by the number of groups. */
  ghost function RowsOf(l: Launch, g: nat): (rows: set<nat>)
    requires l.groups > 0
    ensures forall r: nat :: r in rows <==> r < |l.partials| && r % l.groups == g
  {
    set r: nat | r < |l.partials| && r % l.groups == g
  }

  ghost predicate AllFinished(s: State) {
    forall r :: 0 <= r < |s.progs| ==> s.progs[r].Finished?
  }

  /** Once all programs have finished, buffer g holds the sum of the partial gradients of its rows. */
  lemma BuffersHoldGroupSums(l: Launch, run: seq<State>, g: nat, j: nat)
    requires IsRun(l, run) && AllFinished(run[|run| - 1]) && g < l.groups && g < |l.partials|
    requires l.Valid() && j < l.width
    ensures Shaped(l, run[|run| - 1])
    ensures run[|run| - 1].bufs[g][j] == Total(l, RowsOf(l, g), j)
  {
    hide Sum;
    var last := run[|run| - 1];
    RunKeepsInv(l, run, |run| - 1);
    assert GroupInv(l, last, g);
    assert Completed(l, last, g) == RowsOf(l, g);
    assert l.LockId(g) == g by { SmallModulo(g, l.groups); }
    assert g in RowsOf(l, g);
  }

  lemma SmallModulo(g: nat, n: nat)
    requires g < n
    ensures g % n == g
  {
  }

  /** As long as a program has not finished, some program can take a step. */
  lemma NoDeadlock(l: Launch, run: seq<State>, i: nat)
    requires IsRun(l, run) && i < |run| && !AllFinished(run[i])
    ensures exists s' :: Step(l, run[i], s')
  {
    hide Sum, Summed, Counted;
    var s := run[i];
    RunKeepsInv(l, run, i);
    var r: nat :| r < |s.progs| && !s.progs[r].Finished?;
    var g := l.LockId(r);
    assert GroupInv(l, s, g);
    var q: nat := r;
    if s.progs[r].Spinning? && s.locks[g] != 0 {
      q :| 0 <= q < |s.progs| && l.LockId(q) == g && Critical(s.progs[q]);
    }
    var s' := CanStep(l, s, q);
    assert StepOf(l, s, s', q) && Step(l, s, s');
  }

  lemma CanStep(l: Launch, s: State, r: nat) returns (s': State)
    requires Shaped(l, s) && r < |s.progs| && !s.progs[r].Finished?
      && (s.progs[r].Spinning? ==> s.locks[l.LockId(r)] == 0)
    ensures StepOf(l, s, s', r)
  {
    var g, p := l.LockId(r), s.progs[r];
    match p
    case Spinning => s' := s.(locks := s.locks[g := 1], progs := s.progs[r := Counting]);
    case Counting => s' := s.(progs := s.progs[r := Branching(s.counts[g])]);
    case Branching(count) =>
      s' := s.(counts := if count == 0 then s.counts[g := 1] else s.counts,
               progs := s.progs[r := Updating(count == 0, seq(l.width, _ => Waiting))]);
      assert Branch(l, s, s', r);
    case Updating(first, cells) =>
      if j: nat :| j < l.width && !cells[j].Stored? {
        if cells[j].Waiting? {
          var v := if first then l.partials[r][j] else l.partials[r][j] + s.bufs[g][j];
          s' := s.(progs := s.progs[r := p.(cells := cells[j := Ready(v)])]);
          assert LoadCell(l, s, s', r, j);
        } else {
          s' := s.(bufs := s.bufs[g := s.bufs[g][j := cells[j].value]],
                   progs := s.progs[r := p.(cells := cells[j := Stored])]);
          assert StoreCell(l, s, s', r, j);
        }
      } else {
        s' := s.(progs := s.progs[r := Releasing]);
        assert Sync(l, s, s', r);
      }
    case Releasing => s' := s.(locks := s.locks[g := 0], progs := s.progs[r := Finished]);
  }

  // ---------------------------------------------------------------- runs end

  /** The steps a cell, or a program, still has to take. */
  function CellWork(c: CellPc): nat {
    match c
    case Waiting => 2
    case Ready(_) => 1
    case Stored => 0
  }

  function CellsWork(cells: seq<CellPc>): nat {
    if cells == [] then 0 else CellsWork(cells[..|cells| - 1]) + CellWork(cells[|cells| - 1])
  }

  function ProgWork(p: Prog, width: nat): nat {
    match p
    case Spinning => 2 * width + 5
    case Counting => 2 * width + 4
    case Branching(_) => 2 * width + 3
    case Updating(_, cells) => CellsWork(cells) + 2
    case Releasing => 1
    case Finished => 0
  }

  function Work(progs: seq<Prog>, width: nat): nat {
    if progs == [] then 0 else Work(progs[..|progs| - 1], width) + ProgWork(progs[|progs| - 1], width)
  }

  lemma {:induction false} CellsWorkUpdate(cells: seq<CellPc>, j: nat, c: CellPc)
    requires j < |cells|
    ensures CellsWork(cells[j := c]) + CellWork(cells[j]) == CellsWork(cells) + CellWork(c)
  {
    var n := |cells| - 1;
    if j == n {
      assert cells[j := c][..n] == cells[..n];
    } else {
      assert cells[j := c][..n] == cells[..n][j := c];
      CellsWorkUpdate(cells[..n], j, c);
    }
  }

  lemma {:induction false} CellsWorkUniform(cells: seq<CellPc>, c: CellPc)
    requires c.Waiting? || c.Stored?
    requires forall j :: 0 <= j < |cells| ==> cells[j] == c
    ensures CellsWork(cells) == |cells| * CellWork(c)
  {
    if cells != [] {
      CellsWorkUniform(cells[..|cells| - 1], c);
    }
  }

  lemma {:induction false} WorkUpdate(progs: seq<Prog>, r: nat, p: Prog, width: nat)
    requires r < |progs|
    ensures Work(progs[r := p], width) + ProgWork(progs[r], width) == Work(progs, width) + ProgWork(p, width)
  {
    var n := |progs| - 1;
    if r == n {
      assert progs[r := p][..n] == progs[..n];
    } else {
      assert progs[r := p][..n] == progs[..n][r := p];
      WorkUpdate(progs[..n], r, p, width);
    }
  }

  /** Every step does one unit of the work of its program. */
  lemma StepDoesWork(l: Launch, s: State, s': State, r: nat)
    requires Shaped(l, s) && r < |s.progs| && StepOf(l, s, s', r)
    ensures |s'.progs| == |s.progs| && Work(s.progs, l.width) == Work(s'.progs, l.width) + 1
  {
    hide Work, CellsWork;
    var p, p' := s.progs[r], s'.progs[r];
    StepTouches(l, s, s', r);
    assert s'.progs == s.progs[r := p'];
    WorkUpdate(s.progs, r, p', l.width);
    if Branch(l, s, s', r) {
      CellsWorkUniform(p'.cells, Waiting);
    } else if Sync(l, s, s', r) {
      CellsWorkUniform(p.cells, Stored);
    } else if j: nat :| j < l.width && (LoadCell(l, s, s', r, j) || StoreCell(l, s, s', r, j)) {
      CellsWorkUpdate(p.cells, j, p'.cells[j]);
    }
  }

  lemma {:induction false} InitialWork(progs: seq<Prog>, width: nat)
    requires forall r :: 0 <= r < |progs| ==> progs[r].Spinning?
    ensures Work(progs, width) == |progs| * (2 * width + 5)
  {
    if progs != [] {
      InitialWork(progs[..|progs| - 1], width);
      assert |progs| * (2 * width + 5) == (|progs| - 1) * (2 * width + 5) + (2 * width + 5);
    }
  }

  /** The steps taken and the work left always add up to the same number, whatever the interleaving. */
  lemma {:induction false} RunsAreBounded(l: Launch, run: seq<State>)
    requires IsRun(l, run)
    ensures |run| - 1 + Work(run[|run| - 1].progs, l.width) == |l.partials| * (2 * l.width + 5)
    decreases |run|
  {
    hide Work, StepOf;
    var n := |run| - 1;
    if n == 0 {
      InitialWork(run[0].progs, l.width);
    } else {
      RunsAreBounded(l, run[..n]);
      var i := n - 1;
      assert Step(l, run[i], run[i + 1]);
      var r: nat :| r < |run[i].progs| && StepOf(l, run[i], run[n], r);
      StepDoesWork(l, run[i], run[n], r);
    }
  }

  lemma {:induction false} NoWorkLeft(progs: seq<Prog>, width: nat)
    ensures (forall r :: 0 <= r < |progs| ==> progs[r].Finished?) <==> Work(progs, width) == 0
  {
    if progs != [] {
      NoWorkLeft(progs[..|progs| - 1], width);
    }
  }

  /** A run that cannot go on has finished every program, and has taken exactly the steps of all of them. */
  lemma RunsFinish(l: Launch, run: seq<State>)
    requires IsRun(l, run)
    ensures var last := run[|run| - 1];
      && ((forall s' :: !Step(l, last, s')) <==> AllFinished(last))
      && (AllFinished(last) <==> |run| - 1 == |l.partials| * (2 * l.width + 5))
  {
    hide Work, Step, IsRun;
    LastIsShaped(l, run);
    var last := run[|run| - 1];
    RunsAreBounded(l, run);
    NoWorkLeft(last.progs, l.width);
    if !AllFinished(last) {
      NoDeadlock(l, run, |run| - 1);
    } else {
      forall s'
        ensures !Step(l, last, s')
      {
        if Step(l, last, s') {
          RunsOn(l, run, s');
          RunsAreBounded(l, run + [s']);
        }
      }
    }
  }

  lemma RunsOn(l: Launch, run: seq<State>, s': State)
    requires IsRun(l, run) && Step(l, run[|run| - 1], s')
    ensures IsRun(l, run + [s'])
  {
    hide Step, Initial;
    var run' := run + [s'];
    forall i | 0 <= i < |run'| - 1
      ensures Step(l, run'[i], run'[i + 1])
    {
      if i < |run| - 1 {
        assert Step(l, run[i], run[i + 1]);
      }
    }
  }

  // ---------------------------------------------------------------- the final reduction

  /** The sum of column c over the first m buffers. */
  function ColumnSum(bufs: seq<seq<real>>, m: nat, c: nat): real
    requires m <= |bufs| && forall g :: 0 <= g < m ==> c < |bufs[g]|
  {
    if m == 0 then 0.0 else ColumnSum(bufs, m - 1, c) + bufs[m - 1][c]
  }

  function SumOf(tile: seq<real>): real {
    if tile == [] then 0.0 else SumOf(tile[..|tile| - 1]) + tile[|tile| - 1]
  }

  lemma {:induction false} SumOfUpdate(tile: seq<real>, k: nat, v: real)
    requires k < |tile|
    ensures SumOf(tile[k := v]) == SumOf(tile) - tile[k] + v
  {
    var n := |tile| - 1;
    if k == n {
      assert tile[k := v][..n] == tile[..n];
    } else {
      assert tile[k := v][..n] == tile[..n][k := v];
      SumOfUpdate(tile[..n], k, v);
    }
  }

  lemma {:induction false} SumOfZeros(tile: seq<real>)
    requires forall k :: 0 <= k < |tile| ==> tile[k] == 0.0
    ensures SumOf(tile) == 0.0
  {
    if tile != [] {
      SumOfZeros(tile[..|tile| - 1]);
    }
  }

  lemma ColumnOneMore(bufs: seq<seq<real>>, m: nat, c: nat, i: nat)
    requires m <= |bufs| && forall g :: 0 <= g < m ==> c < |bufs[g]|
    ensures ColumnSum(bufs, Min(i + 1, m), c) == ColumnSum(bufs, Min(i, m), c) + (if i < m then bufs[i][c] else 0.0)
  {
  }

  method AddTo(tile: array<real>, k: nat, v: real)
    requires k < tile.Length
    modifies tile
    ensures SumOf(tile[..]) == SumOf(old(tile[..])) + v
  {
    ghost var before := tile[..];
    SumOfUpdate(before, k, before[k] + v);
    tile[k] := tile[k] + v;
    assert tile[..] == before[k := before[k] + v];
  }

  /** One column of a program's tile: rows are added blockM at a time, and the tile summed up at the end. */
  method ReduceColumn(bufs: seq<seq<real>>, m: nat, c: nat, blockM: nat) returns (sum: real)
    requires blockM > 0 && m <= |bufs| && forall g :: 0 <= g < m ==> c < |bufs[g]|
    ensures sum == ColumnSum(bufs, m, c)
  {
    hide SumOf, ColumnSum;
    var tile := new real[blockM](_ => 0.0);
    SumOfZeros(tile[..]);
    NothingSummed(bufs, c);
    var i := 0;
    while i < m
      invariant SumOf(tile[..]) == ColumnSum(bufs, Min(i, m), c)
    {
      for k := 0 to blockM
        invariant SumOf(tile[..]) == ColumnSum(bufs, Min(i + k, m), c)
      {
        var loaded := if i + k < m then bufs[i + k][c] else 0.0;
        ColumnOneMore(bufs, m, c, i + k);
        AddTo(tile, k, loaded);
      }
      i := i + blockM;
    }
    sum := SumTile(tile);
  }

  lemma NothingSummed(bufs: seq<seq<real>>, c: nat)
    ensures ColumnSum(bufs, 0, c) == 0.0
  {
  }

  method SumTile(tile: array<real>) returns (sum: real)
    ensures sum == SumOf(tile[..])
  {
    sum := 0.0;
    for k := 0 to tile.Length
      invariant sum == SumOf(tile[..k])
    {
      assert tile[..k + 1][..k] == tile[..k];
      sum := sum + tile[k];
    }
    assert tile[..tile.Length] == tile[..];
  }

  /** The grid of column blocks writes every column of the final gradient. */
  method FinalReduction(bufs: seq<seq<real>>, m: nat, n: nat, blockM: nat, blockN: nat) returns (final: array<real>)
    requires blockM > 0 && blockN > 0 && m <= |bufs| && forall g :: 0 <= g < m ==> |bufs[g]| == n
    ensures fresh(final) && final.Length == n && forall c :: 0 <= c < n ==> final[c] == ColumnSum(bufs, m, c)
  {
    final := new real[n];
    var grid := (n + blockN - 1) / blockN;
    for pid := 0 to grid
      invariant forall c :: 0 <= c < n && c < pid * blockN ==> final[c] == ColumnSum(bufs, m, c)
    {
      for k := 0 to blockN
        invariant forall c :: 0 <= c < n && c < pid * blockN + k ==> final[c] == ColumnSum(bufs, m, c)
      {
        var col := pid * blockN + k;
        if col < n {
          var sum := ReduceColumn(bufs, m, col, blockM);
          final[col] := sum;
        }
      }
      assert (pid + 1) * blockN == pid * blockN + blockN;
    }
    GridCovers(n, blockN);
  }

  lemma GridCovers(n: nat, b: nat)
    requires b > 0
    ensures (n + b - 1) / b * b >= n
  {
    var q := (n + b - 1) / b;
    assert n + b - 1 == q * b + (n + b - 1) % b;
  }

  // ---------------------------------------------------------------- both stages together

  ghost function RowsBelow(l: Launch, k: nat): (rows: set<nat>)
    requires l.groups > 0
    ensures forall r: nat :: r in rows <==> r < |l.partials| && l.LockId(r) < k
  {
    set r: nat | r < |l.partials| && l.LockId(r) < k
  }

  lemma {:induction false} SumDisjoint(l: Launch, a: set<nat>, b: set<nat>, j: nat, n: nat)
    requires l.Valid() && j < l.width && n <= |l.partials| && a !! b
    ensures Sum(l, a + b, j, n) == Sum(l, a, j, n) + Sum(l, b, j, n)
  {
    if n > 0 {
      SumDisjoint(l, a, b, j, n - 1);
    }
  }

  /** The buffers of the first k groups together hold the rows of those groups. */
  lemma {:induction false} GroupsAddUp(l: Launch, bufs: seq<seq<real>>, k: nat, j: nat)
    requires l.Valid() && j < l.width && k <= |bufs| && forall g :: 0 <= g < k ==> |bufs[g]| == l.width
    requires forall g: nat :: g < k ==> bufs[g][j] == Total(l, RowsOf(l, g), j)
    ensures ColumnSum(bufs, k, j) == Total(l, RowsBelow(l, k), j)
  {
    hide Sum;
    if k == 0 {
      assert RowsBelow(l, 0) == {};
      TotalNothing(l, j);
    } else {
      GroupsAddUp(l, bufs, k - 1, j);
      assert RowsBelow(l, k) == RowsBelow(l, k - 1) + RowsOf(l, k - 1);
      SumDisjoint(l, RowsBelow(l, k - 1), RowsOf(l, k - 1), j, |l.partials|);
    }
  }

  /** Column j of the sum over all rows. */
  function RowSum(partials: seq<seq<real>>, n: nat, j: nat): real
    requires n <= |partials| && forall r :: 0 <= r < n ==> j < |partials[r]|
  {
    if n == 0 then 0.0 else RowSum(partials, n - 1, j) + partials[n - 1][j]
  }

  lemma {:induction false} SumOfAll(l: Launch, rows: set<nat>, j: nat, n: nat)
    requires l.Valid() && j < l.width && n <= |l.partials| && forall r: nat :: r < n ==> r in rows
    ensures Sum(l, rows, j, n) == RowSum(l.partials, n, j)
  {
    if n > 0 {
      SumOfAll(l, rows, j, n - 1);
    }
  }

  /** Reducing min(GROUP_SIZE_M, M) buffers after any complete run gives the sum over all rows. */
  lemma GradientIsTotal(l: Launch, run: seq<State>, j: nat)
    requires IsRun(l, run) && AllFinished(run[|run| - 1]) && l.Valid() && j < l.width
    ensures Shaped(l, run[|run| - 1])
    ensures ColumnSum(run[|run| - 1].bufs, Min(l.groups, |l.partials|), j) == RowSum(l.partials, |l.partials|, j)
  {
    hide IsRun, Sum, RowsBelow, RowsOf;
    LastIsShaped(l, run);
    var last, k := run[|run| - 1], Min(l.groups, |l.partials|);
    forall g: nat | g < k
      ensures last.bufs[g][j] == Total(l, RowsOf(l, g), j)
    {
      BuffersHoldGroupSums(l, run, g, j);
    }
    GroupsAddUp(l, last.bufs, k, j);
    EveryRowHasAGroup(l, k);
    SumOfAll(l, RowsBelow(l, k), j, |l.partials|);
  }

  lemma LastIsShaped(l: Launch, run: seq<State>)
    requires IsRun(l, run)
    ensures run != [] && Shaped(l, run[|run| - 1])
  {
    RunKeepsInv(l, run, |run| - 1);
  }

  lemma EveryRowHasAGroup(l: Launch, k: nat)
    requires l.groups > 0 && k == Min(l.groups, |l.partials|)
    ensures forall r: nat :: r < |l.partials| ==> r in RowsBelow(l, k)
  {
    forall r: nat | r < |l.partials|
      ensures l.LockId(r) < k
    {
      if |l.partials| <= l.groups {
        SmallModulo(r, l.groups);
      }
    }
  }
}
