/** Topological sorting of a set of operations from many roots, along operands and enclosing operations. */
module TopologicalSort {
  import opened Basics

  type Op = nat

  /**
   * The operations: the definers of each one's operands, its enclosing operations from the inside out,
   * the users of its results, and the operations directly in its regions.
   */
  datatype Graph = Graph(operands: seq<seq<Op>>, ancestors: seq<seq<Op>>, users: seq<seq<Op>>, children: seq<seq<Op>>) {

    predicate Has(u: Op) {
      u < |operands|
    }

    /** What u has to come after. */
    function Deps(u: Op): (r: set<Op>)
      requires u < |operands| == |ancestors|
      ensures forall d :: d in r <==> d in operands[u] || d in ancestors[u]
    {
      (set d | d in operands[u]) + set d | d in ancestors[u]
    }

    /** The operations looked at once u has been placed. */
    function Next(u: Op): seq<Op>
      requires u < |users| == |children|
    {
      users[u] + children[u]
    }

    ghost predicate Valid() {
      && |operands| == |ancestors| == |users| == |children|
      && (forall u: Op, d: Op :: Has(u) && d in Deps(u) ==> Has(d))
      && (forall u: Op, v: Op :: Has(u) && v in Next(u) ==> Has(v))
      && (forall u: Op, d: Op :: Has(u) && Has(d) ==> (u in users[d] <==> d in operands[u]))
      && (forall u: Op, p: Op :: Has(u) && Has(p) ==>
            (u in children[p] <==> ancestors[u] != [] && ancestors[u][0] == p))
      && (forall u: Op :: Has(u) && ancestors[u] != [] ==>
            Has(ancestors[u][0]) && ancestors[u][1..] == ancestors[ancestors[u][0]])
    }

    ghost predicate IsRank(rank: seq<nat>)
      requires Valid()
    {
      |rank| == |operands| && forall u: Op, d: Op :: Has(u) && d in Deps(u) ==> d < |rank| && rank[d] < rank[u]
    }

    ghost predicate Acyclic()
      requires Valid()
    {
      exists rank :: IsRank(rank)
    }
  }

  // ---------------------------------------------------------------- the work list

  /** A queue without duplicates. */
  class DfsSubgraphState {
    var members: set<Op>
    var deque: seq<Op>

    ghost predicate Valid()
      reads this
    {
      && (forall i, j :: 0 <= i < j < |deque| ==> deque[i] != deque[j])
      && forall u :: u in members <==> u in deque
    }

    constructor ()
      ensures Valid() && members == {}
    {
      members, deque := {}, [];
    }

    method PushBack(op: Op) returns (isNew: bool)
      requires Valid()
      modifies this
      ensures Valid() && members == old(members) + {op} && (isNew <==> op !in old(members))
      ensures deque == if isNew then old(deque) + [op] else old(deque)
    {
      isNew := op !in members;
      if isNew {
        members := members + {op};
        deque := deque + [op];
      }
    }

    method PopFront() returns (op: Op)
      requires Valid() && members != {}
      modifies this
      ensures Valid() && old(deque) == [op] + deque && members == old(members) - {op} && op in old(members)
    {
      op := deque[0];
      deque := deque[1..];
      members := members - {op};
    }

    predicate Empty()
      requires Valid()
      reads this
      ensures Empty() <==> members == {}
    {
      assert deque != [] ==> deque[0] in members;
      deque == []
    }
  }

  // ---------------------------------------------------------------- what the search keeps

  /** Everything an operation of s depends on is in s. */
  ghost predicate DepsClosed(g: Graph, s: set<Op>)
    requires g.Valid()
  {
    forall u: Op, d: Op :: u in s && g.Has(u) && d in g.Deps(u) ==> d in s
  }

  /** The users and direct children of an operation of s are in s. */
  ghost predicate NextClosed(g: Graph, s: set<Op>)
    requires g.Valid()
  {
    forall u: Op, v: Op :: u in s && g.Has(u) && v in g.Next(u) ==> v in s
  }

  function Unseen(g: Graph, seen: set<Op>, u: Op): set<Op>
    requires u < |g.operands| == |g.ancestors|
  {
    g.Deps(u) - seen
  }

  /** u has been looked at and waits for operations that are queued or wait themselves. */
  ghost predicate Waiting(g: Graph, seen: set<Op>, queued: set<Op>, active: set<Op>, u: Op)
    requires u < |g.operands| == |g.ancestors|
  {
    Unseen(g, seen, u) != {} && Unseen(g, seen, u) <= queued + active
  }

  ghost predicate AllWaiting(g: Graph, seen: set<Op>, queued: set<Op>, active: set<Op>, ready: seq<Op>, todo: seq<Op>)
    requires g.Valid()
  {
    forall u: Op :: u in active && u !in seen && u !in ready && u !in todo ==>
      g.Has(u) && Waiting(g, seen, queued, active, u)
  }

  /** What comes next after a placed operation has been looked at, but for the rest `todo` of what follows `current`. */
  ghost predicate NextLookedAt(g: Graph, seen: set<Op>, active: set<Op>, current: Op, todo: seq<Op>)
    requires g.Valid()
  {
    forall u: Op, v: Op :: u in seen && g.Has(u) && v in g.Next(u) ==>
      v in seen || v in active || (u == current && v in todo)
  }

  ghost predicate AllReady(g: Graph, seen: set<Op>, active: set<Op>, ready: seq<Op>)
    requires g.Valid()
  {
    forall u: Op :: u in ready ==> g.Has(u) && u in active && Unseen(g, seen, u) == {}
  }

  /**
   * The state of one search.  `queued` is the work list, `active` the operations looked at so far, `ready` the
   * operations about to be placed, and `todo` those still to be looked at after placing `current`.
   */
  ghost predicate Searching(g: Graph, seen: set<Op>, queued: set<Op>, active: set<Op>, ready: seq<Op>, current: Op,
                            todo: seq<Op>)
    requires g.Valid()
  {
    && DepsClosed(g, seen)
    && (forall u :: u in seen || u in queued ==> g.Has(u))
    && AllReady(g, seen, active, ready)
    && AllWaiting(g, seen, queued, active, ready, todo)
    && NextLookedAt(g, seen, active, current, todo)
  }

  /** Looking at u: it becomes ready, or what it waits for is queued. */
  lemma LookAt(g: Graph, seen: set<Op>, queued: set<Op>, active: set<Op>, ready: seq<Op>, current: Op, u: Op,
               todo: seq<Op>)
    requires g.Valid() && g.Has(u) && Searching(g, seen, queued, active, ready, current, [u] + todo)
    ensures Searching(g, seen, queued + Unseen(g, seen, u), active + {u},
                      if Unseen(g, seen, u) == {} then ready + [u] else ready, current, todo)
  {
    hide DepsClosed, AllReady, AllWaiting, NextLookedAt, Unseen;
    var ready' := if Unseen(g, seen, u) == {} then ready + [u] else ready;
    assert AllReady(g, seen, active + {u}, ready') by { LookReady(g, seen, active, ready, u); }
    LookWaiting(g, seen, queued, active, ready, u, todo);
    LookNext(g, seen, active, current, u, todo);
    UnseenHas(g, seen, u);
  }

  lemma UnseenHas(g: Graph, seen: set<Op>, u: Op)
    requires g.Valid() && g.Has(u)
    ensures forall d :: d in Unseen(g, seen, u) ==> g.Has(d)
  {
  }

  lemma LookReady(g: Graph, seen: set<Op>, active: set<Op>, ready: seq<Op>, u: Op)
    requires g.Valid() && g.Has(u) && AllReady(g, seen, active, ready)
    ensures AllReady(g, seen, active + {u}, if Unseen(g, seen, u) == {} then ready + [u] else ready)
  {
  }

  lemma LookWaiting(g: Graph, seen: set<Op>, queued: set<Op>, active: set<Op>, ready: seq<Op>, u: Op, todo: seq<Op>)
    requires g.Valid() && g.Has(u) && AllWaiting(g, seen, queued, active, ready, [u] + todo)
    ensures AllWaiting(g, seen, queued + Unseen(g, seen, u), active + {u},
                       if Unseen(g, seen, u) == {} then ready + [u] else ready, todo)
  {
  }

  lemma LookNext(g: Graph, seen: set<Op>, active: set<Op>, current: Op, u: Op, todo: seq<Op>)
    requires g.Valid() && NextLookedAt(g, seen, active, current, [u] + todo)
    ensures NextLookedAt(g, seen, active + {u}, current, todo)
  {
    hide Graph.Next;
    forall w: Op, v: Op | w in seen && g.Has(w) && v in g.Next(w)
      ensures v in seen || v in active + {u} || (w == current && v in todo)
    {
      assert v in seen || v in active || (w == current && v in [u] + todo);
    }
  }

  /** Placing a ready operation: what waited for it alone is among its users and children. */
  lemma Place(g: Graph, seen: set<Op>, queued: set<Op>, active: set<Op>, ready: seq<Op>, c0: Op, current: Op)
    requires g.Valid() && Searching(g, seen, queued, active, ready + [current], c0, []) && current !in seen
    ensures Searching(g, seen + {current}, queued, active, ready, current, g.Next(current))
    ensures g.Has(current) && Unseen(g, seen, current) == {}
  {
    hide Unseen, Waiting, Graph.Deps, Graph.Next;
    assert current in ready + [current];
    PlaceReady(g, seen, active, ready, current);
    PlaceWaiting(g, seen, queued, active, ready, current);
  }

  lemma PlaceReady(g: Graph, seen: set<Op>, active: set<Op>, ready: seq<Op>, current: Op)
    requires g.Valid() && DepsClosed(g, seen) && AllReady(g, seen, active, ready + [current])
    ensures AllReady(g, seen + {current}, active, ready) && DepsClosed(g, seen + {current})
  {
    hide Graph.Deps;
    assert current in ready + [current];
    assert forall u :: u in ready ==> u in ready + [current];
  }

  lemma PlaceWaiting(g: Graph, seen: set<Op>, queued: set<Op>, active: set<Op>, ready: seq<Op>, current: Op)
    requires g.Valid() && DepsClosed(g, seen) && g.Has(current) && current !in seen
    requires AllWaiting(g, seen, queued, active, ready + [current], [])
    ensures AllWaiting(g, seen + {current}, queued, active, ready, g.Next(current))
  {
    hide Graph.Deps, Graph.Next, DepsClosed;
    var seen', todo := seen + {current}, g.Next(current);
    forall v: Op | v in active && v !in seen' && v !in ready && v !in todo
      ensures g.Has(v) && Waiting(g, seen', queued, active, v)
    {
      assert v !in ready + [current];
      assert Waiting(g, seen, queued, active, v);
      StillWaiting(g, seen, current, v);
    }
  }

  /** Only an operand definer or the direct parent can be the last thing an operation waits for. */
  lemma StillWaiting(g: Graph, seen: set<Op>, current: Op, v: Op)
    requires g.Valid() && DepsClosed(g, seen) && g.Has(v) && g.Has(current) && current !in seen
    requires v !in g.Next(current) && Unseen(g, seen, v) != {}
    ensures Unseen(g, seen + {current}, v) != {}
  {
    if current in g.Deps(v) {
      assert current in g.ancestors[v] && g.ancestors[v][0] != current;
      var p := g.ancestors[v][0];
      assert p in g.ancestors[v] && p in g.Deps(v);
      assert current in g.ancestors[v][1..];
      assert current in g.Deps(p);
      assert p !in seen;
    }
  }

  /** Once the work list is empty nothing waits: a waiting operation waits for another one of lower rank. */
  lemma {:induction false} NothingWaits(g: Graph, seen: set<Op>, active: set<Op>, rank: seq<nat>, u: Op)
    requires g.Valid() && g.IsRank(rank) && g.Has(u) && u in active && u !in seen
    requires forall v: Op :: v in active && v !in seen ==> g.Has(v) && Waiting(g, seen, {}, active, v)
    ensures false
    decreases rank[u]
  {
    var d :| d in Unseen(g, seen, u);
    NothingWaits(g, seen, active, rank, d);
  }

  /** An operation that depends on a member of a NextClosed set is a member. */
  lemma {:induction false} DependentsInside(g: Graph, s: set<Op>, rank: seq<nat>, u: Op, d: Op)
    requires g.Valid() && g.IsRank(rank) && NextClosed(g, s) && g.Has(u) && d in g.Deps(u) && d in s
    ensures u in s
    decreases rank[u]
  {
    if d in g.operands[u] {
      assert u in g.users[d] && u in g.Next(d);
    } else {
      var p := g.ancestors[u][0];
      assert p in g.ancestors[u] && p in g.Deps(u);
      if p != d {
        assert d in g.ancestors[u][1..] && d in g.Deps(p);
        DependentsInside(g, s, rank, p, d);
      }
      assert u in g.children[p] && u in g.Next(p);
    }
  }

  // ---------------------------------------------------------------- termination of a search

  /** The weights of the members of s below n: a power of the number of operations for each, by rank. */
  ghost function Weight(s: set<Op>, rank: seq<nat>, b: nat, n: nat): nat
    requires n <= |rank|
  {
    if n == 0 then 0 else Weight(s, rank, b, n - 1) + (if n - 1 in s then Pow(b, rank[n - 1]) else 0)
  }

  lemma {:induction false} WeightRemove(s: set<Op>, rank: seq<nat>, b: nat, n: nat, u: Op)
    requires n <= |rank| && u < n && u in s
    ensures Weight(s, rank, b, n) == Weight(s - {u}, rank, b, n) + Pow(b, rank[u])
  {
    if u == n - 1 {
      WeightAgree(s, s - {u}, rank, b, n - 1);
    } else {
      WeightRemove(s, rank, b, n - 1, u);
    }
  }

  lemma {:induction false} WeightAgree(s: set<Op>, t: set<Op>, rank: seq<nat>, b: nat, n: nat)
    requires n <= |rank| && forall k: Op :: k < n ==> (k in s <==> k in t)
    ensures Weight(s, rank, b, n) == Weight(t, rank, b, n)
  {
    if n > 0 {
      WeightAgree(s, t, rank, b, n - 1);
    }
  }

  lemma {:induction false} WeightUnion(s: set<Op>, t: set<Op>, rank: seq<nat>, b: nat, n: nat)
    requires n <= |rank|
    ensures Weight(s + t, rank, b, n) <= Weight(s, rank, b, n) + Weight(t, rank, b, n)
  {
    if n > 0 {
      WeightUnion(s, t, rank, b, n - 1);
    }
  }

  /** Members of rank at most r weigh no more than n times the weight of that rank. */
  lemma {:induction false} WeightBound(s: set<Op>, rank: seq<nat>, b: nat, n: nat, r: nat)
    requires n <= |rank| && b > 0 && forall k: Op :: k in s && k < n ==> rank[k] <= r
    ensures Weight(s, rank, b, n) <= n * Pow(b, r)
  {
    if n > 0 {
      WeightBound(s, rank, b, n - 1, r);
      if n - 1 in s {
        PowMonotone(b, rank[n - 1], r);
      }
      assert n * Pow(b, r) == (n - 1) * Pow(b, r) + Pow(b, r);
    }
  }

  lemma UnseenRanks(g: Graph, seen: set<Op>, rank: seq<nat>, u: Op)
    requires g.Valid() && g.IsRank(rank) && g.Has(u)
    ensures forall x: Op :: x in Unseen(g, seen, u) ==> x < |rank| && rank[x] < rank[u]
  {
    forall x: Op | x in Unseen(g, seen, u)
      ensures x < |rank| && rank[x] < rank[u]
    {
      assert g.Has(u) && x in g.Deps(u) && g.Has(x);
    }
  }

  /** Replacing a queued operation by what it waits for makes the queue lighter. */
  lemma QueueGetsLighter(g: Graph, seen: set<Op>, queued: set<Op>, rank: seq<nat>, u: Op)
    requires g.Valid() && g.IsRank(rank) && g.Has(u) && u in queued
    ensures var n := |g.operands|;
      Weight(queued - {u} + Unseen(g, seen, u), rank, n + 1, n) < Weight(queued, rank, n + 1, n)
  {
    UnseenRanks(g, seen, rank, u);
    RankLength(g, rank);
    LighterQueue(queued, Unseen(g, seen, u), rank, |g.operands|, u);
  }

  lemma LighterQueue(queued: set<Op>, d: set<Op>, rank: seq<nat>, n: nat, u: Op)
    requires u < n <= |rank| && u in queued && forall x: Op :: x in d ==> x < |rank| && rank[x] < rank[u]
    ensures Weight(queued - {u} + d, rank, n + 1, n) < Weight(queued, rank, n + 1, n)
  {
    hide Weight, Pow;
    WeightRemove(queued, rank, n + 1, n, u);
    WeightUnion(queued - {u}, d, rank, n + 1, n);
    LowerIsLighter(d, rank, n, rank[u]);
  }

  lemma LowerIsLighter(d: set<Op>, rank: seq<nat>, n: nat, r: nat)
    requires n <= |rank| && forall x: Op :: x in d ==> x < |rank| && rank[x] < r
    ensures Weight(d, rank, n + 1, n) < Pow(n + 1, r)
  {
    hide Weight;
    if r == 0 {
      assert d == {};
      WeightNothing(rank, n + 1, n);
    } else {
      WeightBound(d, rank, n + 1, n, r - 1);
      assert (n + 1) * Pow(n + 1, r - 1) == n * Pow(n + 1, r - 1) + Pow(n + 1, r - 1);
    }
  }

  lemma {:induction false} WeightNothing(rank: seq<nat>, b: nat, n: nat)
    requires n <= |rank|
    ensures Weight({}, rank, b, n) == 0
  {
    if n > 0 {
      WeightNothing(rank, b, n - 1);
    }
  }

  // ---------------------------------------------------------------- orders

  function Reverse(s: seq<Op>): seq<Op> {
    if s == [] then [] else [s[|s| - 1]] + Reverse(s[..|s| - 1])
  }

  /** The members of toSort, in order. */
  function Keep(s: seq<Op>, toSort: seq<Op>): seq<Op> {
    if s == [] then [] else Keep(s[..|s| - 1], toSort) + (if s[|s| - 1] in toSort then [s[|s| - 1]] else [])
  }

  /** Every operation comes after all it depends on, which is all in the list. */
  ghost predicate Complete(g: Graph, s: seq<Op>)
    requires g.Valid()
  {
    forall i, d :: 0 <= i < |s| && g.Has(s[i]) && d in g.Deps(s[i]) ==> d in s[..i]
  }

  /** A chain of dependencies from u to d, through any operations. */
  ghost predicate IsChain(g: Graph, chain: seq<Op>, u: Op, d: Op)
    requires g.Valid()
  {
    && |chain| >= 2 && chain[0] == u && chain[|chain| - 1] == d
    && forall k :: 0 <= k < |chain| - 1 ==> g.Has(chain[k]) && chain[k + 1] in g.Deps(chain[k])
  }

  /** u depends on d, directly or through other operations. */
  ghost predicate DependsOn(g: Graph, u: Op, d: Op)
    requires g.Valid()
  {
    exists chain :: IsChain(g, chain, u, d)
  }

  /** Every operation comes after all of toSort that it depends on. */
  ghost predicate Sorted(g: Graph, s: seq<Op>, toSort: seq<Op>)
    requires g.Valid()
  {
    forall i, d :: 0 <= i < |s| && d in toSort && DependsOn(g, s[i], d) ==> d in s[..i]
  }

  lemma ChainTail(g: Graph, chain: seq<Op>, u: Op, d: Op)
    requires g.Valid() && IsChain(g, chain, u, d)
    ensures g.Has(u) && |chain| >= 2 && chain[1] in g.Deps(u)
    ensures if |chain| == 2 then d == chain[1] else IsChain(g, chain[1..], chain[1], d)
  {
    hide Graph.Deps;
    var rest := chain[1..];
    forall k | 0 <= k < |rest| - 1
      ensures g.Has(rest[k]) && rest[k + 1] in g.Deps(rest[k])
    {
      assert rest[k] == chain[k + 1];
    }
    assert g.Has(chain[0]) && chain[0 + 1] in g.Deps(chain[0]);
  }

  /** In a complete order chains only lead back. */
  lemma {:induction false} ChainsLeadBack(g: Graph, s: seq<Op>, i: nat, chain: seq<Op>, d: Op)
    requires g.Valid() && Complete(g, s) && i < |s| && IsChain(g, chain, s[i], d)
    ensures d in s[..i]
    decreases |chain|
  {
    hide IsChain, Graph.Deps;
    ChainTail(g, chain, s[i], d);
    assert chain[1] in s[..i];
    if |chain| > 2 {
      var j :| 0 <= j < i && s[j] == chain[1];
      ChainsLeadBack(g, s, j, chain[1..], d);
      assert s[..j] <= s[..i];
    }
  }

  lemma {:induction false} KeepMembers(s: seq<Op>, toSort: seq<Op>)
    ensures forall u :: u in Keep(s, toSort) <==> u in s && u in toSort
    ensures NoDup(s) ==> NoDup(Keep(s, toSort))
  {
    if s != [] {
      var n := |s| - 1;
      KeepMembers(s[..n], toSort);
      assert s == s[..n] + [s[n]];
      if NoDup(s) {
        assert s[n] !in s[..n];
      }
    }
  }

  lemma KeepSorted(g: Graph, s: seq<Op>, toSort: seq<Op>)
    requires g.Valid() && Complete(g, s)
    ensures Sorted(g, Keep(s, toSort), toSort)
  {
    hide Complete, IsChain, Graph.Valid, Keep;
    forall i, d | 0 <= i < |s| && DependsOn(g, s[i], d)
      ensures d in s[..i]
    {
      var chain :| IsChain(g, chain, s[i], d);
      ChainsLeadBack(g, s, i, chain, d);
    }
    KeepPrefixSorted(g, s, toSort, |s|);
    assert s[..|s|] == s;
  }

  lemma {:induction false} KeepPrefixSorted(g: Graph, s: seq<Op>, toSort: seq<Op>, n: nat)
    requires g.Valid() && n <= |s| && forall i, d :: 0 <= i < |s| && DependsOn(g, s[i], d) ==> d in s[..i]
    ensures Sorted(g, Keep(s[..n], toSort), toSort)
  {
    hide DependsOn, Graph.Valid;
    if n > 0 {
      KeepPrefixSorted(g, s, toSort, n - 1);
      assert s[..n][..n - 1] == s[..n - 1];
      KeepMembers(s[..n - 1], toSort);
      var k := Keep(s[..n - 1], toSort);
      var r := Keep(s[..n], toSort);
      forall i, d | 0 <= i < |r| && d in toSort && DependsOn(g, r[i], d)
        ensures d in r[..i]
      {
        assert r[..i] == if i < |k| then k[..i] else k;
      }
    }
  }

  lemma {:induction false} KeepConcat(a: seq<Op>, b: seq<Op>, toSort: seq<Op>)
    ensures Keep(a + b, toSort) == Keep(a, toSort) + Keep(b, toSort)
  {
    if b == [] {
      assert a + b == a;
    } else {
      assert (a + b)[..|a + b| - 1] == a + b[..|b| - 1];
      KeepConcat(a, b[..|b| - 1], toSort);
    }
  }

  lemma KeepNone(toSort: seq<Op>)
    ensures Keep([], toSort) == []
  {
  }

  lemma KeepOne(u: Op, toSort: seq<Op>)
    ensures Keep([u], toSort) == if u in toSort then [u] else []
  {
  }

  lemma ReverseAppend(s: seq<Op>, u: Op)
    ensures Reverse(s + [u]) == [u] + Reverse(s)
  {
  }

  /** The order built so far: the placed operations of toSort, sorted. */
  ghost predicate Placed(g: Graph, r: seq<Op>, seen: set<Op>, toSort: seq<Op>)
    requires g.Valid()
  {
    NoDup(r) && Sorted(g, r, toSort) && forall u :: u in r <==> u in seen && u in toSort
  }

  /** A complete run of newly placed operations goes in front. */
  lemma PlaceInFront(g: Graph, ops: seq<Op>, r: seq<Op>, seen: set<Op>, seen': set<Op>, toSort: seq<Op>)
    requires g.Valid() && Placed(g, r, seen, toSort) && NoDup(ops) && Complete(g, ops)
    requires seen <= seen' && forall u :: u in ops <==> u in seen' && u !in seen
    ensures Placed(g, Keep(ops, toSort) + r, seen', toSort)
  {
    hide Complete, Keep, Sorted, Graph.Valid;
    KeepMembers(ops, toSort);
    KeepSorted(g, ops, toSort);
    SortedConcat(g, Keep(ops, toSort), r, toSort);
    NoDupConcat(Keep(ops, toSort), r);
  }

  lemma SortedConcat(g: Graph, k: seq<Op>, r: seq<Op>, toSort: seq<Op>)
    requires g.Valid() && Sorted(g, k, toSort) && Sorted(g, r, toSort)
    ensures Sorted(g, k + r, toSort)
  {
    hide DependsOn;
    var r' := k + r;
    forall i, d | 0 <= i < |r'| && d in toSort && DependsOn(g, r'[i], d)
      ensures d in r'[..i]
    {
      if i < |k| {
        assert r'[..i] == k[..i];
      } else {
        assert r'[..i] == k + r[..i - |k|];
      }
    }
  }

  lemma NoDupConcat(k: seq<Op>, r: seq<Op>)
    requires NoDup(k) && NoDup(r) && forall u :: u in k ==> u !in r
    ensures NoDup(k + r)
  {
    forall i, j | 0 <= i < j < |k + r|
      ensures (k + r)[i] != (k + r)[j]
    {
      if i < |k| && j >= |k| {
        assert k[i] in k && r[j - |k|] in r;
      }
    }
  }

  // ---------------------------------------------------------------- the search

  /** What a search has placed: `ops`, in order, on top of seen0. */
  ghost predicate Placing(g: Graph, seen0: set<Op>, seen: set<Op>, ops: seq<Op>)
    requires g.Valid()
  {
    && NoDup(ops) && seen0 <= seen && (forall u :: u in ops <==> u in seen && u !in seen0)
    && forall i, d :: 0 <= i < |ops| && g.Has(ops[i]) && d in g.Deps(ops[i]) ==> d in seen0 || d in ops[..i]
  }

  lemma PlaceNext(g: Graph, seen0: set<Op>, seen: set<Op>, ops: seq<Op>, u: Op)
    requires g.Valid() && Placing(g, seen0, seen, ops) && g.Has(u) && u !in seen && Unseen(g, seen, u) == {}
    ensures Placing(g, seen0, seen + {u}, ops + [u])
  {
    var ops' := ops + [u];
    forall i, d | 0 <= i < |ops'| && g.Has(ops'[i]) && d in g.Deps(ops'[i])
      ensures d in seen0 || d in ops'[..i]
    {
      assert ops'[..i] == ops[..i];
      if i == |ops| {
        assert d in g.Deps(u) - seen || d in seen;
        assert ops[..i] == ops;
      }
    }
  }

  /** Once seen0 contains all that follows from it, what a search places depends on nothing in seen0. */
  lemma PlacingIsComplete(g: Graph, seen0: set<Op>, seen: set<Op>, ops: seq<Op>, rank: seq<nat>)
    requires g.Valid() && g.IsRank(rank) && Placing(g, seen0, seen, ops) && NextClosed(g, seen0)
    ensures Complete(g, ops)
  {
    forall i, d | 0 <= i < |ops| && g.Has(ops[i]) && d in g.Deps(ops[i])
      ensures d in ops[..i]
    {
      assert ops[i] in ops;
      if d in seen0 {
        DependentsInside(g, seen0, rank, ops[i], d);
      }
    }
  }

  lemma PlacingOn(g: Graph, seen0: set<Op>, seen: set<Op>, ops: seq<Op>)
    requires g.Valid() && Placing(g, seen0, seen, ops)
    ensures NoDup(ops) && seen0 <= seen && forall u :: u in ops <==> u in seen && u !in seen0
  {
  }

  class DfsState {
    const toSort: seq<Op>
    var topologicalCounts: seq<Op>
    var seen: set<Op>

    constructor (toSort: seq<Op>)
      ensures this.toSort == toSort && topologicalCounts == [] && seen == {}
    {
      this.toSort, topologicalCounts, seen := toSort, [], {};
    }

    /** Queues the operations of a list that are not seen; tells whether there are none. */
    method PushUnseen(list: seq<Op>, subGraph: DfsSubgraphState) returns (allSeen: bool)
      requires subGraph.Valid()
      modifies subGraph
      ensures subGraph.Valid() && subGraph.members == old(subGraph.members) + ((set d | d in list) - seen)
      ensures allSeen <==> (set d | d in list) - seen == {}
    {
      allSeen := true;
      ghost var pushed: set<Op> := {};
      for k := 0 to |list|
        invariant subGraph.Valid() && subGraph.members == old(subGraph.members) + pushed && allSeen == (pushed == {})
        invariant forall d :: d in pushed <==> d in list[..k] && d !in seen
      {
        if list[k] !in seen {
          var _ := subGraph.PushBack(list[k]);
          allSeen := false;
          pushed := pushed + {list[k]};
        }
      }
      assert pushed == (set d | d in list) - seen;
    }

    /** Makes op ready if all its operands and enclosing operations are seen; otherwise queues those that are not. */
    method AddToReadyQueue(g: Graph, op: Op, subGraph: DfsSubgraphState, readyQueue: seq<Op>) returns (r: seq<Op>)
      requires g.Valid() && g.Has(op) && subGraph.Valid()
      modifies subGraph
      ensures subGraph.Valid() && subGraph.members == old(subGraph.members) + Unseen(g, seen, op)
      ensures r == if Unseen(g, seen, op) == {} then readyQueue + [op] else readyQueue
    {
      var operandsSeen := PushUnseen(g.operands[op], subGraph);
      var ancestorsSeen := PushUnseen(g.ancestors[op], subGraph);
      assert Unseen(g, seen, op) == ((set d | d in g.operands[op]) - seen) + ((set d | d in g.ancestors[op]) - seen);
      r := if operandsSeen && ancestorsSeen then readyQueue + [op] else readyQueue;
    }

    /** Looks at every operation of a list. */
    method LookAtAll(g: Graph, list: seq<Op>, subGraph: DfsSubgraphState, readyQueue: seq<Op>, ghost active0: set<Op>,
                     ghost current: Op)
      returns (r: seq<Op>, ghost active: set<Op>)
      requires g.Valid() && subGraph.Valid() && forall u :: u in list ==> g.Has(u)
      requires Searching(g, seen, subGraph.members, active0, readyQueue, current, list)
      modifies subGraph
      ensures subGraph.Valid() && Searching(g, seen, subGraph.members, active, r, current, []) && active0 <= active
      ensures old(subGraph.members) <= subGraph.members
    {
      hide Searching, Unseen, Graph.Valid;
      r, active := readyQueue, active0;
      assert list[0..] == list;
      for k := 0 to |list|
        invariant subGraph.Valid() && Searching(g, seen, subGraph.members, active, r, current, list[k..])
          && active0 <= active
        invariant old(subGraph.members) <= subGraph.members
      {
        assert list[k..] == [list[k]] + list[k + 1..];
        LookAt(g, seen, subGraph.members, active, r, current, list[k], list[k + 1..]);
        r := AddToReadyQueue(g, list[k], subGraph, r);
        active := active + {list[k]};
      }
    }

    /** Records what a search placed, last first. */
    method RecordOps(g: Graph, ops: seq<Op>, ghost seen0: set<Op>)
      requires g.Valid() && Placing(g, seen0, seen, ops) && Complete(g, ops)
      requires Placed(g, Reverse(topologicalCounts), seen0, toSort)
      modifies this`topologicalCounts
      ensures Placed(g, Reverse(topologicalCounts), seen, toSort)
    {
      hide Placed, Complete, Graph.Valid, Reverse, Keep, Placing;
      PlacingOn(g, seen0, seen, ops);
      KeepNone(toSort);
      var i := |ops|;
      assert ops[|ops|..] == [];
      while i > 0
        invariant 0 <= i <= |ops|
        invariant Reverse(topologicalCounts) == Keep(ops[i..], toSort) + Reverse(old(topologicalCounts))
      {
        i := i - 1;
        assert ops[i..] == [ops[i]] + ops[i + 1..];
        KeepConcat([ops[i]], ops[i + 1..], toSort);
        KeepOne(ops[i], toSort);
        if ops[i] in toSort {
          ReverseAppend(topologicalCounts, ops[i]);
          topologicalCounts := topologicalCounts + [ops[i]];
        }
      }
      assert ops[0..] == ops;
      PlaceInFront(g, ops, Reverse(old(topologicalCounts)), seen0, seen, toSort);
    }

    /** Places the ready operations, and those that become ready in turn. */
    method PlaceReady(g: Graph, subGraph: DfsSubgraphState, readyQueue: seq<Op>, ops0: seq<Op>,
                      ghost active0: set<Op>, ghost seen0: set<Op>)
      returns (ops: seq<Op>, ghost active: set<Op>)
      requires g.Valid() && subGraph.Valid()
      requires exists c :: Searching(g, seen, subGraph.members, active0, readyQueue, c, [])
      requires Placing(g, seen0, seen, ops0)
      modifies this`seen, subGraph
      ensures subGraph.Valid() && old(seen) <= seen && active0 <= active && Placing(g, seen0, seen, ops)
      ensures exists c :: Searching(g, seen, subGraph.members, active, [], c, [])
      ensures seen == old(seen) ==> subGraph.members == old(subGraph.members)
      ensures old(subGraph.members) <= subGraph.members
    {
      hide Searching, Placing, Graph.Valid, Graph.Next, Unseen;
      var ready := readyQueue;
      ops, active := ops0, active0;
      while ready != []
        invariant subGraph.Valid() && old(seen) <= seen && active0 <= active && Placing(g, seen0, seen, ops)
        invariant exists c :: Searching(g, seen, subGraph.members, active, ready, c, [])
        invariant seen == old(seen) ==> subGraph.members == old(subGraph.members)
        invariant old(subGraph.members) <= subGraph.members
        decreases Upto(|g.operands|) - seen, |ready|
      {
        var current := ready[|ready| - 1];
        ghost var ready0 := ready;
        ready := ready[..|ready| - 1];
        assert ready0 == ready + [current];
        ghost var c0 :| Searching(g, seen, subGraph.members, active, ready0, c0, []);
        if current in seen {
          DropReady(g, seen, subGraph.members, active, ready, c0, current);
          continue;
        }
        Place(g, seen, subGraph.members, active, ready, c0, current);
        PlaceNext(g, seen0, seen, ops, current);
        NextHas(g, current);
        seen := seen + {current};
        ops := ops + [current];
        ready, active := LookAtAll(g, g.Next(current), subGraph, ready, active, current);
      }
    }
  }

  // ---------------------------------------------------------------- all roots

  lemma StartSearch(g: Graph, seen0: set<Op>, root: Op)
    requires g.Valid() && g.Has(root) && DepsClosed(g, seen0) && NextClosed(g, seen0)
    requires forall u :: u in seen0 ==> g.Has(u)
    ensures exists c :: Searching(g, seen0, {root}, {}, [], c, [])
    ensures Placing(g, seen0, seen0, [])
  {
    assert Searching(g, seen0, {root}, {}, [], root, []);
  }

  lemma RankLength(g: Graph, rank: seq<nat>)
    requires g.Valid() && g.IsRank(rank)
    ensures |rank| == |g.operands|
  {
  }

  lemma QueuedHas(g: Graph, seen: set<Op>, queued: set<Op>, active: set<Op>, c: Op, u: Op)
    requires g.Valid() && Searching(g, seen, queued, active, [], c, []) && u in queued
    ensures g.Has(u)
  {
  }

  lemma FewerUnseen(g: Graph, seen: set<Op>, seen': set<Op>)
    requires seen <= seen' && forall u :: u in seen' ==> g.Has(u)
    ensures seen == seen' || Upto(|g.operands|) - seen' < Upto(|g.operands|) - seen
  {
  }

  lemma SeenHas(g: Graph, seen: set<Op>, queued: set<Op>, active: set<Op>)
    requires g.Valid() && exists c :: Searching(g, seen, queued, active, [], c, [])
    ensures forall u :: u in seen ==> g.Has(u)
  {
  }

  /** Looking at an operation taken from the work list. */
  lemma LookAtQueued(g: Graph, seen: set<Op>, queued: set<Op>, active: set<Op>, c: Op, u: Op)
    requires g.Valid() && g.Has(u) && Searching(g, seen, queued, active, [], c, []) && u in queued
    ensures Searching(g, seen, queued - {u} + Unseen(g, seen, u), active + {u},
                      if Unseen(g, seen, u) == {} then [u] else [], c, [])
  {
    hide Unseen, Graph.Deps, Graph.Next;
    assert Searching(g, seen, queued, active, [], c, [u] + []);
    LookAt(g, seen, queued, active, [], c, u, []);
    assert [] + [u] == [u];
    Requeue(g, seen, queued + Unseen(g, seen, u), queued - {u} + Unseen(g, seen, u), active + {u},
            if Unseen(g, seen, u) == {} then [u] else [], c);
  }

  /** What is waited for may leave the work list once it has been looked at. */
  lemma Requeue(g: Graph, seen: set<Op>, queued: set<Op>, queued': set<Op>, active: set<Op>, ready: seq<Op>, c: Op)
    requires g.Valid() && Searching(g, seen, queued, active, ready, c, []) && queued' <= queued <= queued' + active
    ensures Searching(g, seen, queued', active, ready, c, [])
  {
  }

  /** With the work list empty, everything looked at has been placed. */
  lemma SearchIsOver(g: Graph, seen: set<Op>, active: set<Op>, rank: seq<nat>, root: Op)
    requires g.Valid() && g.IsRank(rank) && exists c :: Searching(g, seen, {}, active, [], c, [])
    requires root in active
    ensures root in seen && DepsClosed(g, seen) && NextClosed(g, seen) && forall u :: u in seen ==> g.Has(u)
  {
    hide Unseen, Graph.Deps, Graph.Next, DepsClosed, Graph.IsRank, Waiting;
    forall u: Op | u in active
      ensures u in seen
    {
      if u !in seen {
        NothingWaits(g, seen, active, rank, u);
      }
    }
  }

  /** Searches from root; what it places, together with what was placed before, contains all that follows from it. */
  method DfsPostorder(g: Graph, root: Op, state: DfsState, ghost rank: seq<nat>)
    requires g.Valid() && g.IsRank(rank) && g.Has(root)
    requires DepsClosed(g, state.seen) && NextClosed(g, state.seen) && (forall u :: u in state.seen ==> g.Has(u))
    requires Placed(g, Reverse(state.topologicalCounts), state.seen, state.toSort)
    modifies state
    ensures old(state.seen) + {root} <= state.seen
    ensures DepsClosed(g, state.seen) && NextClosed(g, state.seen) && (forall u :: u in state.seen ==> g.Has(u))
    ensures Placed(g, Reverse(state.topologicalCounts), state.seen, state.toSort)
  {
    hide *;
    var n := |g.operands|;
    var subGraph := new DfsSubgraphState();
    var _ := subGraph.PushBack(root);
    ghost var seen0, active: set<Op> := state.seen, {};
    var ops: seq<Op> := [];
    StartSearch(g, seen0, root);
    RankLength(g, rank);
    assert subGraph.members == {root};
    while !subGraph.Empty()
      invariant subGraph.Valid() && fresh(subGraph)
      invariant seen0 <= state.seen && Placing(g, seen0, state.seen, ops)
      invariant state.topologicalCounts == old(state.topologicalCounts)
      invariant exists c :: Searching(g, state.seen, subGraph.members, active, [], c, [])
      invariant root in subGraph.members || root in active
      invariant forall u :: u in state.seen ==> g.Has(u)
      decreases Upto(n) - state.seen, Weight(subGraph.members, rank, n + 1, n)
    {
      ghost var c :| Searching(g, state.seen, subGraph.members, active, [], c, []);
      ghost var queued, seen1 := subGraph.members, state.seen;
      var current := subGraph.PopFront();
      QueuedHas(g, state.seen, queued, active, c, current);
      QueueGetsLighter(g, state.seen, queued, rank, current);
      var readyQueue := state.AddToReadyQueue(g, current, subGraph, []);
      LookAtQueued(g, state.seen, queued, active, c, current);
      assert [] + [current] == [current];
      active := active + {current};
      ops, active := state.PlaceReady(g, subGraph, readyQueue, ops, active, seen0);
      SeenHas(g, state.seen, subGraph.members, active);
      FewerUnseen(g, seen1, state.seen);
    }
    SearchIsOver(g, state.seen, active, rank, root);
    PlacingIsComplete(g, seen0, state.seen, ops, rank);
    state.RecordOps(g, ops, seen0);
  }

  /** The operations of toSort, each after all of toSort that it depends on, directly or through any operations. */
  method MultiRootTopologicalSort(g: Graph, toSort: seq<Op>) returns (res: seq<Op>)
    requires g.Valid() && g.Acyclic() && NoDup(toSort) && forall u :: u in toSort ==> g.Has(u)
    ensures NoDup(res) && (forall u :: u in res <==> u in toSort) && Sorted(g, res, toSort)
  {
    hide Graph.Valid, Graph.IsRank, DepsClosed, NextClosed, Placed, Sorted, Reverse;
    if toSort == [] {
      NothingToSort(g);
      return toSort;
    }
    ghost var rank :| g.IsRank(rank);
    var state := new DfsState(toSort);
    NothingPlaced(g, toSort);
    for k := 0 to |toSort|
      invariant fresh(state) && state.toSort == toSort
      invariant DepsClosed(g, state.seen) && NextClosed(g, state.seen) && (forall u :: u in state.seen ==> g.Has(u))
      invariant Placed(g, Reverse(state.topologicalCounts), state.seen, toSort)
      invariant forall i :: 0 <= i < k ==> toSort[i] in state.seen
    {
      DfsPostorder(g, toSort[k], state, rank);
    }
    PlacedIsAll(g, Reverse(state.topologicalCounts), state.seen, toSort);
    res := Reordered(state.topologicalCounts);
  }

  /** Inserts the counted operations into the result, last first. */
  method Reordered(counts: seq<Op>) returns (res: seq<Op>)
    requires NoDup(Reverse(counts))
    ensures res == Reverse(counts)
  {
    hide Reverse;
    res := [];
    var i := |counts|;
    assert counts[..|counts|] == counts;
    while i > 0
      invariant 0 <= i <= |counts|
      invariant Reverse(counts) == res + Reverse(counts[..i])
    {
      i := i - 1;
      ReverseLast(counts, i);
      assert Reverse(counts)[|res|] == counts[i];
      NotYetIn(Reverse(counts), |res|);
      assert Reverse(counts)[..|res|] == res;
      if counts[i] !in res {
        res := res + [counts[i]];
      }
    }
    NothingLeft(counts);
    assert res == res + [];
  }

  lemma NothingToSort(g: Graph)
    requires g.Valid()
    ensures Sorted(g, [], [])
  {
  }

  lemma NothingPlaced(g: Graph, toSort: seq<Op>)
    requires g.Valid()
    ensures DepsClosed(g, {}) && NextClosed(g, {}) && Placed(g, Reverse([]), {}, toSort)
  {
  }

  lemma PlacedIsAll(g: Graph, r: seq<Op>, seen: set<Op>, toSort: seq<Op>)
    requires g.Valid() && Placed(g, r, seen, toSort) && forall u :: u in toSort ==> u in seen
    ensures NoDup(r) && Sorted(g, r, toSort) && forall u :: u in r <==> u in toSort
  {
  }

  lemma ReverseLast(s: seq<Op>, i: nat)
    requires i < |s|
    ensures Reverse(s[..i + 1]) == [s[i]] + Reverse(s[..i])
  {
    assert s[..i + 1][..i] == s[..i];
  }

  lemma NotYetIn(r: seq<Op>, k: nat)
    requires NoDup(r) && k < |r|
    ensures r[k] !in r[..k]
  {
  }

  lemma NothingLeft(s: seq<Op>)
    ensures Reverse(s[..0]) == []
  {
  }

  lemma NextHas(g: Graph, u: Op)
    requires g.Valid() && g.Has(u)
    ensures |g.users| == |g.children| == |g.operands|
    ensures forall v :: v in g.Next(u) ==> g.Has(v)
  {
  }

  lemma DropReady(g: Graph, seen: set<Op>, queued: set<Op>, active: set<Op>, ready: seq<Op>, c: Op, current: Op)
    requires g.Valid() && Searching(g, seen, queued, active, ready + [current], c, []) && current in seen
    ensures Searching(g, seen, queued, active, ready, c, [])
  {
  }
}
