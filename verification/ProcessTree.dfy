/**
  Sampling a process tree. A snapshot of the process table gives each process
  its parent; the sampler grows a set of selected processes from the root until
  a whole pass over the table adds nothing, and then adds up what it can observe
  of the selected processes. The snapshot is not atomic, so it may hold cycles,
  parents that are missing and processes that are gone by the time their status
  is read.
  */
module ProcessTree {

  datatype Status = Status(rssKib: int, threads: int)

  datatype Sample = Sample(rssKib: int, processCount: nat, threadCount: int)

  datatype Outcome = Sampled(sample: Sample) | RootPidInvalid

  /** `pid` arrives at `root` after following exactly `hops` parent links. */
  predicate Reaches(parents: map<int, int>, root: int, pid: int, hops: nat)
    decreases hops
  {
    if hops == 0 then pid == root
    else pid in parents && Reaches(parents, root, parents[pid], hops - 1)
  }

  ghost predicate Descends(parents: map<int, int>, root: int, pid: int) {
    exists hops: nat :: Reaches(parents, root, pid, hops)
  }

  /** The root together with every process whose parent chain arrives at it. */
  ghost function Tree(parents: map<int, int>, root: int): (tree: set<int>) {
    set pid | pid in parents.Keys + {root} && Descends(parents, root, pid)
  }

  lemma TreeIsExact(parents: map<int, int>, root: int, pid: int)
    ensures pid in Tree(parents, root) <==> Descends(parents, root, pid)
  {
    if hops: nat :| Reaches(parents, root, pid, hops) {
      assert pid == root || pid in parents;
    }
  }

  lemma RootDescends(parents: map<int, int>, root: int)
    ensures root in Tree(parents, root)
  {
    assert Reaches(parents, root, root, 0);
  }

  lemma ChildDescends(parents: map<int, int>, root: int, pid: int)
    requires pid in parents && parents[pid] in Tree(parents, root)
    ensures pid in Tree(parents, root)
  {
    var hops: nat :| Reaches(parents, root, parents[pid], hops);
    assert Reaches(parents, root, pid, hops + 1);
  }

  ghost predicate Closed(parents: map<int, int>, selected: set<int>) {
    forall pid :: pid in parents ==> Settled(parents, selected, pid)
  }

  lemma {:induction false} ClosedHoldsChains(parents: map<int, int>, root: int, selected: set<int>, pid: int, hops: nat)
    requires root in selected && Closed(parents, selected)
    requires Reaches(parents, root, pid, hops)
    ensures pid in selected
    decreases hops
  {
    if hops > 0 {
      ClosedHoldsChains(parents, root, selected, parents[pid], hops - 1);
    }
  }

  /**
    The tree is the least set that holds the root and is closed under children.
    Nothing is asked of the parent map: cycles away from the root stay out.
    */
  lemma TreeIsLeastClosed(parents: map<int, int>, root: int)
    ensures root in Tree(parents, root) && Closed(parents, Tree(parents, root))
    ensures forall selected :: root in selected && Closed(parents, selected) ==> Tree(parents, root) <= selected
  {
    RootDescends(parents, root);
    forall pid | pid in parents && parents[pid] in Tree(parents, root) ensures pid in Tree(parents, root) {
      ChildDescends(parents, root, pid);
    }
    forall selected, pid |
      root in selected && Closed(parents, selected) && pid in Tree(parents, root)
      ensures pid in selected
    {
      var hops: nat :| Reaches(parents, root, pid, hops);
      ClosedHoldsChains(parents, root, selected, pid, hops);
    }
  }

  /** A process on a parent cycle that avoids the root is never counted. */
  lemma {:induction false} CycleNeverArrives(
      parents: map<int, int>, root: int, cycle: set<int>, pid: int, hops: nat)
    requires root !in cycle && pid in cycle
    requires forall p :: p in cycle ==> p in parents && parents[p] in cycle
    ensures !Reaches(parents, root, pid, hops)
    decreases hops
  {
    if hops > 0 {
      CycleNeverArrives(parents, root, cycle, parents[pid], hops - 1);
    }
  }

  function Plus(total: Sample, pid: int, statuses: map<int, Status>): Sample {
    if pid in statuses then
      Sample(total.rssKib + statuses[pid].rssKib, total.processCount + 1, total.threadCount + statuses[pid].threads)
    else total
  }

  /** A single process counts with its own memory and its own threads. */
  lemma TotalOfOne(pid: int, statuses: map<int, Status>)
    ensures Total({}, statuses) == Sample(0, 0, 0)
    ensures pid in statuses ==> Total({pid}, statuses) == Sample(statuses[pid].rssKib, 1, statuses[pid].threads)
    ensures pid !in statuses ==> Total({pid}, statuses) == Sample(0, 0, 0)
  {
    TotalInAnyOrder({pid}, pid, statuses);
    assert {pid} - {pid} == {};
  }

  lemma SomeMember(pids: set<int>)
    ensures pids == {} || exists pid :: pid in pids
  {
    assert (forall pid :: pid !in pids) ==> pids == {};
  }

  /** What is observed of a set of processes, visiting it in some order. */
  ghost function Total(pids: set<int>, statuses: map<int, Status>): Sample {
    if pids == {} then Sample(0, 0, 0)
    else
      SomeMember(pids);
      var pid :| pid in pids;
      Plus(Total(pids - {pid}, statuses), pid, statuses)
  }

  /** Any process may be the one added last: the visiting order does not matter. */
  lemma {:induction false} TotalInAnyOrder(pids: set<int>, pid: int, statuses: map<int, Status>)
    requires pid in pids
    ensures Total(pids, statuses) == Plus(Total(pids - {pid}, statuses), pid, statuses)
    decreases |pids|
  {
    SomeMember(pids);
    var last :| last in pids && Total(pids, statuses) == Plus(Total(pids - {last}, statuses), last, statuses);
    if last != pid {
      var rest := pids - {last, pid};
      assert pids - {last} - {pid} == rest && pids - {pid} - {last} == rest;
      TotalInAnyOrder(pids - {last}, pid, statuses);
      TotalInAnyOrder(pids - {pid}, last, statuses);
      assert Total(pids - {pid}, statuses) == Plus(Total(rest, statuses), last, statuses);
      assert Total(pids, statuses) == Plus(Plus(Total(rest, statuses), pid, statuses), last, statuses);
    }
  }

  function Sum(a: Sample, b: Sample): Sample {
    Sample(a.rssKib + b.rssKib, a.processCount + b.processCount, a.threadCount + b.threadCount)
  }

  lemma PlusMovesOut(a: Sample, b: Sample, pid: int, statuses: map<int, Status>)
    ensures Sum(Plus(a, pid, statuses), b) == Plus(Sum(a, b), pid, statuses)
  {}

  /** Totals are conserved when a tree is cut into two disjoint parts. */
  lemma {:induction false} TotalIsAdditive(a: set<int>, b: set<int>, statuses: map<int, Status>)
    requires a !! b
    ensures Total(a + b, statuses) == Sum(Total(a, statuses), Total(b, statuses))
    decreases |a|
  {
    if a == {} {
      assert a + b == b;
    } else {
      SomeMember(a);
      var pid :| pid in a;
      var rest := a - {pid};
      assert a + b - {pid} == rest + b;
      hide Total, Plus, Sum;
      TotalIsAdditive(rest, b, statuses);
      TotalInAnyOrder(a, pid, statuses);
      TotalInAnyOrder(a + b, pid, statuses);
      PlusMovesOut(Total(rest, statuses), Total(b, statuses), pid, statuses);
    }
  }

  /** The reported process count is the number of members that could be read. */
  lemma {:induction false} CountsTheObservable(pids: set<int>, statuses: map<int, Status>)
    ensures Total(pids, statuses).processCount == |pids * statuses.Keys|
    decreases |pids|
  {
    if pids != {} {
      SomeMember(pids);
      var pid :| pid in pids;
      TotalInAnyOrder(pids, pid, statuses);
      CountsTheObservable(pids - {pid}, statuses);
      if pid in statuses {
        assert pids * statuses.Keys == (pids - {pid}) * statuses.Keys + {pid};
      } else {
        assert pids * statuses.Keys == (pids - {pid}) * statuses.Keys;
      }
    }
  }

  /** A process that could not be read contributes nothing. */
  lemma {:induction false} UnreadableAddsNothing(pids: set<int>, statuses: map<int, Status>)
    ensures Total(pids, statuses) == Total(pids * statuses.Keys, statuses)
  {
    var seen, gone := pids * statuses.Keys, pids - statuses.Keys;
    assert pids == seen + gone;
    TotalIsAdditive(seen, gone, statuses);
    NothingReadable(gone, statuses);
  }

  lemma {:induction false} NothingReadable(pids: set<int>, statuses: map<int, Status>)
    requires pids !! statuses.Keys
    ensures Total(pids, statuses) == Sample(0, 0, 0)
    decreases |pids|
  {
    if pids != {} {
      SomeMember(pids);
      var pid :| pid in pids;
      TotalInAnyOrder(pids, pid, statuses);
      NothingReadable(pids - {pid}, statuses);
    }
  }

  /** The table's keys, listed once each in whatever order the table is walked. */
  ghost predicate Lists(order: seq<int>, parents: map<int, int>) {
    && (forall i, j :: 0 <= i < j < |order| ==> order[i] != order[j])
    && (forall pid :: pid in order <==> pid in parents)
  }

  predicate Settled(parents: map<int, int>, selected: set<int>, pid: int) {
    pid in parents && parents[pid] in selected ==> pid in selected
  }

  /** The selection loop, for any parent map and any walking order. */
  method SelectDescendants(rootPid: int, parents: map<int, int>, order: seq<int>) returns (selected: set<int>)
    requires Lists(order, parents)
    ensures selected == Tree(parents, rootPid)
    ensures forall pid :: pid in selected <==> Descends(parents, rootPid, pid)
  {
    RootDescends(parents, rootPid);
    selected := {rootPid};
    var changed := true;
    while changed
      invariant rootPid in selected && selected <= Tree(parents, rootPid)
      invariant changed || Closed(parents, selected)
      decreases Tree(parents, rootPid) - selected, changed
    {
      ghost var before := selected;
      changed := false;
      for i := 0 to |order|
        invariant rootPid in selected && before <= selected <= Tree(parents, rootPid)
        invariant if changed then before < selected else before == selected
        invariant !changed ==> forall j :: 0 <= j < i ==> Settled(parents, selected, order[j])
      {
        var pid := order[i];
        if parents[pid] in selected && pid !in selected {
          ChildDescends(parents, rootPid, pid);
          selected := selected + {pid};
          changed := true;
        }
      }
      if changed {
        assert Tree(parents, rootPid) - selected < Tree(parents, rootPid) - before;
      }
    }
    TreeIsLeastClosed(parents, rootPid);
    forall pid ensures pid in selected <==> Descends(parents, rootPid, pid) {
      TreeIsExact(parents, rootPid, pid);
    }
  }

  /** The totals loop: the selected set is visited in an arbitrary order. */
  method AddUp(selected: set<int>, statuses: map<int, Status>) returns (sample: Sample)
    ensures sample == Total(selected, statuses)
  {
    var rss, threads, observed := 0, 0, 0;
    var pending := selected;
    assert selected - pending == {};
    assert Total({}, statuses) == Sample(0, 0, 0);
    hide Total;
    while pending != {}
      invariant pending <= selected
      invariant Sample(rss, observed, threads) == Total(selected - pending, statuses)
      decreases pending
    {
      SomeMember(pending);
      var pid :| pid in pending;
      ghost var visited := selected - pending;
      assert visited + {pid} - {pid} == visited && selected - (pending - {pid}) == visited + {pid};
      TotalInAnyOrder(visited + {pid}, pid, statuses);
      pending := pending - {pid};
      if pid in statuses {
        observed := observed + 1;
        rss := rss + statuses[pid].rssKib;
        threads := threads + statuses[pid].threads;
      }
    }
    assert selected - pending == selected;
    sample := Sample(rss, observed, threads);
  }

  method SampleProcessTree(rootPid: int, parents: map<int, int>, order: seq<int>, statuses: map<int, Status>)
    returns (outcome: Outcome)
    requires Lists(order, parents)
    ensures rootPid < 1 <==> outcome == RootPidInvalid
    ensures rootPid >= 1 ==> outcome == Sampled(Total(Tree(parents, rootPid), statuses))
    ensures rootPid >= 1 ==> outcome.sample.processCount == |Tree(parents, rootPid) * statuses.Keys|
  {
    if rootPid < 1 {
      return RootPidInvalid;
    }
    var selected := SelectDescendants(rootPid, parents, order);
    var sample := AddUp(selected, statuses);
    CountsTheObservable(selected, statuses);
    return Sampled(sample);
  }
}
