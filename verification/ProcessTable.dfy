/** Finding the live descendants of the runner in one `ps` table. */
module ProcessTable {
  type Pid = int

  datatype Row = Row(pid: Pid, ppid: Pid, zombie: bool, isPs: bool)

  /** `trail` follows child-of links of the table from `root` to `pid`. */
  ghost predicate Trail(rows: seq<Row>, root: Pid, trail: seq<Pid>, pid: Pid) {
    |trail| > 0 && trail[0] == root && trail[|trail| - 1] == pid
    && forall i :: 0 < i < |trail| ==> ChildOf(rows, trail[i], trail[i - 1])
  }

  ghost predicate ChildOf(rows: seq<Row>, child: Pid, parent: Pid) {
    exists r :: r in rows && r.pid == child && r.ppid == parent
  }

  ghost predicate Reachable(rows: seq<Row>, root: Pid, pid: Pid) {
    exists trail :: Trail(rows, root, trail, pid)
  }

  ghost predicate Closed(rows: seq<Row>, owned: set<Pid>) {
    forall r :: r in rows && r.ppid in owned ==> r.pid in owned
  }

  function Pids(rows: seq<Row>): set<Pid> { set r | r in rows :: r.pid }

  /** The final filter: not the runner, owned, no zombie, and not the runner's own `ps`. */
  predicate Kept(row: Row, root: Pid, owned: set<Pid>) {
    row.pid != root && row.pid in owned && !row.zombie && !(row.ppid == root && row.isPs)
  }

  function Filter(rows: seq<Row>, root: Pid, owned: set<Pid>): seq<Row> {
    if rows == [] then []
    else (if Kept(rows[0], root, owned) then [rows[0]] else []) + Filter(rows[1..], root, owned)
  }

  lemma ReachableStep(rows: seq<Row>, root: Pid, row: Row)
    requires row in rows && Reachable(rows, root, row.ppid)
    ensures Reachable(rows, root, row.pid)
  {
    var trail :| Trail(rows, root, trail, row.ppid);
    assert ChildOf(rows, row.pid, row.ppid);
    assert Trail(rows, root, trail + [row.pid], row.pid);
  }

  lemma ReachableRoot(rows: seq<Row>, root: Pid)
    ensures Reachable(rows, root, root)
  {
    assert Trail(rows, root, [root], root);
  }

  /** Reachability is the least set that holds the root and is closed under "child of". */
  lemma {:induction false} TrailStaysInside(rows: seq<Row>, root: Pid, trail: seq<Pid>, pid: Pid, owned: set<Pid>)
    requires Trail(rows, root, trail, pid) && root in owned && Closed(rows, owned)
    ensures pid in owned
    decreases |trail|
  {
    if |trail| > 1 {
      var parent := trail[|trail| - 2];
      assert Trail(rows, root, trail[..|trail| - 1], parent);
      TrailStaysInside(rows, root, trail[..|trail| - 1], parent, owned);
      assert ChildOf(rows, pid, parent);
    }
  }

  lemma ReachableIsLeastClosed(rows: seq<Row>, root: Pid, owned: set<Pid>)
    requires root in owned && Closed(rows, owned)
    ensures forall p :: Reachable(rows, root, p) ==> p in owned
  {
    forall p | Reachable(rows, root, p) ensures p in owned {
      var trail :| Trail(rows, root, trail, p);
      TrailStaysInside(rows, root, trail, p, owned);
    }
  }

  /** The loop of `descendants`: it terminates on every table, cycles and any row order included, and
      owns exactly the pids reachable from the runner. */
  method Descendants(rows: seq<Row>, runner: Pid) returns (live: seq<Row>, owned: set<Pid>)
    ensures forall p :: p in owned <==> Reachable(rows, runner, p)
    ensures live == Filter(rows, runner, owned)
    ensures forall row :: row in live <==>
      row in rows && row.pid != runner && Reachable(rows, runner, row.pid)
      && !row.zombie && !(row.ppid == runner && row.isPs)
  {
    owned := {runner};
    ReachableRoot(rows, runner);
    var grew := true;
    while grew
      invariant runner in owned && owned <= Pids(rows) + {runner}
      invariant forall p :: p in owned ==> Reachable(rows, runner, p)
      invariant !grew ==> Closed(rows, owned)
      decreases (Pids(rows) + {runner}) - owned, grew
    {
      ghost var before := owned;
      var size := |owned|;
      for i := 0 to |rows|
        invariant before <= owned <= Pids(rows) + {runner}
        invariant forall p :: p in owned ==> Reachable(rows, runner, p)
        invariant forall k :: 0 <= k < i && rows[k].ppid in before ==> rows[k].pid in owned
      {
        if rows[i].ppid in owned {
          ReachableStep(rows, runner, rows[i]);
          owned := owned + {rows[i].pid};
        }
      }
      grew := |owned| > size;
      if !grew {
        SameSize(before, owned);
      } else {
        assert owned != before;
      }
    }
    ReachableIsLeastClosed(rows, runner, owned);
    live := Filter(rows, runner, owned);
    forall row ensures row in live <==> row in rows && Kept(row, runner, owned) {
      FilterExactly(rows, runner, owned, row);
    }
  }

  lemma SameSize(a: set<Pid>, b: set<Pid>)
    requires a <= b && |b| <= |a|
    ensures a == b
  {
    assert b == a + (b - a);
    assert |b| == |a| + |b - a|;
    assert b - a == {};
  }

  /** A row is reported exactly when its process is a live descendant other than the runner's `ps`. */
  lemma {:induction false} FilterExactly(rows: seq<Row>, root: Pid, owned: set<Pid>, row: Row)
    ensures row in Filter(rows, root, owned) <==> row in rows && Kept(row, root, owned)
  {
    if rows != [] {
      FilterExactly(rows[1..], root, owned, row);
      assert rows == [rows[0]] + rows[1..];
    }
  }

  lemma FilterFirst(row: Row, rest: seq<Row>, root: Pid, owned: set<Pid>)
    ensures Filter([row] + rest, root, owned)
         == (if Kept(row, root, owned) then [row] else []) + Filter(rest, root, owned)
  {
    assert ([row] + rest)[1..] == rest;
  }

  /** Rows keep the order of the table: those of its first part come before those of its second. */
  lemma {:induction false} FilterJoins(first: seq<Row>, second: seq<Row>, root: Pid, owned: set<Pid>)
    ensures Filter(first + second, root, owned) == Filter(first, root, owned) + Filter(second, root, owned)
  {
    if first == [] {
      assert first + second == second;
    } else {
      var row, rest := first[0], first[1..];
      FilterJoins(rest, second, root, owned);
      FilterFirst(row, rest, root, owned);
      FilterFirst(row, rest + second, root, owned);
      assert first == [row] + rest && first + second == [row] + (rest + second);
    }
  }
}
