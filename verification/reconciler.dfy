/** The reconciler: the diff of the current snapshot against the desired one,
    issued as Set, Del and Add writes on the kernel neighbor table.

    The kernel calls are not modelled; each issued write is appended to a log
    together with the outcome an oracle `succeeds` reports for it. */
module Reconciler {
  import opened Wrappers
  import opened Neighbor

  /** A neighbor-table write and the key it was issued for: `NeighSet`,
      `NeighDel` or `NeighAdd`. */
  datatype Op = Set(key: string, entry: Neigh) | Del(key: string, entry: Neigh) | Add(key: string, entry: Neigh)

  /** One issued write and whether the kernel accepted it. */
  datatype Attempt = Attempt(op: Op, ok: bool)

  /** The write a single key calls for, decided from the two snapshots alone:
      a MAC change updates in place with the desired entry, an equal MAC needs
      nothing, a key only in the current snapshot is stale, a key only in the
      desired one is missing. */
  function Planned(current: Snapshot, desired: Snapshot, k: string): (r: Option<Op>)
    ensures r.Some? ==> r.value.key == k
  {
    if k in current && k in desired then
      if desired[k].mac != current[k].mac then Some(Set(k, desired[k])) else None
    else if k in current then Some(Del(k, current[k]))
    else if k in desired then Some(Add(k, desired[k]))
    else None
  }

  /** The keys of both snapshots, split by what they call for. */
  datatype KeyPartition = KeyPartition(
    updates: set<string>, inSync: set<string>, stale: set<string>, missing: set<string>)

  /** The three-way (plus unchanged) classification of every key: the four
      classes are disjoint and together cover the union of both key sets. */
  function Partition(current: Snapshot, desired: Snapshot): (p: KeyPartition)
    ensures p.updates + p.inSync + p.stale + p.missing == current.Keys + desired.Keys
    ensures p.updates !! p.inSync && p.updates !! p.stale && p.updates !! p.missing
    ensures p.inSync !! p.stale && p.inSync !! p.missing && p.stale !! p.missing
  {
    KeyPartition(
      set k | k in current && k in desired && current[k].mac != desired[k].mac,
      set k | k in current && k in desired && current[k].mac == desired[k].mac,
      set k | k in current && k !in desired,
      set k | k in desired && k !in current)
  }

  /** The two snapshots agree on keys and on the MAC of every key. */
  predicate Converged(current: Snapshot, desired: Snapshot) {
    && current.Keys == desired.Keys
    && forall k :: k in current ==> current[k].mac == desired[k].mac
  }

  /** `log` carries exactly the planned writes: each attempt is the write its
      key calls for, no key is written twice, and every key that calls for a
      write gets one. */
  ghost predicate Reconciles(current: Snapshot, desired: Snapshot, log: seq<Attempt>) {
    && (forall i :: 0 <= i < |log| ==> Planned(current, desired, log[i].op.key) == Some(log[i].op))
    && (forall i, j :: 0 <= i < j < |log| ==> log[i].op.key != log[j].op.key)
    && (forall k :: Planned(current, desired, k).Some? ==> exists i :: 0 <= i < |log| && log[i].op.key == k)
  }

  /** Every Set and Del precedes every Add. */
  predicate PhasesInOrder(log: seq<Attempt>) {
    forall i, j :: 0 <= i < j < |log| && log[i].op.Add? ==> log[j].op.Add?
  }

  // Error aggregation

  /** An error value: none, or an earlier error wrapped around one more
      failed write. */
  datatype Error = NoError | Wrapped(cause: Error, failed: Op)

  /** The failed writes an error value reports, oldest first. */
  function Failures(e: Error): seq<Op> {
    match e
    case NoError => []
    case Wrapped(cause, op) => Failures(cause) + [op]
  }

  /** The failed writes of a log, in log order. */
  function FailedOps(log: seq<Attempt>): (r: seq<Op>)
    ensures |r| <= |log|
  {
    if log == [] then []
    else
      var a := log[|log| - 1];
      FailedOps(log[..|log| - 1]) + (if a.ok then [] else [a.op])
  }

  lemma {:induction false} NoFailedOpsIffAllOk(log: seq<Attempt>)
    ensures FailedOps(log) == [] <==> forall i :: 0 <= i < |log| ==> log[i].ok
  {
    if log != [] {
      var prefix := log[..|log| - 1];
      NoFailedOpsIffAllOk(prefix);
      assert forall i :: 0 <= i < |prefix| ==> prefix[i] == log[i];
    }
  }

  /** The error `updateARP` means to return: each failed write wraps the
      error so far, the first one wrapping nothing. */
  function Aggregate(log: seq<Attempt>): Error {
    if log == [] then NoError
    else
      var a := log[|log| - 1];
      var e0 := Aggregate(log[..|log| - 1]);
      if a.ok then e0 else Wrapped(e0, a.op)
  }

  /** The aggregated error reports every failed write, in log order. */
  lemma {:induction false} AggregateReportsFailures(log: seq<Attempt>)
    ensures Failures(Aggregate(log)) == FailedOps(log)
  {
    if log != [] {
      AggregateReportsFailures(log[..|log| - 1]);
    }
  }

  /** `errors.Wrap` as the code uses it: wrapping a nil error yields nil. */
  function WrapAsWritten(e: Error, op: Op): Error {
    if e.NoError? then NoError else Wrapped(e, op)
  }

  /** The error `updateARP` returns as written: it starts nil and is only
      ever passed through `WrapAsWritten`. */
  function AggregateAsWritten(log: seq<Attempt>): Error {
    if log == [] then NoError
    else
      var a := log[|log| - 1];
      var e0 := AggregateAsWritten(log[..|log| - 1]);
      if a.ok then e0 else WrapAsWritten(e0, a.op)
  }

  /** As written, the returned error is nil whatever fails. */
  lemma {:induction false} AsWrittenReportsNothing(log: seq<Attempt>)
    ensures AggregateAsWritten(log) == NoError
  {
    if log != [] {
      AsWrittenReportsNothing(log[..|log| - 1]);
    }
  }

  /** As written, a pass with a failed write still returns nil, while the
      aggregated error reports that failure. */
  lemma {:induction false} AsWrittenDropsFailures(log: seq<Attempt>)
    requires exists i :: 0 <= i < |log| && !log[i].ok
    ensures FailedOps(log) != []
    ensures Aggregate(log) != NoError
    ensures AggregateAsWritten(log) == NoError
  {
    NoFailedOpsIffAllOk(log);
    AggregateNilIffAllOk(log);
    AsWrittenReportsNothing(log);
  }

  /** The aggregated error is nil exactly when every write succeeded. */
  lemma {:induction false} AggregateNilIffAllOk(log: seq<Attempt>)
    ensures Aggregate(log) == NoError <==> forall i :: 0 <= i < |log| ==> log[i].ok
  {
    NoFailedOpsIffAllOk(log);
    AggregateReportsFailures(log);
    var e := Aggregate(log);
    if e != NoError {
      assert Failures(e) != [];
    }
  }

  // The reconciliation pass

  /** `log` carries exactly the planned writes for the keys in `keys`: every
      attempt is for one of them and is the write its key calls for, no key
      is written twice, and every key of `keys` that calls for a write has
      one. */
  ghost predicate CoversExactly(current: Snapshot, desired: Snapshot, keys: set<string>, log: seq<Attempt>) {
    && (forall i :: 0 <= i < |log| ==> log[i].op.key in keys)
    && (forall i :: 0 <= i < |log| ==> Planned(current, desired, log[i].op.key) == Some(log[i].op))
    && (forall i, j :: 0 <= i < j < |log| ==> log[i].op.key != log[j].op.key)
    && (forall k :: k in keys && Planned(current, desired, k).Some? ==>
          exists i :: 0 <= i < |log| && log[i].op.key == k)
  }

  /** Every attempt's outcome is the one the oracle reports for it. */
  predicate OutcomesFrom(log: seq<Attempt>, succeeds: Op -> bool) {
    forall i :: 0 <= i < |log| ==> log[i].ok == succeeds(log[i].op)
  }

  /** The attempts issuing a planned write, if any. */
  function Issued(planned: Option<Op>, succeeds: Op -> bool): (r: seq<Attempt>)
    ensures |r| <= 1
    ensures forall i :: 0 <= i < |r| ==> r[i].ok == succeeds(r[i].op)
  {
    match planned
    case None => []
    case Some(op) => [Attempt(op, succeeds(op))]
  }

  /** Handling one more key extends an exact cover by that key. */
  lemma CoversStep(current: Snapshot, desired: Snapshot, keys: set<string>, log: seq<Attempt>,
                   ip: string, succeeds: Op -> bool)
    requires CoversExactly(current, desired, keys, log)
    requires ip !in keys
    ensures CoversExactly(current, desired, keys + {ip}, log + Issued(Planned(current, desired, ip), succeeds))
  {
    var log' := log + Issued(Planned(current, desired, ip), succeeds);
    assert forall i :: 0 <= i < |log| ==> log'[i] == log[i];
    forall k | k in keys + {ip} && Planned(current, desired, k).Some?
      ensures exists i :: 0 <= i < |log'| && log'[i].op.key == k
    {
      if k == ip {
        assert log'[|log|].op.key == k;
      } else {
        var i :| 0 <= i < |log| && log[i].op.key == k;
        assert log'[i].op.key == k;
      }
    }
  }

  /** Issues one write: appends it with its outcome, and wraps a failure
      into the error. */
  method Issue(log0: seq<Attempt>, err0: Error, op: Op, succeeds: Op -> bool)
    returns (log: seq<Attempt>, err: Error)
    requires err0 == Aggregate(log0)
    ensures log == log0 + [Attempt(op, succeeds(op))]
    ensures err == Aggregate(log)
  {
    var ok := succeeds(op);
    log := log0 + [Attempt(op, ok)];
    assert log[..|log0|] == log0;
    err := if ok then err0 else Wrapped(err0, op);
  }

  /** One iteration of phase A, for a current key `ip` not yet visited: the
      desired working copy still holds `ip` exactly when the desired
      snapshot does. */
  method VisitCurrent(current: Snapshot, desired: Snapshot, ip: string, rest0: Snapshot,
                      log0: seq<Attempt>, err0: Error, succeeds: Op -> bool)
    returns (rest: Snapshot, log: seq<Attempt>, err: Error)
    requires ip in current
    requires ip in rest0 <==> ip in desired
    requires ip in rest0 ==> rest0[ip] == desired[ip]
    requires err0 == Aggregate(log0)
    ensures rest == rest0 - {ip}
    ensures log == log0 + Issued(Planned(current, desired, ip), succeeds)
    ensures err == Aggregate(log)
  {
    rest, log, err := rest0, log0, err0;
    var oe := current[ip];
    if ip in rest {
      var ne := rest[ip];
      if ne.mac != oe.mac {
        log, err := Issue(log, err, Set(ip, ne), succeeds);
      }
      rest := rest - {ip};
    } else {
      log, err := Issue(log, err, Del(ip, oe), succeeds);
    }
  }

  /** Phase A of `updateARP`: the current keys in an unspecified order (Go's
      map order). A key also desired gets a Set if the MACs differ and is
      then removed from the desired working copy; a key not desired gets a
      Del. A failed write is recorded and processing goes on. */
  method ReconcileCurrent(current: Snapshot, desired: Snapshot, succeeds: Op -> bool)
    returns (log: seq<Attempt>, rest: Snapshot, err: Error)
    ensures rest == desired - current.Keys
    ensures CoversExactly(current, desired, current.Keys, log)
    ensures OutcomesFrom(log, succeeds)
    ensures err == Aggregate(log)
  {
    log := [];
    rest := desired;
    err := NoError;
    var todo := current.Keys;
    ghost var done: set<string> := {};
    while todo != {}
      invariant todo !! done && todo + done == current.Keys
      invariant forall k :: k in rest <==> k in desired && k !in done
      invariant forall k :: k in rest ==> rest[k] == desired[k]
      invariant CoversExactly(current, desired, done, log)
      invariant OutcomesFrom(log, succeeds)
      invariant err == Aggregate(log)
      decreases todo
    {
      var ip :| ip in todo;
      CoversStep(current, desired, done, log, ip, succeeds);
      rest, log, err := VisitCurrent(current, desired, ip, rest, log, err, succeeds);
      todo := todo - {ip};
      done := done + {ip};
    }
    assert rest.Keys == (desired - current.Keys).Keys;
  }

  /** Phase B of `updateARP`: every key left in the desired working copy, in
      an unspecified order, gets an Add with its entry; a failed Add is
      recorded and processing goes on. `adds` are exactly the writes planned
      against an empty current table, and the error keeps aggregating over
      the log so far. */
  method AddMissing(rest: Snapshot, log0: seq<Attempt>, err0: Error, succeeds: Op -> bool)
    returns (adds: seq<Attempt>, err: Error)
    requires err0 == Aggregate(log0)
    ensures CoversExactly(map[], rest, rest.Keys, adds)
    ensures OutcomesFrom(adds, succeeds)
    ensures err == Aggregate(log0 + adds)
  {
    adds, err := [], err0;
    assert log0 + adds == log0;
    var pending := rest.Keys;
    ghost var done: set<string> := {};
    while pending != {}
      invariant pending !! done && pending + done == rest.Keys
      invariant CoversExactly(map[], rest, done, adds)
      invariant OutcomesFrom(adds, succeeds)
      invariant err == Aggregate(log0 + adds)
      decreases pending
    {
      var ip :| ip in pending;
      CoversStep(map[], rest, done, adds, ip, succeeds);
      var op := Add(ip, rest[ip]);
      var log;
      log, err := Issue(log0 + adds, err, op, succeeds);
      adds := adds + [Attempt(op, succeeds(op))];
      assert log == log0 + adds;
      pending := pending - {ip};
      done := done + {ip};
    }
  }

  /** On a leftover desired key, planning against an empty current table
      plans what planning against the current snapshot does. */
  lemma LeftoverPlannedAlike(current: Snapshot, desired: Snapshot, k: string)
    requires k in desired - current.Keys
    ensures Planned(map[], desired - current.Keys, k) == Planned(current, desired, k)
  {
  }

  /** Phase A's cover of the current keys followed by phase B's cover of the
      leftover desired keys is an exact cover of all keys. */
  lemma PhasesCoverAllKeys(current: Snapshot, desired: Snapshot, logA: seq<Attempt>, adds: seq<Attempt>)
    requires CoversExactly(current, desired, current.Keys, logA)
    requires CoversExactly(map[], desired - current.Keys, (desired - current.Keys).Keys, adds)
    ensures Reconciles(current, desired, logA + adds)
  {
    PhasesPlanned(current, desired, logA, adds);
    PhasesDistinct(current, desired, logA, adds);
    PhasesComplete(current, desired, logA, adds);
  }

  lemma PhasesPlanned(current: Snapshot, desired: Snapshot, logA: seq<Attempt>, adds: seq<Attempt>)
    requires CoversExactly(current, desired, current.Keys, logA)
    requires CoversExactly(map[], desired - current.Keys, (desired - current.Keys).Keys, adds)
    ensures forall i :: 0 <= i < |logA + adds| ==>
      Planned(current, desired, (logA + adds)[i].op.key) == Some((logA + adds)[i].op)
  {
    var log := logA + adds;
    forall i | 0 <= i < |log|
      ensures Planned(current, desired, log[i].op.key) == Some(log[i].op)
    {
      if i < |logA| {
        assert log[i] == logA[i];
      } else {
        var a := adds[i - |logA|];
        assert log[i] == a;
        LeftoverPlannedAlike(current, desired, a.op.key);
      }
    }
  }

  lemma PhasesDistinct(current: Snapshot, desired: Snapshot, logA: seq<Attempt>, adds: seq<Attempt>)
    requires CoversExactly(current, desired, current.Keys, logA)
    requires CoversExactly(map[], desired - current.Keys, (desired - current.Keys).Keys, adds)
    ensures forall i, j :: 0 <= i < j < |logA + adds| ==> (logA + adds)[i].op.key != (logA + adds)[j].op.key
  {
    var log := logA + adds;
    forall i, j | 0 <= i < j < |log|
      ensures log[i].op.key != log[j].op.key
    {
      if j < |logA| {
        assert log[i] == logA[i] && log[j] == logA[j];
      } else if i >= |logA| {
        assert log[i] == adds[i - |logA|] && log[j] == adds[j - |logA|];
      } else {
        assert log[i] == logA[i] && log[j] == adds[j - |logA|];
        assert log[i].op.key in current && log[j].op.key !in current;
      }
    }
  }

  lemma PhasesComplete(current: Snapshot, desired: Snapshot, logA: seq<Attempt>, adds: seq<Attempt>)
    requires CoversExactly(current, desired, current.Keys, logA)
    requires CoversExactly(map[], desired - current.Keys, (desired - current.Keys).Keys, adds)
    ensures forall k :: Planned(current, desired, k).Some? ==>
      exists i :: 0 <= i < |logA + adds| && (logA + adds)[i].op.key == k
  {
    var log := logA + adds;
    forall k | Planned(current, desired, k).Some?
      ensures exists i :: 0 <= i < |log| && log[i].op.key == k
    {
      if k in current {
        var i :| 0 <= i < |logA| && logA[i].op.key == k;
        assert log[i] == logA[i];
      } else {
        LeftoverPlannedAlike(current, desired, k);
        var i :| 0 <= i < |adds| && adds[i].op.key == k;
        assert log[|logA| + i] == adds[i];
      }
    }
  }

  /** Phase A issues only Sets and Dels and phase B only Adds, so the log
      keeps the phases in order; outcomes are the oracle's throughout. */
  lemma PhasesInOrderAndOutcomes(current: Snapshot, desired: Snapshot, logA: seq<Attempt>,
                                 adds: seq<Attempt>, succeeds: Op -> bool)
    requires CoversExactly(current, desired, current.Keys, logA)
    requires CoversExactly(map[], desired - current.Keys, (desired - current.Keys).Keys, adds)
    requires OutcomesFrom(logA, succeeds) && OutcomesFrom(adds, succeeds)
    ensures PhasesInOrder(logA + adds)
    ensures OutcomesFrom(logA + adds, succeeds)
  {
    var log := logA + adds;
    forall i | 0 <= i < |logA|
      ensures !logA[i].op.Add?
    {
      assert Planned(current, desired, logA[i].op.key) == Some(logA[i].op);
    }
    forall i | 0 <= i < |adds|
      ensures adds[i].op.Add?
    {
      assert Planned(map[], desired - current.Keys, adds[i].op.key) == Some(adds[i].op);
    }
    assert forall i :: 0 <= i < |log| ==> log[i] == if i < |logA| then logA[i] else adds[i - |logA|];
  }

  /** `updateARP`: phase A over the current snapshot, then phase B over what
      is left of the desired one. Returns the log, the working copy as left
      behind, and the aggregated error. */
  method UpdateARP(current: Snapshot, desired: Snapshot, succeeds: Op -> bool)
    returns (log: seq<Attempt>, rest: Snapshot, err: Error)
    ensures Reconciles(current, desired, log)
    ensures forall i :: 0 <= i < |log| ==> log[i].ok == succeeds(log[i].op)
    ensures PhasesInOrder(log)
    ensures rest == desired - current.Keys
    ensures Failures(err) == FailedOps(log)
    ensures err == NoError <==> forall i :: 0 <= i < |log| ==> log[i].ok
    ensures log == [] <==> Converged(current, desired)
  {
    var logA, errA, adds;
    logA, rest, errA := ReconcileCurrent(current, desired, succeeds);
    adds, err := AddMissing(rest, logA, errA, succeeds);
    log := logA + adds;
    PhasesCoverAllKeys(current, desired, logA, adds);
    PhasesInOrderAndOutcomes(current, desired, logA, adds, succeeds);
    AggregateReportsFailures(log);
    AggregateNilIffAllOk(log);
    ReconcilesEmptyIffConverged(current, desired, log);
  }

  // Properties of a reconciliation log

  /** Nothing is planned exactly when the snapshots have converged. */
  lemma ConvergedIffNothingPlanned(current: Snapshot, desired: Snapshot)
    ensures Converged(current, desired) <==> forall k :: Planned(current, desired, k).None?
  {
    if !Converged(current, desired) {
      if k :| k in current && k !in desired {
        assert Planned(current, desired, k).Some?;
      } else if k :| k in desired && k !in current {
        assert Planned(current, desired, k).Some?;
      } else {
        var k :| k in current && current[k].mac != desired[k].mac;
        assert Planned(current, desired, k).Some?;
      }
    }
  }

  /** A reconciliation issues no write at all exactly when the snapshots
      have already converged. */
  lemma ReconcilesEmptyIffConverged(current: Snapshot, desired: Snapshot, log: seq<Attempt>)
    requires Reconciles(current, desired, log)
    ensures log == [] <==> Converged(current, desired)
  {
    ConvergedIffNothingPlanned(current, desired);
    if log != [] {
      assert Planned(current, desired, log[0].op.key).Some?;
    }
  }

  /** Per class of the partition: an update gets exactly one Set carrying the
      desired entry, an unchanged key gets nothing, a stale key exactly one
      Del carrying the current entry, a missing key exactly one Add carrying
      the desired entry. */
  lemma ReconcilesByClass(current: Snapshot, desired: Snapshot, log: seq<Attempt>, k: string)
    requires Reconciles(current, desired, log)
    ensures k in Partition(current, desired).updates ==>
      exists i :: 0 <= i < |log| && log[i].op == Set(k, desired[k])
    ensures k in Partition(current, desired).inSync ==>
      forall i :: 0 <= i < |log| ==> log[i].op.key != k
    ensures k in Partition(current, desired).stale ==>
      exists i :: 0 <= i < |log| && log[i].op == Del(k, current[k])
    ensures k in Partition(current, desired).missing ==>
      exists i :: 0 <= i < |log| && log[i].op == Add(k, desired[k])
    ensures forall i, j :: 0 <= i < |log| && 0 <= j < |log| && log[i].op.key == k && log[j].op.key == k ==> i == j
  {
    var p := Partition(current, desired);
    if k in p.updates || k in p.stale || k in p.missing {
      assert Planned(current, desired, k).Some?;
      var i :| 0 <= i < |log| && log[i].op.key == k;
      assert Planned(current, desired, k) == Some(log[i].op);
    }
    if k in p.inSync {
      forall i | 0 <= i < |log|
        ensures log[i].op.key != k
      {
        assert Planned(current, desired, log[i].op.key).Some?;
      }
    }
  }

  // Applying a log to a table

  function Lookup(t: Snapshot, k: string): Option<Neigh> {
    if k in t then Some(t[k]) else None
  }

  /** What a successful write leaves at its key. */
  function Effect(op: Op): Option<Neigh> {
    match op
    case Set(_, n) => Some(n)
    case Add(_, n) => Some(n)
    case Del(_, _) => None
  }

  /** A table after one attempt: a failed write changes nothing. */
  function ApplyAttempt(t: Snapshot, a: Attempt): (r: Snapshot)
    ensures forall k :: k != a.op.key ==> Lookup(r, k) == Lookup(t, k)
    ensures Lookup(r, a.op.key) == if a.ok then Effect(a.op) else Lookup(t, a.op.key)
  {
    if !a.ok then t
    else match a.op
      case Set(k, n) => t[k := n]
      case Add(k, n) => t[k := n]
      case Del(k, _) => t - {k}
  }

  /** A table after a log of attempts, in log order. */
  function ApplyLog(t: Snapshot, log: seq<Attempt>): Snapshot
    decreases |log|
  {
    if log == [] then t else ApplyLog(ApplyAttempt(t, log[0]), log[1..])
  }

  lemma {:induction false} ApplyLogElsewhere(t: Snapshot, log: seq<Attempt>, k: string)
    requires forall i :: 0 <= i < |log| ==> log[i].op.key != k
    ensures Lookup(ApplyLog(t, log), k) == Lookup(t, k)
    decreases |log|
  {
    if log != [] {
      ApplyLogElsewhere(ApplyAttempt(t, log[0]), log[1..], k);
    }
  }

  /** A key written once in a log ends up as that one attempt left it. */
  lemma {:induction false} ApplyLogAtKey(t: Snapshot, log: seq<Attempt>, i: int)
    requires 0 <= i < |log|
    requires forall j :: 0 <= j < |log| && j != i ==> log[j].op.key != log[i].op.key
    ensures Lookup(ApplyLog(t, log), log[i].op.key) ==
      if log[i].ok then Effect(log[i].op) else Lookup(t, log[i].op.key)
    decreases |log|
  {
    var k := log[i].op.key;
    if i == 0 {
      ApplyLogElsewhere(ApplyAttempt(t, log[0]), log[1..], k);
    } else {
      ApplyLogAtKey(ApplyAttempt(t, log[0]), log[1..], i - 1);
    }
  }

  lemma PlannedDependsOnKeyOnly(c: Snapshot, c': Snapshot, desired: Snapshot, k: string)
    requires Lookup(c, k) == Lookup(c', k)
    ensures Planned(c, desired, k) == Planned(c', desired, k)
  {
  }

  /** Planning again over the table a pass leaves behind (its successful
      writes applied to the current snapshot) plans exactly the writes that
      failed, and plans them unchanged. The next pass of the driver re-reads
      the kernel through the subnet filter instead; the two tables agree
      only when every desired entry lies in some subnet under its own key. */
  lemma RerunRetriesExactlyFailures(current: Snapshot, desired: Snapshot, log: seq<Attempt>)
    requires Reconciles(current, desired, log)
    ensures forall k :: Planned(ApplyLog(current, log), desired, k).Some? <==>
      exists i :: 0 <= i < |log| && log[i].op.key == k && !log[i].ok
    ensures forall i :: 0 <= i < |log| && !log[i].ok ==>
      Planned(ApplyLog(current, log), desired, log[i].op.key) == Some(log[i].op)
  {
    var after := ApplyLog(current, log);
    forall i | 0 <= i < |log|
      ensures log[i].ok ==> Planned(after, desired, log[i].op.key).None?
      ensures !log[i].ok ==> Planned(after, desired, log[i].op.key) == Some(log[i].op)
    {
      forall j | 0 <= j < |log| && j != i
        ensures log[j].op.key != log[i].op.key
      {
        if j < i {
          assert log[j].op.key != log[i].op.key;
        } else {
          assert log[i].op.key != log[j].op.key;
        }
      }
      ApplyLogAtKey(current, log, i);
      if !log[i].ok {
        PlannedDependsOnKeyOnly(current, after, desired, log[i].op.key);
      }
    }
    forall k
      ensures Planned(after, desired, k).Some? <==> exists i :: 0 <= i < |log| && log[i].op.key == k && !log[i].ok
    {
      if i :| 0 <= i < |log| && log[i].op.key == k {
        if log[i].ok {
          assert forall j :: 0 <= j < |log| && log[j].op.key == k ==> j == i;
        }
      } else {
        ApplyLogElsewhere(current, log, k);
        PlannedDependsOnKeyOnly(current, after, desired, k);
      }
    }
  }

  /** A pass in which every write succeeds leaves a table that has converged
      on the desired snapshot, so planning again over it issues nothing. */
  lemma SuccessfulPassConverges(current: Snapshot, desired: Snapshot, log: seq<Attempt>)
    requires Reconciles(current, desired, log)
    requires forall i :: 0 <= i < |log| ==> log[i].ok
    ensures Converged(ApplyLog(current, log), desired)
  {
    RerunRetriesExactlyFailures(current, desired, log);
    ConvergedIffNothingPlanned(ApplyLog(current, log), desired);
  }
}
