/**
 Whole runs of the store: any number of transactions, interleaved in any way with each other and with
 direct operations.  SerialMeaning is the main theorem: whatever the interleaving, the committed tree and
 every reply that was ever given by a direct operation or by a transaction that committed are those of
 serving them one after another, each transaction at the instant of its commit.  As shipped, serving a
 transaction leaves the nodes it deleted (Installed); SerialEquivalence is the theorem for the repaired merge.
 */
module Runs {
  import opened Paths
  import opened Tree
  import opened Database
  import opened SimpleAccess
  import opened Transaction
  import opened Views
  import opened Commit

  datatype StoreState = StoreState(db: Db, nextTid: Tid, trans: set<Tid>)

  datatype Event =
    | DirectOp(op: Op)
    | Branch
    | TransactionOp(tid: Tid, op: Op)
    | Merge(tid: Tid)
    | Abort(tid: Tid)

  datatype Outcome =
    | Replied(reply: Reply)
    | Branched(tid: Tid)
    | Merged(success: bool)
    | Aborted
    | Refused(err: Errno)

  const INITIAL := StoreState(map[], 1, {})

  /** One call of the store, as `store` dispatches it. */
  function Next(s: StoreState, ev: Event, version: Version): (StoreState, Outcome) {
    match ev
    case DirectOp(op) =>
      var (db', reply) := Direct(s.db, op);
      (s.(db := db'), Replied(reply))
    case Branch =>
      (s.(nextTid := s.nextTid + 1, trans := s.trans + {s.nextTid}), Branched(s.nextTid))
    case TransactionOp(tid, op) =>
      if tid !in s.trans then (s, Refused(EINVAL))
      else
        var (db', reply) := InTransaction(s.db, tid, op);
        (s.(db := db'), Replied(reply))
    case Merge(tid) =>
      if tid !in s.trans then (s, Refused(ENOENT))
      else if CanMerge(s.db, tid) then (s.(db := DoMerge(s.db, tid, version), trans := s.trans - {tid}), Merged(true))
      else (s.(db := AbortAll(s.db, tid), trans := s.trans - {tid}), Merged(false))
    case Abort(tid) =>
      if tid !in s.trans then (s, Refused(ENOENT))
      else (s.(db := AbortAll(s.db, tid), trans := s.trans - {tid}), Aborted)
  }

  // ------------------------------------------------------------- what an observer writes down

  datatype Call = Call(op: Op, reply: Reply)

  /** What takes effect at one instant: a direct operation, or all of a transaction. */
  datatype Unit = Single(call: Call) | Batch(calls: seq<Call>)

  /** The calls of each running transaction, and everything that took effect, in order. */
  datatype Journal = Journal(running: map<Tid, seq<Call>>, done: seq<Unit>)

  /** Looks only at the calls and their outcomes, never at the store. */
  function Note(j: Journal, ev: Event, out: Outcome): Journal {
    match (ev, out)
    case (DirectOp(op), Replied(reply)) => j.(done := j.done + [Single(Call(op, reply))])
    case (Branch, Branched(tid)) => j.(running := j.running[tid := []])
    case (TransactionOp(tid, op), Replied(reply)) =>
      j.(running := j.running[tid := Calls(j, tid) + [Call(op, reply)]])
    case (Merge(tid), Merged(success)) =>
      Journal(j.running - {tid}, if success then j.done + [Batch(Calls(j, tid))] else j.done)
    case (Abort(tid), Aborted) => j.(running := j.running - {tid})
    case _ => j
  }

  function Calls(j: Journal, tid: Tid): seq<Call> {
    if tid in j.running then j.running[tid] else []
  }

  function Ops(calls: seq<Call>): seq<Op> {
    seq(|calls|, i requires 0 <= i < |calls| => calls[i].op)
  }

  function Replies(calls: seq<Call>): seq<Reply> {
    seq(|calls|, i requires 0 <= i < |calls| => calls[i].reply)
  }

  function CallsOf(u: Unit): seq<Call> {
    match u
    case Single(call) => [call]
    case Batch(calls) => calls
  }

  /** Everything that took effect, call by call. */
  function Flat(units: seq<Unit>): seq<Call> {
    if units == [] then [] else Flat(units[..|units| - 1]) + CallsOf(units[|units| - 1])
  }

  /** Serving one unit on tree S: its tree and its replies. */
  function ServeUnit(S: Tree, u: Unit, version: Version): (Tree, seq<Reply>) {
    match u
    case Single(call) => (Step(S, call.op).0, [Step(S, call.op).1])
    case Batch(calls) => (Installed(version, S, Replay(S, Ops(calls)).0), Replay(S, Ops(calls)).1)
  }

  /** Serving units one after another. */
  function Serve(S: Tree, units: seq<Unit>, version: Version): (Tree, seq<Reply>) {
    if units == [] then (S, [])
    else
      var before := Serve(S, units[..|units| - 1], version);
      var last := ServeUnit(before.0, units[|units| - 1], version);
      (last.0, before.1 + last.1)
  }

  /** Running the calls one by one from tree S ends in tree t and gives the replies that were noted. */
  ghost predicate Explains(S: Tree, calls: seq<Call>, t: Tree) {
    Replay(S, Ops(calls)) == (t, Replies(calls))
  }

  lemma ExplainsSnoc(S: Tree, calls: seq<Call>, t: Tree, op: Op)
    requires Explains(S, calls, t)
    ensures Explains(S, calls + [Call(op, Step(t, op).1)], Step(t, op).0)
  {
    var more := calls + [Call(op, Step(t, op).1)];
    assert Ops(more) == Ops(calls) + [op];
    assert Replies(more) == Replies(calls) + [Step(t, op).1];
    ReplaySnoc(S, Ops(calls), op);
  }

  // ------------------------------------------------------------- the invariant of every run

  /** For every tree with truthful lists that agrees with what the transaction saw, running its calls on
      that tree gives the replies it got and the tree its overlay shows. */
  ghost predicate Simulates(db: Db, id: Tid, calls: seq<Call>) {
    forall S | Closed(S) && Compatible(S, db, id) ::
      Shows(S, db, id, Replay(S, Ops(calls)).0) && Replay(S, Ops(calls)).1 == Replies(calls)
  }

  /** Everything that took effect got the replies and left the tree that serving it in turn gives. */
  ghost predicate Served(s: StoreState, j: Journal, version: Version) {
    Serve(map[], j.done, version) == (Committed(s.db), Replies(Flat(j.done)))
  }

  /** Holds in every state that a run of either version reaches. */
  ghost predicate Inv(s: StoreState, j: Journal, version: Version) {
    && DbOk(s.db) && Closed(Committed(s.db))
    && Served(s, j, version)
    && j.running.Keys == s.trans
    && (forall id | id in s.trans :: id < s.nextTid && Simulates(s.db, id, j.running[id]))
    && (forall id :: OverlayOf(s.db, id) != map[] ==> id in s.trans)
  }

  /** The parts of the invariant that most steps need. */
  lemma InvFacts(s: StoreState, j: Journal, version: Version)
    requires Inv(s, j, version)
    ensures DbOk(s.db) && Closed(Committed(s.db))
    ensures s.nextTid !in s.trans && (s.nextTid !in s.trans ==> OverlayOf(s.db, s.nextTid) == map[])
  {
  }

  lemma InitialInv(version: Version)
    ensures Inv(INITIAL, Journal(map[], []), version)
  {
    assert Committed(INITIAL.db) == map[];
    assert Ops([]) == [] && Replies([]) == [];
    forall id ensures OverlayOf(INITIAL.db, id) == map[] { }
  }

  lemma ServedOneMore(S: Tree, units: seq<Unit>, t: Tree, u: Unit, version: Version)
    requires Serve(S, units, version) == (t, Replies(Flat(units)))
    requires ServeUnit(t, u, version).1 == Replies(CallsOf(u))
    ensures Serve(S, units + [u], version) == (ServeUnit(t, u, version).0, Replies(Flat(units + [u])))
  {
    var more := units + [u];
    assert more[..|units|] == units;
    assert Replies(Flat(units) + CallsOf(u)) == Replies(Flat(units)) + Replies(CallsOf(u));
  }

  lemma SimulatesFrame(db: Db, db': Db, id: Tid, calls: seq<Call>)
    requires Simulates(db, id, calls) && OverlayOf(db, id) == OverlayOf(db', id)
    ensures Simulates(db', id, calls)
  {
    forall S | Closed(S) && Compatible(S, db', id)
      ensures Shows(S, db', id, Replay(S, Ops(calls)).0) && Replay(S, Ops(calls)).1 == Replies(calls)
    {
      SameOverlay(S, db, db', id);
    }
  }

  lemma FreshSimulates(db: Db, id: Tid)
    requires OverlayOf(db, id) == map[]
    ensures Simulates(db, id, [])
  {
  }

  lemma OperationSimulates(db: Db, id: Tid, calls: seq<Call>, op: Op)
    requires DbOk(db) && Simulates(db, id, calls)
    ensures Simulates(InTransaction(db, id, op).0, id, calls + [Call(op, InTransaction(db, id, op).1)])
  {
    var (db', reply) := InTransaction(db, id, op);
    var more := calls + [Call(op, reply)];
    InTransactionIsIsolated(db, id, op);
    forall S | Closed(S) && Compatible(S, db', id)
      ensures Shows(S, db', id, Replay(S, Ops(more)).0) && Replay(S, Ops(more)).1 == Replies(more)
    {
      EarlierIsCompatible(S, db, db', id);
      var t := Replay(S, Ops(calls)).0;
      ReplayKeepsClosed(S, Ops(calls));
      InTransactionIsStep(S, db, id, op, t);
      ExplainsSnoc(S, calls, t, op);
    }
  }

  /** Serial equivalence of one commit: at the instant of a successful merge the transaction's calls,
      run one after another on the committed tree, give its replies and the tree that is installed. */
  lemma CommitIsSerial(s: StoreState, j: Journal, tid: Tid, version: Version)
    requires Inv(s, j, version) && tid in s.trans && CanMerge(s.db, tid)
    ensures var S := Committed(s.db); var (t, replies) := Replay(S, Ops(j.running[tid]));
      && replies == Replies(j.running[tid]) && Shows(S, s.db, tid, t) && Closed(t)
      && Committed(DoMerge(s.db, tid, version)) == Installed(version, S, t)
  {
    var S := Committed(s.db);
    ValidatedIsCompatible(s.db, tid);
    ReplayKeepsClosed(S, Ops(j.running[tid]));
    CommitInstallsView(s.db, tid, version, Replay(S, Ops(j.running[tid])).0);
  }

  lemma EndInv(s: StoreState, j: Journal, tid: Tid, db': Db, done: seq<Unit>, version: Version)
    requires Inv(s, j, version) && tid in s.trans && Ended(s.db, db', tid)
    requires Closed(Committed(db')) && Serve(map[], done, version) == (Committed(db'), Replies(Flat(done)))
    ensures Inv(s.(db := db', trans := s.trans - {tid}), Journal(j.running - {tid}, done), version)
  {
    EndedKeepsOthers(s.db, db', tid);
    forall id | id in s.trans - {tid} ensures Simulates(db', id, j.running[id]) {
      SimulatesFrame(s.db, db', id, j.running[id]);
    }
  }

  lemma DirectInv(s: StoreState, j: Journal, op: Op, version: Version)
    requires Inv(s, j, version)
    ensures var (s', out) := Next(s, DirectOp(op), version); Inv(s', Note(j, DirectOp(op), out), version)
  {
    var (db', reply) := Direct(s.db, op);
    DirectIsStep(s.db, op);
    StepKeepsClosed(Committed(s.db), op);
    CommitsKeepOverlays(s.db, db');
    assert Replies([Call(op, reply)]) == [reply];
    ServedOneMore(map[], j.done, Committed(s.db), Single(Call(op, reply)), version);
    forall id | id in s.trans ensures Simulates(db', id, j.running[id]) {
      SimulatesFrame(s.db, db', id, j.running[id]);
    }
  }

  lemma TransactionOpInv(s: StoreState, j: Journal, tid: Tid, op: Op, version: Version)
    requires Inv(s, j, version) && tid in s.trans
    ensures var (s', out) := Next(s, TransactionOp(tid, op), version); Inv(s', Note(j, TransactionOp(tid, op), out), version)
  {
    hide InTransaction, Simulates, OnlyOverlays, DbOk, Closed, Committed, OverlayOf, Serve, Flat, Replies;
    var (db', reply) := InTransaction(s.db, tid, op);
    InTransactionIsIsolated(s.db, tid, op);
    OperationSimulates(s.db, tid, j.running[tid], op);
    forall id | id in s.trans && id != tid ensures Simulates(db', id, j.running[id]) {
      SimulatesFrame(s.db, db', id, j.running[id]);
    }
  }

  lemma BranchInv(s: StoreState, j: Journal, version: Version)
    requires Inv(s, j, version)
    ensures var (s', out) := Next(s, Branch, version); Inv(s', Note(j, Branch, out), version)
  {
    FreshSimulates(s.db, s.nextTid);
  }

  lemma MergeInv(s: StoreState, j: Journal, tid: Tid, version: Version)
    requires Inv(s, j, version) && tid in s.trans
    ensures var (s', out) := Next(s, Merge(tid), version); Inv(s', Note(j, Merge(tid), out), version)
  {
    hide DoMerge, AbortAll, Committed, Ops, OverlayOf, Simulates, CanMerge, DbOk, Closed, Serve, Flat;
    if CanMerge(s.db, tid) {
      var S, calls := Committed(s.db), j.running[tid];
      CommitIsSerial(s, j, tid, version);
      InstalledKeepsClosed(version, S, Replay(S, Ops(calls)).0);
      DoMergeEnds(s.db, tid, version);
      ServedOneMore(map[], j.done, S, Batch(calls), version);
      EndInv(s, j, tid, DoMerge(s.db, tid, version), j.done + [Batch(calls)], version);
    } else {
      AbortEnds(s.db, tid);
      EndInv(s, j, tid, AbortAll(s.db, tid), j.done, version);
    }
  }

  lemma NextInv(s: StoreState, j: Journal, ev: Event, version: Version)
    requires Inv(s, j, version)
    ensures var (s', out) := Next(s, ev, version); Inv(s', Note(j, ev, out), version)
  {
    match ev {
      case DirectOp(op) => DirectInv(s, j, op, version);
      case Branch => BranchInv(s, j, version);
      case TransactionOp(tid, op) => if tid in s.trans { TransactionOpInv(s, j, tid, op, version); }
      case Merge(tid) => if tid in s.trans { MergeInv(s, j, tid, version); }
      case Abort(tid) =>
        if tid in s.trans {
          AbortEnds(s.db, tid);
          EndInv(s, j, tid, AbortAll(s.db, tid), j.done, version);
        }
    }
  }

  // ------------------------------------------------------------- runs

  function Run(s: StoreState, evs: seq<Event>, version: Version): (r: (StoreState, seq<Outcome>))
    ensures |r.1| == |evs|
    decreases |evs|
  {
    if evs == [] then (s, [])
    else
      var (s', out) := Next(s, evs[0], version);
      var (s'', outs) := Run(s', evs[1..], version);
      (s'', [out] + outs)
  }

  function NoteAll(j: Journal, evs: seq<Event>, outs: seq<Outcome>): Journal
    requires |evs| == |outs|
    decreases |evs|
  {
    if evs == [] then j else NoteAll(Note(j, evs[0], outs[0]), evs[1..], outs[1..])
  }

  lemma {:induction false} RunInv(s: StoreState, j: Journal, evs: seq<Event>, version: Version)
    requires Inv(s, j, version)
    ensures var (s', outs) := Run(s, evs, version); Inv(s', NoteAll(j, evs, outs), version)
    decreases |evs|
  {
    if evs != [] {
      NextInv(s, j, evs[0], version);
      var (s1, out) := Next(s, evs[0], version);
      RunInv(s1, Note(j, evs[0], out), evs[1..], version);
      assert Run(s, evs, version).1[1..] == Run(s1, evs[1..], version).1;
    }
  }

  const UNWRITTEN := Journal(map[], [])

  /** What any interleaving amounts to, for either version: serving everything that took effect, unit by
      unit, gives every reply and the committed tree, whose lists are truthful. */
  lemma SerialMeaning(evs: seq<Event>, version: Version)
    ensures var (s, outs) := Run(INITIAL, evs, version);
      var j := NoteAll(UNWRITTEN, evs, outs);
      && Serve(map[], j.done, version) == (Committed(s.db), Replies(Flat(j.done)))
      && Closed(Committed(s.db))
  {
    InitialInv(version);
    RunInv(INITIAL, UNWRITTEN, evs, version);
  }

  // ------------------------------------------------------------- plain serial equivalence

  /** No unit leaves out a node that serving it installs; so none is retained that was deleted. */
  predicate Lossless(S: Tree, units: seq<Unit>, version: Version) {
    units == [] || (
      var before, last := units[..|units| - 1], units[|units| - 1];
      var T := Serve(S, before, version).0;
      && Lossless(S, before, version)
      && (version.Shipped? && last.Batch? ==> forall p | p in T :: p in Replay(T, Ops(last.calls)).0))
  }

  lemma FlatOneMore(S: Tree, units: seq<Unit>, u: Unit)
    ensures var t, v := Replay(S, Ops(Flat(units))), Ops(CallsOf(u));
      Replay(S, Ops(Flat(units + [u]))) == (Replay(t.0, v).0, t.1 + Replay(t.0, v).1)
  {
    assert (units + [u])[..|units|] == units;
    assert Ops(Flat(units) + CallsOf(u)) == Ops(Flat(units)) + Ops(CallsOf(u));
    ReplayAppend(S, Ops(Flat(units)), Ops(CallsOf(u)));
  }

  /** Serving a unit is running its calls, except for the nodes it retains. */
  lemma UnitIsReplay(T: Tree, u: Unit, version: Version)
    ensures var t := Replay(T, Ops(CallsOf(u)));
      ServeUnit(T, u, version) == (if u.Batch? then Installed(version, T, t.0) else t.0, t.1)
  {
    if u.Single? {
      assert Ops(CallsOf(u)) == [] + [u.call.op];
      ReplaySnoc(T, [], u.call.op);
      var (t, reply) := Step(T, u.call.op);
      assert [] + [reply] == [reply];
      assert Replay(T, Ops(CallsOf(u))) == (t, [reply]);
    }
  }

  /** Serving is then running call by call. */
  lemma {:induction false} LosslessIsReplay(S: Tree, units: seq<Unit>, version: Version)
    requires Lossless(S, units, version)
    ensures Serve(S, units, version) == Replay(S, Ops(Flat(units)))
  {
    hide Ops, Flat, Replay, ServeUnit, CallsOf;
    if units == [] {
      NothingServed(S, units, version);
    } else {
      var before, last := units[..|units| - 1], units[|units| - 1];
      LosslessIsReplay(S, before, version);
      LosslessUnit(Serve(S, before, version).0, last, version);
      OneMorePlainUnit(S, before, last, version);
      assert before + [last] == units;
    }
  }

  lemma NothingServed(S: Tree, units: seq<Unit>, version: Version)
    requires units == []
    ensures Serve(S, units, version) == Replay(S, Ops(Flat(units)))
  {
    assert Ops(Flat(units)) == [];
  }

  lemma OneMorePlainUnit(S: Tree, before: seq<Unit>, u: Unit, version: Version)
    requires Serve(S, before, version) == Replay(S, Ops(Flat(before)))
    requires var T := Serve(S, before, version).0; var t := Replay(T, Ops(CallsOf(u))).0;
      u.Batch? ==> Installed(version, T, t) == t
    ensures Serve(S, before + [u], version) == Replay(S, Ops(Flat(before + [u])))
  {
    hide Ops, Flat, Replay, ServeUnit, CallsOf, Installed;
    FlatOneMore(S, before, u);
    UnitIsReplay(Serve(S, before, version).0, u, version);
    assert (before + [u])[..|before|] == before;
  }

  lemma LosslessUnit(T: Tree, u: Unit, version: Version)
    requires version.Shipped? && u.Batch? ==> forall p | p in T :: p in Replay(T, Ops(u.calls)).0
    ensures u.Batch? ==> Installed(version, T, Replay(T, Ops(CallsOf(u))).0) == Replay(T, Ops(CallsOf(u))).0
  {
  }

  /** The served tree is the one that running call by call gives. */
  ghost predicate Plain(S: Tree, units: seq<Unit>) {
    Serve(S, units, Shipped).0 == Replay(S, Ops(Flat(units))).0
  }

  /** The condition is exact: it holds if and only if the served tree is plain at every point of the run. */
  lemma {:induction false} LosslessExactlyWhen(S: Tree, units: seq<Unit>)
    ensures Lossless(S, units, Shipped) <==> forall k | 0 <= k <= |units| :: Plain(S, units[..k])
  {
    hide Plain;
    assert units[..|units|] == units;
    if units == [] {
      LosslessIsPlain(S, units);
    } else {
      var n := |units| - 1;
      LosslessExactlyWhen(S, units[..n]);
      assert forall k | 0 <= k <= n :: units[..n][..k] == units[..k];
      if Lossless(S, units, Shipped) {
        LosslessIsPlain(S, units);
      } else if Lossless(S, units[..n], Shipped) {
        LossShows(S, units);
      }
    }
  }

  lemma LosslessIsPlain(S: Tree, units: seq<Unit>)
    requires Lossless(S, units, Shipped)
    ensures Plain(S, units)
  {
    LosslessIsReplay(S, units, Shipped);
  }

  lemma LossShows(S: Tree, units: seq<Unit>)
    requires units != [] && Lossless(S, units[..|units| - 1], Shipped) && !Lossless(S, units, Shipped)
    ensures !Plain(S, units)
  {
    hide Ops, Flat, Replay, ServeUnit, CallsOf;
    var before, last := units[..|units| - 1], units[|units| - 1];
    var T := Serve(S, before, Shipped).0;
    assert units == before + [last];
    LosslessIsReplay(S, before, Shipped);
    FlatOneMore(S, before, last);
    UnitIsReplay(T, last, Shipped);
    RetainedShows(T, last);
  }

  /** No batch leaves a deleted node under a parent that is still there. */
  predicate OrphanFree(S: Tree, units: seq<Unit>) {
    units == [] || (
      var before, last := units[..|units| - 1], units[|units| - 1];
      var T := Serve(S, before, Shipped).0;
      && OrphanFree(S, before)
      && (last.Batch? ==> !LeavesOrphan(T, Replay(T, Ops(last.calls)).0)))
  }

  ghost predicate ServesWellFormed(S: Tree, units: seq<Unit>) {
    WellFormed(Serve(S, units, Shipped).0)
  }

  lemma OrphanFreeUnit(T: Tree, u: Unit)
    requires WellFormed(T)
    ensures WellFormed(ServeUnit(T, u, Shipped).0) <==> (u.Batch? ==> !LeavesOrphan(T, Replay(T, Ops(u.calls)).0))
  {
    match u {
      case Single(call) => StepKeepsTree(T, call.op);
      case Batch(calls) =>
        ReplayKeepsTree(T, Ops(calls));
        InstalledKeepsTree(T, Replay(T, Ops(calls)).0);
    }
  }

  /** When a shipped run keeps the tree well-formed, in terms of what was served: at every point, if and
      only if no batch leaves an orphan. */
  lemma {:induction false} OrphanFreeExactlyWhen(S: Tree, units: seq<Unit>)
    requires WellFormed(S)
    ensures OrphanFree(S, units) <==> forall k | 0 <= k <= |units| :: ServesWellFormed(S, units[..k])
  {
    hide ServesWellFormed, WellFormed;
    assert units[..|units|] == units;
    if units == [] {
      StartsWellFormed(S, units);
    } else {
      var n := |units| - 1;
      OrphanFreeExactlyWhen(S, units[..n]);
      assert forall k | 0 <= k <= n :: units[..n][..k] == units[..k];
      if OrphanFree(S, units[..n]) {
        assert ServesWellFormed(S, units[..n][..n]);
        LastUnitDecides(S, units);
      }
    }
  }

  lemma StartsWellFormed(S: Tree, units: seq<Unit>)
    requires WellFormed(S) && units == []
    ensures ServesWellFormed(S, units)
  {
  }

  lemma LastUnitDecides(S: Tree, units: seq<Unit>)
    requires units != [] && OrphanFree(S, units[..|units| - 1]) && ServesWellFormed(S, units[..|units| - 1])
    ensures ServesWellFormed(S, units) <==> OrphanFree(S, units)
  {
    hide ServeUnit, Replay, WellFormed, LeavesOrphan;
    OrphanFreeUnit(Serve(S, units[..|units| - 1], Shipped).0, units[|units| - 1]);
  }

  lemma RetainedShows(T: Tree, u: Unit)
    requires u.Batch? && exists p :: p in T && p !in Replay(T, Ops(u.calls)).0
    ensures Installed(Shipped, T, Replay(T, Ops(CallsOf(u))).0) != Replay(T, Ops(CallsOf(u))).0
  {
    var p :| p in T && p !in Replay(T, Ops(u.calls)).0;
    assert p in T + Replay(T, Ops(u.calls)).0;
  }

  lemma {:induction false} RepairedIsLossless(S: Tree, units: seq<Unit>)
    ensures Lossless(S, units, Repaired)
  {
    if units != [] { RepairedIsLossless(S, units[..|units| - 1]); }
  }

  /** Serial equivalence over every interleaving, with do_merge repaired. */
  lemma SerialEquivalence(evs: seq<Event>)
    ensures var (s, outs) := Run(INITIAL, evs, Repaired);
      var calls := Flat(NoteAll(UNWRITTEN, evs, outs).done);
      && Replay(map[], Ops(calls)) == (Committed(s.db), Replies(calls))
      && WellFormed(Committed(s.db))
  {
    var (s, outs) := Run(INITIAL, evs, Repaired);
    var j := NoteAll(UNWRITTEN, evs, outs);
    SerialMeaning(evs, Repaired);
    RepairedIsLossless(map[], j.done);
    LosslessIsReplay(map[], j.done, Repaired);
    ReplayKeepsTree(map[], Ops(Flat(j.done)));
  }

  /** The same for the shipped code, for runs in which no commit deletes a node it found. */
  lemma SerialEquivalenceShipped(evs: seq<Event>)
    requires Lossless(map[], NoteAll(UNWRITTEN, evs, Run(INITIAL, evs, Shipped).1).done, Shipped)
    ensures var (s, outs) := Run(INITIAL, evs, Shipped);
      var calls := Flat(NoteAll(UNWRITTEN, evs, outs).done);
      && Replay(map[], Ops(calls)) == (Committed(s.db), Replies(calls))
      && WellFormed(Committed(s.db))
  {
    var (s, outs) := Run(INITIAL, evs, Shipped);
    var j := NoteAll(UNWRITTEN, evs, outs);
    SerialMeaning(evs, Shipped);
    LosslessIsReplay(map[], j.done, Shipped);
    ReplayKeepsTree(map[], Ops(Flat(j.done)));
  }
}
