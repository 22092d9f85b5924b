/**
 What a client of the store can rely on, over whole runs of either version: isolation, repeatable reads,
 the verdict of can_merge, the life of overlays; and exactly what the shipped do_merge does to deletes.
 */
module Guarantees {
  import opened Paths
  import opened Tree
  import opened Database
  import opened SimpleAccess
  import opened Transaction
  import opened Views
  import opened Commit
  import opened Runs

  // ------------------------------------------------------------- isolation

  /** Only direct operations and successful merges change the committed tree, and no event changes
      the overlay of a transaction it is not about. */
  lemma Isolation(s: StoreState, j: Journal, ev: Event, version: Version)
    requires Inv(s, j, version)
    ensures var (s', out) := Next(s, ev, version);
      && (!ev.DirectOp? && out != Merged(true) ==> Committed(s'.db) == Committed(s.db))
      && (forall id | ev.DirectOp? || ev.Branch? || id != ev.tid :: OverlayOf(s'.db, id) == OverlayOf(s.db, id))
  {
    InvFacts(s, j, version);
    hide Inv, Direct, InTransaction, DoMerge, AbortAll, CanMerge, DbOk, Closed, Committed, OverlayOf;
    match ev {
      case DirectOp(op) =>
        DirectIsStep(s.db, op);
        CommitsKeepOverlays(s.db, Direct(s.db, op).0);
      case Branch =>
      case TransactionOp(tid, op) => InTransactionIsIsolated(s.db, tid, op);
      case Merge(tid) =>
        AbortEnds(s.db, tid);
        EndedKeepsOthers(s.db, AbortAll(s.db, tid), tid);
        if CanMerge(s.db, tid) {
          DoMergeEnds(s.db, tid, version);
          EndedKeepsOthers(s.db, DoMerge(s.db, tid, version), tid);
        }
      case Abort(tid) =>
        AbortEnds(s.db, tid);
        EndedKeepsOthers(s.db, AbortAll(s.db, tid), tid);
    }
  }

  /** While a transaction can commit, its next reply is the one its operations would get one after another
      on the tree committed right now, whatever others have done since it began. */
  lemma RepliesAreSerial(s: StoreState, j: Journal, version: Version, id: Tid, op: Op)
    requires Inv(s, j, version) && id in s.trans && CanMerge(s.db, id)
    ensures InTransaction(s.db, id, op).1 == Step(Replay(Committed(s.db), Ops(j.running[id])).0, op).1
  {
    InvFacts(s, j, version);
    CommitIsSerial(s, j, id, version);
    hide Inv, DbOk, Closed, CanMerge, Committed, InTransaction, Shows, Compatible, DoMerge, Ops;
    var db' := InTransaction(s.db, id, op).0;
    OperationsKeepVerdict(s.db, id, op, id);
    InTransactionIsIsolated(s.db, id, op);
    ValidatedIsCompatible(db', id);
    InTransactionIsStep(Committed(s.db), s.db, id, op, Replay(Committed(s.db), Ops(j.running[id])).0);
  }

  // ------------------------------------------------------------- the verdict of can_merge

  /** can_merge over the whole transaction, said over the history of the records it touched. */
  lemma VerdictIsHistory(db: Db, id: Tid)
    requires DbOk(db)
    ensures CanMerge(db, id) <==> forall p | p in OverlayOf(db, id) :: Undisturbed(db[p], id)
  {
  }

  /** An operation inside any transaction leaves every transaction's verdict as it was, its own too. */
  lemma OperationsKeepVerdict(db: Db, tid: Tid, op: Op, id: Tid)
    requires DbOk(db)
    ensures CanMerge(InTransaction(db, tid, op).0, id) <==> CanMerge(db, id)
  {
    var db' := InTransaction(db, tid, op).0;
    InTransactionIsIsolated(db, tid, op);
    forall p | p in db' && id in db'[p].te
      ensures CanMergeRecord(db'[p], id) <==> (id in Get(db, p).te ==> CanMergeRecord(Get(db, p), id))
    {
      GetOk(db, p);
      assert Overlays(Get(db, p), Get(db', p), tid);
      OverlaysKeepVerdict(Get(db, p), db'[p], id, tid);
    }
    forall p | p in db && id in db[p].te ensures p in db' && id in db'[p].te {
      assert Overlays(Get(db, p), Get(db', p), tid);
    }
  }

  lemma DoomedRecordStays(r: Record, id: Tid, other: Tid, version: Version)
    requires RecordOk(r) && id in r.te && other in r.te && id != other && CanMergeRecord(r, other)
    ensures MergeRecord(r, other, version).Some? && id in MergeRecord(r, other, version).value.te
    ensures !CanMergeRecord(r, id) ==> !CanMergeRecord(MergeRecord(r, other, version).value, id)
  {
    MergeRecordOk(r, other, version);
    InstallOk(r, other, version);
    assert r.te.Keys != {other};
    DoomedStaysDoomed(r, MergeRecord(r, other, version).value, id);
  }

  lemma DoomedByMerge(db: Db, id: Tid, other: Tid, version: Version, p: Path)
    requires DbOk(db) && CanMerge(db, other) && id != other
    requires p in db && id in db[p].te && !CanMergeRecord(db[p], id)
    ensures !CanMerge(DoMerge(db, other, version), id)
  {
    var db' := DoMerge(db, other, version);
    if other in db[p].te { DoomedRecordStays(db[p], id, other, version); }
    assert p in db' && id in db'[p].te && !CanMergeRecord(db'[p], id);
  }

  lemma DoomedByAbort(db: Db, id: Tid, other: Tid, p: Path)
    requires DbOk(db) && id != other && p in db && id in db[p].te && !CanMergeRecord(db[p], id)
    ensures !CanMerge(AbortAll(db, other), id)
  {
    var db' := AbortAll(db, other);
    assert id in Drop(db[p], other).te;
    assert p in db' && id in db'[p].te && !CanMergeRecord(db'[p], id);
  }

  lemma DoomedByDirect(db: Db, id: Tid, op: Op, p: Path)
    requires DbOk(db) && Closed(Committed(db)) && p in db && id in db[p].te && !CanMergeRecord(db[p], id)
    ensures !CanMerge(Direct(db, op).0, id)
  {
    hide Direct, Committed;
    var db' := Direct(db, op).0;
    DirectIsStep(db, op);
    assert Get(db', p).te == Get(db, p).te && Commits(Get(db, p), Get(db', p));
    assert p in db';
    DoomedStaysDoomed(db[p], db'[p], id);
  }

  lemma DoomedWitness(db: Db, id: Tid) returns (p: Path)
    requires !CanMerge(db, id)
    ensures p in db && id in db[p].te && !CanMergeRecord(db[p], id)
  {
    p :| p in db && id in db[p].te && !CanMergeRecord(db[p], id);
  }

  predicate Ends(ev: Event, id: Tid) {
    (ev.Merge? || ev.Abort?) && ev.tid == id
  }

  /** A doomed transaction stays doomed until it ends, whatever anybody does. */
  lemma DoomedUntilTheEnd(s: StoreState, j: Journal, ev: Event, version: Version, id: Tid)
    requires Inv(s, j, version) && !CanMerge(s.db, id)
    requires !Ends(ev, id)
    ensures !CanMerge(Next(s, ev, version).0.db, id)
  {
    hide Inv, Direct, InTransaction, DoMerge, AbortAll, CanMerge, CanMergeRecord, DbOk, Closed, Committed;
    InvFacts(s, j, version);
    var p := DoomedWitness(s.db, id);
    match ev {
      case DirectOp(op) => DoomedByDirect(s.db, id, op, p);
      case Branch =>
      case TransactionOp(tid, op) => OperationsKeepVerdict(s.db, tid, op, id);
      case Merge(tid) =>
        DoomedByAbort(s.db, id, tid, p);
        if CanMerge(s.db, tid) { DoomedByMerge(s.db, id, tid, version, p); }
      case Abort(tid) => DoomedByAbort(s.db, id, tid, p);
    }
  }

  /** The same over any run in which it does not end. */
  lemma {:induction false} DoomedOverRun(s: StoreState, j: Journal, evs: seq<Event>, version: Version, id: Tid)
    requires Inv(s, j, version) && !CanMerge(s.db, id)
    requires forall i | 0 <= i < |evs| :: !Ends(evs[i], id)
    ensures !CanMerge(Run(s, evs, version).0.db, id)
    decreases |evs|
  {
    hide Inv, Next, Note, CanMerge;
    if evs != [] {
      assert !Ends(evs[0], id);
      DoomedUntilTheEnd(s, j, evs[0], version, id);
      NextInv(s, j, evs[0], version);
      var (s', out) := Next(s, evs[0], version);
      DoomedOverRun(s', Note(j, evs[0], out), evs[1..], version, id);
    }
  }

  // ------------------------------------------------------------- the life of an overlay

  /** The record of p in db' still holds id's overlay entry and all it learned, and its counter and
      history have only grown: it was neither erased nor reset. */
  ghost predicate Survives(db: Db, db': Db, id: Tid, p: Path) {
    && p in db && id in db[p].te && p in db' && id in db'[p].te
    && Learns(db[p].te[id], db'[p].te[id])
    && db[p].nextSeq <= db'[p].nextSeq && db[p].log <= db'[p].log
  }

  lemma SurvivesIdle(db: Db, id: Tid, p: Path)
    requires p in db && id in db[p].te
    ensures Survives(db, db, id, p)
  {
  }

  lemma SurvivesDirect(db: Db, op: Op, id: Tid, p: Path)
    requires DbOk(db) && Closed(Committed(db)) && p in db && id in db[p].te
    ensures Survives(db, Direct(db, op).0, id, p)
  {
    hide Direct, Closed, Committed;
    DirectIsStep(db, op);
    assert Get(Direct(db, op).0, p).te == Get(db, p).te && Commits(Get(db, p), Get(Direct(db, op).0, p));
  }

  lemma SurvivesOperation(db: Db, tid: Tid, op: Op, id: Tid, p: Path)
    requires DbOk(db) && p in db && id in db[p].te
    ensures Survives(db, InTransaction(db, tid, op).0, id, p)
  {
    hide InTransaction;
    InTransactionIsIsolated(db, tid, op);
    assert Overlays(Get(db, p), Get(InTransaction(db, tid, op).0, p), tid);
  }

  lemma SurvivesMerge(db: Db, other: Tid, version: Version, id: Tid, p: Path)
    requires DbOk(db) && CanMerge(db, other) && other != id && p in db && id in db[p].te
    ensures Survives(db, DoMerge(db, other, version), id, p)
  {
    var r := db[p];
    if other in r.te { MergedRecordSurvives(r, other, version, id); }
    hide MergeRecord, RecordOk, CanMergeRecord;
  }

  lemma MergedRecordSurvives(r: Record, other: Tid, version: Version, id: Tid)
    requires RecordOk(r) && other in r.te && CanMergeRecord(r, other) && id in r.te && id != other
    ensures var m := MergeRecord(r, other, version);
      m.Some? && id in m.value.te && m.value.te[id] == r.te[id] && r.nextSeq <= m.value.nextSeq && r.log <= m.value.log
  {
    hide Install, Settle, RecordOk, CanMergeRecord;
    assert id in r.te.Keys && r.te.Keys != {other};
    MergeRecordOk(r, other, version);
    InstallOk(r, other, version);
    InstallAdvances(r, other, version);
  }

  lemma InstallAdvances(r: Record, id: Tid, version: Version)
    requires id in r.te
    ensures r.nextSeq <= Install(r, id, version).nextSeq
  {
  }

  lemma SurvivesAbort(db: Db, other: Tid, id: Tid, p: Path)
    requires other != id && p in db && id in db[p].te
    ensures Survives(db, AbortAll(db, other), id, p)
  {
    assert id in Drop(db[p], other).te;
  }

  /** While a transaction runs, no record it touched is erased or reset, and its overlay forgets nothing. */
  lemma LiveOverlaySurvives(s: StoreState, j: Journal, ev: Event, version: Version, id: Tid, p: Path)
    requires Inv(s, j, version) && p in s.db && id in s.db[p].te && !Ends(ev, id)
    ensures Survives(s.db, Next(s, ev, version).0.db, id, p)
  {
    InvFacts(s, j, version);
    SurvivesIdle(s.db, id, p);
    hide Inv, DbOk, Closed, Committed, Direct, InTransaction, DoMerge, AbortAll, CanMerge, Survives;
    match ev {
      case DirectOp(op) => SurvivesDirect(s.db, op, id, p);
      case Branch =>
      case TransactionOp(tid, op) => SurvivesOperation(s.db, tid, op, id, p);
      case Merge(tid) =>
        SurvivesAbort(s.db, tid, id, p);
        if CanMerge(s.db, tid) { SurvivesMerge(s.db, tid, version, id, p); }
      case Abort(tid) => SurvivesAbort(s.db, tid, id, p);
    }
  }

  /** The same over any run in which it does not end. */
  lemma {:induction false} LiveOverlaySurvivesRun(s: StoreState, j: Journal, evs: seq<Event>, version: Version, id: Tid, p: Path)
    requires Inv(s, j, version) && p in s.db && id in s.db[p].te
    requires forall i | 0 <= i < |evs| :: !Ends(evs[i], id)
    ensures Survives(s.db, Run(s, evs, version).0.db, id, p)
    decreases |evs|
  {
    hide Inv, Next, Note;
    if evs != [] {
      assert !Ends(evs[0], id);
      LiveOverlaySurvives(s, j, evs[0], version, id, p);
      NextInv(s, j, evs[0], version);
      var (s', out) := Next(s, evs[0], version);
      LiveOverlaySurvivesRun(s', Note(j, evs[0], out), evs[1..], version, id, p);
    }
  }

  // ------------------------------------------------------------- repeatable reads

  predicate Reads(op: Op) { op.Read? || op.GetPerms? || op.GetChildren? }

  /** The reply to a reading operation, once the overlay entry holds all it needs. */
  function Answer(te: TEntry, op: Op): Reply
    requires Reads(op)
  {
    if !TValid(te) then Fail(ENOENT)
    else if !HasReadAccess(op.cid, te.perms) then Fail(EACCES)
    else match op
      case Read(_, _) => Value(te.value)
      case GetPerms(_, _) => PermList(te.perms)
      case GetChildren(_, _) => Children(TChildren(te))
  }

  ghost predicate Settled(te: TEntry, op: Op) {
    TValid(te) ==> te.readSeq != 0 && (op.GetChildren? && HasReadAccess(op.cid, te.perms) ==> te.readChildrenSeq != 0)
  }

  /** te' has learned more than te but holds the same writes and the same copies. */
  ghost predicate Steady(te: TEntry, te': TEntry) {
    && te'.writeSeq == te.writeSeq && te'.deleteSeq == te.deleteSeq
    && te'.childrenAdd == te.childrenAdd && te'.childrenRem == te.childrenRem
    && (te.readSeq != 0 ==> te'.readSeq != 0 && te'.value == te.value && te'.perms == te.perms)
    && (te.readChildrenSeq != 0 ==> te'.readChildrenSeq != 0 && te'.children == te.children)
  }

  /** The record a reading operation leaves. */
  function ReadingRecord(db: Db, id: Tid, op: Op): (r: Record)
    requires Reads(op)
    ensures id in r.te
    ensures InTransaction(db, id, op).0 == db[op.path := r]
  {
    var (r, reply) := LookIn(db, id, op.cid, op.path);
    if op.GetChildren? && reply.Done? then FetchChildren(r, id) else r
  }

  lemma FetchedOnce(r: Record, id: Tid)
    requires RecordOk(r) && id in r.te
    ensures var te := FetchData(r, id).te[id]; te.readSeq != 0 && (TValid(te) <==> TValid(r.te[id]))
    ensures var te := FetchChildren(FetchData(r, id), id).te[id];
      te.readSeq != 0 && te.readChildrenSeq != 0 && (TValid(te) <==> TValid(r.te[id])) && te.perms == FetchData(r, id).te[id].perms
  {
  }

  lemma ReadingSettles(db: Db, id: Tid, op: Op)
    requires DbOk(db) && Reads(op)
    ensures var te := ReadingRecord(db, id, op).te[id];
      Settled(te, op) && InTransaction(db, id, op).1 == Answer(te, op)
  {
    RefOk(db, id, op.path);
    FetchedOnce(Ref(db, id, op.path), id);
    match op {
      case Read(cid, p) => assert InTransaction(db, id, op) == ReadIn(db, id, cid, p);
      case GetPerms(cid, p) => assert InTransaction(db, id, op) == GetPermsIn(db, id, cid, p);
      case GetChildren(cid, p) => assert InTransaction(db, id, op) == ChildrenIn(db, id, cid, p);
    }
  }

  lemma ReadingSettled(db: Db, id: Tid, op: Op)
    requires Reads(op) && op.path in OverlayOf(db, id) && Settled(OverlayOf(db, id)[op.path], op)
    ensures InTransaction(db, id, op).1 == Answer(OverlayOf(db, id)[op.path], op)
  {
  }

  lemma FetchIsSteady(r: Record, id: Tid)
    requires RecordOk(r) && id in r.te
    ensures Steady(r.te[id], FetchData(r, id).te[id])
    ensures Steady(r.te[id], FetchChildren(r, id).te[id])
    ensures Steady(r.te[id], FetchChildren(FetchData(r, id), id).te[id])
  {
  }

  /** A reading operation leaves every overlay entry steady. */
  lemma ReadingIsSteady(db: Db, id: Tid, op: Op, p: Path)
    requires DbOk(db) && Reads(op) && p in OverlayOf(db, id)
    ensures var o' := OverlayOf(InTransaction(db, id, op).0, id);
      p in o' && Steady(OverlayOf(db, id)[p], o'[p])
  {
    OverlayOfPut(db, id, op.path, ReadingRecord(db, id, op));
    if p == op.path { FetchIsSteady(db[p], id); }
  }

  predicate NotAWriteOf(ev: Event, id: Tid) {
    match ev
    case TransactionOp(tid, op) => tid == id ==> Reads(op)
    case Merge(tid) => tid != id
    case Abort(tid) => tid != id
    case _ => true
  }

  /** The overlay can answer op, and in db' it gives the answer it gives in db. */
  ghost predicate SameAnswer(db: Db, db': Db, id: Tid, op: Op) {
    var o, o' := OverlayOf(db, id), OverlayOf(db', id);
    && Reads(op) && op.path in o && op.path in o' && Settled(o[op.path], op) && Settled(o'[op.path], op)
    && Answer(o'[op.path], op) == Answer(o[op.path], op)
  }

  lemma SteadyKeepsAnswer(te: TEntry, te': TEntry, op: Op)
    requires Reads(op) && Settled(te, op) && Steady(te, te')
    ensures Settled(te', op) && Answer(te', op) == Answer(te, op)
  {
  }

  lemma OwnReadKeepsAnswer(db: Db, id: Tid, read: Op, op: Op)
    requires DbOk(db) && Reads(read) && SameAnswer(db, db, id, op)
    ensures SameAnswer(db, InTransaction(db, id, read).0, id, op)
  {
    ReadingIsSteady(db, id, read, op.path);
    hide DbOk, InTransaction, OverlayOf, Steady, Settled, Answer;
    SteadyKeepsAnswer(OverlayOf(db, id)[op.path], OverlayOf(InTransaction(db, id, read).0, id)[op.path], op);
  }

  /** Once answered, the overlay gives the reply again. */
  lemma ReadIsAnswered(db: Db, id: Tid, op: Op)
    requires DbOk(db) && Reads(op)
    ensures var (db', reply) := InTransaction(db, id, op);
      SameAnswer(db', db', id, op) && Answer(OverlayOf(db', id)[op.path], op) == reply
  {
    ReadingSettles(db, id, op);
    OverlayOfPut(db, id, op.path, ReadingRecord(db, id, op));
    hide DbOk, InTransaction, OverlayOf, Settled, Answer;
  }

  lemma SameAnswerChains(a: Db, b: Db, id: Tid, op: Op)
    requires SameAnswer(a, b, id, op)
    ensures SameAnswer(b, b, id, op)
    ensures forall c | SameAnswer(b, c, id, op) :: SameAnswer(a, c, id, op)
  {
    hide OverlayOf, Settled, Answer;
  }

  lemma StaysSettled(s: StoreState, j: Journal, ev: Event, version: Version, id: Tid, op: Op)
    requires Inv(s, j, version) && NotAWriteOf(ev, id) && SameAnswer(s.db, s.db, id, op)
    ensures SameAnswer(s.db, Next(s, ev, version).0.db, id, op)
  {
    InvFacts(s, j, version);
    if ev.TransactionOp? && ev.tid == id {
      if id in s.trans { OwnReadKeepsAnswer(s.db, id, ev.op, op); }
    } else {
      hide Inv, Next, OverlayOf, Answer, Settled;
      Isolation(s, j, ev, version);
    }
  }

  lemma {:induction false} StaysSettledOverRun(s: StoreState, j: Journal, evs: seq<Event>, version: Version, id: Tid, op: Op)
    requires Inv(s, j, version) && SameAnswer(s.db, s.db, id, op)
    requires forall i | 0 <= i < |evs| :: NotAWriteOf(evs[i], id)
    ensures SameAnswer(s.db, Run(s, evs, version).0.db, id, op)
    decreases |evs|
  {
    hide Inv, Next, Note, SameAnswer, NotAWriteOf;
    if evs != [] {
      StaysSettled(s, j, evs[0], version, id, op);
      NextInv(s, j, evs[0], version);
      var (s', out) := Next(s, evs[0], version);
      SameAnswerChains(s.db, s'.db, id, op);
      StaysSettledOverRun(s', Note(j, evs[0], out), evs[1..], version, id, op);
    }
  }

  /** Repeatable reads: between two equal reading operations of a transaction that wrote nothing in
      between, other clients may write, delete and commit at will, and the reply is the same. */
  lemma RepeatableReads(s: StoreState, j: Journal, id: Tid, op: Op, evs: seq<Event>, version: Version)
    requires Inv(s, j, version) && id in s.trans && Reads(op)
    requires forall i | 0 <= i < |evs| :: NotAWriteOf(evs[i], id)
    ensures var (s1, first) := Next(s, TransactionOp(id, op), version);
      var s2 := Run(s1, evs, version).0;
      InTransaction(s2.db, id, op).1 == first.reply
  {
    InvFacts(s, j, version);
    hide Inv, DbOk, Committed, Closed, InTransaction, Note, Run, OverlayOf, Answer, Settled, NotAWriteOf;
    var (s1, first) := Next(s, TransactionOp(id, op), version);
    NextInv(s, j, TransactionOp(id, op), version);
    ReadIsAnswered(s.db, id, op);
    StaysSettledOverRun(s1, Note(j, TransactionOp(id, op), first), evs, version, id, op);
    ReadingSettled(Run(s1, evs, version).0.db, id, op);
  }

  // ------------------------------------------------------------- the shipped do_merge

  /** In every state that the shipped code reaches, a merge gives the serial result exactly when the
      transaction ends with no entry deleted that it found valid; and always that result with the
      committed nodes it lacks. */
  lemma ShippedMergeIsSerialExactlyWhen(s: StoreState, j: Journal, tid: Tid)
    requires Inv(s, j, Shipped) && tid in s.trans && CanMerge(s.db, tid)
    ensures var S, t' := Committed(s.db), Committed(DoMerge(s.db, tid, Shipped));
      && (Explains(S, j.running[tid], t') <==> !DeletesCommitted(s.db, tid))
      && t' == S + Replay(S, Ops(j.running[tid])).0
  {
    var t := Replay(Committed(s.db), Ops(j.running[tid])).0;
    CommitIsSerial(s, j, tid, Shipped);
    ShippedLosesDeletes(s.db, tid, t);
  }

  /** When a shipped commit keeps the tree well-formed, decided before the call: if and only if no entry
      that the transaction found valid ends deleted under a parent that it sees as valid. */
  lemma ShippedMergeKeepsTreeExactlyWhen(s: StoreState, j: Journal, tid: Tid)
    requires Inv(s, j, Shipped) && tid in s.trans && CanMerge(s.db, tid) && WellFormed(Committed(s.db))
    ensures WellFormed(Committed(DoMerge(s.db, tid, Shipped))) <==> !DeletesUnderParent(s.db, tid)
  {
    var S := Committed(s.db);
    var t := Replay(S, Ops(j.running[tid])).0;
    InvFacts(s, j, Shipped);
    CommitIsSerial(s, j, tid, Shipped);
    ReplayKeepsTree(S, Ops(j.running[tid]));
    InstalledKeepsTree(S, t);
    OrphansAreDeletesUnderParent(s.db, tid, t);
  }

  /** The events that can leave an orphan are the successful merges with that guard. */
  predicate KeepsTree(s: StoreState, ev: Event) {
    ev.Merge? && ev.tid in s.trans && CanMerge(s.db, ev.tid) ==> !DeletesUnderParent(s.db, ev.tid)
  }

  lemma EventKeepsTreeExactlyWhen(s: StoreState, j: Journal, ev: Event)
    requires Inv(s, j, Shipped) && WellFormed(Committed(s.db))
    ensures WellFormed(Committed(Next(s, ev, Shipped).0.db)) <==> KeepsTree(s, ev)
  {
    InvFacts(s, j, Shipped);
    if ev.Merge? && ev.tid in s.trans && CanMerge(s.db, ev.tid) {
      ShippedMergeKeepsTreeExactlyWhen(s, j, ev.tid);
    } else if ev.DirectOp? {
      DirectIsStep(s.db, ev.op);
      StepKeepsTree(Committed(s.db), ev.op);
    } else {
      Isolation(s, j, ev, Shipped);
    }
  }

  predicate KeepsTreeRun(s: StoreState, evs: seq<Event>)
    decreases |evs|
  {
    evs == [] || (KeepsTree(s, evs[0]) && KeepsTreeRun(Next(s, evs[0], Shipped).0, evs[1..]))
  }

  ghost predicate EndsWellFormed(s: StoreState, evs: seq<Event>) {
    WellFormed(Committed(Run(s, evs, Shipped).0.db))
  }

  /** When a shipped run keeps the tree well-formed throughout: if and only if no merge in it meets the guard. */
  lemma {:induction false} ShippedRunKeepsTreeExactlyWhen(s: StoreState, j: Journal, evs: seq<Event>)
    requires Inv(s, j, Shipped) && WellFormed(Committed(s.db))
    ensures KeepsTreeRun(s, evs) <==> forall k | 0 <= k <= |evs| :: EndsWellFormed(s, evs[..k])
    decreases |evs|
  {
    assert EndsWellFormed(s, evs[..0]);
    if evs != [] {
      hide Inv, Next, Note, WellFormed, EndsWellFormed, KeepsTree;
      var (s', out) := Next(s, evs[0], Shipped);
      EventKeepsTreeExactlyWhen(s, j, evs[0]);
      NextInv(s, j, evs[0], Shipped);
      forall k: nat | k < |evs| ensures EndsWellFormed(s, evs[..k + 1]) <==> EndsWellFormed(s', evs[1..][..k]) {
        EndsAfterFirst(s, evs, k);
      }
      assert EndsWellFormed(s', evs[1..][..0]) <==> WellFormed(Committed(s'.db)) by { NothingRun(s', evs[1..]); }
      if KeepsTree(s, evs[0]) { ShippedRunKeepsTreeExactlyWhen(s', Note(j, evs[0], out), evs[1..]); }
      Shifted(s, s', evs);
    }
  }

  lemma EndsAfterFirst(s: StoreState, evs: seq<Event>, k: nat)
    requires k < |evs|
    ensures EndsWellFormed(s, evs[..k + 1]) <==> EndsWellFormed(Next(s, evs[0], Shipped).0, evs[1..][..k])
  {
    hide Next, WellFormed;
    assert evs[..k + 1][1..] == evs[1..][..k];
  }

  lemma NothingRun(s: StoreState, evs: seq<Event>)
    ensures EndsWellFormed(s, evs[..0]) <==> WellFormed(Committed(s.db))
  {
  }

  lemma Shifted(s: StoreState, s': StoreState, evs: seq<Event>)
    requires evs != [] && EndsWellFormed(s, evs[..0])
    requires forall k: nat | k < |evs| :: EndsWellFormed(s, evs[..k + 1]) <==> EndsWellFormed(s', evs[1..][..k])
    ensures (forall k | 0 <= k <= |evs| :: EndsWellFormed(s, evs[..k]))
       <==> (forall k | 0 <= k <= |evs| - 1 :: EndsWellFormed(s', evs[1..][..k]))
  {
    hide EndsWellFormed;
    if forall k | 0 <= k <= |evs| :: EndsWellFormed(s, evs[..k]) {
      forall k | 0 <= k <= |evs| - 1 ensures EndsWellFormed(s', evs[1..][..k]) { assert EndsWellFormed(s, evs[..k + 1]); }
    }
    if forall k | 0 <= k <= |evs| - 1 :: EndsWellFormed(s', evs[1..][..k]) {
      forall k | 0 <= k <= |evs| ensures EndsWellFormed(s, evs[..k]) {
        if k > 0 { assert EndsWellFormed(s', evs[1..][..k - 1]); assert evs[..k - 1 + 1] == evs[..k]; }
      }
    }
  }

  lemma UntouchedSimulates(S: Tree, db: Db, id: Tid)
    requires OverlayOf(db, id) == map[]
    ensures CanMerge(db, id) && Shows(S, db, id, S)
  {
    forall p | p in db ensures id !in db[p].te { assert p !in OverlayOf(db, id); }
  }

  /** A transaction whose only operation deletes an existing entry always passes validation. */
  lemma LoneDeleteMerges(db: Db, id: Tid, cid: nat, p: Path)
    requires DbOk(db) && Closed(Committed(db)) && OverlayOf(db, id) == map[]
    requires p in Committed(db) && HasWriteAccess(cid, Committed(db)[p].perms)
    ensures var (db', reply) := InTransaction(db, id, Delete(cid, p));
      && reply == Done && CanMerge(db', id) && DbOk(db') && Committed(db') == Committed(db)
      && Shows(Committed(db'), db', id, RemoveBranch(Committed(db), p))
  {
    var db' := InTransaction(db, id, Delete(cid, p)).0;
    InTransactionIsIsolated(db, id, Delete(cid, p));
    UntouchedSimulates(Committed(db), db, id);
    OperationsKeepVerdict(db, id, Delete(cid, p), id);
    ValidatedIsCompatible(db', id);
    InTransactionIsStep(Committed(db), db, id, Delete(cid, p), Committed(db));
  }

  lemma LoneDeleteInstalled(db: Db, id: Tid, p: Path, version: Version)
    requires DbOk(db) && CanMerge(db, id) && p in Committed(db)
    requires Shows(Committed(db), db, id, RemoveBranch(Committed(db), p))
    ensures var t := Committed(DoMerge(db, id, version));
      && t == Installed(version, Committed(db), RemoveBranch(Committed(db), p))
      && (version.Shipped? ==> p in t && t[p] == Committed(db)[p])
  {
    CommitInstallsView(db, id, version, RemoveBranch(Committed(db), p));
  }

  /** As shipped, the delete of every such transaction is lost: it is acknowledged, the merge succeeds,
      and the entry is still there.  Repaired, the entry and its branch are gone. */
  lemma ShippedDeleteIsLost(s: StoreState, j: Journal, cid: nat, p: Path, version: Version)
    requires Inv(s, j, version) && p in Committed(s.db) && HasWriteAccess(cid, Committed(s.db)[p].perms)
    ensures var id := s.nextTid;
      var (s1, out1) := Next(s, Branch, version);
      var (s2, out2) := Next(s1, TransactionOp(id, Delete(cid, p)), version);
      var (s3, out3) := Next(s2, Merge(id), version);
      && out1 == Branched(id) && out2 == Replied(Done) && out3 == Merged(true)
      && Committed(s3.db) == Installed(version, Committed(s.db), RemoveBranch(Committed(s.db), p))
      && (version.Shipped? ==> p in Committed(s3.db) && Committed(s3.db)[p] == Committed(s.db)[p])
  {
    var id := s.nextTid;
    var db' := InTransaction(s.db, id, Delete(cid, p)).0;
    assert OverlayOf(s.db, id) == map[] by {
      assert id !in s.trans;
    }
    LoneDeleteMerges(s.db, id, cid, p);
    LoneDeleteInstalled(db', id, p, version);
    LoneDeleteSteps(s, id, Delete(cid, p), db', version);
  }

  /** What a lost delete leaves: the node is still there and its parent, if there, no longer lists it. */
  lemma LostDeleteLeavesOrphan(s: StoreState, j: Journal, cid: nat, p: Path)
    requires Inv(s, j, Shipped) && p.Sub? && p in Committed(s.db) && HasWriteAccess(cid, Committed(s.db)[p].perms)
    ensures var s1 := Next(s, Branch, Shipped).0;
      var s2 := Next(s1, TransactionOp(s.nextTid, Delete(cid, p)), Shipped).0;
      var t := Committed(Next(s2, Merge(s.nextTid), Shipped).0.db);
      p in t && !Hangs(t, p)
  {
    var S := Committed(s.db);
    ShippedDeleteIsLost(s, j, cid, p, Shipped);
    NotBelowItself(p);
    assert RemoveBranch(S, p).Keys <= S.Keys;
  }

  lemma LoneDeleteSteps(s: StoreState, id: Tid, op: Op, db': Db, version: Version)
    requires id == s.nextTid && InTransaction(s.db, id, op) == (db', Done) && CanMerge(db', id)
    ensures Next(s, Branch, version).1 == Branched(id)
    ensures var s1 := Next(s, Branch, version).0;
      && Next(s1, TransactionOp(id, op), version) == (s1.(db := db'), Replied(Done))
      && Next(s1.(db := db'), Merge(id), version).0.db == DoMerge(db', id, version)
      && Next(s1.(db := db'), Merge(id), version).1 == Merged(true)
  {
  }

  const ENTRY := Sub(Root(""), "a")

  /** The concrete run: create /a, delete it in a transaction, merge, read it back. */
  lemma ShippedDeleteExample(version: Version)
    ensures Run(INITIAL,
        [DirectOp(Create(0, ENTRY)), Branch, TransactionOp(1, Delete(0, ENTRY)), Merge(1), DirectOp(Read(0, ENTRY))],
        version).1 ==
      [Replied(Created(true)), Branched(1), Replied(Done), Merged(true),
       Replied(if version.Shipped? then Value("") else Fail(ENOENT))]
  {
    var s1 := Next(INITIAL, DirectOp(Create(0, ENTRY)), version).0;
    ExampleStart(version);
    ShippedDeleteIsLost(s1, Note(UNWRITTEN, DirectOp(Create(0, ENTRY)), Replied(Created(true))), 0, ENTRY, version);
    var s2 := Next(s1, Branch, version).0;
    var s3 := Next(s2, TransactionOp(1, Delete(0, ENTRY)), version).0;
    var s4 := Next(s3, Merge(1), version).0;
    assert version.Repaired? ==> ENTRY !in Committed(s4.db);
    CommittedAt(s4.db, ENTRY);
    hide Inv, Committed, Installed, DoMerge, InTransaction, CreateDirect, Note;
    assert Next(s4, DirectOp(Read(0, ENTRY)), version).1 == Replied(if version.Shipped? then Value("") else Fail(ENOENT));
    RunOfFive(INITIAL, DirectOp(Create(0, ENTRY)), Branch, TransactionOp(1, Delete(0, ENTRY)), Merge(1),
              DirectOp(Read(0, ENTRY)), version);
  }

  lemma ExampleStart(version: Version)
    ensures var (s, out) := Next(INITIAL, DirectOp(Create(0, ENTRY)), version);
      && Inv(s, Note(UNWRITTEN, DirectOp(Create(0, ENTRY)), out), version)
      && out == Replied(Created(true)) && s.nextTid == 1
      && ENTRY in Committed(s.db) && Committed(s.db)[ENTRY] == Node("", DEFAULT_PERMS, {})
  {
    InitialInv(version);
    DirectInv(INITIAL, UNWRITTEN, Create(0, ENTRY), version);
    DirectIsStep(map[], Create(0, ENTRY));
    assert Committed(map[]) == map[];
    AddNodeExact(map[], ENTRY, "");
    assert AddNode(map[], ENTRY, "")[ENTRY] == Node("", DEFAULT_PERMS, {});
  }

  lemma RunCons(s: StoreState, ev: Event, rest: seq<Event>, version: Version)
    ensures var (s', out) := Next(s, ev, version);
      Run(s, [ev] + rest, version) == (Run(s', rest, version).0, [out] + Run(s', rest, version).1)
  {
  }

  lemma RunOfFive(s: StoreState, a: Event, b: Event, c: Event, d: Event, e: Event, version: Version)
    ensures var (s1, o1) := Next(s, a, version);
      var (s2, o2) := Next(s1, b, version);
      var (s3, o3) := Next(s2, c, version);
      var (s4, o4) := Next(s3, d, version);
      Run(s, [a, b, c, d, e], version).1 == [o1, o2, o3, o4, Next(s4, e, version).1]
  {
    var s1 := Next(s, a, version).0;
    var s2 := Next(s1, b, version).0;
    var s3 := Next(s2, c, version).0;
    var s4 := Next(s3, d, version).0;
    assert [a, b, c, d, e] == [a] + [b, c, d, e] && [b, c, d, e] == [b] + [c, d, e];
    assert [c, d, e] == [c] + [d, e] && [d, e] == [d] + [e] && [e] == [e] + [];
    RunCons(s, a, [b, c, d, e], version);
    RunCons(s1, b, [c, d, e], version);
    RunCons(s2, c, [d, e], version);
    RunCons(s3, d, [e], version);
    RunCons(s4, e, [], version);
  }
}
