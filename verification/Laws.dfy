/**
 What permissions and operations mean to clients, said without the definitions that the accessors and the
 serial meaning share: who may read and write, what each operation answers and leaves, and what is read
 back afterwards.
 */
module Laws {
  import opened Paths
  import opened Tree
  import opened SimpleAccess
  import opened Commit
  import opened Runs
  import D = Database
  import T = Transaction
  import opened Guarantees

  // ------------------------------------------------------------- access

  /** The lists name the same clients with the same read bits. */
  predicate SameReadBits(perms: Perms, perms': Perms) {
    |perms| == |perms'| && forall i | 0 <= i < |perms| :: perms'[i].cid == perms[i].cid && perms'[i].read == perms[i].read
  }

  predicate SameWriteBits(perms: Perms, perms': Perms) {
    |perms| == |perms'| && forall i | 0 <= i < |perms| :: perms'[i].cid == perms[i].cid && perms'[i].write == perms[i].write
  }

  /** Reading is decided by the read bits alone. */
  lemma ReadIgnoresWriteBits(cid: nat, perms: Perms, perms': Perms)
    requires SameReadBits(perms, perms')
    ensures HasReadAccess(cid, perms') <==> HasReadAccess(cid, perms)
  {
    if p :| p in perms && p.cid == cid && p.read {
      var i :| 0 <= i < |perms| && perms[i] == p;
      assert perms'[i] in perms' && perms'[i].cid == cid && perms'[i].read;
    }
    if p :| p in perms' && p.cid == cid && p.read {
      var i :| 0 <= i < |perms'| && perms'[i] == p;
      assert perms[i] in perms && perms[i].cid == cid && perms[i].read;
    }
  }

  /** Writing is decided by the write bits alone. */
  lemma WriteIgnoresReadBits(cid: nat, perms: Perms, perms': Perms)
    requires SameWriteBits(perms, perms')
    ensures HasWriteAccess(cid, perms') <==> HasWriteAccess(cid, perms)
  {
    if p :| p in perms && p.cid == cid && p.write {
      var i :| 0 <= i < |perms| && perms[i] == p;
      assert perms'[i] in perms' && perms'[i].cid == cid && perms'[i].write;
    }
    if p :| p in perms' && p.cid == cid && p.write {
      var i :| 0 <= i < |perms'| && perms'[i] == p;
      assert perms[i] in perms && perms[i].cid == cid && perms[i].write;
    }
  }

  /** Client 0 and the owner, whom the first entry names, always pass; without a list everybody does. */
  lemma OwnerPasses(cid: nat, perms: Perms)
    requires cid == 0 || perms == [] || perms[0].cid == cid
    ensures HasReadAccess(cid, perms) && HasWriteAccess(cid, perms)
  {
  }

  /** A client that the list does not name gets what the first entry gives. */
  lemma OthersGetTheDefault(cid: nat, perms: Perms)
    requires cid != 0 && perms != [] && forall p <- perms :: p.cid != cid
    ensures HasReadAccess(cid, perms) <==> perms[0].read
    ensures HasWriteAccess(cid, perms) <==> perms[0].write
  {
    assert perms[0] in perms;
  }

  /** One more entry grants its client its bits, takes nothing away, and is nothing to anybody else. */
  lemma EntryGrants(cid: nat, perms: Perms, p: Permission)
    requires perms != []
    ensures HasReadAccess(cid, perms + [p]) <==> HasReadAccess(cid, perms) || (cid == p.cid && p.read)
    ensures HasWriteAccess(cid, perms + [p]) <==> HasWriteAccess(cid, perms) || (cid == p.cid && p.write)
  {
    var more := perms + [p];
    assert more[0] == perms[0] && p in more;
    assert forall q :: q in more <==> q in perms || q == p;
  }

  /** What a root is created with lets in nobody but client 0. */
  lemma RootsAreClosed(cid: nat)
    ensures DEFAULT_PERMS == [Permission(0, false, false)]
    ensures (HasReadAccess(cid, DEFAULT_PERMS) <==> cid == 0) && (HasWriteAccess(cid, DEFAULT_PERMS) <==> cid == 0)
  {
    if cid != 0 { OthersGetTheDefault(cid, DEFAULT_PERMS); }
  }

  // ------------------------------------------------------------- operations

  /** The reading operations answer what is there, to those who may read, and change nothing. */
  lemma ReadingLaw(t: Tree, cid: nat, p: Path)
    ensures Step(t, Read(cid, p)).0 == Step(t, GetPerms(cid, p)).0 == Step(t, GetChildren(cid, p)).0 == t
    ensures p !in t ==>
      Step(t, Read(cid, p)).1 == Step(t, GetPerms(cid, p)).1 == Step(t, GetChildren(cid, p)).1 == Fail(ENOENT)
    ensures p in t && !HasReadAccess(cid, t[p].perms) ==>
      Step(t, Read(cid, p)).1 == Step(t, GetPerms(cid, p)).1 == Step(t, GetChildren(cid, p)).1 == Fail(EACCES)
    ensures p in t && HasReadAccess(cid, t[p].perms) ==>
      && Step(t, Read(cid, p)).1 == Value(t[p].value)
      && Step(t, GetPerms(cid, p)).1 == PermList(t[p].perms)
      && Step(t, GetChildren(cid, p)).1 == Children(t[p].children)
  {
  }

  /** The permissions of a node made at p: its parent's, or a root's. */
  ghost predicate MadeAt(t: Tree, p: Path, value: string) {
    && p in t && t[p].value == value && t[p].children == {}
    && t[p].perms == (if p.Sub? then if p.parent in t then t[p.parent].perms else [] else [Permission(0, false, false)])
    && (p.Sub? ==> p.parent in t && p.name in t[p.parent].children)
  }

  /** Nodes that are there keep their value, permissions and the children they list. */
  ghost predicate Keeps(t: Tree, t': Tree) {
    forall q | q in t :: q in t' && t'[q].value == t[q].value && t'[q].perms == t[q].perms && t[q].children <= t'[q].children
  }

  lemma {:induction false} MakingKeeps(t: Tree, p: Path, value: string)
    requires p !in t
    ensures MadeAt(AddNode(t, p, value), p, value) && Keeps(t, AddNode(t, p, value))
  {
    NotBelowItself(p);
    if p.Sub? && p.parent !in t { MakingKeeps(t, p.parent, ""); }
  }

  /** create answers whether it made the node, and makes it empty. */
  lemma CreateLaw(t: Tree, cid: nat, p: Path)
    ensures var (t', reply) := Step(t, Create(cid, p));
      && (p in t ==> reply == Created(false) && t' == t)
      && (p !in t ==> reply == Created(true) && MadeAt(t', p, "") && Keeps(t, t') && Step(t', Read(0, p)).1 == Value(""))
  {
    if p !in t { MakingKeeps(t, p, ""); }
    OwnerPasses(0, Step(t, Create(cid, p)).0[p].perms);
  }

  /** update sets the value and nothing else of a node that is there, makes one that is not, and is refused
      exactly to those who may not write. */
  lemma UpdateLaw(t: Tree, cid: nat, p: Path, value: string)
    ensures var (t', reply) := Step(t, Update(cid, p, value));
      if p in t && !HasWriteAccess(cid, t[p].perms) then reply == Fail(EACCES) && t' == t
      else
        && reply == Done && p in t' && Step(t', Read(0, p)).1 == Value(value)
        && (p in t ==> t'.Keys == t.Keys && t'[p].perms == t[p].perms && t'[p].children == t[p].children)
        && (p in t ==> forall q | q in t && q != p :: t'[q] == t[q])
        && (p !in t ==> MadeAt(t', p, value) && Keeps(t, t'))
  {
    if p !in t { MakingKeeps(t, p, value); }
    var t' := Step(t, Update(cid, p, value)).0;
    OwnerPasses(0, t'[p].perms);
  }

  /** set_perms sets the permissions and nothing else, of a node that is there, for those who may write. */
  lemma SetPermsLaw(t: Tree, cid: nat, p: Path, perms: Perms)
    ensures var (t', reply) := Step(t, SetPerms(cid, p, perms));
      if p !in t then reply == Fail(ENOENT) && t' == t
      else if !HasWriteAccess(cid, t[p].perms) then reply == Fail(EACCES) && t' == t
      else
        && reply == Done && t'.Keys == t.Keys && Step(t', GetPerms(0, p)).1 == PermList(perms)
        && t'[p].value == t[p].value && t'[p].children == t[p].children
        && forall q | q in t && q != p :: t'[q] == t[q]
  {
    if p in t { OwnerPasses(0, perms); }
  }

  /** del removes the branch, for those who may write. */
  lemma DeleteLaw(t: Tree, cid: nat, p: Path)
    requires WellFormed(t)
    ensures var (t', reply) := Step(t, Delete(cid, p));
      if p !in t then reply == Fail(ENOENT) && t' == t
      else if !HasWriteAccess(cid, t[p].perms) then reply == Fail(EACCES) && t' == t
      else
        && reply == Done && Step(t', Read(0, p)).1 == Fail(ENOENT)
        && (forall q :: q in t' <==> q in t && q != p && !Below(q, p))
        && (forall q | q in t' :: t'[q].value == t[q].value && t'[q].perms == t[q].perms)
        && (forall q | q in t' :: t'[q].children == if p.Sub? && q == p.parent then t[q].children - {p.name} else t[q].children)
  {
    if p in t { RemoveBranchExact(t, p); }
  }

  // ------------------------------------------------------------- what transactions are held to

  predicate DataFetched(db: D.Db, id: D.Tid, p: Path) {
    p in db && id in db[p].te && db[p].te[id].readSeq != 0
  }

  predicate ListFetched(db: D.Db, id: D.Tid, p: Path) {
    p in db && id in db[p].te && db[p].te[id].readChildrenSeq != 0
  }

  /** What an operation on an entry that is there makes a transaction depend on: create on its being there,
      the others also on its data, get_children, to those who may read, also on its list; and on no other
      entry.  On an entry that is not there the reading ones depend on its absence only. */
  lemma FootprintLaw(db: D.Db, id: D.Tid, op: Op, q: Path)
    requires DbOk(db) && !op.Delete?
    requires (op.Create? || op.Update?) ==> T.ValidFor(D.Get(db, op.path), id)
    ensures var p, db' := op.path, T.InTransaction(db, id, op).0; var there := T.ValidFor(D.Get(db, p), id);
      && (q in db' && id in db'[q].te <==> (q in db && id in db[q].te) || q == p)
      && (DataFetched(db', id, q) <==> DataFetched(db, id, q) || (q == p && there && !op.Create?))
      && (ListFetched(db', id, q) <==> ListFetched(db, id, q) || (q == p && there && op.GetChildren? && MayReadIn(db', id, op)))
  {
    OneRecord(db, id, op);
    RecordFootprint(db, id, op);
    hide T.InTransaction, T.ValidFor, HasReadAccess;
  }

  /** Such an operation leaves every other record alone. */
  lemma OneRecord(db: D.Db, id: D.Tid, op: Op)
    requires !op.Delete? && ((op.Create? || op.Update?) ==> T.ValidFor(D.Get(db, op.path), id))
    ensures var db' := T.InTransaction(db, id, op).0; op.path in db' && db' == db[op.path := db'[op.path]]
  {
    assert (op.Create? || op.Update?) ==> D.TValid(T.Ref(db, id, op.path).te[id]);
    hide D.FetchData, D.FetchChildren, D.TWrite, D.Touch, HasReadAccess, HasWriteAccess;
    match op {
      case Create(_, p) => assert T.InTransaction(db, id, op).0 == db[p := T.Ref(db, id, p)];
      case _ =>
    }
  }

  ghost predicate FootprintAt(db: D.Db, id: D.Tid, op: Op) {
    var p, db' := op.path, T.InTransaction(db, id, op).0;
    var there := T.ValidFor(D.Get(db, p), id);
    && p in db' && id in db'[p].te
    && (DataFetched(db', id, p) <==> DataFetched(db, id, p) || (there && !op.Create?))
    && (ListFetched(db', id, p) <==> ListFetched(db, id, p) || (there && op.GetChildren? && MayReadIn(db', id, op)))
  }

  lemma RecordFootprint(db: D.Db, id: D.Tid, op: Op)
    requires DbOk(db) && !op.Delete? && ((op.Create? || op.Update?) ==> T.ValidFor(D.Get(db, op.path), id))
    ensures FootprintAt(db, id, op)
  {
    if op.Create? {
      RefFootprint(db, id, op.path);
      hide D.Touch;
      assert T.InTransaction(db, id, op).0 == db[op.path := T.Ref(db, id, op.path)];
    } else if op.Update? || op.SetPerms? {
      WritersFootprint(db, id, op);
    } else {
      ReadersFootprint(db, id, op);
    }
  }

  lemma RefFootprint(db: D.Db, id: D.Tid, p: Path)
    requires DbOk(db)
    ensures var r := T.Ref(db, id, p);
      && D.RecordOk(r) && (D.TValid(r.te[id]) <==> T.ValidFor(D.Get(db, p), id))
      && (r.te[id].readSeq != 0 <==> DataFetched(db, id, p))
      && (r.te[id].readChildrenSeq != 0 <==> ListFetched(db, id, p))
  {
    T.RefOk(db, id, p);
    GetOk(db, p);
    TouchFootprint(D.Get(db, p), id);
    hide D.Touch, DbOk;
  }

  /** The record an operation leaves at its path decides. */
  lemma FootprintOfRecord(db: D.Db, id: D.Tid, op: Op, x: D.Record)
    requires T.InTransaction(db, id, op).0 == db[op.path := x] && id in x.te
    requires var there := T.ValidFor(D.Get(db, op.path), id);
      && (x.te[id].readSeq != 0 <==> DataFetched(db, id, op.path) || (there && !op.Create?))
      && (x.te[id].readChildrenSeq != 0 <==>
            ListFetched(db, id, op.path) || (there && op.GetChildren? && HasReadAccess(op.cid, x.te[id].perms)))
    ensures FootprintAt(db, id, op)
  {
    hide T.InTransaction, T.ValidFor, HasReadAccess;
  }

  lemma ReadingRecordIs(db: D.Db, id: D.Tid, op: Op)
    requires op.Read? || op.GetPerms? || op.GetChildren?
    ensures var r := T.Ref(db, id, op.path); var d := D.FetchData(r, id);
      ReadingRecord(db, id, op) ==
        if !D.TValid(r.te[id]) then r
        else if op.GetChildren? && HasReadAccess(op.cid, d.te[id].perms) then D.FetchChildren(d, id) else d
  {
  }

  lemma ReadersFootprint(db: D.Db, id: D.Tid, op: Op)
    requires DbOk(db) && (op.Read? || op.GetPerms? || op.GetChildren?)
    ensures FootprintAt(db, id, op)
  {
    var p := op.path;
    var r := T.Ref(db, id, p);
    RefFootprint(db, id, p);
    FetchFootprint(r, id);
    FetchFootprint(D.FetchData(r, id), id);
    var x := ReadingRecord(db, id, op);
    ReadingRecordIs(db, id, op);
    hide ReadingRecord, D.FetchData, D.FetchChildren, D.Touch, HasReadAccess, DbOk, D.RecordOk, DataFetched, ListFetched, T.ValidFor,
         T.InTransaction, FootprintAt;
    FootprintOfRecord(db, id, op, x);
  }

  /** The record that update, of an entry that is there, and set_perms leave. */
  function WritingRecord(db: D.Db, id: D.Tid, op: Op): (x: D.Record)
    requires (op.Update? && T.ValidFor(D.Get(db, op.path), id)) || op.SetPerms?
    ensures id in x.te && T.InTransaction(db, id, op).0 == db[op.path := x]
  {
    var r := T.Ref(db, id, op.path);
    if !D.TValid(r.te[id]) then r
    else
      var x := D.FetchData(r, id);
      if !HasWriteAccess(op.cid, x.te[id].perms) then x
      else if op.Update? then D.TWrite(x, id, op.value, x.te[id].perms)
      else D.TWrite(x, id, x.te[id].value, op.perms)
  }

  lemma WritersFootprint(db: D.Db, id: D.Tid, op: Op)
    requires DbOk(db) && ((op.Update? && T.ValidFor(D.Get(db, op.path), id)) || op.SetPerms?)
    ensures FootprintAt(db, id, op)
  {
    var p := op.path;
    var r := T.Ref(db, id, p);
    RefFootprint(db, id, p);
    FetchFootprint(r, id);
    var d := D.FetchData(r, id);
    var x := WritingRecord(db, id, op);
    if op.Update? { WriteFootprint(d, id, op.value, d.te[id].perms); } else { WriteFootprint(d, id, d.te[id].value, op.perms); }
    hide D.FetchData, D.TWrite, D.Touch, HasWriteAccess, DbOk, D.RecordOk, DataFetched, ListFetched, T.ValidFor,
         T.InTransaction, FootprintAt;
    FootprintOfRecord(db, id, op, x);
  }

  predicate MayReadIn(db: D.Db, id: D.Tid, op: Op) {
    op.path in db && id in db[op.path].te && HasReadAccess(op.cid, db[op.path].te[id].perms)
  }

  /** Touching fetches nothing. */
  lemma TouchFootprint(r: D.Record, id: D.Tid)
    requires D.RecordOk(r)
    ensures var te := D.Touch(r, id).te[id];
      && (D.TValid(te) <==> T.ValidFor(r, id))
      && (te.readSeq != 0 <==> id in r.te && r.te[id].readSeq != 0)
      && (te.readChildrenSeq != 0 <==> id in r.te && r.te[id].readChildrenSeq != 0)
  {
  }

  /** Fetching fetches what it says. */
  lemma FetchFootprint(r: D.Record, id: D.Tid)
    requires D.RecordOk(r) && id in r.te
    ensures var d := D.FetchData(r, id);
      D.RecordOk(d) && d.te[id].readSeq != 0 && d.te[id].readChildrenSeq == r.te[id].readChildrenSeq
    ensures var l := D.FetchChildren(r, id);
      l.te[id].readChildrenSeq != 0 && l.te[id].readSeq == r.te[id].readSeq && l.te[id].perms == r.te[id].perms
  {
    D.FetchDataOk(r, id);
    assert D.TEntryOk(r, r.te[id]);
  }

  lemma WriteFootprint(r: D.Record, id: D.Tid, value: string, perms: Perms)
    requires id in r.te
    ensures var w := D.TWrite(r, id, value, perms);
      w.te[id].readSeq == r.te[id].readSeq && w.te[id].readChildrenSeq == r.te[id].readChildrenSeq
  {
  }

  // ------------------------------------------------------------- what is kept in store

  /** A merge leaves of the records that only the ended transaction held the valid ones, their stamps at the
      start again, and nothing of the others. */
  lemma MergeCleansUp(db: D.Db, id: D.Tid, version: D.Version, p: Path)
    requires DbOk(db) && CanMerge(db, id) && p in db && db[p].te.Keys == {id}
    ensures var db' := DoMerge(db, id, version);
      && (p in db' <==> p in Committed(db'))
      && (p in db' ==> db'[p].te == map[] && db'[p].nextSeq == 2)
      && (p in db' ==> db'[p].e.writeSeq == 1 && db'[p].e.deleteSeq == 0 && db'[p].e.writeChildrenSeq == 0)
  {
    var i := D.Install(db[p], id, version);
    D.InstallOk(db[p], id, version);
    assert D.Drop(i, id).te == map[];
    CommittedAt(DoMerge(db, id, version), p);
    hide D.Install;
  }

  /** An abort leaves nothing of a deleted record that only the ended transaction held, and every other. */
  lemma AbortCleansUp(db: D.Db, id: D.Tid, p: Path)
    requires p in db && id in db[p].te
    ensures p in AbortAll(db, id) <==> !(db[p].te.Keys == {id} && db[p].e.deleteSeq > db[p].e.writeSeq)
  {
    var d := D.Drop(db[p], id);
    assert d.te.Keys == db[p].te.Keys - {id};
    assert d.te == map[] <==> d.te.Keys == {};
    assert db[p].te.Keys == {id} <==> d.te.Keys == {};
  }

  /** A direct delete leaves nothing of a record that no transaction holds. */
  lemma DeleteCleansUp(db: D.Db, cid: nat, p: Path)
    requires DbOk(db) && Closed(Committed(db)) && D.Get(db, p).te == map[]
    requires Direct(db, Delete(cid, p)).1 == Done
    ensures p !in Direct(db, Delete(cid, p)).0
  {
    var bound := DepthBound(db);
    var t := Committed(db);
    CommittedAt(db, p);
    var names := db[p].e.children;
    MidwayStart(t, p);
    DeleteChildrenDirectOk(db, p, names, bound, t);
    var emptied := DeleteChildrenDirect(db, p, names, bound);
    UnregisterDirectOk(emptied, p);
    assert D.Get(UnregisterDirect(emptied, p), p).te == D.Get(emptied, p).te == map[];
  }

  // ------------------------------------------------------------- end to end

  /** After set_perms [n<owner>, r7] on an entry: client 7 reads the value and may not update it, client 8
      may do neither, and the owner may do both; through the store, in every state of either version. */
  lemma PermissionsDecide(s: StoreState, j: Journal, version: D.Version, p: Path, owner: nat, value: string)
    requires Inv(s, j, version) && p in Committed(s.db) && owner != 7 && owner != 8
    ensures var perms := [Permission(owner, false, false), Permission(7, true, false)];
      var (s', out) := Next(s, DirectOp(SetPerms(0, p, perms)), version);
      && out == Replied(Done)
      && Next(s', DirectOp(Read(7, p)), version).1 == Replied(Value(Committed(s.db)[p].value))
      && Next(s', DirectOp(Update(7, p, value)), version).1 == Replied(Fail(EACCES))
      && Next(s', DirectOp(Read(8, p)), version).1 == Replied(Fail(EACCES))
      && Next(s', DirectOp(Update(8, p, value)), version).1 == Replied(Fail(EACCES))
      && Next(s', DirectOp(Read(owner, p)), version).1 == Replied(Value(Committed(s.db)[p].value))
      && Next(s', DirectOp(Update(owner, p, value)), version).1 == Replied(Done)
  {
    var perms := [Permission(owner, false, false), Permission(7, true, false)];
    var (s', out) := Next(s, DirectOp(SetPerms(0, p, perms)), version);
    var j' := Note(j, DirectOp(SetPerms(0, p, perms)), out);
    var t := Committed(s.db);
    InvFacts(s, j, version);
    NextInv(s, j, DirectOp(SetPerms(0, p, perms)), version);
    InvFacts(s', j', version);
    DirectIsStep(s.db, SetPerms(0, p, perms));
    OwnerPasses(0, t[p].perms);
    SetPermsLaw(t, 0, p, perms);
    var t' := Committed(s'.db);
    OwnerPasses(0, perms);
    ReadingLaw(t', 0, p);
    assert t'[p].perms == perms;
    Verdicts(owner);
    hide Inv, Direct, Committed, HasReadAccess, HasWriteAccess, Step, Note;
    AnswersTo(s'.db, 7, p, value);
    AnswersTo(s'.db, 8, p, value);
    AnswersTo(s'.db, owner, p, value);
  }

  /** What client cid is answered at p directly. */
  lemma AnswersTo(db: D.Db, cid: nat, p: Path, value: string)
    requires DbOk(db) && Closed(Committed(db)) && p in Committed(db)
    ensures var n := Committed(db)[p];
      && Direct(db, Read(cid, p)).1 == (if HasReadAccess(cid, n.perms) then Value(n.value) else Fail(EACCES))
      && Direct(db, Update(cid, p, value)).1 == (if HasWriteAccess(cid, n.perms) then Done else Fail(EACCES))
  {
    DirectIsStep(db, Read(cid, p));
    DirectIsStep(db, Update(cid, p, value));
    ReadingLaw(Committed(db), cid, p);
    UpdateLaw(Committed(db), cid, p, value);
  }

  lemma Verdicts(owner: nat)
    requires owner != 7 && owner != 8
    ensures var perms := [Permission(owner, false, false), Permission(7, true, false)];
      && HasReadAccess(7, perms) && !HasReadAccess(8, perms) && HasReadAccess(owner, perms)
      && !HasWriteAccess(7, perms) && !HasWriteAccess(8, perms) && HasWriteAccess(owner, perms)
  {
    var first := [Permission(owner, false, false)];
    OwnerPasses(owner, first);
    OthersGetTheDefault(7, first);
    OthersGetTheDefault(8, first);
    EntryGrants(7, first, Permission(7, true, false));
    EntryGrants(8, first, Permission(7, true, false));
    EntryGrants(owner, first, Permission(7, true, false));
    assert first + [Permission(7, true, false)] == [Permission(owner, false, false), Permission(7, true, false)];
  }

  /** The tree that a server starts with. */
  lemma FirstTree()
    ensures Committed(Direct(map[], Create(0, Root(""))).0) == map[Root("") := Node("", [Permission(0, false, false)], {})]
  {
    assert Committed(map[]) == map[];
    DirectIsStep(map[], Create(0, Root("")));
    assert AddNode(map[], Root(""), "") == map[Root("") := Node("", [Permission(0, false, false)], {})];
  }
}
