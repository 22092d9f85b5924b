/**
 Isolation of replies.  What a transaction does shows to nobody unless it commits: Alike relates two
 databases that a transaction cannot tell apart, stamps and erased records aside; every operation, direct
 or in any transaction, every merge and every abort keeps it, with the same outcome.  Unobservable says of
 whole runs that leaving out all that one transaction did changes no other outcome.
 */
module Interference {
  import opened Paths
  import opened Tree
  import opened Database
  import opened SimpleAccess
  import opened Transaction
  import opened Views
  import opened Commit
  import opened Runs

  // ------------------------------------------------------------- records a transaction cannot tell apart

  ghost predicate SameOverlayEntry(te: TEntry, te': TEntry) {
    && te'.initValid == te.initValid && (TValid(te') <==> TValid(te))
    && (te'.writeSeq > te'.initSeq <==> te.writeSeq > te.initSeq)
    && (te'.deleteSeq > te'.initSeq <==> te.deleteSeq > te.initSeq)
    && (te'.readSeq != 0 <==> te.readSeq != 0) && (te'.readChildrenSeq != 0 <==> te.readChildrenSeq != 0)
    && te'.children == te.children && te'.childrenAdd == te.childrenAdd && te'.childrenRem == te.childrenRem
    && (TValid(te) ==> te'.value == te.value && te'.perms == te.perms)
  }

  /** can_merge compares alike. */
  ghost predicate SameVerdict(e: Entry, te: TEntry, e': Entry, te': TEntry) {
    && (e'.deleteSeq > te'.initSeq <==> e.deleteSeq > te.initSeq)
    && (e'.writeSeq > te'.initSeq <==> e.writeSeq > te.initSeq)
    && (te.readSeq != 0 ==> (e'.writeSeq > te'.readSeq <==> e.writeSeq > te.readSeq))
    && (te.readChildrenSeq != 0 ==> (e'.writeChildrenSeq > te'.readChildrenSeq <==> e.writeChildrenSeq > te.readChildrenSeq))
  }

  /** Equal where the transaction looks: valid committed nodes, the data of entries it found valid, its
      own overlay entry up to the choice of stamps, and the comparisons of can_merge. */
  ghost predicate SameRecord(r: Record, r': Record, id: Tid) {
    && (Valid(r'.e) <==> Valid(r.e)) && (Valid(r.e) ==> NodeOf(r'.e) == NodeOf(r.e))
    && (id in r'.te <==> id in r.te)
    && (id in r.te ==>
          && SameOverlayEntry(r.te[id], r'.te[id]) && SameVerdict(r.e, r.te[id], r'.e, r'.te[id])
          && (r.te[id].initValid ==> r'.e.value == r.e.value && r'.e.perms == r.e.perms))
  }

  ghost predicate Alike(db: Db, db': Db, id: Tid) {
    DbOk(db) && DbOk(db') && forall p :: SameRecord(Get(db, p), Get(db', p), id)
  }

  lemma AlikeReflexive(db: Db, id: Tid)
    requires DbOk(db)
    ensures Alike(db, db, id)
  {
  }

  lemma AlikeTransitive(a: Db, b: Db, c: Db, id: Tid)
    requires Alike(a, b, id) && Alike(b, c, id)
    ensures Alike(a, c, id)
  {
    forall p ensures SameRecord(Get(a, p), Get(c, p), id) {
      assert SameRecord(Get(a, p), Get(b, p), id) && SameRecord(Get(b, p), Get(c, p), id);
    }
  }

  /** Two sound records that are the same but for stamps. */
  ghost predicate Same(r: Record, r': Record, id: Tid) {
    RecordOk(r) && RecordOk(r') && SameRecord(r, r', id)
  }

  lemma RefSame(db: Db, db': Db, id: Tid, p: Path)
    requires Alike(db, db', id)
    ensures Same(Ref(db, id, p), Ref(db', id, p), id)
    ensures TValid(Ref(db, id, p).te[id]) <==> TValid(Ref(db', id, p).te[id])
  {
    RefOk(db, id, p);
    RefOk(db', id, p);
    assert SameRecord(Get(db, p), Get(db', p), id);
    GetOk(db, p);
    GetOk(db', p);
  }

  lemma TouchedFacts(r: Record, id: Tid)
    requires RecordOk(r) && id in r.te
    ensures InOrder(r, id)
  {
    assert TEntryOk(r, r.te[id]);
  }

  /** Both records keep their stamps below nextSeq, and their overlay entries are in order. */
  ghost predicate InOrder(r: Record, id: Tid) {
    EntryOk(r) && id in r.te && OverlayOk(r, r.te[id])
  }

  lemma FetchDataLooksSame(r: Record, r': Record, id: Tid)
    requires InOrder(r, id) && InOrder(r', id) && SameRecord(r, r', id)
    ensures SameRecord(FetchData(r, id), FetchData(r', id), id)
    ensures TValid(r.te[id]) ==> TValid(FetchData(r, id).te[id]) && FetchData(r', id).te[id].perms == FetchData(r, id).te[id].perms
  {
  }

  lemma FetchChildrenLooksSame(r: Record, r': Record, id: Tid)
    requires InOrder(r, id) && InOrder(r', id) && SameRecord(r, r', id)
    ensures SameRecord(FetchChildren(r, id), FetchChildren(r', id), id)
    ensures TChildren(FetchChildren(r', id).te[id]) == TChildren(FetchChildren(r, id).te[id])
  {
  }

  lemma FetchDataSame(r: Record, r': Record, id: Tid)
    requires Same(r, r', id) && id in r.te
    ensures Same(FetchData(r, id), FetchData(r', id), id)
    ensures TValid(r.te[id]) ==> TValid(FetchData(r, id).te[id]) && FetchData(r', id).te[id].perms == FetchData(r, id).te[id].perms
  {
    FetchDataOk(r, id);
    FetchDataOk(r', id);
    TouchedFacts(r, id);
    TouchedFacts(r', id);
    FetchDataLooksSame(r, r', id);
    hide RecordOk, FetchData;
  }

  lemma FetchChildrenSame(r: Record, r': Record, id: Tid)
    requires Same(r, r', id) && id in r.te
    ensures Same(FetchChildren(r, id), FetchChildren(r', id), id)
    ensures TChildren(FetchChildren(r', id).te[id]) == TChildren(FetchChildren(r, id).te[id])
  {
    FetchChildrenOk(r, id);
    FetchChildrenOk(r', id);
    TouchedFacts(r, id);
    TouchedFacts(r', id);
    FetchChildrenLooksSame(r, r', id);
    hide RecordOk, FetchChildren;
  }

  lemma TWriteSame(r: Record, r': Record, id: Tid, value: string, perms: Perms)
    requires Same(r, r', id) && id in r.te
    ensures Same(TWrite(r, id, value, perms), TWrite(r', id, value, perms), id)
  {
    TWriteOk(r, id, value, perms);
    TWriteOk(r', id, value, perms);
    assert TEntryOk(r, r.te[id]) && TEntryOk(r', r'.te[id]);
  }

  lemma TDeleteSame(r: Record, r': Record, id: Tid)
    requires Same(r, r', id) && id in r.te
    ensures Same(TDelete(r, id), TDelete(r', id), id)
  {
    TDeleteOk(r, id);
    TDeleteOk(r', id);
    assert TEntryOk(r, r.te[id]) && TEntryOk(r', r'.te[id]);
  }

  lemma TLinkSame(r: Record, r': Record, id: Tid, name: Name)
    requires Same(r, r', id) && id in r.te
    ensures Same(TLink(r, id, name), TLink(r', id, name), id)
    ensures Same(TUnlink(r, id, name), TUnlink(r', id, name), id)
  {
    TLinkOk(r, id, name);
    TLinkOk(r', id, name);
    TUnlinkOk(r, id, name);
    TUnlinkOk(r', id, name);
  }

  lemma PutAlike(db: Db, db': Db, id: Tid, p: Path, r: Record, r': Record)
    requires Alike(db, db', id) && Same(r, r', id)
    ensures Alike(db[p := r], db'[p := r'], id)
  {
    var u, u' := db[p := r], db'[p := r'];
    forall q {:trigger Get(u, q)} ensures SameRecord(Get(u, q), Get(u', q), id) {
      assert SameRecord(Get(db, q), Get(db', q), id);
    }
  }

  // ------------------------------------------------------------- operations

  lemma RegisterAlike(db: Db, db': Db, id: Tid, p: Path)
    requires Alike(db, db', id)
    ensures Alike(RegisterIn(db, id, p), RegisterIn(db', id, p), id)
    ensures Alike(UnregisterIn(db, id, p), UnregisterIn(db', id, p), id)
  {
    if p.Sub? {
      var r, r' := Ref(db, id, p.parent), Ref(db', id, p.parent);
      RefSame(db, db', id, p.parent);
      TLinkSame(r, r', id, p.name);
      PutAlike(db, db', id, p.parent, TLink(r, id, p.name), TLink(r', id, p.name));
      PutAlike(db, db', id, p.parent, TUnlink(r, id, p.name), TUnlink(r', id, p.name));
    }
  }

  /** The parent's permissions are read from an entry that the transaction sees as valid. */
  lemma ParentPermsAlike(db: Db, db': Db, id: Tid, p: Path)
    requires Alike(db, db', id) && (p.Sub? ==> TValid(Ref(db, id, p.parent).te[id]))
    ensures Alike(ParentPermsIn(db, id, p).0, ParentPermsIn(db', id, p).0, id)
    ensures ParentPermsIn(db', id, p).1 == ParentPermsIn(db, id, p).1
  {
    if p.Sub? {
      var r, r' := Ref(db, id, p.parent), Ref(db', id, p.parent);
      RefSame(db, db', id, p.parent);
      FetchDataSame(r, r', id);
      PutAlike(db, db', id, p.parent, FetchData(r, id), FetchData(r', id));
    }
  }

  lemma {:induction false} CreateAlike(db: Db, db': Db, id: Tid, p: Path)
    requires Alike(db, db', id)
    ensures Alike(CreateIn(db, id, p).0, CreateIn(db', id, p).0, id)
    ensures CreateIn(db', id, p).1 == CreateIn(db, id, p).1
    ensures TValid(Ref(CreateIn(db, id, p).0, id, p).te[id])
    decreases p, 1
  {
    hide Alike, Same, Touch, AddIn;
    var r, r' := Ref(db, id, p), Ref(db', id, p);
    RefSame(db, db', id, p);
    PutAlike(db, db', id, p, r, r');
    RefPut(db, id, p, r);
    if !TValid(r.te[id]) { AddAlike(db[p := r], db'[p := r'], id, p, ""); }
  }

  lemma RefPut(db: Db, id: Tid, p: Path, r: Record)
    requires id in r.te
    ensures Ref(db[p := r], id, p) == r
  {
  }

  lemma {:induction false} AddAlike(db: Db, db': Db, id: Tid, p: Path, value: string)
    requires Alike(db, db', id)
    ensures Alike(AddIn(db, id, p, value), AddIn(db', id, p, value), id)
    ensures TValid(Ref(AddIn(db, id, p, value), id, p).te[id])
    decreases p, 0
  {
    hide Alike, Same, Ref, RegisterIn, ParentPermsIn, CreateIn, TWrite;
    var branch := if p.Sub? then CreateIn(db, id, p.parent).0 else db;
    var branch' := if p.Sub? then CreateIn(db', id, p.parent).0 else db';
    if p.Sub? { CreateAlike(db, db', id, p.parent); }
    RegisterAlike(branch, branch', id, p);
    RegisterKeepsValid(branch, id, p);
    var listed, listed' := RegisterIn(branch, id, p), RegisterIn(branch', id, p);
    ParentPermsAlike(listed, listed', id, p);
    var (read, perms) := ParentPermsIn(listed, id, p);
    var read' := ParentPermsIn(listed', id, p).0;
    RefSame(read, read', id, p);
    AddLastAlike(read, read', id, p, value, perms);
  }

  lemma RegisterKeepsValid(db: Db, id: Tid, p: Path)
    requires p.Sub? ==> TValid(Ref(db, id, p.parent).te[id])
    ensures p.Sub? ==> TValid(Ref(RegisterIn(db, id, p), id, p.parent).te[id])
  {
  }

  lemma AddLastAlike(db: Db, db': Db, id: Tid, p: Path, value: string, perms: Perms)
    requires Alike(db, db', id)
    ensures var r := TWrite(Ref(db, id, p), id, value, perms);
      && Alike(db[p := r], db'[p := TWrite(Ref(db', id, p), id, value, perms)], id)
      && TValid(Ref(db[p := r], id, p).te[id])
  {
    var r, r' := Ref(db, id, p), Ref(db', id, p);
    RefSame(db, db', id, p);
    TWriteSame(r, r', id, value, perms);
    PutAlike(db, db', id, p, TWrite(r, id, value, perms), TWrite(r', id, value, perms));
    assert TEntryOk(r, r.te[id]);
  }

  lemma LookSame(db: Db, db': Db, id: Tid, cid: nat, p: Path)
    requires Alike(db, db', id)
    ensures var (r, reply) := LookIn(db, id, cid, p); var (r', reply') := LookIn(db', id, cid, p);
      Same(r, r', id) && reply' == reply && (reply.Done? ==> TValid(r.te[id]))
    ensures var (r, reply) := DeletableIn(db, id, cid, p); var (r', reply') := DeletableIn(db', id, cid, p);
      Same(r, r', id) && reply' == reply && TChildren(r'.te[id]) == TChildren(r.te[id])
  {
    hide Alike, Touch, FetchData, FetchChildren, HasReadAccess, HasWriteAccess, Same;
    var r, r' := Ref(db, id, p), Ref(db', id, p);
    RefSame(db, db', id, p);
    SameLists(r, r', id);
    FetchDataSame(r, r', id);
    SameLists(FetchData(r, id), FetchData(r', id), id);
    FetchChildrenSame(FetchData(r, id), FetchData(r', id), id);
  }

  lemma SameLists(r: Record, r': Record, id: Tid)
    requires Same(r, r', id) && id in r.te
    ensures id in r'.te && TChildren(r'.te[id]) == TChildren(r.te[id])
    ensures TValid(r.te[id]) ==> r'.te[id].value == r.te[id].value && r'.te[id].perms == r.te[id].perms
  {
  }

  lemma {:induction false} DeleteAlike(db: Db, db': Db, id: Tid, cid: nat, p: Path, bound: nat, bound': nat)
    requires Alike(db, db', id) && BoundedFor(db, id, bound) && BoundedFor(db', id, bound')
    ensures Alike(DeleteIn(db, id, cid, p, bound).0, DeleteIn(db', id, cid, p, bound').0, id)
    ensures DeleteIn(db', id, cid, p, bound').1 == DeleteIn(db, id, cid, p, bound).1
    decreases 2 * (bound - Depth(p)) + 1, 0
  {
    hide Alike, Same, DeletableIn, UnregisterIn, BoundedFor, Ref, TDelete, TChildren;
    var (r, reply) := DeletableIn(db, id, cid, p);
    var r' := DeletableIn(db', id, cid, p).0;
    LookSame(db, db', id, cid, p);
    PutAlike(db, db', id, p, r, r');
    if reply.Done? {
      DeletableBounded(db, id, cid, p, bound);
      DeletableBounded(db', id, cid, p, bound');
      var names := TChildren(r.te[id]);
      DeleteChildrenAlike(db[p := r], db'[p := r'], id, p, names, bound, bound');
      DeleteLastAlike(DeleteChildrenIn(db[p := r], id, p, names, bound), DeleteChildrenIn(db'[p := r'], id, p, names, bound'), id, p);
    }
  }

  lemma DeleteLastAlike(db: Db, db': Db, id: Tid, p: Path)
    requires Alike(db, db', id)
    ensures var u, u' := UnregisterIn(db, id, p), UnregisterIn(db', id, p);
      Alike(u[p := TDelete(Ref(u, id, p), id)], u'[p := TDelete(Ref(u', id, p), id)], id)
  {
    hide Alike, Same, UnregisterIn, TDelete, Touch;
    var u, u' := UnregisterIn(db, id, p), UnregisterIn(db', id, p);
    RegisterAlike(db, db', id, p);
    RefSame(u, u', id, p);
    TDeleteSame(Ref(u, id, p), Ref(u', id, p), id);
    PutAlike(u, u', id, p, TDelete(Ref(u, id, p), id), TDelete(Ref(u', id, p), id));
  }

  lemma {:induction false} DeleteChildrenAlike(db: Db, db': Db, id: Tid, p: Path, names: set<Name>, bound: nat, bound': nat)
    requires Alike(db, db', id) && BoundedFor(db, id, bound) && BoundedFor(db', id, bound')
    requires Depth(p) <= bound && Depth(p) <= bound'
    ensures Alike(DeleteChildrenIn(db, id, p, names, bound), DeleteChildrenIn(db', id, p, names, bound'), id)
    decreases 2 * (bound - Depth(p)), |names|
  {
    if names != {} {
      hide Alike;
      var c := Least(names);
      DeleteAlike(db, db', id, 0, Sub(p, c), bound, bound');
      DeleteChildrenAlike(DeleteIn(db, id, 0, Sub(p, c), bound).0, DeleteIn(db', id, 0, Sub(p, c), bound').0,
                          id, p, names - {c}, bound, bound');
    }
  }

  lemma UpdateAlike(db: Db, db': Db, id: Tid, cid: nat, p: Path, value: string)
    requires Alike(db, db', id)
    ensures Alike(UpdateIn(db, id, cid, p, value).0, UpdateIn(db', id, cid, p, value).0, id)
    ensures UpdateIn(db', id, cid, p, value).1 == UpdateIn(db, id, cid, p, value).1
  {
    hide Alike, Same, Touch, AddIn, FetchData, TWrite, HasWriteAccess;
    var r, r' := Ref(db, id, p), Ref(db', id, p);
    RefSame(db, db', id, p);
    SameLists(r, r', id);
    if TValid(r.te[id]) {
      var read, read' := FetchData(r, id), FetchData(r', id);
      FetchDataSame(r, r', id);
      PutAlike(db, db', id, p, read, read');
      TWriteSame(read, read', id, value, read.te[id].perms);
      PutAlike(db, db', id, p, TWrite(read, id, value, read.te[id].perms), TWrite(read', id, value, read.te[id].perms));
    } else {
      PutAlike(db, db', id, p, r, r');
      AddAlike(db[p := r], db'[p := r'], id, p, value);
    }
  }

  lemma SetPermsAlike(db: Db, db': Db, id: Tid, cid: nat, p: Path, perms: Perms)
    requires Alike(db, db', id)
    ensures Alike(SetPermsIn(db, id, cid, p, perms).0, SetPermsIn(db', id, cid, p, perms).0, id)
    ensures SetPermsIn(db', id, cid, p, perms).1 == SetPermsIn(db, id, cid, p, perms).1
  {
    hide Alike, Same, Touch, FetchData, TWrite, HasWriteAccess;
    var r, r' := Ref(db, id, p), Ref(db', id, p);
    RefSame(db, db', id, p);
    SameLists(r, r', id);
    PutAlike(db, db', id, p, r, r');
    if TValid(r.te[id]) {
      var read, read' := FetchData(r, id), FetchData(r', id);
      FetchDataSame(r, r', id);
      SameLists(read, read', id);
      PutAlike(db, db', id, p, read, read');
      TWriteSame(read, read', id, read.te[id].value, perms);
      PutAlike(db, db', id, p, TWrite(read, id, read.te[id].value, perms), TWrite(read', id, read.te[id].value, perms));
    }
  }

  lemma ReadersAlike(db: Db, db': Db, id: Tid, cid: nat, p: Path)
    requires Alike(db, db', id)
    ensures Alike(ReadIn(db, id, cid, p).0, ReadIn(db', id, cid, p).0, id) && ReadIn(db', id, cid, p).1 == ReadIn(db, id, cid, p).1
    ensures Alike(GetPermsIn(db, id, cid, p).0, GetPermsIn(db', id, cid, p).0, id)
    ensures GetPermsIn(db', id, cid, p).1 == GetPermsIn(db, id, cid, p).1
    ensures Alike(ChildrenIn(db, id, cid, p).0, ChildrenIn(db', id, cid, p).0, id)
    ensures ChildrenIn(db', id, cid, p).1 == ChildrenIn(db, id, cid, p).1
  {
    hide Alike, Same, LookIn, DeletableIn, FetchChildren, TChildren;
    var (r, reply) := LookIn(db, id, cid, p);
    var r' := LookIn(db', id, cid, p).0;
    LookSame(db, db', id, cid, p);
    SameLists(r, r', id);
    PutAlike(db, db', id, p, r, r');
    FetchChildrenSame(r, r', id);
    PutAlike(db, db', id, p, FetchChildren(r, id), FetchChildren(r', id));
  }

  /** An operation of the transaction: same reply, and nothing to tell the databases apart afterwards. */
  lemma OperationAlike(db: Db, db': Db, id: Tid, op: Op)
    requires Alike(db, db', id)
    ensures Alike(InTransaction(db, id, op).0, InTransaction(db', id, op).0, id)
    ensures InTransaction(db', id, op).1 == InTransaction(db, id, op).1
  {
    hide Alike, CreateIn, UpdateIn, SetPermsIn, DeleteIn, ReadIn, GetPermsIn, ChildrenIn;
    match op {
      case Create(_, p) => CreateAlike(db, db', id, p);
      case Update(cid, p, value) => UpdateAlike(db, db', id, cid, p, value);
      case SetPerms(cid, p, perms) => SetPermsAlike(db, db', id, cid, p, perms);
      case Delete(cid, p) => DeleteAlike(db, db', id, cid, p, DepthBoundFor(db, id), DepthBoundFor(db', id));
      case Read(cid, p) => ReadersAlike(db, db', id, cid, p);
      case GetPerms(cid, p) => ReadersAlike(db, db', id, cid, p);
      case GetChildren(cid, p) => ReadersAlike(db, db', id, cid, p);
    }
  }

  // ------------------------------------------------------------- direct operations

  lemma CommitSame(r: Record, r': Record, id: Tid, value: string, perms: Perms, names: set<Name>)
    requires Same(r, r', id)
    ensures Same(WriteEntry(r, value, perms), WriteEntry(r', value, perms), id)
    ensures Valid(r.e) || names == {} ==> Same(SetChildren(r, names), SetChildren(r', names), id)
    ensures r.e.children == {} && r'.e.children == {} ==> Same(MarkDeleted(r), MarkDeleted(r'), id)
  {
    WriteEntryOk(r, value, perms);
    WriteEntryOk(r', value, perms);
    if Valid(r.e) || names == {} {
      SetChildrenOk(r, names);
      SetChildrenOk(r', names);
    }
    if r.e.children == {} && r'.e.children == {} {
      MarkDeletedOk(r);
      MarkDeletedOk(r');
    }
    assert id in r.te ==> TEntryOk(r, r.te[id]) && TEntryOk(r', r'.te[id]);
  }

  lemma AlikeAt(db: Db, db': Db, id: Tid, p: Path)
    requires Alike(db, db', id)
    ensures Same(Get(db, p), Get(db', p), id)
    ensures Get(db', p).e.children == Get(db, p).e.children && (Valid(Get(db', p).e) <==> Valid(Get(db, p).e))
    ensures Valid(Get(db, p).e) ==> Get(db', p).e.perms == Get(db, p).e.perms && Get(db', p).e.value == Get(db, p).e.value
    ensures !Valid(Get(db, p).e) ==> Get(db, p).e.children == {}
  {
    GetOk(db, p);
    GetOk(db', p);
    assert SameRecord(Get(db, p), Get(db', p), id);
  }

  lemma AlikeCommitted(db: Db, db': Db, id: Tid)
    requires Alike(db, db', id)
    ensures Committed(db') == Committed(db)
  {
    forall p ensures (p in Committed(db') <==> p in Committed(db)) && (p in Committed(db) ==> Committed(db')[p] == Committed(db)[p]) {
      assert SameRecord(Get(db, p), Get(db', p), id);
      CommittedAt(db, p);
      CommittedAt(db', p);
    }
  }

  lemma ListAlike(db: Db, db': Db, id: Tid, p: Path)
    requires Alike(db, db', id)
    ensures p.Sub? && Valid(Get(db, p.parent).e) ==> Alike(RegisterDirect(db, p), RegisterDirect(db', p), id)
    ensures Alike(UnregisterDirect(db, p), UnregisterDirect(db', p), id)
  {
    hide Alike, Same, SetChildren, WriteEntry, MarkDeleted;
    if p.Sub? {
      var r, r' := Get(db, p.parent), Get(db', p.parent);
      AlikeAt(db, db', id, p.parent);
      var more, less := r.e.children + {p.name}, r.e.children - {p.name};
      CommitSame(r, r', id, "", [], more);
      CommitSame(r, r', id, "", [], less);
      if Valid(r.e) { PutAlike(db, db', id, p.parent, SetChildren(r, more), SetChildren(r', more)); }
      PutAlike(db, db', id, p.parent, SetChildren(r, less), SetChildren(r', less));
    }
  }

  lemma WriteAlike(db: Db, db': Db, id: Tid, p: Path, value: string, perms: Perms)
    requires Alike(db, db', id)
    ensures Alike(db[p := Get(db, p)], db'[p := Get(db', p)], id)
    ensures Alike(db[p := WriteEntry(Get(db, p), value, perms)], db'[p := WriteEntry(Get(db', p), value, perms)], id)
  {
    hide Alike, Same, WriteEntry;
    var r, r' := Get(db, p), Get(db', p);
    AlikeAt(db, db', id, p);
    CommitSame(r, r', id, value, perms, {});
    PutAlike(db, db', id, p, r, r');
    PutAlike(db, db', id, p, WriteEntry(r, value, perms), WriteEntry(r', value, perms));
  }

  lemma {:induction false} CreateDirectAlike(db: Db, db': Db, id: Tid, p: Path)
    requires Alike(db, db', id)
    ensures Alike(CreateDirect(db, p).0, CreateDirect(db', p).0, id)
    ensures Valid(Get(CreateDirect(db, p).0, p).e)
    decreases p, 1
  {
    hide Alike, AddDirect;
    AlikeAt(db, db', id, p);
    WriteAlike(db, db', id, p, "", []);
    if !Valid(Get(db, p).e) { AddDirectAlike(db, db', id, p, ""); }
  }

  lemma {:induction false} AddDirectAlike(db: Db, db': Db, id: Tid, p: Path, value: string)
    requires Alike(db, db', id) && !Valid(Get(db, p).e)
    ensures Alike(AddDirect(db, p, value), AddDirect(db', p, value), id)
    ensures Valid(Get(AddDirect(db, p, value), p).e)
    decreases p, 0
  {
    hide Alike, CreateDirect, RegisterDirect;
    var referenced, referenced' := db[p := Get(db, p)], db'[p := Get(db', p)];
    WriteAlike(db, db', id, p, "", []);
    var branch := if p.Sub? then CreateDirect(referenced, p.parent).0 else referenced;
    var branch' := if p.Sub? then CreateDirect(referenced', p.parent).0 else referenced';
    if p.Sub? { CreateDirectAlike(referenced, referenced', id, p.parent); }
    ListAlike(branch, branch', id, p);
    var listed, listed' := RegisterDirect(branch, p), RegisterDirect(branch', p);
    RegisterKeepsEntries(branch, p);
    assert p.Root? ==> listed == branch && listed' == branch' by { RegisterKeepsEntries(branch', p); }
    if p.Sub? { AlikeAt(listed, listed', id, p.parent); }
    WriteAlike(listed, listed', id, p, value, ParentPermsDirect(listed, p));
    WrittenIsValid(listed, listed', id, p, value, ParentPermsDirect(listed, p));
  }

  lemma RegisterKeepsEntries(db: Db, p: Path)
    ensures p.Root? ==> RegisterDirect(db, p) == db
    ensures p.Sub? && Valid(Get(db, p.parent).e) ==> Valid(Get(RegisterDirect(db, p), p.parent).e)
  {
  }

  lemma WrittenIsValid(db: Db, db': Db, id: Tid, p: Path, value: string, perms: Perms)
    requires Alike(db, db', id)
    ensures Valid(Get(db[p := WriteEntry(Get(db, p), value, perms)], p).e)
  {
    GetOk(db, p);
  }

  lemma EraseAlike(db: Db, db': Db, id: Tid, p: Path)
    requires Alike(db, db', id) && Get(db, p).e.children == {}
    ensures Alike(EraseDirect(db, p), EraseDirect(db', p), id)
  {
    var r, r' := Get(db, p), Get(db', p);
    AlikeAt(db, db', id, p);
    CommitSame(r, r', id, "", [], {});
    EraseDirectOk(db, p);
    EraseDirectOk(db', p);
    var u, u' := EraseDirect(db, p), EraseDirect(db', p);
    ErasedGet(db, p);
    ErasedGet(db', p);
    hide EraseDirect, MarkDeleted, DbOk, OnlyCommits, Committed;
    forall q {:trigger Get(u, q)} ensures SameRecord(Get(u, q), Get(u', q), id) {
      assert SameRecord(Get(db, q), Get(db', q), id);
      if q == p { ErasedSame(r, r', id); }
    }
  }

  /** What erasing leaves to be found. */
  function Erased(r: Record): Record {
    if r.te == map[] then FRESH_RECORD else MarkDeleted(r)
  }

  lemma ErasedGet(db: Db, p: Path)
    ensures forall q :: Get(EraseDirect(db, p), q) == if q == p then Erased(Get(db, p)) else Get(db, q)
  {
  }

  lemma ErasedSame(r: Record, r': Record, id: Tid)
    requires Same(r, r', id) && Same(MarkDeleted(r), MarkDeleted(r'), id)
    ensures SameRecord(Erased(r), Erased(r'), id)
  {
  }

  lemma {:induction false} DeleteDirectAlike(db: Db, db': Db, id: Tid, cid: nat, p: Path, bound: nat, bound': nat)
    requires Alike(db, db', id) && Bounded(db, bound) && Bounded(db', bound') && Closed(Committed(db))
    ensures Alike(DeleteDirect(db, cid, p, bound).0, DeleteDirect(db', cid, p, bound').0, id)
    decreases 2 * (bound - Depth(p)) + 1, 0
  {
    hide Alike, Midway, UnregisterDirect, EraseDirect, HasWriteAccess, Without;
    var t := Committed(db);
    AlikeAt(db, db', id, p);
    AlikeCommitted(db, db', id);
    ValidIsThere(db, p);
    ValidIsThere(db', p);
    if Valid(Get(db, p).e) && HasWriteAccess(cid, db[p].e.perms) {
      var names := db[p].e.children;
      var emptied, emptied' := DeleteChildrenDirect(db, p, names, bound), DeleteChildrenDirect(db', p, names, bound');
      MidwayStart(t, p);
      CommittedAt(db, p);
      DeleteChildrenDirectAlike(db, db', id, p, names, bound, bound', t);
      ListAlike(emptied, emptied', id, p);
      var unlisted, unlisted' := UnregisterDirect(emptied, p), UnregisterDirect(emptied', p);
      NoChildrenLeft(emptied, emptied', id, p, t);
      EraseAlike(unlisted, unlisted', id, p);
    }
  }

  lemma ValidIsThere(db: Db, p: Path)
    ensures Valid(Get(db, p).e) ==> p in db
    ensures p in db ==> Get(db, p) == db[p]
  {
  }

  lemma NoChildrenLeft(db: Db, db': Db, id: Tid, p: Path, t: Tree)
    requires Alike(db, db', id) && p in t && Committed(db) == Without(t, p, t[p].children)
    ensures Get(UnregisterDirect(db, p), p).e.children == {}
  {
    NotBelowItself(p);
    UnregisterDirectOk(db, p);
    CommittedAt(db, p);
    CommittedAt(UnregisterDirect(db, p), p);
    AlikeAt(db, db', id, p);
    assert Without(t, p, t[p].children)[p].children == {};
  }

  lemma {:induction false} DeleteChildrenDirectAlike(db: Db, db': Db, id: Tid, p: Path, names: set<Name>, bound: nat, bound': nat, t: Tree)
    requires Alike(db, db', id) && Bounded(db, bound) && Bounded(db', bound') && Depth(p) <= bound && Depth(p) <= bound'
    requires Midway(t, p, names, Committed(db))
    ensures var u, u' := DeleteChildrenDirect(db, p, names, bound), DeleteChildrenDirect(db', p, names, bound');
      Alike(u, u', id) && Committed(u) == Without(t, p, t[p].children)
    decreases 2 * (bound - Depth(p)), |names|
  {
    hide Alike, Midway, Without, RemoveBranch, Closed, HasWriteAccess, DeleteDirect;
    MidwayIsClosed(t, p, names, Committed(db));
    if names != {} {
      var c := Least(names);
      var next, next' := DeleteDirect(db, 0, Sub(p, c), bound).0, DeleteDirect(db', 0, Sub(p, c), bound').0;
      DeleteDirectAlike(db, db', id, 0, Sub(p, c), bound, bound');
      MidwayStep(t, p, names, Committed(db), c);
      assert DbOk(db) by { AlikeIsOk(db, db', id); }
      DeleteDirectOk(db, 0, Sub(p, c), bound);
      ZeroDeletes(Committed(db), Sub(p, c));
      DeleteChildrenDirectAlike(next, next', id, p, names - {c}, bound, bound', t);
    }
  }

  lemma AlikeIsOk(db: Db, db': Db, id: Tid)
    requires Alike(db, db', id)
    ensures DbOk(db) && DbOk(db')
  {
  }

  /** A direct operation: same reply, and nothing to tell the databases apart afterwards. */
  lemma DirectAlike(db: Db, db': Db, id: Tid, op: Op)
    requires Alike(db, db', id) && Closed(Committed(db))
    ensures Alike(Direct(db, op).0, Direct(db', op).0, id) && Direct(db', op).1 == Direct(db, op).1
  {
    AlikeCommitted(db, db', id);
    AlikeIsOk(db, db', id);
    DirectIsStep(db, op);
    DirectIsStep(db', op);
    hide Alike, DbOk, OnlyCommits, Step, CreateDirect, AddDirect, DeleteDirect, HasWriteAccess, WriteEntry;
    var p := op.path;
    AlikeAt(db, db', id, p);
    ValidIsThere(db, p);
    ValidIsThere(db', p);
    match op {
      case Create(_, _) => CreateDirectAlike(db, db', id, p);
      case Update(cid, _, value) =>
        if Valid(Get(db, p).e) { WriteAlike(db, db', id, p, value, db[p].e.perms); } else { AddDirectAlike(db, db', id, p, value); }
      case SetPerms(cid, _, perms) => WriteAlike(db, db', id, p, Get(db, p).e.value, perms);
      case Delete(cid, _) => DeleteDirectAlike(db, db', id, cid, p, DepthBound(db), DepthBound(db'));
      case _ =>
    }
  }

  // ------------------------------------------------------------- ends of transactions

  lemma SameMeansSameVerdict(db: Db, db': Db, id: Tid)
    requires Alike(db, db', id)
    ensures CanMerge(db', id) <==> CanMerge(db, id)
  {
    forall p ensures (p in db && id in db[p].te && !CanMergeRecord(db[p], id))
                <==> (p in db' && id in db'[p].te && !CanMergeRecord(db'[p], id)) {
      assert SameRecord(Get(db, p), Get(db', p), id);
    }
  }

  lemma InstallSame(r: Record, r': Record, other: Tid, id: Tid, version: Version)
    requires Same(r, r', other) && Same(r, r', id) && other in r.te && id != other
    requires CanMergeRecord(r, other)
    ensures Same(Install(r, other, version), Install(r', other, version), id)
  {
    ValidationIsSound(r, other);
    VerdictAt(r, r', other);
    InstallOk(r, other, version);
    InstallOk(r', other, version);
    hide RecordOk, CanMergeRecord, WriteEntry, SetChildren, MarkDeleted;
    var te, te' := r.te[other], r'.te[other];
    if TValid(te) {
      WrittenSame(r, r', other, id);
      var w, w' := Written(r, other), Written(r', other);
      AmendSame(w, w', id, te, te');
    } else if te.deleteSeq > te.initSeq {
      match version {
        case Shipped => LostDeleteSame(r, r', other, id);
        case Repaired => RepairedDeleteSame(r, r', id);
      }
    }
  }

  lemma VerdictAt(r: Record, r': Record, id: Tid)
    requires Same(r, r', id) && id in r.te
    ensures CanMergeRecord(r', id) <==> CanMergeRecord(r, id)
  {
  }

  /** The data part of installing. */
  function Written(r: Record, id: Tid): Record
    requires id in r.te
  {
    var te := r.te[id];
    if te.writeSeq > te.initSeq then WriteEntry(r, te.value, te.perms) else r
  }

  lemma WrittenSame(r: Record, r': Record, other: Tid, id: Tid)
    requires Same(r, r', other) && Same(r, r', id) && other in r.te && TValid(r.te[other])
    requires r.te[other].initValid == Valid(r.e)
    ensures Same(Written(r, other), Written(r', other), id) && Valid(Written(r, other).e)
  {
    var te := r.te[other];
    assert TEntryOk(r, te);
    CommitSame(r, r', id, te.value, te.perms, {});
  }

  lemma RepairedDeleteSame(r: Record, r': Record, id: Tid)
    requires Same(r, r', id)
    ensures Same(MarkDeleted(SetChildren(r, {})), MarkDeleted(SetChildren(r', {})), id)
  {
    hide Same;
    CommitSame(r, r', id, "", [], {});
    CommitSame(SetChildren(r, {}), SetChildren(r', {}), id, "", [], {});
  }

  /** The amended list of a valid entry. */
  lemma AmendSame(r: Record, r': Record, id: Tid, te: TEntry, te': TEntry)
    requires Same(r, r', id) && Valid(r.e) && te'.childrenAdd == te.childrenAdd && te'.childrenRem == te.childrenRem
    ensures var names, names' := r.e.children + te.childrenAdd - te.childrenRem, r'.e.children + te'.childrenAdd - te'.childrenRem;
      names == names' && Same(SetChildren(r, names), SetChildren(r', names'), id)
  {
    assert SameRecord(r, r', id) && NodeOf(r.e) == NodeOf(r'.e);
    CommitSame(r, r', id, "", [], r.e.children + te.childrenAdd - te.childrenRem);
  }

  /** The stamp that the shipped code puts in the wrong place shows to nobody. */
  lemma LostDeleteSame(r: Record, r': Record, other: Tid, id: Tid)
    requires Same(r, r', id) && other in r.te && other in r'.te && id != other
    ensures var i := r.(te := r.te[other := r.te[other].(deleteSeq := r.nextSeq)], nextSeq := r.nextSeq + 1);
      var i' := r'.(te := r'.te[other := r'.te[other].(deleteSeq := r'.nextSeq)], nextSeq := r'.nextSeq + 1);
      SameRecord(i, i', id)
  {
  }

  lemma DropSame(i: Record, i': Record, other: Tid, id: Tid)
    requires Same(i, i', id)
    ensures SameRecord(Drop(i, other), Drop(i', other), id)
  {
  }

  /** What `db[path]` finds of a record that may have gone. */
  function OrFresh(r: Option<Record>): Record {
    match r
    case Some(x) => x
    case None => FRESH_RECORD
  }

  /** Resets and erasures happen only where the transaction has no overlay entry. */
  lemma SettleSame(d: Record, d': Record, id: Tid)
    requires SameRecord(d, d', id)
    ensures SameRecord(OrFresh(Settle(d)), OrFresh(Settle(d')), id)
  {
  }

  lemma MergeAlike(db: Db, db': Db, other: Tid, id: Tid, version: Version)
    requires Alike(db, db', other) && Alike(db, db', id) && CanMerge(db, other)
    ensures CanMerge(db', other) && Alike(DoMerge(db, other, version), DoMerge(db', other, version), id)
  {
    SameMeansSameVerdict(db, db', other);
    DoMergeEnds(db, other, version);
    DoMergeEnds(db', other, version);
    forall p ensures SameRecord(Get(DoMerge(db, other, version), p), Get(DoMerge(db', other, version), p), id) {
      MergedSame(db, db', other, id, version, p);
    }
  }

  lemma MergedSame(db: Db, db': Db, other: Tid, id: Tid, version: Version, p: Path)
    requires Alike(db, db', other) && Alike(db, db', id) && CanMerge(db, other) && CanMerge(db', other)
    ensures SameRecord(Get(DoMerge(db, other, version), p), Get(DoMerge(db', other, version), p), id)
  {
    var r, r' := Get(db, p), Get(db', p);
    AlikeAt(db, db', other, p);
    AlikeAt(db, db', id, p);
    MergedGet(db, other, version, p);
    MergedGet(db', other, version, p);
    hide Alike, DoMerge, Install, Settle, CanMerge;
    if other in r.te {
      InstalledSame(r, r', other, id, version);
      SettleSame(Drop(Install(r, other, version), other), Drop(Install(r', other, version), other), id);
    }
  }

  lemma MergedGet(db: Db, other: Tid, version: Version, p: Path)
    requires CanMerge(db, other)
    ensures var r := Get(db, p); var r' := Get(DoMerge(db, other, version), p);
      if other in r.te then CanMergeRecord(r, other) && r' == OrFresh(MergeRecord(r, other, version)) else r' == r
  {
  }

  lemma InstalledSame(r: Record, r': Record, other: Tid, id: Tid, version: Version)
    requires Same(r, r', other) && Same(r, r', id) && other in r.te && other in r'.te && CanMergeRecord(r, other)
    ensures SameRecord(Drop(Install(r, other, version), other), Drop(Install(r', other, version), other), id)
  {
    if id != other {
      InstallSame(r, r', other, id, version);
      DropSame(Install(r, other, version), Install(r', other, version), other, id);
    } else {
      InstallEntrySame(r, r', other, version);
    }
  }

  /** The committed side alone, for the transaction that ends. */
  lemma InstallEntrySame(r: Record, r': Record, other: Tid, version: Version)
    requires Same(r, r', other) && other in r.te && other in r'.te && CanMergeRecord(r, other)
    ensures SameRecord(Drop(Install(r, other, version), other), Drop(Install(r', other, version), other), other)
  {
    var te, te' := r.te[other], r'.te[other];
    assert TEntryOk(r, te) && TEntryOk(r', te');
    ValidationIsSound(r, other);
  }

  lemma AbortAlike(db: Db, db': Db, other: Tid, id: Tid)
    requires Alike(db, db', id)
    ensures Alike(AbortAll(db, other), AbortAll(db', other), id)
  {
    AbortEnds(db, other);
    AbortEnds(db', other);
    hide AbortAll, AbortRecord, DbOk, RecordOk, Committed;
    forall p ensures SameRecord(Get(AbortAll(db, other), p), Get(AbortAll(db', other), p), id) {
      assert SameRecord(Get(db, p), Get(db', p), id);
      AbortedGet(db, other, p);
      AbortedGet(db', other, p);
      AbortedSame(Get(db, p), Get(db', p), other, id);
    }
  }

  /** What an abort leaves to be found. */
  function Aborted(r: Record, other: Tid): Record {
    if other in r.te then OrFresh(AbortRecord(r, other)) else r
  }

  lemma AbortedGet(db: Db, other: Tid, p: Path)
    ensures Get(AbortAll(db, other), p) == Aborted(Get(db, p), other)
  {
  }

  lemma AbortedSame(r: Record, r': Record, other: Tid, id: Tid)
    requires SameRecord(r, r', id)
    ensures SameRecord(Aborted(r, other), Aborted(r', other), id)
  {
  }

  // ------------------------------------------------------------- one transaction's events

  predicate Of(ev: Event, tid: Tid) {
    (ev.TransactionOp? || ev.Merge? || ev.Abort?) && ev.tid == tid
  }

  /** Whatever tid does short of a successful merge shows to no other transaction. */
  lemma OwnEventUnseen(s: StoreState, j: Journal, ev: Event, version: Version, tid: Tid, id: Tid)
    requires Inv(s, j, version) && Of(ev, tid) && id != tid && Next(s, ev, version).1 != Merged(true)
    ensures Alike(s.db, Next(s, ev, version).0.db, id)
  {
    InvFacts(s, j, version);
    AlikeReflexive(s.db, id);
    hide Inv, Alike, InTransaction, AbortAll, DoMerge, CanMerge;
    match ev {
      case TransactionOp(_, op) => OperationUnseen(s.db, tid, op, id);
      case Merge(_) => AbortUnseen(s.db, tid, id);
      case Abort(_) => AbortUnseen(s.db, tid, id);
    }
  }

  lemma OperationUnseen(db: Db, tid: Tid, op: Op, id: Tid)
    requires DbOk(db) && tid != id
    ensures Alike(db, InTransaction(db, tid, op).0, id)
  {
    hide InTransaction;
    var db' := InTransaction(db, tid, op).0;
    InTransactionIsIsolated(db, tid, op);
    forall p ensures SameRecord(Get(db, p), Get(db', p), id) {
      assert Overlays(Get(db, p), Get(db', p), tid);
    }
  }

  lemma AbortUnseen(db: Db, tid: Tid, id: Tid)
    requires DbOk(db) && tid != id
    ensures Alike(db, AbortAll(db, tid), id)
  {
    AbortEnds(db, tid);
    forall p ensures SameRecord(Get(db, p), Get(AbortAll(db, tid), p), id) {
    }
  }

  /** The next reply of a transaction is the same before and after such an event, also when the
      transaction can no longer commit. */
  lemma LaterReplyUnchanged(s: StoreState, j: Journal, ev: Event, version: Version, tid: Tid, id: Tid, op: Op)
    requires Inv(s, j, version) && Of(ev, tid) && id != tid && Next(s, ev, version).1 != Merged(true)
    ensures InTransaction(Next(s, ev, version).0.db, id, op).1 == InTransaction(s.db, id, op).1
  {
    OwnEventUnseen(s, j, ev, version, tid, id);
    OperationAlike(s.db, Next(s, ev, version).0.db, id, op);
  }

  // ------------------------------------------------------------- whole runs

  ghost predicate AlikeToOthers(db: Db, db': Db, tid: Tid) {
    forall id | id != tid :: Alike(db, db', id)
  }

  /** Two stores that nobody but tid can tell apart. */
  ghost predicate Indistinct(s: StoreState, s': StoreState, tid: Tid) {
    && s'.nextTid == s.nextTid
    && (forall id | id != tid :: id in s'.trans <==> id in s.trans)
    && AlikeToOthers(s.db, s'.db, tid)
  }

  /** The same event of anybody else: same outcome, still indistinct. */
  lemma SameOutcome(s: StoreState, s': StoreState, ev: Event, version: Version, tid: Tid)
    requires Indistinct(s, s', tid) && !Of(ev, tid) && Closed(Committed(s.db))
    ensures Next(s', ev, version).1 == Next(s, ev, version).1
    ensures Indistinct(Next(s, ev, version).0, Next(s', ev, version).0, tid)
  {
    hide AlikeToOthers, Direct, InTransaction, DoMerge, AbortAll, CanMerge, Closed, Committed;
    match ev {
      case Branch =>
      case DirectOp(op) => DirectAlikeToOthers(s.db, s'.db, op, tid);
      case TransactionOp(other, op) => OperationAlikeToOthers(s.db, s'.db, other, op, tid);
      case Merge(other) => EndAlikeToOthers(s.db, s'.db, other, version, tid);
      case Abort(other) => EndAlikeToOthers(s.db, s'.db, other, version, tid);
    }
  }

  lemma DirectAlikeToOthers(db: Db, db': Db, op: Op, tid: Tid)
    requires AlikeToOthers(db, db', tid) && Closed(Committed(db))
    ensures AlikeToOthers(Direct(db, op).0, Direct(db', op).0, tid) && Direct(db', op).1 == Direct(db, op).1
  {
    hide Alike, Direct, Closed, Committed;
    assert Alike(db, db', tid + 1);
    DirectAlike(db, db', tid + 1, op);
    forall id | id != tid ensures Alike(Direct(db, op).0, Direct(db', op).0, id) { DirectAlike(db, db', id, op); }
  }

  lemma OperationAlikeToOthers(db: Db, db': Db, other: Tid, op: Op, tid: Tid)
    requires AlikeToOthers(db, db', tid) && other != tid
    ensures AlikeToOthers(InTransaction(db, other, op).0, InTransaction(db', other, op).0, tid)
    ensures InTransaction(db', other, op).1 == InTransaction(db, other, op).1
  {
    hide Alike, InTransaction;
    assert Alike(db, db', other);
    OperationAlike(db, db', other, op);
    forall id | id != tid ensures Alike(InTransaction(db, other, op).0, InTransaction(db', other, op).0, id) {
      assert Alike(db, db', id);
      OperationAlikeTo(db, db', other, op, id);
    }
  }

  lemma EndAlikeToOthers(db: Db, db': Db, other: Tid, version: Version, tid: Tid)
    requires AlikeToOthers(db, db', tid) && other != tid
    ensures CanMerge(db', other) <==> CanMerge(db, other)
    ensures AlikeToOthers(AbortAll(db, other), AbortAll(db', other), tid)
    ensures CanMerge(db, other) ==> AlikeToOthers(DoMerge(db, other, version), DoMerge(db', other, version), tid)
  {
    hide Alike, AbortAll, DoMerge, CanMerge;
    assert Alike(db, db', other);
    SameMeansSameVerdict(db, db', other);
    forall id | id != tid ensures Alike(AbortAll(db, other), AbortAll(db', other), id)
                                  && (CanMerge(db, other) ==> Alike(DoMerge(db, other, version), DoMerge(db', other, version), id)) {
      assert Alike(db, db', id);
      AbortAlike(db, db', other, id);
      if CanMerge(db, other) { MergeAlike(db, db', other, id, version); }
    }
  }

  lemma OperationAlikeTo(db: Db, db': Db, other: Tid, op: Op, id: Tid)
    requires Alike(db, db', other) && Alike(db, db', id)
    ensures Alike(InTransaction(db, other, op).0, InTransaction(db', other, op).0, id)
  {
    OperationAlike(db, db', other, op);
    if id != other {
      AlikeIsOk(db, db', id);
      OperationUnseen(db, other, op, id);
      OperationUnseen(db', other, op, id);
      hide Alike;
      AlikeSymmetric(db, InTransaction(db, other, op).0, id);
      AlikeTransitive(InTransaction(db, other, op).0, db, db', id);
      AlikeTransitive(InTransaction(db, other, op).0, db', InTransaction(db', other, op).0, id);
    }
  }

  lemma AlikeSymmetric(db: Db, db': Db, id: Tid)
    requires Alike(db, db', id)
    ensures Alike(db', db, id)
  {
    forall p ensures SameRecord(Get(db', p), Get(db, p), id) { assert SameRecord(Get(db, p), Get(db', p), id); }
  }

  lemma OwnEventElsewhere(s: StoreState, ev: Event, version: Version, tid: Tid)
    requires Of(ev, tid)
    ensures var n := Next(s, ev, version).0; n.nextTid == s.nextTid && forall id | id != tid :: id in n.trans <==> id in s.trans
  {
  }

  lemma StillIndistinct(s: StoreState, s': StoreState, j: Journal, ev: Event, version: Version, tid: Tid)
    requires Inv(s, j, version) && Indistinct(s, s', tid) && Of(ev, tid) && Next(s, ev, version).1 != Merged(true)
    ensures Indistinct(Next(s, ev, version).0, s', tid)
  {
    hide Alike, Inv, Next;
    var n := Next(s, ev, version).0;
    OwnEventElsewhere(s, ev, version, tid);
    forall id | id != tid ensures Alike(n.db, s'.db, id) {
      OwnEventUnseen(s, j, ev, version, tid, id);
      AlikeSymmetric(s.db, n.db, id);
      AlikeTransitive(n.db, s.db, s'.db, id);
    }
  }

  /** No merge of tid succeeds. */
  predicate NeverCommits(s: StoreState, evs: seq<Event>, version: Version, tid: Tid)
    decreases |evs|
  {
    evs == [] || (
      && (Of(evs[0], tid) ==> Next(s, evs[0], version).1 != Merged(true))
      && NeverCommits(Next(s, evs[0], version).0, evs[1..], version, tid))
  }

  /** The run without what tid did. */
  function LeaveOut(evs: seq<Event>, tid: Tid): seq<Event>
    decreases |evs|
  {
    if evs == [] then []
    else (if Of(evs[0], tid) then [] else [evs[0]]) + LeaveOut(evs[1..], tid)
  }

  /** The outcomes of everything else. */
  function OthersOutcomes(evs: seq<Event>, outs: seq<Outcome>, tid: Tid): seq<Outcome>
    requires |outs| == |evs|
    decreases |evs|
  {
    if evs == [] then []
    else (if Of(evs[0], tid) then [] else [outs[0]]) + OthersOutcomes(evs[1..], outs[1..], tid)
  }

  lemma {:induction false} UnobservableFrom(s: StoreState, s': StoreState, j: Journal, evs: seq<Event>, version: Version, tid: Tid)
    requires Inv(s, j, version) && Indistinct(s, s', tid) && NeverCommits(s, evs, version, tid)
    ensures var (e, outs) := Run(s, evs, version); var (e', outs') := Run(s', LeaveOut(evs, tid), version);
      outs' == OthersOutcomes(evs, outs, tid) && Indistinct(e, e', tid)
    decreases |evs|
  {
    hide Inv, Indistinct, Next, Note, Of;
    if evs != [] {
      var (n, out) := Next(s, evs[0], version);
      var rest := evs[1..];
      NextInv(s, j, evs[0], version);
      assert Run(s, evs, version).1[1..] == Run(n, rest, version).1;
      if Of(evs[0], tid) {
        StillIndistinct(s, s', j, evs[0], version, tid);
        UnobservableFrom(n, s', Note(j, evs[0], out), rest, version, tid);
        assert LeaveOut(evs, tid) == LeaveOut(rest, tid);
      } else {
        InvFacts(s, j, version);
        SameOutcome(s, s', evs[0], version, tid);
        UnobservableFrom(n, Next(s', evs[0], version).0, Note(j, evs[0], out), rest, version, tid);
        assert LeaveOut(evs, tid)[1..] == LeaveOut(rest, tid);
      }
    }
  }

  /** Isolation over whole runs: a transaction that never commits cannot be observed.  Leaving out all its
      operations, failed merges and aborts changes no outcome of any other event, whatever others do and
      commit before and after, nor the committed tree. */
  lemma Unobservable(evs: seq<Event>, version: Version, tid: Tid)
    requires NeverCommits(INITIAL, evs, version, tid)
    ensures var (e, outs) := Run(INITIAL, evs, version); var (e', outs') := Run(INITIAL, LeaveOut(evs, tid), version);
      outs' == OthersOutcomes(evs, outs, tid) && Committed(e'.db) == Committed(e.db)
  {
    InitialInv(version);
    AlikeReflexive(INITIAL.db, tid + 1);
    forall id ensures Alike(INITIAL.db, INITIAL.db, id) { AlikeReflexive(INITIAL.db, id); }
    UnobservableFrom(INITIAL, INITIAL, UNWRITTEN, evs, version, tid);
    var e, e' := Run(INITIAL, evs, version).0, Run(INITIAL, LeaveOut(evs, tid), version).0;
    assert Alike(e.db, e'.db, tid + 1);
    AlikeCommitted(e.db, e'.db, tid + 1);
  }
}
