/**
 What a transaction's overlay means.

 Shows(S, db, id, t) says that transaction id's overlay, laid over the committed tree S, shows the
 tree t.  Compatible(S, db, id) says that S agrees with everything the transaction has observed.
 The lemmas show, for EVERY compatible S, that each operation of a transaction is Tree.Step on the
 shown tree, with the same reply.  Nothing is assumed about what other clients did in between.
 */
module Views {
  import opened Paths
  import opened Tree
  import opened Database
  import opened SimpleAccess
  import opened Transaction

  function Base(S: Tree, p: Path): set<Name> {
    if p in S then S[p].children else {}
  }

  /** What the overlay entry stands for over S: written data or S's data, and S's children amended. */
  function Held(S: Tree, p: Path, te: TEntry): Node {
    var amended := Base(S, p) + te.childrenAdd - te.childrenRem;
    if te.writeSeq > te.initSeq || p !in S
    then Node(te.value, te.perms, amended)
    else Node(S[p].value, S[p].perms, amended)
  }

  /** Where the transaction has an overlay entry, that entry decides; elsewhere S does. */
  ghost predicate ShownAt(S: Tree, r: Record, id: Tid, p: Path, t: Tree) {
    if id in r.te then
      && (p in t <==> TValid(r.te[id]))
      && (p in t ==> t[p] == Held(S, p, r.te[id]))
      && (p !in t ==> Held(S, p, r.te[id]).children == {})
    else
      && (p in t <==> p in S)
      && (p in t ==> t[p] == S[p])
  }

  ghost predicate Shows(S: Tree, db: Db, id: Tid, t: Tree) {
    forall p {:trigger ShownAt(S, Get(db, p), id, p, t)} :: ShownAt(S, Get(db, p), id, p, t)
  }

  ghost predicate Agrees(S: Tree, p: Path, te: TEntry) {
    && te.initValid == (p in S)
    && (te.mark.seen.Some? && p in S ==> te.mark.seen.value == Data(S[p].value, S[p].perms))
    && (te.readChildrenSeq != 0 ==> te.children == Base(S, p))
  }

  ghost predicate AgreesAt(S: Tree, r: Record, id: Tid, p: Path) {
    id in r.te ==> Agrees(S, p, r.te[id])
  }

  ghost predicate Compatible(S: Tree, db: Db, id: Tid) {
    forall p {:trigger AgreesAt(S, Get(db, p), id, p)} :: AgreesAt(S, Get(db, p), id, p)
  }

  // ------------------------------------------------------------- one record at a time

  /** t and u differ at p only. */
  ghost predicate SameBut(t: Tree, u: Tree, p: Path) {
    forall q | q != p :: (q in t <==> q in u) && (q in t ==> t[q] == u[q])
  }

  lemma PutShows(S: Tree, db: Db, id: Tid, p: Path, r: Record, t: Tree, u: Tree)
    requires Shows(S, db, id, t) && SameBut(t, u, p) && ShownAt(S, r, id, p, u)
    ensures Shows(S, db[p := r], id, u)
  {
    var db' := db[p := r];
    forall q {:trigger Get(db', q)} ensures ShownAt(S, Get(db', q), id, q, u) {
      if q != p { assert ShownAt(S, Get(db, q), id, q, t); }
    }
  }

  lemma LearnsAgrees(S: Tree, p: Path, te: TEntry, te': TEntry)
    requires Learns(te, te') && Agrees(S, p, te')
    ensures Agrees(S, p, te)
  {
  }

  /** An overlay that knows more is compatible with fewer trees. */
  lemma EarlierIsCompatible(S: Tree, db: Db, db': Db, id: Tid)
    requires OnlyOverlays(db, db', id) && Compatible(S, db', id)
    ensures Compatible(S, db, id)
  {
    forall p ensures AgreesAt(S, Get(db, p), id, p) {
      assert Overlays(Get(db, p), Get(db', p), id) && AgreesAt(S, Get(db', p), id, p);
    }
  }

  lemma TouchShown(S: Tree, r: Record, id: Tid, p: Path, t: Tree)
    requires ShownAt(S, r, id, p, t) && RecordOk(Touch(r, id)) && Agrees(S, p, Touch(r, id).te[id])
    ensures ShownAt(S, Touch(r, id), id, p, t)
    ensures p in t <==> TValid(Touch(r, id).te[id])
  {
  }

  /** Fetching data changes nothing that is shown, and what it leaves is the shown data. */
  lemma FetchDataShown(S: Tree, r: Record, id: Tid, p: Path, t: Tree)
    requires id in r.te && ShownAt(S, r, id, p, t) && RecordOk(r) && RecordOk(FetchData(r, id))
    requires TValid(r.te[id]) && Agrees(S, p, FetchData(r, id).te[id])
    ensures var r' := FetchData(r, id);
      && ShownAt(S, r', id, p, t) && TValid(r'.te[id])
      && p in t && t[p].value == r'.te[id].value && t[p].perms == r'.te[id].perms
  {
  }

  /** Fetching the children list changes nothing that is shown, and what it leaves is the shown list. */
  lemma FetchChildrenShown(S: Tree, r: Record, id: Tid, p: Path, t: Tree)
    requires id in r.te && ShownAt(S, r, id, p, t) && RecordOk(r)
    requires TValid(r.te[id]) && Agrees(S, p, FetchChildren(r, id).te[id])
    ensures var r' := FetchChildren(r, id);
      && ShownAt(S, r', id, p, t) && TValid(r'.te[id])
      && p in t && t[p].children == TChildren(r'.te[id])
  {
  }

  lemma WriteShown(S: Tree, r: Record, id: Tid, p: Path, t: Tree, value: string, perms: Perms)
    requires id in r.te && ShownAt(S, r, id, p, t) && RecordOk(r)
    ensures ShownAt(S, TWrite(r, id, value, perms), id, p,
                    t[p := Node(value, perms, if p in t then t[p].children else {})])
  {
  }

  lemma LinkShown(S: Tree, r: Record, id: Tid, p: Path, t: Tree, name: Name)
    requires id in r.te && ShownAt(S, r, id, p, t) && p in t
    ensures ShownAt(S, TLink(r, id, name), id, p, t[p := t[p].(children := t[p].children + {name})])
  {
  }

  lemma UnlinkShown(S: Tree, r: Record, id: Tid, p: Path, t: Tree)
    requires p.Sub? && id in r.te && ShownAt(S, r, id, p.parent, t)
    ensures ShownAt(S, TUnlink(r, id, p.name), id, p.parent, DropName(t, p))
  {
  }

  lemma DeleteShown(S: Tree, r: Record, id: Tid, p: Path, t: Tree)
    requires id in r.te && ShownAt(S, r, id, p, t) && RecordOk(r) && p in t && t[p].children == {}
    ensures ShownAt(S, TDelete(r, id), id, p, t - {p})
  {
  }

  // ------------------------------------------------------------- one db update at a time

  /** The database is sound and id's overlay shows t over S. */
  ghost predicate Sim(S: Tree, db: Db, id: Tid, t: Tree) {
    DbOk(db) && Shows(S, db, id, t)
  }

  lemma RefSim(S: Tree, db: Db, id: Tid, p: Path, t: Tree)
    requires Sim(S, db, id, t) && Agrees(S, p, Ref(db, id, p).te[id])
    ensures Sim(S, db[p := Ref(db, id, p)], id, t)
    ensures ShownAt(S, Ref(db, id, p), id, p, t)
    ensures p in t <==> TValid(Ref(db, id, p).te[id])
  {
    RefOk(db, id, p);
    assert ShownAt(S, Get(db, p), id, p, t);
    TouchShown(S, Get(db, p), id, p, t);
    PutShows(S, db, id, p, Ref(db, id, p), t, t);
  }

  lemma RefAgrees(S: Tree, db: Db, id: Tid, p: Path, r: Record)
    requires DbOk(db) && id in r.te && Agrees(S, p, r.te[id]) && Overlays(Ref(db, id, p), r, id)
    ensures Agrees(S, p, Ref(db, id, p).te[id])
  {
  }

  lemma FetchSim(S: Tree, db: Db, id: Tid, p: Path, t: Tree)
    requires Sim(S, db, id, t) && TValid(Ref(db, id, p).te[id])
    requires Agrees(S, p, FetchData(Ref(db, id, p), id).te[id])
    ensures var r := FetchData(Ref(db, id, p), id);
      && Sim(S, db[p := r], id, t) && ShownAt(S, r, id, p, t) && TValid(r.te[id]) && RecordOk(r)
      && p in t && t[p].value == r.te[id].value && t[p].perms == r.te[id].perms
  {
    var r := Ref(db, id, p);
    RefOk(db, id, p);
    FetchDataOk(r, id);
    RefAgrees(S, db, id, p, FetchData(r, id));
    RefSim(S, db, id, p, t);
    FetchDataShown(S, r, id, p, t);
    PutShows(S, db, id, p, FetchData(r, id), t, t);
  }

  lemma WriteSim(S: Tree, db: Db, id: Tid, p: Path, r: Record, t: Tree, value: string, perms: Perms)
    requires Sim(S, db, id, t) && id in r.te && RecordOk(r) && ShownAt(S, r, id, p, t)
    ensures Sim(S, db[p := TWrite(r, id, value, perms)], id,
                t[p := Node(value, perms, if p in t then t[p].children else {})])
  {
    TWriteOk(r, id, value, perms);
    WriteShown(S, r, id, p, t, value, perms);
    PutShows(S, db, id, p, TWrite(r, id, value, perms), t, t[p := Node(value, perms, if p in t then t[p].children else {})]);
  }

  lemma RegisterSim(S: Tree, db: Db, id: Tid, p: Path, t: Tree)
    requires Sim(S, db, id, t) && Compatible(S, RegisterIn(db, id, p), id)
    requires p.Sub? ==> p.parent in t
    ensures Sim(S, RegisterIn(db, id, p), id, AddName(t, p))
  {
    RegisterInOk(db, id, p);
    if p.Sub? {
      var r := Ref(db, id, p.parent);
      assert AgreesAt(S, Get(RegisterIn(db, id, p), p.parent), id, p.parent);
      LearnsAgrees(S, p.parent, r.te[id], TLink(r, id, p.name).te[id]);
      ParentShown(S, db, id, p, t);
      PutShows(S, db, id, p.parent, TLink(r, id, p.name), t, AddName(t, p));
    }
  }

  /** A parent that is not shown has no list to forget the name. */
  lemma UnregisterSim(S: Tree, db: Db, id: Tid, p: Path, t: Tree)
    requires Sim(S, db, id, t) && Compatible(S, UnregisterIn(db, id, p), id)
    ensures Sim(S, UnregisterIn(db, id, p), id, DropName(t, p))
  {
    UnregisterInOk(db, id, p);
    if p.Sub? {
      var r := Ref(db, id, p.parent);
      assert AgreesAt(S, Get(UnregisterIn(db, id, p), p.parent), id, p.parent);
      LearnsAgrees(S, p.parent, r.te[id], TUnlink(r, id, p.name).te[id]);
      RefSim(S, db, id, p.parent, t);
      UnlinkShown(S, r, id, p, t);
      PutShows(S, db, id, p.parent, TUnlink(r, id, p.name), t, DropName(t, p));
    }
  }

  lemma ParentShown(S: Tree, db: Db, id: Tid, p: Path, t: Tree)
    requires Sim(S, db, id, t) && p.Sub? && p.parent in t && Agrees(S, p.parent, Ref(db, id, p.parent).te[id])
    ensures ShownAt(S, TLink(Ref(db, id, p.parent), id, p.name), id, p.parent, AddName(t, p))
  {
    RefSim(S, db, id, p.parent, t);
    LinkShown(S, Ref(db, id, p.parent), id, p.parent, t, p.name);
  }

  lemma ParentPermsSim(S: Tree, db: Db, id: Tid, p: Path, t: Tree)
    requires Sim(S, db, id, t) && Compatible(S, ParentPermsIn(db, id, p).0, id)
    requires p.Sub? ==> p.parent in t
    ensures Sim(S, ParentPermsIn(db, id, p).0, id, t)
    ensures ParentPermsIn(db, id, p).1 == ParentPerms(t, p)
  {
    if p.Sub? {
      var r := FetchData(Ref(db, id, p.parent), id);
      RefOk(db, id, p.parent);
      FetchDataOk(Ref(db, id, p.parent), id);
      assert AgreesAt(S, Get(ParentPermsIn(db, id, p).0, p.parent), id, p.parent);
      RefAgrees(S, db, id, p.parent, r);
      RefSim(S, db, id, p.parent, t);
      FetchSim(S, db, id, p.parent, t);
    }
  }

  // ------------------------------------------------------------- create and update

  lemma {:induction false} CreateSim(S: Tree, db: Db, id: Tid, p: Path, t: Tree)
    requires Sim(S, db, id, t) && Compatible(S, CreateIn(db, id, p).0, id)
    ensures Sim(S, CreateIn(db, id, p).0, id, if p in t then t else AddNode(t, p, ""))
    ensures CreateIn(db, id, p).1 <==> p !in t
    decreases p, 1
  {
    var r := Ref(db, id, p);
    RefOk(db, id, p);
    PutOverlay(db, id, p, r);
    if !TValid(r.te[id]) {
      AddInOk(db[p := r], id, p, "");
      EarlierIsCompatible(S, db[p := r], CreateIn(db, id, p).0, id);
    }
    assert AgreesAt(S, Get(db[p := r], p), id, p);
    RefSim(S, db, id, p, t);
    if !TValid(r.te[id]) { AddSim(S, db[p := r], id, p, "", t); }
  }

  lemma {:induction false} AddSim(S: Tree, db: Db, id: Tid, p: Path, value: string, t: Tree)
    requires Sim(S, db, id, t) && Compatible(S, AddIn(db, id, p, value), id)
    requires p !in t
    ensures Sim(S, AddIn(db, id, p, value), id, AddNode(t, p, value))
    decreases p, 0
  {
    var branch := if p.Sub? then CreateIn(db, id, p.parent).0 else db;
    var listed := RegisterIn(branch, id, p);
    var (read, perms) := ParentPermsIn(listed, id, p);
    AddStages(S, db, id, p, value);
    var branchTree := if p.Sub? && p.parent !in t then AddNode(t, p.parent, "") else t;
    if p.Sub? {
      CreateSim(S, db, id, p.parent, t);
      AddNodeKeys(t, p.parent, "");
      if Below(p.parent, p) { BelowIsDeeper(p.parent, p); }
    }
    RegisterSim(S, branch, id, p, branchTree);
    ParentPermsSim(S, listed, id, p, AddName(branchTree, p));
    AddLastSim(S, read, id, p, value, perms, AddName(branchTree, p));
  }

  lemma AddLastSim(S: Tree, db: Db, id: Tid, p: Path, value: string, perms: Perms, t: Tree)
    requires Sim(S, db, id, t) && p !in t
    requires Agrees(S, p, Ref(db, id, p).te[id])
    ensures Sim(S, db[p := TWrite(Ref(db, id, p), id, value, perms)], id, t[p := Node(value, perms, {})])
  {
    RefOk(db, id, p);
    RefSim(S, db, id, p, t);
    WriteSim(S, db, id, p, Ref(db, id, p), t, value, perms);
  }

  /** Each stage of AddIn is compatible with what its end is compatible with. */
  lemma AddStages(S: Tree, db: Db, id: Tid, p: Path, value: string)
    requires DbOk(db) && Compatible(S, AddIn(db, id, p, value), id)
    ensures var branch := if p.Sub? then CreateIn(db, id, p.parent).0 else db;
      var listed := RegisterIn(branch, id, p);
      var read := ParentPermsIn(listed, id, p).0;
      && DbOk(branch) && Compatible(S, branch, id)
      && DbOk(listed) && Compatible(S, listed, id)
      && DbOk(read) && Compatible(S, read, id)
      && Agrees(S, p, Ref(read, id, p).te[id])
  {
    var branch := if p.Sub? then CreateIn(db, id, p.parent).0 else db;
    var listed := RegisterIn(branch, id, p);
    var (read, perms) := ParentPermsIn(listed, id, p);
    if p.Sub? { CreateInOk(db, id, p.parent); }
    RegisterInOk(branch, id, p);
    ParentPermsInOk(listed, id, p);
    var r := Ref(read, id, p);
    RefOk(read, id, p);
    WriteInOk(read, id, p, r, value, perms);
    EarlierIsCompatible(S, read, AddIn(db, id, p, value), id);
    EarlierIsCompatible(S, listed, read, id);
    EarlierIsCompatible(S, branch, listed, id);
    assert AgreesAt(S, Get(AddIn(db, id, p, value), p), id, p);
    TWriteOk(r, id, value, perms);
    RefAgrees(S, read, id, p, TWrite(r, id, value, perms));
  }

  // ------------------------------------------------------------- delete

  lemma ListSim(S: Tree, db: Db, id: Tid, p: Path, t: Tree)
    requires Sim(S, db, id, t) && TValid(Ref(db, id, p).te[id])
    requires Agrees(S, p, FetchChildren(FetchData(Ref(db, id, p), id), id).te[id])
    ensures var r := FetchChildren(FetchData(Ref(db, id, p), id), id);
      && Sim(S, db[p := r], id, t) && p in t && TChildren(r.te[id]) == t[p].children
  {
    var read := FetchData(Ref(db, id, p), id);
    RefOk(db, id, p);
    FetchDataOk(Ref(db, id, p), id);
    FetchChildrenOk(read, id);
    assert TEntryOk(read, read.te[id]);
    LearnsAgrees(S, p, read.te[id], FetchChildren(read, id).te[id]);
    FetchSim(S, db, id, p, t);
    FetchChildrenShown(S, read, id, p, t);
    PutShows(S, db, id, p, FetchChildren(read, id), t, t);
  }

  lemma DeletableSim(S: Tree, db: Db, id: Tid, cid: nat, p: Path, t: Tree)
    requires Sim(S, db, id, t) && Agrees(S, p, DeletableIn(db, id, cid, p).0.te[id])
    ensures var (r, reply) := DeletableIn(db, id, cid, p);
      && Sim(S, db[p := r], id, t)
      && reply == (if p !in t then Fail(ENOENT) else if !HasWriteAccess(cid, t[p].perms) then Fail(EACCES) else Done)
      && (reply.Done? ==> TChildren(r.te[id]) == t[p].children)
  {
    var r0 := Ref(db, id, p);
    var read := FetchData(r0, id);
    if !TValid(r0.te[id]) {
      RefSim(S, db, id, p, t);
    } else if HasWriteAccess(cid, read.te[id].perms) {
      RefOk(db, id, p);
      FetchDataOk(r0, id);
      FetchChildrenOk(read, id);
      assert TEntryOk(read, read.te[id]);
      LearnsAgrees(S, p, read.te[id], FetchChildren(read, id).te[id]);
      FetchSim(S, db, id, p, t);
      ListSim(S, db, id, p, t);
    } else {
      FetchSim(S, db, id, p, t);
    }
  }

  lemma {:induction false} DeleteSim(S: Tree, db: Db, id: Tid, cid: nat, p: Path, bound: nat, t: Tree)
    requires Sim(S, db, id, t) && BoundedFor(db, id, bound) && Closed(t)
    requires Compatible(S, DeleteIn(db, id, cid, p, bound).0, id)
    ensures var (db', reply) := DeleteIn(db, id, cid, p, bound);
      && Sim(S, db', id, Step(t, Delete(cid, p)).0)
      && reply == Step(t, Delete(cid, p)).1
    decreases 2 * (bound - Depth(p)) + 1, 1
  {
    hide DeletableIn, RemoveBranch, Closed, Shows, DbOk, Agrees, HasWriteAccess, BoundedFor;
    var (r, reply) := DeletableIn(db, id, cid, p);
    if reply.Done? { DeleteStages(S, db, id, cid, p, bound); }
    assert AgreesAt(S, Get(db[p := r], p), id, p);
    DeletableSim(S, db, id, cid, p, t);
    if reply.Done? { DeleteDoneSim(S, db, id, cid, p, bound, t); }
  }

  lemma {:induction false} DeleteDoneSim(S: Tree, db: Db, id: Tid, cid: nat, p: Path, bound: nat, t: Tree)
    requires Sim(S, db, id, t) && BoundedFor(db, id, bound) && Closed(t) && p in t
    requires DeletableIn(db, id, cid, p).1.Done?
    requires Sim(S, db[p := DeletableIn(db, id, cid, p).0], id, t)
    requires TChildren(DeletableIn(db, id, cid, p).0.te[id]) == t[p].children
    requires Compatible(S, DeleteIn(db, id, cid, p, bound).0, id)
    ensures Sim(S, DeleteIn(db, id, cid, p, bound).0, id, RemoveBranch(t, p))
    decreases 2 * (bound - Depth(p)) + 1, 0
  {
    hide DeletableIn, TChildren, RemoveBranch, Shows, DbOk, UnregisterIn, TDelete, Agrees, Ref;
    var names := t[p].children;
    var listed := db[p := DeletableIn(db, id, cid, p).0];
    DeleteStages(S, db, id, cid, p, bound);
    WithoutNone(t, p);
    assert t[p].children - names == {};
    DeleteChildrenSim(S, listed, id, p, names, bound, t, t);
    DeleteLastSim(S, DeleteChildrenIn(listed, id, p, names, bound), id, p, t);
  }

  /** Client 0 may delete anything that is there. */
  lemma {:induction false} DeleteAsZeroSim(S: Tree, db: Db, id: Tid, p: Path, bound: nat, t: Tree)
    requires Sim(S, db, id, t) && BoundedFor(db, id, bound) && Closed(t) && p in t
    requires Compatible(S, DeleteIn(db, id, 0, p, bound).0, id)
    ensures Sim(S, DeleteIn(db, id, 0, p, bound).0, id, RemoveBranch(t, p))
    ensures Closed(RemoveBranch(t, p))
    decreases 2 * (bound - Depth(p)) + 1, 2
  {
    DeleteSim(S, db, id, 0, p, bound, t);
    RemoveBranchKeepsClosed(t, p);
  }

  /** The end of a delete, once the children's branches are gone. */
  lemma DeleteLastSim(S: Tree, db: Db, id: Tid, p: Path, t: Tree)
    requires Closed(t) && p in t && Sim(S, db, id, Without(t, p, t[p].children))
    requires Compatible(S, UnregisterIn(db, id, p), id)
    requires Agrees(S, p, Ref(UnregisterIn(db, id, p), id, p).te[id])
    ensures var unlisted := UnregisterIn(db, id, p);
      Sim(S, unlisted[p := TDelete(Ref(unlisted, id, p), id)], id, RemoveBranch(t, p))
  {
    var u := Without(t, p, t[p].children);
    var v := DropName(u, p);
    WithoutAll(t, p);
    NotBelowItself(p);
    UnregisterSim(S, db, id, p, u);
    var unlisted := UnregisterIn(db, id, p);
    var r := Ref(unlisted, id, p);
    RefOk(unlisted, id, p);
    RefSim(S, unlisted, id, p, v);
    TDeleteOk(r, id);
    assert v[p].children == {};
    DeleteShown(S, r, id, p, v);
    PutShows(S, unlisted, id, p, TDelete(r, id), v, v - {p});
  }

  lemma DeleteStages(S: Tree, db: Db, id: Tid, cid: nat, p: Path, bound: nat)
    requires DbOk(db) && BoundedFor(db, id, bound) && DeletableIn(db, id, cid, p).1.Done?
    requires Compatible(S, DeleteIn(db, id, cid, p, bound).0, id)
    ensures var r := DeletableIn(db, id, cid, p).0;
      var listed := db[p := r];
      var emptied := DeleteChildrenIn(listed, id, p, TChildren(r.te[id]), bound);
      var unlisted := UnregisterIn(emptied, id, p);
      && DbOk(listed) && Compatible(S, listed, id)
      && DbOk(emptied) && Compatible(S, emptied, id)
      && DbOk(unlisted) && Compatible(S, unlisted, id)
      && Agrees(S, p, Ref(unlisted, id, p).te[id])
  {
    var r := DeletableIn(db, id, cid, p).0;
    LookInOk(db, id, cid, p);
    PutOverlay(db, id, p, r);
    var listed := db[p := r];
    DeleteChildrenInOk(listed, id, p, TChildren(r.te[id]), bound);
    var emptied := DeleteChildrenIn(listed, id, p, TChildren(r.te[id]), bound);
    UnregisterInOk(emptied, id, p);
    var unlisted := UnregisterIn(emptied, id, p);
    var last := Ref(unlisted, id, p);
    RefOk(unlisted, id, p);
    TDeleteOk(last, id);
    OverlaysTransitive(Get(unlisted, p), last, TDelete(last, id), id);
    PutOverlay(unlisted, id, p, TDelete(last, id));
    var db' := unlisted[p := TDelete(last, id)];
    assert db' == DeleteIn(db, id, cid, p, bound).0;
    EarlierIsCompatible(S, unlisted, db', id);
    EarlierIsCompatible(S, emptied, unlisted, id);
    EarlierIsCompatible(S, listed, emptied, id);
    assert AgreesAt(S, Get(db', p), id, p);
    RefAgrees(S, unlisted, id, p, TDelete(last, id));
  }

  lemma DeleteChildrenStages(S: Tree, db: Db, id: Tid, p: Path, names: set<Name>, bound: nat)
    requires DbOk(db) && BoundedFor(db, id, bound) && Depth(p) <= bound && names != {}
    requires Compatible(S, DeleteChildrenIn(db, id, p, names, bound), id)
    ensures Compatible(S, DeleteIn(db, id, 0, Sub(p, Least(names)), bound).0, id)
  {
    var c := Least(names);
    var next := DeleteIn(db, id, 0, Sub(p, c), bound).0;
    DeleteInOk(db, id, 0, Sub(p, c), bound);
    DeleteChildrenInOk(next, id, p, names - {c}, bound);
    EarlierIsCompatible(S, next, DeleteChildrenIn(db, id, p, names, bound), id);
  }

  lemma {:induction false} DeleteChildrenSim(S: Tree, db: Db, id: Tid, p: Path, names: set<Name>, bound: nat, t: Tree, u: Tree)
    requires Sim(S, db, id, u) && BoundedFor(db, id, bound) && Depth(p) <= bound && Midway(t, p, names, u)
    requires Compatible(S, DeleteChildrenIn(db, id, p, names, bound), id)
    ensures Sim(S, DeleteChildrenIn(db, id, p, names, bound), id, Without(t, p, t[p].children))
    decreases 2 * (bound - Depth(p)), |names|
  {
    if names == {} {
      assert t[p].children - {} == t[p].children;
    } else {
      var c := Least(names);
      var next := DeleteIn(db, id, 0, Sub(p, c), bound).0;
      DeleteChildrenStages(S, db, id, p, names, bound);
      MidwayStep(t, p, names, u, c);
      DeleteAsZeroSim(S, db, id, Sub(p, c), bound, u);
      DeleteChildrenSim(S, next, id, p, names - {c}, bound, t, RemoveBranch(u, Sub(p, c)));
    }
  }

  // ------------------------------------------------------------- the remaining operations

  lemma LookSim(S: Tree, db: Db, id: Tid, cid: nat, p: Path, t: Tree)
    requires Sim(S, db, id, t) && Agrees(S, p, LookIn(db, id, cid, p).0.te[id])
    ensures var (r, reply) := LookIn(db, id, cid, p);
      && Sim(S, db[p := r], id, t) && RecordOk(r)
      && reply == (if p in t && HasReadAccess(cid, t[p].perms) then Done else Refusal(t, p))
      && (reply.Done? ==>
            ShownAt(S, r, id, p, t) && TValid(r.te[id]) && t[p].value == r.te[id].value && t[p].perms == r.te[id].perms)
  {
    var r0 := Ref(db, id, p);
    RefOk(db, id, p);
    FetchDataOk(r0, id);
    if TValid(r0.te[id]) {
      RefAgrees(S, db, id, p, FetchData(r0, id));
      RefSim(S, db, id, p, t);
      FetchSim(S, db, id, p, t);
    } else {
      RefSim(S, db, id, p, t);
    }
  }

  lemma GetChildrenSim(S: Tree, db: Db, id: Tid, cid: nat, p: Path, t: Tree)
    requires Sim(S, db, id, t) && Compatible(S, ChildrenIn(db, id, cid, p).0, id)
    ensures var (db', reply) := ChildrenIn(db, id, cid, p);
      Sim(S, db', id, t) && reply == Step(t, GetChildren(cid, p)).1
  {
    hide Shows, DbOk, HasReadAccess;
    var (r, reply) := LookIn(db, id, cid, p);
    assert AgreesAt(S, Get(ChildrenIn(db, id, cid, p).0, p), id, p);
    if reply.Done? {
      LookInOk(db, id, cid, p);
      FetchChildrenOk(r, id);
      assert TEntryOk(r, r.te[id]);
      LearnsAgrees(S, p, r.te[id], FetchChildren(r, id).te[id]);
      ListSim(S, db, id, p, t);
    }
    LookSim(S, db, id, cid, p, t);
  }

  lemma ReadSim(S: Tree, db: Db, id: Tid, cid: nat, p: Path, t: Tree)
    requires Sim(S, db, id, t) && Compatible(S, ReadIn(db, id, cid, p).0, id)
    ensures var (db', reply) := ReadIn(db, id, cid, p);
      Sim(S, db', id, t) && reply == Step(t, Read(cid, p)).1
  {
    hide Shows, DbOk, Agrees, HasReadAccess, ShownAt, LookIn;
    assert AgreesAt(S, Get(ReadIn(db, id, cid, p).0, p), id, p);
    LookSim(S, db, id, cid, p, t);
  }

  lemma GetPermsSim(S: Tree, db: Db, id: Tid, cid: nat, p: Path, t: Tree)
    requires Sim(S, db, id, t) && Compatible(S, GetPermsIn(db, id, cid, p).0, id)
    ensures var (db', reply) := GetPermsIn(db, id, cid, p);
      Sim(S, db', id, t) && reply == Step(t, GetPerms(cid, p)).1
  {
    hide Shows, DbOk, Agrees, HasReadAccess, ShownAt, LookIn;
    assert AgreesAt(S, Get(GetPermsIn(db, id, cid, p).0, p), id, p);
    LookSim(S, db, id, cid, p, t);
  }

  /** Overwriting a valid entry: its data is fetched, then set. */
  lemma OverwriteSim(S: Tree, db: Db, id: Tid, p: Path, value: string, perms: Perms, t: Tree)
    requires Sim(S, db, id, t) && TValid(Ref(db, id, p).te[id])
    requires Agrees(S, p, TWrite(FetchData(Ref(db, id, p), id), id, value, perms).te[id])
    ensures Sim(S, db[p := TWrite(FetchData(Ref(db, id, p), id), id, value, perms)], id,
                t[p := Node(value, perms, if p in t then t[p].children else {})])
    ensures p in t && Agrees(S, p, FetchData(Ref(db, id, p), id).te[id])
  {
    var read := FetchData(Ref(db, id, p), id);
    RefOk(db, id, p);
    FetchDataOk(Ref(db, id, p), id);
    assert TEntryOk(read, read.te[id]);
    TWriteOk(read, id, value, perms);
    LearnsAgrees(S, p, read.te[id], TWrite(read, id, value, perms).te[id]);
    FetchSim(S, db, id, p, t);
    WriteSim(S, db, id, p, read, t, value, perms);
  }

  lemma UpdateSim(S: Tree, db: Db, id: Tid, cid: nat, p: Path, value: string, t: Tree)
    requires Sim(S, db, id, t) && Compatible(S, UpdateIn(db, id, cid, p, value).0, id)
    ensures var (db', reply) := UpdateIn(db, id, cid, p, value);
      Sim(S, db', id, Step(t, Update(cid, p, value)).0) && reply == Step(t, Update(cid, p, value)).1
  {
    hide Shows, DbOk, TWrite, FetchData, Ref, HasWriteAccess, Agrees, ShownAt, AddIn, AddNode;
    var r := Ref(db, id, p);
    var read := FetchData(r, id);
    var db' := UpdateIn(db, id, cid, p, value).0;
    if TValid(r.te[id]) {
      assert AgreesAt(S, Get(db', p), id, p);
      if HasWriteAccess(cid, read.te[id].perms) { OverwriteSim(S, db, id, p, value, read.te[id].perms, t); }
      FetchSim(S, db, id, p, t);
    } else {
      UpdateNewSim(S, db, id, p, value, t);
    }
  }

  lemma UpdateNewSim(S: Tree, db: Db, id: Tid, p: Path, value: string, t: Tree)
    requires Sim(S, db, id, t) && !TValid(Ref(db, id, p).te[id])
    requires Compatible(S, AddIn(db[p := Ref(db, id, p)], id, p, value), id)
    ensures p !in t && Sim(S, AddIn(db[p := Ref(db, id, p)], id, p, value), id, AddNode(t, p, value))
  {
    var r := Ref(db, id, p);
    RefOk(db, id, p);
    PutOverlay(db, id, p, r);
    AddInOk(db[p := r], id, p, value);
    EarlierIsCompatible(S, db[p := r], AddIn(db[p := r], id, p, value), id);
    assert AgreesAt(S, Get(db[p := r], p), id, p);
    RefSim(S, db, id, p, t);
    AddSim(S, db[p := r], id, p, value, t);
  }

  lemma SetPermsSim(S: Tree, db: Db, id: Tid, cid: nat, p: Path, perms: Perms, t: Tree)
    requires Sim(S, db, id, t) && Compatible(S, SetPermsIn(db, id, cid, p, perms).0, id)
    ensures var (db', reply) := SetPermsIn(db, id, cid, p, perms);
      Sim(S, db', id, Step(t, SetPerms(cid, p, perms)).0) && reply == Step(t, SetPerms(cid, p, perms)).1
  {
    hide Shows, DbOk, TWrite, FetchData, Ref, HasWriteAccess, Agrees, ShownAt;
    var r := Ref(db, id, p);
    var read := FetchData(r, id);
    var db' := SetPermsIn(db, id, cid, p, perms).0;
    assert AgreesAt(S, Get(db', p), id, p);
    if TValid(r.te[id]) {
      if HasWriteAccess(cid, read.te[id].perms) { OverwriteSim(S, db, id, p, read.te[id].value, perms, t); }
      FetchSim(S, db, id, p, t);
    } else {
      RefSim(S, db, id, p, t);
    }
  }

  /**
   The core of serial equivalence: over every tree S that agrees with what the transaction has
   observed, the operation does to the shown tree what Tree.Step does, and replies the same.
   */
  lemma InTransactionIsStep(S: Tree, db: Db, id: Tid, op: Op, t: Tree)
    requires Sim(S, db, id, t) && Closed(t)
    requires Compatible(S, InTransaction(db, id, op).0, id)
    ensures var (db', reply) := InTransaction(db, id, op);
      Sim(S, db', id, Step(t, op).0) && reply == Step(t, op).1
  {
    hide Sim, Compatible, Closed, CreateIn, UpdateIn, SetPermsIn, DeleteIn, ReadIn, GetPermsIn, ChildrenIn,
         AddNode, RemoveBranch, HasReadAccess, HasWriteAccess;
    match op {
      case Create(_, p) => CreateSim(S, db, id, p, t);
      case Update(cid, p, value) => UpdateSim(S, db, id, cid, p, value, t);
      case SetPerms(cid, p, perms) => SetPermsSim(S, db, id, cid, p, perms, t);
      case Delete(cid, p) => DeleteSim(S, db, id, cid, p, DepthBoundFor(db, id), t);
      case Read(cid, p) => ReadSim(S, db, id, cid, p, t);
      case GetPerms(cid, p) => GetPermsSim(S, db, id, cid, p, t);
      case GetChildren(cid, p) => GetChildrenSim(S, db, id, cid, p, t);
    }
  }
}
