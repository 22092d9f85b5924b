/**
 A transaction's own view: the tree it would see by fetching everything now.  Unlike the trees of module
 Views it exists for every transaction, also for one whose observations no longer fit any committed tree.
 Every reply is Tree.Step's reply on the own view, and a delete removes from it exactly the branch.
 */
module OwnView {
  import opened Paths
  import opened Tree
  import opened Database
  import opened SimpleAccess
  import opened Transaction

  // ------------------------------------------------------------- the view

  /** The overlay entry as it is once its data and its child list are fetched. */
  function Fetched(r: Record, id: Tid): Node
    requires id in r.te
  {
    var te := FetchChildren(FetchData(r, id), id).te[id];
    Node(te.value, te.perms, TChildren(te))
  }

  function OwnNode(r: Record, id: Tid): Node {
    if id in r.te then Fetched(r, id) else NodeOf(r.e)
  }

  function Own(db: Db, id: Tid): Tree {
    map p | p in db && ValidFor(db[p], id) :: OwnNode(db[p], id)
  }

  lemma OwnAt(db: Db, id: Tid, p: Path)
    ensures p in Own(db, id) <==> ValidFor(Get(db, p), id)
    ensures p in Own(db, id) ==> Own(db, id)[p] == OwnNode(Get(db, p), id)
  {
  }

  /** Two records that the transaction sees alike. */
  ghost predicate SeenAlike(r: Record, r': Record, id: Tid) {
    (ValidFor(r', id) <==> ValidFor(r, id)) && (ValidFor(r, id) ==> OwnNode(r', id) == OwnNode(r, id))
  }

  lemma PutOwn(db: Db, id: Tid, p: Path, r: Record)
    ensures Own(db[p := r], id) == if ValidFor(r, id) then Own(db, id)[p := OwnNode(r, id)] else Own(db, id) - {p}
  {
  }

  lemma PutAlike(db: Db, id: Tid, p: Path, r: Record)
    requires SeenAlike(Get(db, p), r, id)
    ensures Own(db[p := r], id) == Own(db, id)
  {
    PutOwn(db, id, p, r);
    OwnAt(db, id, p);
    var t := Own(db, id);
    if ValidFor(r, id) { assert t[p := t[p]] == t; }
  }

  // ------------------------------------------------------------- one record

  lemma TouchAlike(r: Record, id: Tid)
    requires RecordOk(r)
    ensures SeenAlike(r, Touch(r, id), id)
  {
  }

  /** Fetching shows what fetching everything shows. */
  lemma FetchAlike(r: Record, id: Tid)
    requires RecordOk(r) && id in r.te && TValid(r.te[id])
    ensures SeenAlike(r, FetchData(r, id), id) && SeenAlike(r, FetchChildren(FetchData(r, id), id), id)
    ensures var te := FetchData(r, id).te[id];
      TValid(te) && te.value == OwnNode(r, id).value && te.perms == OwnNode(r, id).perms
    ensures TChildren(FetchChildren(FetchData(r, id), id).te[id]) == OwnNode(r, id).children
  {
    assert TEntryOk(r, r.te[id]);
  }

  lemma UnlinkOwn(r: Record, id: Tid, name: Name)
    requires RecordOk(r) && id in r.te
    ensures ValidFor(TUnlink(r, id, name), id) <==> ValidFor(r, id)
    ensures ValidFor(r, id) ==>
      OwnNode(TUnlink(r, id, name), id) == OwnNode(r, id).(children := OwnNode(r, id).children - {name})
  {
    FetchAfterUnlink(r, id, name);
    hide FetchData, FetchChildren;
    var te := FetchChildren(FetchData(r, id), id).te[id];
    assert te.children + (te.childrenAdd - {name}) - (te.childrenRem + {name}) == te.children + te.childrenAdd - te.childrenRem - {name};
  }

  lemma FetchAfterUnlink(r: Record, id: Tid, name: Name)
    requires id in r.te
    ensures var te, te' := FetchChildren(FetchData(r, id), id).te[id], FetchChildren(FetchData(TUnlink(r, id, name), id), id).te[id];
      && te'.value == te.value && te'.perms == te.perms && te'.children == te.children
      && te'.childrenAdd == te.childrenAdd - {name} && te'.childrenRem == te.childrenRem + {name}
  {
    var u := TUnlink(r, id, name);
    var d, d' := FetchData(r, id), FetchData(u, id);
    assert d'.e == d.e && d'.te[id].(mark := d.te[id].mark, readSeq := d.te[id].readSeq)
        == d.te[id].(childrenAdd := d.te[id].childrenAdd - {name}, childrenRem := d.te[id].childrenRem + {name});
    hide FetchData;
  }

  lemma DeletedOwn(r: Record, id: Tid)
    requires RecordOk(r) && id in r.te
    ensures !ValidFor(TDelete(r, id), id)
  {
    assert TEntryOk(r, r.te[id]);
  }

  // ------------------------------------------------------------- one step on the database

  lemma RefOwn(db: Db, id: Tid, p: Path)
    requires DbOk(db)
    ensures var r := Ref(db, id, p);
      && RecordOk(r) && SeenAlike(Get(db, p), r, id) && Own(db[p := r], id) == Own(db, id)
      && (TValid(r.te[id]) <==> p in Own(db, id))
      && (TValid(r.te[id]) ==> Own(db, id)[p] == OwnNode(r, id))
  {
    var r := Ref(db, id, p);
    GetOk(db, p);
    RefOk(db, id, p);
    TouchAlike(Get(db, p), id);
    PutAlike(db, id, p, r);
    OwnAt(db, id, p);
  }

  lemma UnregisterOwn(db: Db, id: Tid, p: Path)
    requires DbOk(db)
    ensures Own(UnregisterIn(db, id, p), id) == DropName(Own(db, id), p)
  {
    if p.Sub? {
      var r := Ref(db, id, p.parent);
      RefOwn(db, id, p.parent);
      UnlinkOwn(r, id, p.name);
      PutOwn(db, id, p.parent, TUnlink(r, id, p.name));
      var t := Own(db, id);
      if p.parent !in t { assert t - {p.parent} == t; }
    }
  }

  /** What LookIn and DeletableIn leave and answer, in terms of the own view. */
  lemma LookOwn(db: Db, id: Tid, cid: nat, p: Path)
    requires DbOk(db)
    ensures var (r, reply) := LookIn(db, id, cid, p); var t := Own(db, id);
      && reply == (if p in t && HasReadAccess(cid, t[p].perms) then Done else Refusal(t, p))
      && (reply.Done? ==>
            && r.te[id].value == t[p].value && r.te[id].perms == t[p].perms
            && TChildren(FetchChildren(r, id).te[id]) == t[p].children)
    ensures var (r, reply) := DeletableIn(db, id, cid, p); var t := Own(db, id);
      && Own(db[p := r], id) == t
      && reply == (if p !in t then Fail(ENOENT) else if !HasWriteAccess(cid, t[p].perms) then Fail(EACCES) else Done)
      && (reply.Done? ==> TChildren(r.te[id]) == t[p].children)
  {
    var r0 := Ref(db, id, p);
    RefOwn(db, id, p);
    if TValid(r0.te[id]) {
      FetchAlike(r0, id);
      hide FetchData, FetchChildren, OwnNode, HasReadAccess, HasWriteAccess, Own, TChildren, RecordOk, Touch;
      PutAlike(db, id, p, FetchData(r0, id));
      PutAlike(db, id, p, FetchChildren(FetchData(r0, id), id));
    }
  }

  // ------------------------------------------------------------- replies

  /** Every reply, also to a transaction that can no longer commit, is Step's reply on its own view. */
  lemma RepliesAreOwn(db: Db, id: Tid, op: Op)
    requires DbOk(db)
    ensures InTransaction(db, id, op).1 == Step(Own(db, id), op).1
  {
    var p := op.path;
    RefOwn(db, id, p);
    var r := Ref(db, id, p);
    if TValid(r.te[id]) { FetchAlike(r, id); }
    LookOwn(db, id, op.cid, p);
    hide Own, OwnNode, FetchData, FetchChildren, HasReadAccess, HasWriteAccess, LookIn, DeletableIn, TChildren, RecordOk, DbOk, Touch;
    match op {
      case Create(_, _) =>
      case Update(_, _, _) =>
      case SetPerms(_, _, _) =>
      case Delete(cid, _) => DeleteReply(db, id, cid, p, DepthBoundFor(db, id));
      case Read(_, _) =>
      case GetPerms(_, _) =>
      case GetChildren(_, _) =>
    }
  }

  lemma DeleteReply(db: Db, id: Tid, cid: nat, p: Path, bound: nat)
    requires BoundedFor(db, id, bound)
    ensures DeleteIn(db, id, cid, p, bound).1 == DeletableIn(db, id, cid, p).1
  {
  }

  // ------------------------------------------------------------- delete

  /** Away from p, u is t with the branches of the children `gone` of p removed. */
  ghost predicate Removed(t: Tree, p: Path, gone: set<Name>, u: Tree) {
    p in t && p in u && gone <= t[p].children && u - {p} == Without(t, p, gone) - {p}
  }

  /** One more child, also if the list names a child that is not there. */
  lemma OneMoreRemoved(t: Tree, p: Path, gone: set<Name>, u: Tree, c: Name)
    requires Removed(t, p, gone, u) && c in t[p].children && c !in gone
    ensures Removed(t, p, gone + {c}, if Sub(p, c) in u then RemoveBranch(u, Sub(p, c)) else u)
  {
    var child := Sub(p, c);
    NotBelowItself(p);
    NotBelowItself(child);
    forall q ensures (q == child || Reached(t, q, child)) <==> (Reached(t, q, p) && Toward(q, p) == c) { ReachedChild(t, q, p, c); }
    forall q | q != p ensures (q in u <==> q in Without(t, p, gone)) && (q in u ==> u[q] == Without(t, p, gone)[q]) {
      assert q in u <==> q in u - {p};
      assert q in Without(t, p, gone) <==> q in Without(t, p, gone) - {p};
      if q in u { assert (u - {p})[q] == (Without(t, p, gone) - {p})[q]; }
    }
    forall q | Reached(t, q, child) ensures child in t && q != p {
      ReachedFromTop(t, q, child);
      BelowIsDeeper(q, child);
    }
    var v := if child in u then RemoveBranch(u, child) else u;
    var w := Without(t, p, gone + {c});
    if child in u {
      forall q ensures Reached(u, q, child) <==> Reached(t, q, child) { SameReach(t, u, q, child); }
    }
    forall q | q != p ensures (q in v <==> q in w) && (q in v ==> v[q] == w[q]) { }
    assert v - {p} == w - {p};
  }

  lemma DropDependsElsewhere(u: Tree, w: Tree, p: Path)
    requires u - {p} == w - {p}
    ensures DropName(u, p) - {p} == DropName(w, p) - {p}
  {
    NotBelowItself(p);
    forall q | q != p ensures (q in u <==> q in w) && (q in u ==> u[q] == w[q]) {
      assert q in u <==> q in u - {p};
      assert q in w <==> q in w - {p};
      if q in u { assert (u - {p})[q] == (w - {p})[q]; }
    }
    var x, y := DropName(u, p), DropName(w, p);
    forall q | q != p ensures (q in x <==> q in y) && (q in x ==> x[q] == y[q]) { }
  }

  /** A delete removes from the own view exactly the entry and what its child lists lead to, in every
      transaction. */
  lemma {:induction false} DeleteOwn(db: Db, id: Tid, cid: nat, p: Path, bound: nat)
    requires DbOk(db) && BoundedFor(db, id, bound)
    ensures var (db', reply) := DeleteIn(db, id, cid, p, bound);
      (Own(db', id), reply) == Step(Own(db, id), Delete(cid, p))
    decreases 2 * (bound - Depth(p)) + 1, 0
  {
    hide Own, DeletableIn, BoundedFor, DbOk, HasWriteAccess, RemoveBranch, Without, Touch, UnregisterIn, TDelete, TChildren, Removed;
    var t := Own(db, id);
    var (r, reply) := DeletableIn(db, id, cid, p);
    LookOwn(db, id, cid, p);
    LookInOk(db, id, cid, p);
    PutOverlay(db, id, p, r);
    if reply.Done? {
      var names := TChildren(r.te[id]);
      var listed := db[p := r];
      DeletableBounded(db, id, cid, p, bound);
      NothingRemoved(t, p);
      assert t[p].children - names == {};
      DeleteChildrenOwn(listed, id, p, names, bound, t);
      DeleteChildrenInOk(listed, id, p, names, bound);
      DeleteLastOwn(DeleteChildrenIn(listed, id, p, names, bound), id, p, t);
    }
  }

  lemma NothingRemoved(t: Tree, p: Path)
    requires p in t
    ensures Removed(t, p, {}, t)
  {
    WithoutNone(t, p);
  }

  lemma DeleteLastOwn(db: Db, id: Tid, p: Path, t: Tree)
    requires DbOk(db) && p in t && Removed(t, p, t[p].children, Own(db, id))
    ensures var u := UnregisterIn(db, id, p);
      Own(u[p := TDelete(Ref(u, id, p), id)], id) == RemoveBranch(t, p)
  {
    hide Own, DbOk, RecordOk, Without, Touch, TDelete, UnregisterIn, RemoveBranch, ValidFor;
    var u := UnregisterIn(db, id, p);
    UnregisterInOk(db, id, p);
    UnregisterOwn(db, id, p);
    RefOwn(u, id, p);
    DeletedOwn(Ref(u, id, p), id);
    PutOwn(u, id, p, TDelete(Ref(u, id, p), id));
    DropDependsElsewhere(Own(db, id), Without(t, p, t[p].children), p);
    WithoutAll(t, p);
  }

  lemma {:induction false} DeleteChildrenOwn(db: Db, id: Tid, p: Path, names: set<Name>, bound: nat, t: Tree)
    requires DbOk(db) && BoundedFor(db, id, bound) && Depth(p) <= bound
    requires p in t && names <= t[p].children && Removed(t, p, t[p].children - names, Own(db, id))
    ensures Removed(t, p, t[p].children, Own(DeleteChildrenIn(db, id, p, names, bound), id))
    decreases 2 * (bound - Depth(p)), |names|
  {
    hide Own, BoundedFor, DbOk, Removed, RemoveBranch, HasWriteAccess, DeleteIn;
    if names == {} {
      assert t[p].children - names == t[p].children;
    } else {
      var c := Least(names);
      var u := Own(db, id);
      DeleteInOk(db, id, 0, Sub(p, c), bound);
      DeleteOwn(db, id, 0, Sub(p, c), bound);
      OneMoreRemoved(t, p, t[p].children - names, u, c);
      assert t[p].children - names + {c} == t[p].children - (names - {c});
      if Sub(p, c) in u { ZeroDeletes(u, Sub(p, c)); }
      DeleteChildrenOwn(DeleteIn(db, id, 0, Sub(p, c), bound).0, id, p, names - {c}, bound, t);
    }
  }
}
