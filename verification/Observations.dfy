/**
 What stamps and histories say of the committed tree.  A direct operation and a merge record exactly what
 they change; and the first check of can_merge is what an observer of the committed tree would call it:
 between the first touch of an entry and now, an entry found valid fails it exactly when it was absent at
 some moment, and an entry found invalid exactly when it was there at some moment.
 */
module Observations {
  import opened Paths
  import opened Tree
  import opened Database
  import opened SimpleAccess
  import opened Transaction
  import opened Commit
  import opened Runs
  import opened Guarantees

  // ------------------------------------------------------------- what the history of a record tells

  function Newer(r: Record, r': Record): seq<Change>
    requires r.log <= r'.log
  {
    r'.log[|r.log|..]
  }

  /** The history gains a deletion or a write exactly as the entry goes or is there. */
  ghost predicate Tells(r: Record, r': Record) {
    && r.log <= r'.log
    && (Deleted in Newer(r, r') ==> !Valid(r'.e)) && (Valid(r.e) && !Valid(r'.e) ==> Deleted in Newer(r, r'))
    && (Written in Newer(r, r') ==> Valid(r'.e)) && (!Valid(r.e) && Valid(r'.e) ==> Written in Newer(r, r'))
  }

  /** Updates of the kind that creating makes: the history says exactly which entries are new and which
      lists have a new name. */
  ghost predicate Grows(r: Record, r': Record) {
    && Tells(r, r') && Deleted !in Newer(r, r') && (Valid(r.e) ==> Valid(r'.e))
    && (Written in Newer(r, r') ==> !Valid(r.e))
    && r.e.children <= r'.e.children && (ChildrenChanged in Newer(r, r') <==> r'.e.children != r.e.children)
  }

  /** Updates of the kind that deleting makes; the history says exactly which lists lost a name if what is
      deleted was listed by its parent (`listed`). */
  ghost predicate Shrinks(r: Record, r': Record, listed: bool) {
    && Tells(r, r') && Written !in Newer(r, r') && (Valid(r'.e) ==> Valid(r.e))
    && (Deleted in Newer(r, r') ==> Valid(r.e))
    && r'.e.children <= r.e.children && (r'.e.children != r.e.children ==> ChildrenChanged in Newer(r, r'))
    && (listed && ChildrenChanged in Newer(r, r') ==> r'.e.children != r.e.children)
  }

  lemma NewerAppends(a: Record, b: Record, c: Record)
    requires a.log <= b.log <= c.log
    ensures Newer(a, c) == Newer(a, b) + Newer(b, c)
  {
  }

  /** Records that no transaction references may come and go. */
  ghost predicate GrowsAll(db: Db, db': Db) {
    forall p :: Get(db', p).te == Get(db, p).te && (Get(db, p).te != map[] ==> Grows(Get(db, p), Get(db', p)))
  }

  ghost predicate ShrinksAll(db: Db, db': Db, listed: bool) {
    forall p :: Get(db', p).te == Get(db, p).te && (Get(db, p).te != map[] ==> Shrinks(Get(db, p), Get(db', p), listed))
  }

  lemma GrowsAllTransitive(a: Db, b: Db, c: Db)
    requires GrowsAll(a, b) && GrowsAll(b, c)
    ensures GrowsAll(a, c)
  {
    forall p ensures Get(c, p).te == Get(a, p).te && (Get(a, p).te != map[] ==> Grows(Get(a, p), Get(c, p))) {
      assert Get(b, p).te == Get(a, p).te && Get(c, p).te == Get(b, p).te;
      if Get(a, p).te != map[] { GrowsTwice(Get(a, p), Get(b, p), Get(c, p)); }
    }
  }

  lemma ShrinksAllTransitive(a: Db, b: Db, c: Db, listed: bool)
    requires ShrinksAll(a, b, listed) && ShrinksAll(b, c, listed)
    ensures ShrinksAll(a, c, listed)
  {
    forall p ensures Get(c, p).te == Get(a, p).te && (Get(a, p).te != map[] ==> Shrinks(Get(a, p), Get(c, p), listed)) {
      assert Get(b, p).te == Get(a, p).te && Get(c, p).te == Get(b, p).te;
      if Get(a, p).te != map[] { ShrinksTwice(Get(a, p), Get(b, p), Get(c, p), listed); }
    }
  }

  lemma PutGrows(db: Db, p: Path, r: Record)
    requires r.te == Get(db, p).te && Grows(Get(db, p), r)
    ensures GrowsAll(db, db[p := r])
  {
  }

  lemma ReferenceGrows(db: Db, p: Path)
    ensures GrowsAll(db, db[p := Get(db, p)])
  {
  }

  lemma PutShrinks(db: Db, p: Path, r: Record, listed: bool)
    requires r.te == Get(db, p).te && Shrinks(Get(db, p), r, listed)
    ensures ShrinksAll(db, db[p := r], listed)
  {
  }

  lemma WriteTells(r: Record, value: string, perms: Perms)
    requires EntryOk(r)
    ensures Newer(r, WriteEntry(r, value, perms)) == [Written] && Tells(r, WriteEntry(r, value, perms))
    ensures !Valid(r.e) ==> Grows(r, WriteEntry(r, value, perms))
  {
    assert Newer(r, WriteEntry(r, value, perms)) == [Written];
  }

  lemma ListTells(r: Record, names: set<Name>)
    ensures Newer(r, SetChildren(r, names)) == [ChildrenChanged] && Tells(r, SetChildren(r, names))
    ensures r.e.children < names ==> Grows(r, SetChildren(r, names))
    ensures names <= r.e.children ==> Shrinks(r, SetChildren(r, names), names != r.e.children)
  {
    assert Newer(r, SetChildren(r, names)) == [ChildrenChanged];
  }

  lemma DeletionTells(r: Record)
    requires EntryOk(r)
    ensures Newer(r, MarkDeleted(r)) == [Deleted] && Tells(r, MarkDeleted(r)) && !Valid(MarkDeleted(r).e)
    ensures Valid(r.e) ==> Shrinks(r, MarkDeleted(r), true)
  {
    assert Newer(r, MarkDeleted(r)) == [Deleted];
  }

  lemma GrowsTwice(a: Record, b: Record, c: Record)
    requires Grows(a, b) && Grows(b, c)
    ensures Grows(a, c)
  {
    NewerAppends(a, b, c);
  }

  lemma ShrinksTwice(a: Record, b: Record, c: Record, listed: bool)
    requires Shrinks(a, b, listed) && Shrinks(b, c, listed)
    ensures Shrinks(a, c, listed)
  {
    NewerAppends(a, b, c);
  }

  // ------------------------------------------------------------- direct operations

  lemma {:induction false} CreateGrows(db: Db, p: Path)
    requires DbOk(db) && Closed(Committed(db))
    ensures GrowsAll(db, CreateDirect(db, p).0)
    decreases p, 1
  {
    hide GrowsAll, DbOk, Committed, Closed;
    ReferenceGrows(db, p);
    CommittedAt(db, p);
    if !Valid(Get(db, p).e) { AddGrows(db, p, ""); }
  }

  lemma {:induction false} AddGrows(db: Db, p: Path, value: string)
    requires DbOk(db) && Closed(Committed(db)) && p !in Committed(db)
    ensures GrowsAll(db, AddDirect(db, p, value))
    decreases p, 0
  {
    hide GrowsAll, Grows, CreateDirect, WriteEntry, SetChildren, DbOk, Committed, Closed;
    var referenced := db[p := Get(db, p)];
    ReferenceGrows(db, p);
    ReferenceDirectOk(db, p);
    var branch := if p.Sub? then CreateDirect(referenced, p.parent).0 else referenced;
    BranchWithout(db, p);
    if p.Sub? {
      CreateGrows(referenced, p.parent);
      GrowsAllTransitive(db, referenced, branch);
    }
    var listed := RegisterDirect(branch, p);
    if p.Sub? {
      NotYetListed(branch, p);
      var r := Get(branch, p.parent);
      ListTells(r, r.e.children + {p.name});
      ListKeepsOverlays(r, r.e.children + {p.name});
      PutGrows(branch, p.parent, SetChildren(r, r.e.children + {p.name}));
      GrowsAllTransitive(db, branch, listed);
    }
    ListedInOrder(branch, p);
    var perms := ParentPermsDirect(listed, p);
    WriteTells(Get(listed, p), value, perms);
    WriteKeepsOverlays(Get(listed, p), value, perms);
    PutGrows(listed, p, WriteEntry(Get(listed, p), value, perms));
    GrowsAllTransitive(db, listed, AddDirect(db, p, value));
  }

  /** When the ancestors of p are there, p is not. */
  lemma BranchWithout(db: Db, p: Path)
    requires DbOk(db) && Closed(Committed(db)) && p !in Committed(db)
    ensures var referenced := db[p := Get(db, p)];
      var branch := if p.Sub? then CreateDirect(referenced, p.parent).0 else referenced;
      && DbOk(branch) && Closed(Committed(branch)) && p !in Committed(branch) && (p.Sub? ==> p.parent in Committed(branch))
  {
    hide DbOk, Closed;
    var t := Committed(db);
    var referenced := db[p := Get(db, p)];
    ReferenceDirectOk(db, p);
    if p.Sub? {
      DirectIsStep(referenced, Create(0, p.parent));
      StepKeepsClosed(t, Create(0, p.parent));
      AddNodeKeys(t, p.parent, "");
      NotBelowItself(p);
    }
  }

  lemma NotYetListed(db: Db, p: Path)
    requires Closed(Committed(db)) && p !in Committed(db) && p.Sub? && p.parent in Committed(db)
    ensures p.name !in Get(db, p.parent).e.children
  {
    CommittedAt(db, p.parent);
  }

  lemma ListKeepsOverlays(r: Record, names: set<Name>)
    ensures SetChildren(r, names).te == r.te
  {
  }

  lemma WriteKeepsOverlays(r: Record, value: string, perms: Perms)
    ensures WriteEntry(r, value, perms).te == r.te
  {
  }

  lemma ListedInOrder(db: Db, p: Path)
    requires DbOk(db) && p !in Committed(db)
    ensures EntryOk(Get(RegisterDirect(db, p), p)) && !Valid(Get(RegisterDirect(db, p), p).e)
  {
    GetOk(db, p);
    CommittedAt(db, p);
  }

  lemma UnregisterShrinks(db: Db, p: Path, listed: bool)
    requires listed && p.Sub? ==> p.name in Get(db, p.parent).e.children
    ensures ShrinksAll(db, UnregisterDirect(db, p), listed)
  {
    NothingMoves(db, listed);
    if p.Sub? {
      var r := Get(db, p.parent);
      ListTells(r, r.e.children - {p.name});
      PutShrinks(db, p.parent, SetChildren(r, r.e.children - {p.name}), listed);
    }
  }

  lemma EraseShrinks(db: Db, p: Path, listed: bool)
    requires DbOk(db) && Valid(Get(db, p).e)
    ensures ShrinksAll(db, EraseDirect(db, p), listed)
  {
    GetOk(db, p);
    DeletionTells(Get(db, p));
    DeletionKeepsOverlays(Get(db, p));
    hide MarkDeleted, RecordOk, DbOk, Shrinks;
    NothingMoves(db, listed);
    ShrinksMore(Get(db, p), MarkDeleted(Get(db, p)), listed);
    PutShrinks(db, p, MarkDeleted(Get(db, p)), listed);
  }

  lemma DeletionKeepsOverlays(r: Record)
    ensures MarkDeleted(r).te == r.te
  {
  }

  lemma ShrinksMore(r: Record, r': Record, listed: bool)
    requires Shrinks(r, r', true)
    ensures Shrinks(r, r', listed)
  {
  }

  lemma {:induction false} DeleteShrinks(db: Db, cid: nat, p: Path, bound: nat, listed: bool)
    requires DbOk(db) && Closed(Committed(db)) && Bounded(db, bound)
    requires listed && p in Committed(db) ==> Hangs(Committed(db), p)
    ensures ShrinksAll(db, DeleteDirect(db, cid, p, bound).0, listed)
    decreases 2 * (bound - Depth(p)) + 1, 0
  {
    hide ShrinksAll, Committed, Midway, Without, HasWriteAccess, UnregisterDirect, EraseDirect, DbOk;
    var t := Committed(db);
    CommittedAt(db, p);
    if p in db && Valid(db[p].e) && HasWriteAccess(cid, db[p].e.perms) {
      var names := db[p].e.children;
      var emptied := DeleteChildrenDirect(db, p, names, bound);
      MidwayStart(t, p);
      DeleteChildrenShrinks(db, p, names, bound, t, listed);
      DeleteChildrenDirectOk(db, p, names, bound, t);
      StillListed(emptied, p, t, listed);
      var unlisted := UnregisterDirect(emptied, p);
      UnregisterShrinks(emptied, p, listed);
      UnregisterDirectOk(emptied, p);
      EraseShrinks(unlisted, p, listed);
      ShrinksAllTransitive(db, emptied, unlisted, listed);
      ShrinksAllTransitive(db, unlisted, EraseDirect(unlisted, p), listed);
    } else {
      NothingMoves(db, listed);
    }
  }

  /** Once the children of p are gone, p is still there and still listed. */
  lemma StillListed(db: Db, p: Path, t: Tree, listed: bool)
    requires p in t && Committed(db) == Without(t, p, t[p].children)
    requires listed ==> Hangs(t, p)
    ensures listed && p.Sub? ==> p.name in Get(db, p.parent).e.children
    ensures Valid(Get(UnregisterDirect(db, p), p).e)
  {
    NotBelowItself(p);
    CommittedAt(db, p);
    if p.Sub? { CommittedAt(db, p.parent); }
  }

  lemma NothingMoves(db: Db, listed: bool)
    ensures ShrinksAll(db, db, listed) && GrowsAll(db, db)
  {
  }

  lemma {:induction false} DeleteChildrenShrinks(db: Db, p: Path, names: set<Name>, bound: nat, t: Tree, listed: bool)
    requires DbOk(db) && Bounded(db, bound) && Depth(p) <= bound && Midway(t, p, names, Committed(db))
    ensures ShrinksAll(db, DeleteChildrenDirect(db, p, names, bound), listed)
    decreases 2 * (bound - Depth(p)), |names|
  {
    hide ShrinksAll, Committed, Midway, Without, Closed, RemoveBranch, DeleteDirect, DbOk;
    MidwayIsClosed(t, p, names, Committed(db));
    if names == {} {
      NothingMoves(db, listed);
    } else {
      var c := Least(names);
      var next := DeleteDirect(db, 0, Sub(p, c), bound).0;
      MidwayStep(t, p, names, Committed(db), c);
      MidwayLists(t, p, names, Committed(db), c);
      DeleteShrinks(db, 0, Sub(p, c), bound, listed);
      DeleteDirectOk(db, 0, Sub(p, c), bound);
      ZeroDeletes(Committed(db), Sub(p, c));
      DeleteChildrenShrinks(next, p, names - {c}, bound, t, listed);
      ShrinksAllTransitive(db, next, DeleteChildrenDirect(db, p, names, bound), listed);
    }
  }

  lemma MidwayLists(t: Tree, p: Path, names: set<Name>, u: Tree, c: Name)
    requires Midway(t, p, names, u) && c in names
    ensures Hangs(u, Sub(p, c))
  {
    NotBelowItself(p);
  }

  lemma DirectTells(db: Db, op: Op, p: Path)
    requires DbOk(db) && Closed(Committed(db)) && Get(db, p).te != map[]
    ensures Tells(Get(db, p), Get(Direct(db, op).0, p))
  {
    var q := op.path;
    NothingMoves(db, false);
    ReferenceGrows(db, q);
    GetOk(db, q);
    CommittedAt(db, q);
    match op {
      case Create(_, _) => CreateGrows(db, q);
      case Update(_, _, value) => if Valid(Get(db, q).e) { WriteTells(Get(db, q), value, Get(db, q).e.perms); } else { AddGrows(db, q, value); }
      case SetPerms(_, _, perms) => WriteTells(Get(db, q), Get(db, q).e.value, perms);
      case Delete(cid, _) => DeleteShrinks(db, cid, q, DepthBound(db), false);
      case _ =>
    }
  }

  function Kids(t: Tree, p: Path): set<Name> {
    if p in t then t[p].children else {}
  }

  ghost predicate LogsExactly(r: Record, r': Record, overwritten: bool) {
    && r.log <= r'.log
    && (Deleted in Newer(r, r') <==> Valid(r.e) && !Valid(r'.e))
    && (Written in Newer(r, r') <==> (!Valid(r.e) && Valid(r'.e)) || overwritten)
    && (ChildrenChanged in Newer(r, r') <==> r'.e.children != r.e.children)
  }

  lemma MovesLogExactly(r: Record, r': Record)
    ensures Grows(r, r') || Shrinks(r, r', true) ==> LogsExactly(r, r', false)
  {
  }

  lemma OverwriteLogsExactly(r: Record, value: string, perms: Perms)
    requires EntryOk(r) && Valid(r.e)
    ensures LogsExactly(r, WriteEntry(r, value, perms), true)
  {
    WriteTells(r, value, perms);
  }

  predicate Overwrites(db: Db, op: Op) {
    Valid(Get(db, op.path).e) && (op.Update? || op.SetPerms?) && Direct(db, op).1 == Done
  }

  lemma AllLogExactly(db: Db, db': Db, p: Path)
    requires Get(db, p).te != map[] && (GrowsAll(db, db') || ShrinksAll(db, db', true))
    ensures LogsExactly(Get(db, p), Get(db', p), false)
  {
    MovesLogExactly(Get(db, p), Get(db', p));
  }

  lemma RecordLogsExactly(db: Db, op: Op, p: Path)
    requires DbOk(db) && WellFormed(Committed(db)) && Get(db, p).te != map[]
    ensures LogsExactly(Get(db, p), Get(Direct(db, op).0, p), p == op.path && Overwrites(db, op))
  {
    var db' := Direct(db, op).0;
    var q := op.path;
    NothingMoves(db, true);
    ReferenceGrows(db, q);
    GetOk(db, q);
    CommittedAt(db, q);
    assert q in Committed(db) ==> Hangs(Committed(db), q);
    hide GrowsAll, ShrinksAll, LogsExactly, DbOk, RecordOk, Committed, Closed, CreateDirect, AddDirect, DeleteDirect,
         WriteEntry, HasReadAccess, HasWriteAccess;
    if Overwrites(db, op) {
      var value := if op.Update? then op.value else Get(db, q).e.value;
      var perms := if op.SetPerms? then op.perms else Get(db, q).e.perms;
      assert db' == db[q := WriteEntry(Get(db, q), value, perms)];
      OverwriteLogsExactly(Get(db, q), value, perms);
      if p != q { AllLogExactly(db, db, p); }
    } else {
      match op {
        case Create(_, _) => CreateGrows(db, q);
        case Update(_, _, value) => if !Valid(Get(db, q).e) { AddGrows(db, q, value); }
        case Delete(cid, _) => DeleteShrinks(db, cid, q, DepthBound(db), true);
        case _ =>
      }
      AllLogExactly(db, db', p);
    }
  }

  /** What the history of a referenced entry gains in a direct operation is exactly what became of the
      entry: nothing is stamped that did not change. */
  lemma DirectLogsExactly(db: Db, op: Op, p: Path)
    requires DbOk(db) && WellFormed(Committed(db)) && Get(db, p).te != map[]
    ensures var (db', reply) := Direct(db, op); var t, t' := Committed(db), Committed(db'); var r, r' := Get(db, p), Get(db', p);
      && r.log <= r'.log
      && (Deleted in Newer(r, r') <==> p in t && p !in t')
      && (Written in Newer(r, r') <==>
            (p !in t && p in t') || (p == op.path && p in t && (op.Update? || op.SetPerms?) && reply == Done))
      && (ChildrenChanged in Newer(r, r') <==> Kids(t', p) != Kids(t, p))
  {
    var db' := Direct(db, op).0;
    RecordLogsExactly(db, op, p);
    DirectIsStep(db, op);
    KidsAt(db, p);
    KidsAt(db', p);
    hide DbOk, Direct, Closed, Committed, Kids, OnlyCommits;
  }

  lemma KidsAt(db: Db, p: Path)
    requires DbOk(db)
    ensures (p in Committed(db) <==> Valid(Get(db, p).e)) && Kids(Committed(db), p) == Get(db, p).e.children
  {
    CommittedAt(db, p);
    GetOk(db, p);
  }

  // ------------------------------------------------------------- every event

  /** What the history of a record gains in a merge: a write if the transaction wrote the entry, a changed
      list if it linked or unlinked children, a deletion if it deleted it (as shipped, nothing then). */
  lemma MergeLogsExactly(r: Record, id: Tid, version: Version)
    requires RecordOk(r) && id in r.te && CanMergeRecord(r, id)
    ensures var te, r' := r.te[id], Install(r, id, version);
      && r.log <= r'.log && Tells(r, r')
      && (TValid(te) ==> Newer(r, r') == (if te.writeSeq > te.initSeq then [Written] else [])
                                         + (if te.childrenAdd != {} || te.childrenRem != {} then [ChildrenChanged] else []))
      && (!TValid(te) ==> Newer(r, r') == if te.deleteSeq > te.initSeq && version.Repaired? then [ChildrenChanged, Deleted] else [])
  {
    var te := r.te[id];
    assert TEntryOk(r, te);
    ValidationIsSound(r, id);
    hide RecordOk, CanMergeRecord, WriteEntry, SetChildren, MarkDeleted, TEntryOk;
    if TValid(te) {
      ValidLogsExactly(r, te);
    } else if te.deleteSeq > te.initSeq {
      var emptied := SetChildren(r, {});
      ListTells(r, {});
      ListInOrder(r, {});
      DeletionTells(emptied);
      NewerAppends(r, emptied, MarkDeleted(emptied));
    }
  }

  lemma ValidLogsExactly(r: Record, te: TEntry)
    requires EntryOk(r) && (te.writeSeq > te.initSeq || Valid(r.e))
    ensures var w := if te.writeSeq > te.initSeq then WriteEntry(r, te.value, te.perms) else r;
      var names := w.e.children + te.childrenAdd - te.childrenRem;
      var written := if te.writeSeq > te.initSeq then [Written] else [];
      && r.log <= w.log <= SetChildren(w, names).log
      && Newer(r, w) == written && Newer(r, SetChildren(w, names)) == written + [ChildrenChanged]
      && Tells(r, w) && Tells(r, SetChildren(w, names))
  {
    var w := if te.writeSeq > te.initSeq then WriteEntry(r, te.value, te.perms) else r;
    var names := w.e.children + te.childrenAdd - te.childrenRem;
    if te.writeSeq > te.initSeq { WriteTells(r, te.value, te.perms); }
    ListTells(w, names);
    NewerAppends(r, w, SetChildren(w, names));
    hide WriteEntry, EntryOk;
  }

  lemma ListInOrder(r: Record, names: set<Name>)
    requires EntryOk(r) && (Valid(r.e) || names == {})
    ensures EntryOk(SetChildren(r, names))
  {
  }

  /** The transaction changed nothing. */
  predicate OnlyRead(te: TEntry) {
    te.writeSeq <= te.initSeq && te.deleteSeq <= te.initSeq && te.childrenAdd == {} && te.childrenRem == {}
  }

  /** The commit of a transaction that only read dooms nobody. */
  lemma ReadersDoomNobody(db: Db, id: Tid, version: Version, other: Tid)
    requires DbOk(db) && CanMerge(db, id) && other != id
    requires forall p | p in db && id in db[p].te :: OnlyRead(db[p].te[id])
    ensures CanMerge(DoMerge(db, id, version), other) <==> CanMerge(db, other)
  {
    hide MergeRecord, CanMergeRecord;
    var db' := DoMerge(db, id, version);
    forall p ensures (p in db && other in db[p].te && !CanMergeRecord(db[p], other))
                <==> (p in db' && other in db'[p].te && !CanMergeRecord(db'[p], other)) {
      SilentAt(db, id, version, other, p);
    }
  }

  lemma SilentAt(db: Db, id: Tid, version: Version, other: Tid, p: Path)
    requires DbOk(db) && CanMerge(db, id) && other != id && (p in db && id in db[p].te ==> OnlyRead(db[p].te[id]))
    ensures var db' := DoMerge(db, id, version);
      (p in db && other in db[p].te && !CanMergeRecord(db[p], other))
      <==> (p in db' && other in db'[p].te && !CanMergeRecord(db'[p], other))
  {
    if p in db && id in db[p].te {
      SilentMerge(db[p], id, version);
      assert other in db[p].te ==> other in Drop(db[p], id).te;
    }
    hide Install, CanMerge;
  }

  lemma SilentMerge(r: Record, id: Tid, version: Version)
    requires RecordOk(r) && id in r.te && OnlyRead(r.te[id])
    ensures Install(r, id, version) == r
  {
    assert TEntryOk(r, r.te[id]);
  }

  lemma EventTells(s: StoreState, j: Journal, ev: Event, version: Version, id: Tid, p: Path)
    requires Inv(s, j, version) && p in s.db && id in s.db[p].te && !Ends(ev, id)
    ensures var db' := Next(s, ev, version).0.db; p in db' && Tells(s.db[p], db'[p])
  {
    InvFacts(s, j, version);
    LiveOverlaySurvives(s, j, ev, version, id, p);
    hide Inv, DbOk, Closed, Committed, Direct, InTransaction, DoMerge, AbortAll, CanMerge;
    match ev {
      case DirectOp(op) => DirectTells(s.db, op, p);
      case Branch =>
      case TransactionOp(tid, op) =>
        InTransactionIsIsolated(s.db, tid, op);
        assert Overlays(Get(s.db, p), Get(InTransaction(s.db, tid, op).0, p), tid);
      case Merge(tid) =>
        AbortTells(s.db, tid, p);
        if CanMerge(s.db, tid) { MergeTells(s.db, tid, version, id, p); }
      case Abort(tid) => AbortTells(s.db, tid, p);
    }
  }

  lemma AbortTells(db: Db, tid: Tid, p: Path)
    requires p in db
    ensures p in AbortAll(db, tid) ==> Tells(db[p], AbortAll(db, tid)[p])
  {
  }

  lemma MergeTells(db: Db, tid: Tid, version: Version, id: Tid, p: Path)
    requires DbOk(db) && CanMerge(db, tid) && tid != id && p in db && id in db[p].te
    ensures p in DoMerge(db, tid, version) && Tells(db[p], DoMerge(db, tid, version)[p])
  {
    var r := db[p];
    if tid in r.te {
      assert id in r.te.Keys && r.te.Keys != {tid};
      MergeRecordOk(r, tid, version);
      MergeLogsExactly(r, tid, version);
    }
    hide MergeRecord, Install, CanMergeRecord;
  }

  // ------------------------------------------------------------- whole runs

  /** p was there, or was not, after some part of the run. */
  ghost predicate Seen(s: StoreState, evs: seq<Event>, version: Version, p: Path, there: bool) {
    exists k :: 0 <= k <= |evs| && SeenAt(s, evs, version, p, there, k)
  }

  ghost predicate SeenAt(s: StoreState, evs: seq<Event>, version: Version, p: Path, there: bool, k: nat)
    requires k <= |evs|
  {
    (p in Committed(Run(s, evs[..k], version).0.db)) == there
  }

  lemma SeenNowOrLater(s: StoreState, evs: seq<Event>, version: Version, p: Path, there: bool)
    requires evs != []
    ensures Seen(s, evs, version, p, there)
       <==> (p in Committed(s.db)) == there || Seen(Next(s, evs[0], version).0, evs[1..], version, p, there)
  {
    hide Next, Committed;
    var s' := Next(s, evs[0], version).0;
    assert SeenAt(s, evs, version, p, there, 0) <==> (p in Committed(s.db)) == there;
    forall k: nat | k < |evs| ensures SeenAt(s, evs, version, p, there, k + 1) <==> SeenAt(s', evs[1..], version, p, there, k) {
      assert evs[..k + 1][1..] == evs[1..][..k];
    }
    if k :| 0 <= k <= |evs| && SeenAt(s, evs, version, p, there, k) {
      if k > 0 { assert SeenAt(s', evs[1..], version, p, there, k - 1); }
    }
    if k :| 0 <= k <= |evs[1..]| && SeenAt(s', evs[1..], version, p, there, k) {
      assert SeenAt(s, evs, version, p, there, k + 1);
    }
  }

  lemma {:induction false} HistoryIsSeen(s: StoreState, j: Journal, evs: seq<Event>, version: Version, id: Tid, p: Path)
    requires Inv(s, j, version) && p in s.db && id in s.db[p].te
    requires forall i | 0 <= i < |evs| :: !Ends(evs[i], id)
    ensures var db' := Run(s, evs, version).0.db;
      && p in db' && s.db[p].log <= db'[p].log
      && (Valid(s.db[p].e) ==> (Deleted in Newer(s.db[p], db'[p]) <==> Seen(s, evs, version, p, false)))
      && (!Valid(s.db[p].e) ==> (Written in Newer(s.db[p], db'[p]) <==> Seen(s, evs, version, p, true)))
    decreases |evs|
  {
    hide Inv, Note, Committed, Next;
    CommittedAt(s.db, p);
    if evs == [] {
      assert SeenAt(s, evs, version, p, Valid(s.db[p].e), 0);
    } else {
      assert !Ends(evs[0], id);
      var (s', out) := Next(s, evs[0], version);
      EventTells(s, j, evs[0], version, id, p);
      LiveOverlaySurvives(s, j, evs[0], version, id, p);
      NextInv(s, j, evs[0], version);
      HistoryIsSeen(s', Note(j, evs[0], out), evs[1..], version, id, p);
      CommittedAt(s'.db, p);
      NewerAppends(s.db[p], s'.db[p], Run(s, evs, version).0.db[p]);
      SeenNowOrLater(s, evs, version, p, false);
      SeenNowOrLater(s, evs, version, p, true);
      NowIsSeen(s', evs[1..], version, p);
    }
  }

  lemma NowIsSeen(s: StoreState, evs: seq<Event>, version: Version, p: Path)
    ensures Seen(s, evs, version, p, p in Committed(s.db))
  {
    assert SeenAt(s, evs, version, p, p in Committed(s.db), 0);
  }

  /** The first check of can_merge observed: from the operation that first touches p, through any run in
      which the transaction does not end. */
  lemma FirstCheckIsObservable(s: StoreState, j: Journal, op: Op, evs: seq<Event>, version: Version, id: Tid, p: Path)
    requires Inv(s, j, version) && id in s.trans && id !in Get(s.db, p).te
    requires id in Get(Next(s, TransactionOp(id, op), version).0.db, p).te
    requires forall i | 0 <= i < |evs| :: !Ends(evs[i], id)
    ensures var s1 := Next(s, TransactionOp(id, op), version).0; var db' := Run(s1, evs, version).0.db;
      && p in db' && id in db'[p].te
      && var e, te := db'[p].e, db'[p].te[id];
      && te.initValid == (p in Committed(s.db))
      && (te.initValid ==> (e.deleteSeq > te.initSeq <==> Seen(s1, evs, version, p, false)))
      && (!te.initValid ==> (e.writeSeq > te.initSeq <==> Seen(s1, evs, version, p, true)))
  {
    var s1 := Next(s, TransactionOp(id, op), version).0;
    var j1 := Note(j, TransactionOp(id, op), Next(s, TransactionOp(id, op), version).1);
    InvFacts(s, j, version);
    NextInv(s, j, TransactionOp(id, op), version);
    FirstTouch(s.db, id, op, p);
    CommittedAt(s.db, p);
    RunInv(s1, j1, evs, version);
    LiveOverlaySurvivesRun(s1, j1, evs, version, id, p);
    HistoryIsSeen(s1, j1, evs, version, id, p);
    var j2 := NoteAll(j1, evs, Run(s1, evs, version).1);
    InvFacts(Run(s1, evs, version).0, j2, version);
    MarkedAtTouch(s1.db[p], Run(s1, evs, version).0.db[p], id);
  }

  /** At first touch the validity found is the committed one and the mark is at the end of the history. */
  lemma FirstTouch(db: Db, id: Tid, op: Op, p: Path)
    requires DbOk(db) && id !in Get(db, p).te && id in Get(InTransaction(db, id, op).0, p).te
    ensures var r := Get(InTransaction(db, id, op).0, p);
      r.e == Get(db, p).e && r.te[id].mark.initAt == |r.log| && r.te[id].initValid == Valid(r.e)
  {
    hide InTransaction;
    InTransactionIsIsolated(db, id, op);
    var r := Get(InTransaction(db, id, op).0, p);
    assert Overlays(Get(db, p), r, id);
    FoundValidity(r, id);
  }

  lemma FoundValidity(r: Record, id: Tid)
    requires RecordOk(r) && id in r.te && r.te[id].mark.initAt == |r.log|
    ensures r.te[id].initValid == Valid(r.e)
  {
    assert TEntryOk(r, r.te[id]);
    NothingSinceNow(r.log);
  }

  lemma MarkedAtTouch(r: Record, r': Record, id: Tid)
    requires RecordOk(r') && id in r.te && id in r'.te && Learns(r.te[id], r'.te[id]) && r.log <= r'.log
    requires r.te[id].mark.initAt == |r.log|
    ensures var te := r'.te[id];
      && (r'.e.deleteSeq > te.initSeq <==> Deleted in Newer(r, r'))
      && (r'.e.writeSeq > te.initSeq <==> Written in Newer(r, r'))
  {
    assert TEntryOk(r', r'.te[id]);
  }
}
