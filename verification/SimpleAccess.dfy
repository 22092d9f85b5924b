/**
 `simple_access`: operations outside any transaction, which edit the committed entries in place.
 The functions follow the C++ code update by update; the lemmas prove that on the committed tree
 they are exactly Tree.Step, and that no overlay entry is touched.
 */
module SimpleAccess {
  import opened Paths
  import opened Tree
  import opened Database

  // ------------------------------------------------------------- the committed tree

  function NodeOf(e: Entry): Node { Node(e.value, e.perms, e.children) }

  /** The tree of valid committed entries. */
  function Committed(db: Db): Tree {
    map p | p in db && Valid(db[p].e) :: NodeOf(db[p].e)
  }

  ghost predicate DbOk(db: Db) {
    forall p | p in db :: RecordOk(db[p])
  }

  /** Overlay entries are as before, and a record that has some only gained committed changes. */
  ghost predicate OnlyCommits(db: Db, db': Db) {
    forall p :: Get(db', p).te == Get(db, p).te
             && (Get(db, p).te != map[] ==> Commits(Get(db, p), Get(db', p)))
  }

  /** No valid entry lies deeper than bound. */
  ghost predicate Bounded(db: Db, bound: nat) {
    forall p | p in db && Valid(db[p].e) :: Depth(p) <= bound
  }

  // ------------------------------------------------------------- operations

  function CreateDirect(db: Db, p: Path): (Db, bool)
    decreases p, 1
  {
    if Valid(Get(db, p).e) then (db[p := Get(db, p)], false)
    else (AddDirect(db, p, ""), true)
  }

  /** The shared part of create and update when there is no valid entry yet. */
  function AddDirect(db: Db, p: Path, value: string): Db
    decreases p, 0
  {
    var referenced := db[p := Get(db, p)];
    var branch := if p.Sub? then CreateDirect(referenced, p.parent).0 else referenced;
    var listed := RegisterDirect(branch, p);
    listed[p := WriteEntry(Get(listed, p), value, ParentPermsDirect(listed, p))]
  }

  function RegisterDirect(db: Db, p: Path): Db {
    if p.Sub? then
      var r := Get(db, p.parent);
      db[p.parent := SetChildren(r, r.e.children + {p.name})]
    else db
  }

  function UnregisterDirect(db: Db, p: Path): Db {
    if p.Sub? then
      var r := Get(db, p.parent);
      db[p.parent := SetChildren(r, r.e.children - {p.name})]
    else db
  }

  function ParentPermsDirect(db: Db, p: Path): Perms {
    if p.Sub? then Get(db, p.parent).e.perms else DEFAULT_PERMS
  }

  function UpdateDirect(db: Db, cid: nat, p: Path, value: string): (Db, Reply) {
    var r := Get(db, p);
    if !Valid(r.e) then (AddDirect(db, p, value), Done)
    else if !HasWriteAccess(cid, r.e.perms) then (db[p := r], Fail(EACCES))
    else (db[p := WriteEntry(r, value, r.e.perms)], Done)
  }

  function SetPermsDirect(db: Db, cid: nat, p: Path, perms: Perms): (Db, Reply) {
    if p !in db || !Valid(db[p].e) then (db, Fail(ENOENT))
    else if !HasWriteAccess(cid, db[p].e.perms) then (db, Fail(EACCES))
    else (db[p := WriteEntry(db[p], db[p].e.value, perms)], Done)
  }

  /** read, get_children and get_perms share their checks. */
  function LookDirect(db: Db, cid: nat, p: Path): Reply {
    if p !in db || !Valid(db[p].e) then Fail(ENOENT)
    else if !HasReadAccess(cid, db[p].e.perms) then Fail(EACCES)
    else Done
  }

  function ReadDirect(db: Db, cid: nat, p: Path): Reply {
    if LookDirect(db, cid, p).Done? then Value(db[p].e.value) else LookDirect(db, cid, p)
  }

  function ChildrenDirect(db: Db, cid: nat, p: Path): Reply {
    if LookDirect(db, cid, p).Done? then Children(db[p].e.children) else LookDirect(db, cid, p)
  }

  function GetPermsDirect(db: Db, cid: nat, p: Path): Reply {
    if LookDirect(db, cid, p).Done? then PermList(db[p].e.perms) else LookDirect(db, cid, p)
  }

  /** The record goes unless a transaction still references it. */
  function EraseDirect(db: Db, p: Path): Db {
    if Get(db, p).te == map[] then db - {p} else db[p := MarkDeleted(Get(db, p))]
  }

  function DeleteDirect(db: Db, cid: nat, p: Path, ghost bound: nat): (r: (Db, Reply))
    requires Bounded(db, bound)
    ensures Bounded(r.0, bound)
    decreases 2 * (bound - Depth(p)) + 1, 0
  {
    if p !in db || !Valid(db[p].e) then (db, Fail(ENOENT))
    else if !HasWriteAccess(cid, db[p].e.perms) then (db, Fail(EACCES))
    else
      var emptied := DeleteChildrenDirect(db, p, db[p].e.children, bound);
      (EraseDirect(UnregisterDirect(emptied, p), p), Done)
  }

  /** Deletes the named children in set order, as client 0. */
  function DeleteChildrenDirect(db: Db, p: Path, names: set<Name>, ghost bound: nat): (r: Db)
    requires Bounded(db, bound) && Depth(p) <= bound
    ensures Bounded(r, bound)
    decreases 2 * (bound - Depth(p)), |names|
  {
    if names == {} then db
    else
      var c := Least(names);
      DeleteChildrenDirect(DeleteDirect(db, 0, Sub(p, c), bound).0, p, names - {c}, bound)
  }

  ghost function DepthBound(db: Db): (bound: nat)
    ensures Bounded(db, bound)
    decreases |db|
  {
    if db == map[] then 0
    else
      var p :| p in db;
      var rest := DepthBound(db - {p});
      assert forall q | q in db && q != p :: (db - {p})[q] == db[q];
      if rest < Depth(p) then Depth(p) else rest
  }

  function Direct(db: Db, op: Op): (Db, Reply) {
    match op
    case Create(_, p) => var r := CreateDirect(db, p); (r.0, Created(r.1))
    case Read(cid, p) => (db, ReadDirect(db, cid, p))
    case Update(cid, p, value) => UpdateDirect(db, cid, p, value)
    case Delete(cid, p) => DeleteDirect(db, cid, p, DepthBound(db))
    case GetChildren(cid, p) => (db, ChildrenDirect(db, cid, p))
    case GetPerms(cid, p) => (db, GetPermsDirect(db, cid, p))
    case SetPerms(cid, p, perms) => SetPermsDirect(db, cid, p, perms)
  }

  // ------------------------------------------------------------- one record at a time

  lemma FreshRecordOk()
    ensures RecordOk(FRESH_RECORD)
  {
  }

  lemma GetOk(db: Db, p: Path)
    requires DbOk(db)
    ensures RecordOk(Get(db, p))
  {
  }

  lemma PutCommitted(db: Db, p: Path, r: Record)
    ensures Committed(db[p := r]) == if Valid(r.e) then Committed(db)[p := NodeOf(r.e)] else Committed(db) - {p}
    ensures Committed(db - {p}) == Committed(db) - {p}
  {
  }

  lemma CommittedAt(db: Db, p: Path)
    ensures p in Committed(db) <==> Valid(Get(db, p).e)
    ensures p in Committed(db) ==> Committed(db)[p] == NodeOf(Get(db, p).e)
  {
  }

  lemma PutOnlyCommits(db: Db, p: Path, r: Record)
    requires r.te == Get(db, p).te && (r.te != map[] ==> Commits(Get(db, p), r))
    ensures OnlyCommits(db, db[p := r])
  {
  }

  lemma OnlyCommitsTransitive(a: Db, b: Db, c: Db)
    requires OnlyCommits(a, b) && OnlyCommits(b, c)
    ensures OnlyCommits(a, c)
  {
  }

  lemma SetChildrenDirectOk(db: Db, p: Path, names: set<Name>)
    requires DbOk(db) && Valid(Get(db, p).e)
    ensures var db' := db[p := SetChildren(Get(db, p), names)];
      && DbOk(db') && OnlyCommits(db, db')
      && p in Committed(db)
      && Committed(db') == Committed(db)[p := Committed(db)[p].(children := names)]
  {
    var r' := SetChildren(Get(db, p), names);
    GetOk(db, p);
    SetChildrenOk(Get(db, p), names);
    PutOnlyCommits(db, p, r');
    PutCommitted(db, p, r');
  }

  /** A parent that is not there has no list to forget the name. */
  lemma UnregisterDirectOk(db: Db, p: Path)
    requires DbOk(db)
    ensures var db' := UnregisterDirect(db, p);
      DbOk(db') && OnlyCommits(db, db') && Committed(db') == DropName(Committed(db), p)
  {
    if p.Sub? {
      var r := Get(db, p.parent);
      GetOk(db, p.parent);
      CommittedAt(db, p.parent);
      SetChildrenOk(r, r.e.children - {p.name});
      PutOnlyCommits(db, p.parent, SetChildren(r, r.e.children - {p.name}));
      PutCommitted(db, p.parent, SetChildren(r, r.e.children - {p.name}));
    }
  }

  lemma WriteDirectOk(db: Db, p: Path, value: string, perms: Perms)
    requires DbOk(db)
    ensures var db' := db[p := WriteEntry(Get(db, p), value, perms)];
      && DbOk(db') && OnlyCommits(db, db')
      && Committed(db') == Committed(db)[p :=
           Node(value, perms, if p in Committed(db) then Committed(db)[p].children else {})]
  {
    var r' := WriteEntry(Get(db, p), value, perms);
    GetOk(db, p);
    WriteEntryOk(Get(db, p), value, perms);
    PutOnlyCommits(db, p, r');
    PutCommitted(db, p, r');
    CommittedAt(db, p);
  }

  lemma ReferenceDirectOk(db: Db, p: Path)
    requires DbOk(db)
    ensures var db' := db[p := Get(db, p)];
      DbOk(db') && OnlyCommits(db, db') && Committed(db') == Committed(db)
  {
  }

  lemma EraseDirectOk(db: Db, p: Path)
    requires DbOk(db) && Get(db, p).e.children == {}
    ensures var db' := EraseDirect(db, p);
      DbOk(db') && OnlyCommits(db, db') && Committed(db') == Committed(db) - {p}
  {
    var r := Get(db, p);
    GetOk(db, p);
    MarkDeletedOk(r);
    PutCommitted(db, p, MarkDeleted(r));
    if r.te != map[] { PutOnlyCommits(db, p, MarkDeleted(r)); }
  }

  // ------------------------------------------------------------- create and update

  lemma AddNodeKeys(t: Tree, p: Path, value: string)
    ensures p in AddNode(t, p, value)
    ensures forall q | q in AddNode(t, p, value) :: q in t || q == p || Below(p, q)
  {
  }

  lemma {:induction false} AddDirectOk(db: Db, p: Path, value: string)
    requires DbOk(db) && p !in Committed(db)
    ensures var db' := AddDirect(db, p, value);
      && DbOk(db') && OnlyCommits(db, db')
      && Committed(db') == AddNode(Committed(db), p, value)
    decreases p
  {
    var t := Committed(db);
    var referenced := db[p := Get(db, p)];
    ReferenceDirectOk(db, p);
    if p.Root? {
      WriteDirectOk(referenced, p, value, DEFAULT_PERMS);
      OnlyCommitsTransitive(db, referenced, AddDirect(db, p, value));
    } else {
      var branch := CreateDirect(referenced, p.parent).0;
      var branchTree := if p.parent in t then t else AddNode(t, p.parent, "");
      CommittedAt(referenced, p.parent);
      if p.parent in t {
        ReferenceDirectOk(referenced, p.parent);
      } else {
        AddDirectOk(referenced, p.parent, "");
        AddNodeKeys(t, p.parent, "");
        if Below(p.parent, p) { BelowIsDeeper(p.parent, p); }
      }
      assert Committed(branch) == branchTree && p.parent in branchTree && p !in branchTree;
      var listed := RegisterDirect(branch, p);
      CommittedAt(branch, p.parent);
      SetChildrenDirectOk(branch, p.parent, Get(branch, p.parent).e.children + {p.name});
      assert Committed(listed) == AddName(branchTree, p);
      CommittedAt(listed, p.parent);
      WriteDirectOk(listed, p, value, ParentPermsDirect(listed, p));
      OnlyCommitsTransitive(db, referenced, branch);
      OnlyCommitsTransitive(db, branch, listed);
      OnlyCommitsTransitive(db, listed, AddDirect(db, p, value));
    }
  }

  // ------------------------------------------------------------- delete

  lemma {:induction false} DeleteDirectOk(db: Db, cid: nat, p: Path, bound: nat)
    requires DbOk(db) && Closed(Committed(db)) && Bounded(db, bound)
    ensures var r := DeleteDirect(db, cid, p, bound);
      && DbOk(r.0) && OnlyCommits(db, r.0)
      && (Committed(r.0), r.1) == Step(Committed(db), Delete(cid, p))
    decreases 2 * (bound - Depth(p)) + 1, 0
  {
    var t := Committed(db);
    CommittedAt(db, p);
    if p in t && HasWriteAccess(cid, t[p].perms) {
      var names := db[p].e.children;
      var emptied := DeleteChildrenDirect(db, p, names, bound);
      WithoutNone(t, p);
      assert t[p].children - names == {};
      DeleteChildrenDirectOk(db, p, names, bound, t);
      WithoutAll(t, p);
      CommittedAt(emptied, p);
      var unlisted := UnregisterDirect(emptied, p);
      UnregisterDirectOk(emptied, p);
      OnlyCommitsTransitive(db, emptied, unlisted);
      NotBelowItself(p);
      CommittedAt(unlisted, p);
      EraseDirectOk(unlisted, p);
      OnlyCommitsTransitive(db, unlisted, EraseDirect(unlisted, p));
    }
  }

  lemma OnlyCommitsReflexive(db: Db)
    ensures OnlyCommits(db, db)
  {
  }

  /** Client 0 may delete anything that is there. */
  lemma ZeroDeletes(t: Tree, p: Path)
    requires p in t
    ensures Step(t, Delete(0, p)) == (RemoveBranch(t, p), Done)
  {
  }

  /** Removing the branches of the children that are left removes them all. */
  lemma {:induction false} DeleteChildrenDirectOk(db: Db, p: Path, names: set<Name>, bound: nat, t: Tree)
    requires DbOk(db) && Bounded(db, bound) && Depth(p) <= bound && Midway(t, p, names, Committed(db))
    ensures var db' := DeleteChildrenDirect(db, p, names, bound);
      && DbOk(db') && OnlyCommits(db, db')
      && Committed(db') == Without(t, p, t[p].children)
    decreases 2 * (bound - Depth(p)), |names|
  {
    MidwayIsClosed(t, p, names, Committed(db));
    if names == {} {
      OnlyCommitsReflexive(db);
    } else {
      hide Midway, Closed, Committed, DbOk, OnlyCommits, RemoveBranch, Without, DeleteDirect, HasWriteAccess;
      var c := Least(names);
      MidwayStep(t, p, names, Committed(db), c);
      DeleteDirectOk(db, 0, Sub(p, c), bound);
      var next := DeleteDirect(db, 0, Sub(p, c), bound).0;
      ZeroDeletes(Committed(db), Sub(p, c));
      DeleteChildrenDirectOk(next, p, names - {c}, bound, t);
      OnlyCommitsTransitive(db, next, DeleteChildrenDirect(db, p, names, bound));
    }
  }

  /** Every direct operation is the tree operation, and leaves every overlay as it was. */
  lemma DirectIsStep(db: Db, op: Op)
    requires DbOk(db) && Closed(Committed(db))
    ensures var r := Direct(db, op);
      && DbOk(r.0) && OnlyCommits(db, r.0)
      && (Committed(r.0), r.1) == Step(Committed(db), op)
  {
    var p := op.path;
    var r := Get(db, p);
    CommittedAt(db, p);
    ReferenceDirectOk(db, p);
    match op {
      case Create(_, _) => if !Valid(r.e) { AddDirectOk(db, p, ""); }
      case Update(cid, _, value) =>
        if !Valid(r.e) { AddDirectOk(db, p, value); } else { WriteDirectOk(db, p, value, r.e.perms); }
      case SetPerms(cid, _, perms) => WriteDirectOk(db, p, r.e.value, perms);
      case Delete(cid, _) => DeleteDirectOk(db, cid, p, DepthBound(db));
      case _ =>
    }
  }
}
