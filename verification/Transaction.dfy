/**
 `transaction`: operations inside a transaction, which read committed entries lazily and write to
 the transaction's overlay entries.

 The lemmas here say that an operation touches nothing but the transaction's own overlay; module Views
 says what the overlay means.
 */
module Transaction {
  import opened Paths
  import opened Tree
  import opened Database
  import opened SimpleAccess

  type Overlay = map<Path, TEntry>

  /** The overlay entries of transaction id; its keys are the class's `records`. */
  function OverlayOf(db: Db, id: Tid): Overlay {
    map p | p in db && id in db[p].te :: db[p].te[id]
  }

  /** `db[path]` followed by `get_tentry`. */
  function Ref(db: Db, id: Tid, p: Path): (r: Record)
    ensures id in r.te
  {
    Touch(Get(db, p), id)
  }

  predicate ValidFor(r: Record, id: Tid) {
    if id in r.te then TValid(r.te[id]) else Valid(r.e)
  }

  /** No entry that is valid for the transaction lies deeper than bound. */
  ghost predicate BoundedFor(db: Db, id: Tid, bound: nat) {
    forall p | p in db && ValidFor(db[p], id) :: Depth(p) <= bound
  }

  // ------------------------------------------------------------- operations

  function CreateIn(db: Db, id: Tid, p: Path): (Db, bool)
    decreases p, 1
  {
    var r := Ref(db, id, p);
    if TValid(r.te[id]) then (db[p := r], false)
    else (AddIn(db[p := r], id, p, ""), true)
  }

  /** The shared part of create and update when the transaction sees no valid entry. */
  function AddIn(db: Db, id: Tid, p: Path, value: string): Db
    decreases p, 0
  {
    var branch := if p.Sub? then CreateIn(db, id, p.parent).0 else db;
    var listed := RegisterIn(branch, id, p);
    var (read, perms) := ParentPermsIn(listed, id, p);
    read[p := TWrite(Ref(read, id, p), id, value, perms)]
  }

  function RegisterIn(db: Db, id: Tid, p: Path): Db {
    if p.Sub? then db[p.parent := TLink(Ref(db, id, p.parent), id, p.name)] else db
  }

  function UnregisterIn(db: Db, id: Tid, p: Path): Db {
    if p.Sub? then db[p.parent := TUnlink(Ref(db, id, p.parent), id, p.name)] else db
  }

  function ParentPermsIn(db: Db, id: Tid, p: Path): (Db, Perms) {
    if p.Sub? then
      var r := FetchData(Ref(db, id, p.parent), id);
      (db[p.parent := r], r.te[id].perms)
    else (db, DEFAULT_PERMS)
  }

  function UpdateIn(db: Db, id: Tid, cid: nat, p: Path, value: string): (Db, Reply) {
    var r := Ref(db, id, p);
    if TValid(r.te[id]) then
      var read := FetchData(r, id);
      if !HasWriteAccess(cid, read.te[id].perms) then (db[p := read], Fail(EACCES))
      else (db[p := TWrite(read, id, value, read.te[id].perms)], Done)
    else (AddIn(db[p := r], id, p, value), Done)
  }

  function SetPermsIn(db: Db, id: Tid, cid: nat, p: Path, perms: Perms): (Db, Reply) {
    var r := Ref(db, id, p);
    if TValid(r.te[id]) then
      var read := FetchData(r, id);
      if !HasWriteAccess(cid, read.te[id].perms) then (db[p := read], Fail(EACCES))
      else (db[p := TWrite(read, id, read.te[id].value, perms)], Done)
    else (db[p := r], Fail(ENOENT))
  }

  /** read, get_children and get_perms share their checks: the record they leave and the refusal. */
  function LookIn(db: Db, id: Tid, cid: nat, p: Path): (r: (Record, Reply))
    ensures id in r.0.te
  {
    var r := Ref(db, id, p);
    if TValid(r.te[id]) then
      var read := FetchData(r, id);
      (read, if HasReadAccess(cid, read.te[id].perms) then Done else Fail(EACCES))
    else (r, Fail(ENOENT))
  }

  function ReadIn(db: Db, id: Tid, cid: nat, p: Path): (Db, Reply) {
    var (r, reply) := LookIn(db, id, cid, p);
    (db[p := r], if reply.Done? then Value(r.te[id].value) else reply)
  }

  function GetPermsIn(db: Db, id: Tid, cid: nat, p: Path): (Db, Reply) {
    var (r, reply) := LookIn(db, id, cid, p);
    (db[p := r], if reply.Done? then PermList(r.te[id].perms) else reply)
  }

  function ChildrenIn(db: Db, id: Tid, cid: nat, p: Path): (Db, Reply) {
    var (r, reply) := LookIn(db, id, cid, p);
    if reply.Done? then
      var listed := FetchChildren(r, id);
      (db[p := listed], Children(TChildren(listed.te[id])))
    else (db[p := r], reply)
  }

  function DeleteIn(db: Db, id: Tid, cid: nat, p: Path, ghost bound: nat): (r: (Db, Reply))
    requires BoundedFor(db, id, bound)
    ensures BoundedFor(r.0, id, bound)
    decreases 2 * (bound - Depth(p)) + 1, 0
  {
    var (r, reply) := DeletableIn(db, id, cid, p);
    if !reply.Done? then (db[p := r], reply)
    else
      var emptied := DeleteChildrenIn(db[p := r], id, p, TChildren(r.te[id]), bound);
      var unlisted := UnregisterIn(emptied, id, p);
      (unlisted[p := TDelete(Ref(unlisted, id, p), id)], Done)
  }

  /** The part of del before anything is deleted. */
  function DeletableIn(db: Db, id: Tid, cid: nat, p: Path): (r: (Record, Reply))
    ensures id in r.0.te
    ensures r.1.Done? ==> ValidFor(Get(db, p), id)
    ensures ValidFor(r.0, id) ==> ValidFor(Get(db, p), id)
  {
    var r := Ref(db, id, p);
    if !TValid(r.te[id]) then (r, Fail(ENOENT))
    else
      var read := FetchData(r, id);
      if !HasWriteAccess(cid, read.te[id].perms) then (read, Fail(EACCES))
      else (FetchChildren(read, id), Done)
  }

  /** Deletes the named children in set order, as client 0. */
  function DeleteChildrenIn(db: Db, id: Tid, p: Path, names: set<Name>, ghost bound: nat): (r: Db)
    requires BoundedFor(db, id, bound) && Depth(p) <= bound
    ensures BoundedFor(r, id, bound)
    decreases 2 * (bound - Depth(p)), |names|
  {
    if names == {} then db
    else
      var c := Least(names);
      DeleteChildrenIn(DeleteIn(db, id, 0, Sub(p, c), bound).0, id, p, names - {c}, bound)
  }

  ghost function DepthBoundFor(db: Db, id: Tid): (bound: nat)
    ensures BoundedFor(db, id, bound)
    decreases |db|
  {
    if db == map[] then 0
    else
      var p :| p in db;
      var rest := DepthBoundFor(db - {p}, id);
      assert forall q | q in db && q != p :: (db - {p})[q] == db[q];
      if rest < Depth(p) then Depth(p) else rest
  }

  function InTransaction(db: Db, id: Tid, op: Op): (Db, Reply) {
    match op
    case Create(_, p) => var r := CreateIn(db, id, p); (r.0, Created(r.1))
    case Read(cid, p) => ReadIn(db, id, cid, p)
    case Update(cid, p, value) => UpdateIn(db, id, cid, p, value)
    case Delete(cid, p) => DeleteIn(db, id, cid, p, DepthBoundFor(db, id))
    case GetChildren(cid, p) => ChildrenIn(db, id, cid, p)
    case GetPerms(cid, p) => GetPermsIn(db, id, cid, p)
    case SetPerms(cid, p, perms) => SetPermsIn(db, id, cid, p, perms)
  }

  // ------------------------------------------------------------- isolation

  /** Only transaction id's overlay moved. */
  ghost predicate OnlyOverlays(db: Db, db': Db, id: Tid) {
    && db.Keys <= db'.Keys
    && forall p :: Overlays(Get(db, p), Get(db', p), id)
  }

  lemma OverlaysTransitive(a: Record, b: Record, c: Record, id: Tid)
    requires Overlays(a, b, id) && Overlays(b, c, id)
    ensures Overlays(a, c, id)
  {
  }

  lemma OnlyOverlaysTransitive(a: Db, b: Db, c: Db, id: Tid)
    requires OnlyOverlays(a, b, id) && OnlyOverlays(b, c, id)
    ensures OnlyOverlays(a, c, id)
  {
  }

  /** The committed tree and every other transaction's overlay stay as they were. */
  lemma OverlaysAreIsolated(db: Db, db': Db, id: Tid)
    requires OnlyOverlays(db, db', id)
    ensures Committed(db') == Committed(db)
    ensures forall j | j != id :: OverlayOf(db', j) == OverlayOf(db, j)
  {
    forall p ensures Get(db', p).e == Get(db, p).e { assert Overlays(Get(db, p), Get(db', p), id); }
    forall p ensures (p in Committed(db') <==> p in Committed(db)) && (p in Committed(db) ==> Committed(db')[p] == Committed(db)[p]) {
      CommittedAt(db, p);
      CommittedAt(db', p);
    }
    forall j | j != id ensures OverlayOf(db', j) == OverlayOf(db, j) {
      forall p ensures (p in OverlayOf(db', j) <==> p in OverlayOf(db, j))
                    && (p in OverlayOf(db, j) ==> OverlayOf(db', j)[p] == OverlayOf(db, j)[p]) {
        assert SameElsewhere(Get(db, p).te, Get(db', p).te, id);
      }
    }
  }

  lemma PutOverlay(db: Db, id: Tid, p: Path, r: Record)
    requires DbOk(db) && RecordOk(r) && id in r.te && Overlays(Get(db, p), r, id)
    ensures DbOk(db[p := r]) && OnlyOverlays(db, db[p := r], id)
    ensures OverlayOf(db[p := r], id) == OverlayOf(db, id)[p := r.te[id]]
  {
    var db' := db[p := r];
    forall q {:trigger Get(db', q)} ensures Overlays(Get(db, q), Get(db', q), id) {
      if q != p { OverlaysReflexive(Get(db, q), id); }
    }
    OverlayOfPut(db, id, p, r);
  }

  lemma OverlaysReflexive(r: Record, id: Tid)
    ensures Overlays(r, r, id)
  {
  }

  lemma OverlayOfPut(db: Db, id: Tid, p: Path, r: Record)
    requires id in r.te
    ensures OverlayOf(db[p := r], id) == OverlayOf(db, id)[p := r.te[id]]
  {
  }

  lemma RefOk(db: Db, id: Tid, p: Path)
    requires DbOk(db)
    ensures RecordOk(Ref(db, id, p)) && Overlays(Get(db, p), Ref(db, id, p), id)
  {
    GetOk(db, p);
    TouchOk(Get(db, p), id);
  }

  lemma FetchOk(db: Db, id: Tid, p: Path)
    requires DbOk(db)
    ensures var r := FetchData(Ref(db, id, p), id); RecordOk(r) && Overlays(Get(db, p), r, id)
  {
    RefOk(db, id, p);
    FetchDataOk(Ref(db, id, p), id);
    OverlaysTransitive(Get(db, p), Ref(db, id, p), FetchData(Ref(db, id, p), id), id);
  }

  lemma OnlyOverlaysReflexive(db: Db, id: Tid)
    ensures OnlyOverlays(db, db, id)
  {
  }

  lemma RegisterInOk(db: Db, id: Tid, p: Path)
    requires DbOk(db)
    ensures DbOk(RegisterIn(db, id, p)) && OnlyOverlays(db, RegisterIn(db, id, p), id)
  {
    if p.Sub? {
      var r := Ref(db, id, p.parent);
      RefOk(db, id, p.parent);
      TLinkOk(r, id, p.name);
      OverlaysTransitive(Get(db, p.parent), r, TLink(r, id, p.name), id);
      PutOverlay(db, id, p.parent, TLink(r, id, p.name));
    } else {
      OnlyOverlaysReflexive(db, id);
    }
  }

  lemma UnregisterInOk(db: Db, id: Tid, p: Path)
    requires DbOk(db)
    ensures DbOk(UnregisterIn(db, id, p)) && OnlyOverlays(db, UnregisterIn(db, id, p), id)
  {
    if p.Sub? {
      var r := Ref(db, id, p.parent);
      RefOk(db, id, p.parent);
      TUnlinkOk(r, id, p.name);
      OverlaysTransitive(Get(db, p.parent), r, TUnlink(r, id, p.name), id);
      PutOverlay(db, id, p.parent, TUnlink(r, id, p.name));
    } else {
      OnlyOverlaysReflexive(db, id);
    }
  }

  lemma ParentPermsInOk(db: Db, id: Tid, p: Path)
    requires DbOk(db)
    ensures DbOk(ParentPermsIn(db, id, p).0) && OnlyOverlays(db, ParentPermsIn(db, id, p).0, id)
  {
    if p.Sub? {
      FetchOk(db, id, p.parent);
      PutOverlay(db, id, p.parent, FetchData(Ref(db, id, p.parent), id));
    }
  }

  lemma WriteInOk(db: Db, id: Tid, p: Path, r: Record, value: string, perms: Perms)
    requires DbOk(db) && RecordOk(r) && id in r.te && Overlays(Get(db, p), r, id)
    ensures var db' := db[p := TWrite(r, id, value, perms)];
      && DbOk(db') && OnlyOverlays(db, db', id)
      && OverlayOf(db', id) == OverlayOf(db, id)[p := TWrite(r, id, value, perms).te[id]]
  {
    TWriteOk(r, id, value, perms);
    OverlaysTransitive(Get(db, p), r, TWrite(r, id, value, perms), id);
    PutOverlay(db, id, p, TWrite(r, id, value, perms));
  }

  lemma {:induction false} CreateInOk(db: Db, id: Tid, p: Path)
    requires DbOk(db)
    ensures DbOk(CreateIn(db, id, p).0) && OnlyOverlays(db, CreateIn(db, id, p).0, id)
    decreases p, 1
  {
    var r := Ref(db, id, p);
    RefOk(db, id, p);
    PutOverlay(db, id, p, r);
    if !TValid(r.te[id]) {
      AddInOk(db[p := r], id, p, "");
      OnlyOverlaysTransitive(db, db[p := r], CreateIn(db, id, p).0, id);
    }
  }

  lemma {:induction false} AddInOk(db: Db, id: Tid, p: Path, value: string)
    requires DbOk(db)
    ensures DbOk(AddIn(db, id, p, value)) && OnlyOverlays(db, AddIn(db, id, p, value), id)
    decreases p, 0
  {
    var branch := if p.Sub? then CreateIn(db, id, p.parent).0 else db;
    if p.Sub? { CreateInOk(db, id, p.parent); }
    RegisterInOk(branch, id, p);
    var listed := RegisterIn(branch, id, p);
    ParentPermsInOk(listed, id, p);
    var (read, perms) := ParentPermsIn(listed, id, p);
    RefOk(read, id, p);
    WriteInOk(read, id, p, Ref(read, id, p), value, perms);
    assert OnlyOverlays(db, branch, id);
    OnlyOverlaysTransitive(db, branch, listed, id);
    OnlyOverlaysTransitive(db, listed, read, id);
    OnlyOverlaysTransitive(db, read, AddIn(db, id, p, value), id);
  }

  lemma LookInOk(db: Db, id: Tid, cid: nat, p: Path)
    requires DbOk(db)
    ensures var r := LookIn(db, id, cid, p).0; RecordOk(r) && Overlays(Get(db, p), r, id)
    ensures var r := DeletableIn(db, id, cid, p).0; RecordOk(r) && Overlays(Get(db, p), r, id)
  {
    RefOk(db, id, p);
    FetchOk(db, id, p);
    var read := FetchData(Ref(db, id, p), id);
    FetchChildrenOk(read, id);
    OverlaysTransitive(Get(db, p), read, FetchChildren(read, id), id);
  }

  lemma DeletableBounded(db: Db, id: Tid, cid: nat, p: Path, bound: nat)
    requires BoundedFor(db, id, bound) && DeletableIn(db, id, cid, p).1.Done?
    ensures Depth(p) <= bound && BoundedFor(db[p := DeletableIn(db, id, cid, p).0], id, bound)
  {
    hide DeletableIn;
  }

  lemma {:induction false} DeleteInOk(db: Db, id: Tid, cid: nat, p: Path, bound: nat)
    requires DbOk(db) && BoundedFor(db, id, bound)
    ensures var db' := DeleteIn(db, id, cid, p, bound).0; DbOk(db') && OnlyOverlays(db, db', id)
    decreases 2 * (bound - Depth(p)) + 1, 0
  {
    var (r, reply) := DeletableIn(db, id, cid, p);
    LookInOk(db, id, cid, p);
    PutOverlay(db, id, p, r);
    if reply.Done? {
      var listed := db[p := r];
      var emptied := DeleteChildrenIn(listed, id, p, TChildren(r.te[id]), bound);
      DeleteChildrenInOk(listed, id, p, TChildren(r.te[id]), bound);
      var unlisted := UnregisterIn(emptied, id, p);
      UnregisterInOk(emptied, id, p);
      RefOk(unlisted, id, p);
      var last := TDelete(Ref(unlisted, id, p), id);
      TDeleteOk(Ref(unlisted, id, p), id);
      OverlaysTransitive(Get(unlisted, p), Ref(unlisted, id, p), last, id);
      PutOverlay(unlisted, id, p, last);
      OnlyOverlaysTransitive(db, listed, emptied, id);
      OnlyOverlaysTransitive(db, emptied, unlisted, id);
      OnlyOverlaysTransitive(db, unlisted, unlisted[p := last], id);
    }
  }

  lemma {:induction false} DeleteChildrenInOk(db: Db, id: Tid, p: Path, names: set<Name>, bound: nat)
    requires DbOk(db) && BoundedFor(db, id, bound) && Depth(p) <= bound
    ensures var db' := DeleteChildrenIn(db, id, p, names, bound); DbOk(db') && OnlyOverlays(db, db', id)
    decreases 2 * (bound - Depth(p)), |names|
  {
    if names == {} {
    } else {
      var c := Least(names);
      var next := DeleteIn(db, id, 0, Sub(p, c), bound).0;
      DeleteInOk(db, id, 0, Sub(p, c), bound);
      DeleteChildrenInOk(next, id, p, names - {c}, bound);
      OnlyOverlaysTransitive(db, next, DeleteChildrenIn(db, id, p, names, bound), id);
    }
  }

  lemma UpdateInOk(db: Db, id: Tid, cid: nat, p: Path, value: string)
    requires DbOk(db)
    ensures var db' := UpdateIn(db, id, cid, p, value).0; DbOk(db') && OnlyOverlays(db, db', id)
  {
    var r := Ref(db, id, p);
    var read := FetchData(r, id);
    if TValid(r.te[id]) {
      FetchOk(db, id, p);
      PutOverlay(db, id, p, read);
      WriteInOk(db, id, p, read, value, read.te[id].perms);
    } else {
      RefOk(db, id, p);
      PutOverlay(db, id, p, r);
      AddInOk(db[p := r], id, p, value);
      OnlyOverlaysTransitive(db, db[p := r], AddIn(db[p := r], id, p, value), id);
    }
  }

  lemma SetPermsInOk(db: Db, id: Tid, cid: nat, p: Path, perms: Perms)
    requires DbOk(db)
    ensures var db' := SetPermsIn(db, id, cid, p, perms).0; DbOk(db') && OnlyOverlays(db, db', id)
  {
    var r := Ref(db, id, p);
    var read := FetchData(r, id);
    RefOk(db, id, p);
    PutOverlay(db, id, p, r);
    FetchOk(db, id, p);
    PutOverlay(db, id, p, read);
    WriteInOk(db, id, p, read, read.te[id].value, perms);
  }

  lemma ReadersInOk(db: Db, id: Tid, cid: nat, p: Path)
    requires DbOk(db)
    ensures var db' := ReadIn(db, id, cid, p).0; DbOk(db') && OnlyOverlays(db, db', id)
    ensures var db' := GetPermsIn(db, id, cid, p).0; DbOk(db') && OnlyOverlays(db, db', id)
    ensures var db' := ChildrenIn(db, id, cid, p).0; DbOk(db') && OnlyOverlays(db, db', id)
  {
    var r := LookIn(db, id, cid, p).0;
    LookInOk(db, id, cid, p);
    PutOverlay(db, id, p, r);
    FetchChildrenOk(r, id);
    OverlaysTransitive(Get(db, p), r, FetchChildren(r, id), id);
    PutOverlay(db, id, p, FetchChildren(r, id));
  }

  /** Isolation: an operation inside a transaction moves that transaction's overlay and nothing else. */
  lemma InTransactionIsIsolated(db: Db, id: Tid, op: Op)
    requires DbOk(db)
    ensures var db' := InTransaction(db, id, op).0;
      && DbOk(db') && OnlyOverlays(db, db', id)
      && Committed(db') == Committed(db)
      && (forall j | j != id :: OverlayOf(db', j) == OverlayOf(db, j))
  {
    hide CreateIn, UpdateIn, SetPermsIn, DeleteIn, ReadIn, GetPermsIn, ChildrenIn, OnlyOverlays, DbOk, OverlayOf, Committed;
    match op {
      case Create(_, p) => CreateInOk(db, id, p);
      case Update(cid, p, value) => UpdateInOk(db, id, cid, p, value);
      case SetPerms(cid, p, perms) => SetPermsInOk(db, id, cid, p, perms);
      case Delete(cid, p) => DeleteInOk(db, id, cid, p, DepthBoundFor(db, id));
      case Read(cid, p) => ReadersInOk(db, id, cid, p);
      case GetPerms(cid, p) => ReadersInOk(db, id, cid, p);
      case GetChildren(cid, p) => ReadersInOk(db, id, cid, p);
    }
    OverlaysAreIsolated(db, InTransaction(db, id, op).0, id);
  }
}
