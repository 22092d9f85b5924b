/**
 The store's classes, updating one shared database in place as the C++ code does.
 SimpleAccess and Transaction hold a reference to the store's database; every method is proved to
 leave exactly the database that the functions of the specification modules describe.
 */
module Mstore {
  import opened Paths
  import opened Tree
  import opened D = Database
  import opened S = SimpleAccess
  import opened T = Transaction
  import opened Commit
  import opened Runs

  class Database {
    var m: Db

    constructor ()
      ensures m == map[]
    {
      m := map[];
    }

    /** operator[] of the map: the record exists afterwards. */
    method Reference(path: Path)
      modifies this
      ensures m == old(m)[path := Get(old(m), path)]
    {
      if path !in m { m := m[path := FRESH_RECORD]; }
    }
  }

  class SimpleAccess {
    const db: Database

    constructor (db: Database)
      ensures this.db == db
    {
      this.db := db;
    }

    method Create(path: Path) returns (created: bool)
      modifies db
      ensures (db.m, created) == CreateDirect(old(db.m), path)
      decreases path, 2
    {
      db.Reference(path);
      if Valid(db.m[path].e) {
        created := false;
      } else {
        EnsureBranch(path);
        RegisterWithParent(path);
        var perms := GetParentPerms(path);
        db.m := db.m[path := WriteEntry(Get(db.m, path), "", perms)];
        created := true;
      }
    }

    method Read(cid: nat, path: Path) returns (reply: Reply)
      ensures reply == ReadDirect(db.m, cid, path)
    {
      if path !in db.m { return Fail(ENOENT); }
      var e := db.m[path].e;
      if !Valid(e) { return Fail(ENOENT); }
      if !HasReadAccess(cid, e.perms) { return Fail(EACCES); }
      return Value(e.value);
    }

    method Update(cid: nat, path: Path, value: string) returns (reply: Reply)
      modifies db
      ensures (db.m, reply) == UpdateDirect(old(db.m), cid, path, value)
    {
      db.Reference(path);
      var perms := db.m[path].e.perms;
      if Valid(db.m[path].e) {
        if !HasWriteAccess(cid, perms) { return Fail(EACCES); }
      } else {
        EnsureBranch(path);
        RegisterWithParent(path);
        perms := GetParentPerms(path);
      }
      db.m := db.m[path := WriteEntry(Get(db.m, path), value, perms)];
      assert Valid(Get(old(db.m), path).e) ==> db.m == old(db.m)[path := WriteEntry(Get(old(db.m), path), value, perms)];
      return Done;
    }

    /** Needs every listed child to be there: without it the loop of DeleteBranch would not end. */
    method Del(cid: nat, path: Path, ghost bound: nat) returns (reply: Reply)
      requires DbOk(db.m) && Closed(Committed(db.m)) && Bounded(db.m, bound)
      modifies db
      ensures (db.m, reply) == DeleteDirect(old(db.m), cid, path, bound)
      decreases 2 * (bound - Depth(path)) + 1, 0
    {
      if path !in db.m { return Fail(ENOENT); }
      if !Valid(db.m[path].e) { return Fail(ENOENT); }
      if !HasWriteAccess(cid, db.m[path].e.perms) { return Fail(EACCES); }
      DeleteBranch(path, bound);
      UnregisterFromParent(path);
      if Get(db.m, path).te == map[] {
        db.m := db.m - {path};
      } else {
        db.m := db.m[path := D.MarkDeleted(Get(db.m, path))];
      }
      return Done;
    }

    method GetChildren(cid: nat, path: Path) returns (reply: Reply)
      ensures reply == ChildrenDirect(db.m, cid, path)
    {
      if path !in db.m { return Fail(ENOENT); }
      var e := db.m[path].e;
      if !Valid(e) { return Fail(ENOENT); }
      if !HasReadAccess(cid, e.perms) { return Fail(EACCES); }
      return Children(e.children);
    }

    method GetPerms(cid: nat, path: Path) returns (reply: Reply)
      ensures reply == GetPermsDirect(db.m, cid, path)
    {
      if path !in db.m { return Fail(ENOENT); }
      var e := db.m[path].e;
      if !Valid(e) { return Fail(ENOENT); }
      if !HasReadAccess(cid, e.perms) { return Fail(EACCES); }
      return PermList(e.perms);
    }

    method SetPerms(cid: nat, path: Path, perms: Perms) returns (reply: Reply)
      modifies db
      ensures (db.m, reply) == SetPermsDirect(old(db.m), cid, path, perms)
    {
      if path !in db.m { return Fail(ENOENT); }
      var e := db.m[path].e;
      if !Valid(e) { return Fail(ENOENT); }
      if !HasWriteAccess(cid, e.perms) { return Fail(EACCES); }
      db.m := db.m[path := WriteEntry(db.m[path], e.value, perms)];
      return Done;
    }

    method RegisterWithParent(path: Path)
      modifies db
      ensures db.m == RegisterDirect(old(db.m), path)
    {
      if path.Sub? {
        var r := Get(db.m, path.parent);
        db.m := db.m[path.parent := SetChildren(r, r.e.children + {path.name})];
      }
    }

    method UnregisterFromParent(path: Path)
      modifies db
      ensures db.m == UnregisterDirect(old(db.m), path)
    {
      if path.Sub? {
        var r := Get(db.m, path.parent);
        db.m := db.m[path.parent := SetChildren(r, r.e.children - {path.name})];
      }
    }

    method EnsureBranch(path: Path)
      modifies db
      ensures db.m == if path.Sub? then CreateDirect(old(db.m), path.parent).0 else old(db.m)
      decreases path, 1
    {
      if path.Sub? { var _ := Create(path.parent); }
    }

    /** The loop runs until the list is empty; the deletions it calls shrink the list. */
    method DeleteBranch(path: Path, ghost bound: nat)
      requires DbOk(db.m) && Closed(Committed(db.m)) && Bounded(db.m, bound)
      requires path in db.m && Valid(db.m[path].e)
      modifies db
      ensures db.m == DeleteChildrenDirect(old(db.m), path, old(db.m)[path].e.children, bound)
      decreases 2 * (bound - Depth(path)), 0
    {
      ghost var t := Committed(db.m);
      WithoutNone(t, path);
      assert t[path].children - db.m[path].e.children == {};
      while db.m[path].e.children != {}
        invariant path in db.m && Valid(db.m[path].e)
        invariant DbOk(db.m) && Bounded(db.m, bound)
        invariant Midway(t, path, db.m[path].e.children, Committed(db.m))
        invariant DeleteChildrenDirect(db.m, path, db.m[path].e.children, bound)
               == DeleteChildrenDirect(old(db.m), path, old(db.m)[path].e.children, bound)
        decreases |db.m[path].e.children|
      {
        ghost var before := db.m;
        ghost var names := db.m[path].e.children;
        var c := Least(db.m[path].e.children);
        var _ := Del(0, Sub(path, c), bound);
        ChildGone(t, before, path, names, c, bound);
        assert db.m == DeleteDirect(before, 0, Sub(path, c), bound).0;
      }
    }

    method GetParentPerms(path: Path) returns (perms: Perms)
      ensures perms == ParentPermsDirect(db.m, path)
    {
      if path.Sub? { return Get(db.m, path.parent).e.perms; }
      return DEFAULT_PERMS;
    }
  }

  /** After one child's branch is deleted the entry is still there and lists the others. */
  lemma ChildGone(t: Tree, db: Db, path: Path, names: set<Name>, c: Name, bound: nat)
    requires DbOk(db) && Bounded(db, bound) && path in db && Valid(db[path].e) && db[path].e.children == names
    requires Midway(t, path, names, Committed(db)) && names != {} && c == Least(names)
    ensures var db' := DeleteDirect(db, 0, Sub(path, c), bound).0;
      && DbOk(db') && path in db' && Valid(db'[path].e) && db'[path].e.children == names - {c}
      && Midway(t, path, names - {c}, Committed(db'))
      && DeleteChildrenDirect(db, path, names, bound) == DeleteChildrenDirect(db', path, names - {c}, bound)
  {
    var db' := DeleteDirect(db, 0, Sub(path, c), bound).0;
    MidwayStep(t, path, names, Committed(db), c);
    DeleteDirectOk(db, 0, Sub(path, c), bound);
    CommittedAt(db', path);
    if Below(path, path) { BelowIsDeeper(path, path); }
    assert t[path].children - (t[path].children - (names - {c})) == names - {c};
  }

  class Transaction {
    const id: Tid
    const db: Database
    var records: set<Path>

    /** The records the transaction has an overlay entry in are exactly those it lists. */
    ghost predicate Tracks()
      reads this, db
    {
      records == OverlayOf(db.m, id).Keys
    }

    constructor (id: Tid, db: Database)
      requires OverlayOf(db.m, id) == map[]
      ensures this.id == id && this.db == db && records == {} && Tracks()
    {
      this.id := id;
      this.db := db;
      this.records := {};
    }

    method GetTEntry(path: Path)
      requires Tracks()
      modifies this, db
      ensures db.m == old(db.m)[path := Ref(old(db.m), id, path)] && Tracks() && path in records
    {
      db.Reference(path);
      if id !in db.m[path].te {
        records := records + {path};
        db.m := db.m[path := Touch(db.m[path], id)];
      }
    }

    /** Replaces the record of a path that already has an overlay entry of this transaction; `before`
        is a database that differs from the present one at that path only. */
    method Put(path: Path, r: Record, ghost before: Db)
      requires Tracks() && path in records && id in r.te
      requires path in db.m && db.m == before[path := db.m[path]]
      modifies db
      ensures db.m == before[path := r] && Tracks()
    {
      db.m := db.m[path := r];
      OverlayOfPut(old(db.m), id, path, r);
      assert before[path := old(db.m)[path]][path := r] == before[path := r];
    }

    method Create(path: Path) returns (created: bool)
      requires Tracks()
      modifies this, db
      ensures (db.m, created) == CreateIn(old(db.m), id, path) && Tracks()
      decreases path, 2
    {
      GetTEntry(path);
      if TValid(db.m[path].te[id]) {
        created := false;
      } else {
        Add(path, "");
        created := true;
      }
    }

    /** What create and update do alike for a new entry. */
    method Add(path: Path, value: string)
      requires Tracks()
      modifies this, db
      ensures db.m == AddIn(old(db.m), id, path, value) && Tracks()
      decreases path, 1
    {
      EnsureBranch(path);
      RegisterWithParent(path);
      var perms := GetParentPerms(path);
      Write(path, value, perms);
    }

    method Write(path: Path, value: string, perms: Perms)
      requires Tracks()
      modifies this, db
      ensures db.m == old(db.m)[path := TWrite(Ref(old(db.m), id, path), id, value, perms)] && Tracks()
    {
      GetTEntry(path);
      assert path in OverlayOf(db.m, id);
      Put(path, TWrite(db.m[path], id, value, perms), old(db.m));
    }

    method Read(cid: nat, path: Path) returns (reply: Reply)
      requires Tracks()
      modifies this, db
      ensures (db.m, reply) == ReadIn(old(db.m), id, cid, path) && Tracks()
    {
      GetTEntry(path);
      if !TValid(db.m[path].te[id]) { return Fail(ENOENT); }
      Put(path, FetchData(db.m[path], id), old(db.m));
      if !HasReadAccess(cid, db.m[path].te[id].perms) { return Fail(EACCES); }
      return Value(db.m[path].te[id].value);
    }

    method Update(cid: nat, path: Path, value: string) returns (reply: Reply)
      requires Tracks()
      modifies this, db
      ensures (db.m, reply) == UpdateIn(old(db.m), id, cid, path, value) && Tracks()
    {
      GetTEntry(path);
      if TValid(db.m[path].te[id]) {
        Put(path, FetchData(db.m[path], id), old(db.m));
        var perms := db.m[path].te[id].perms;
        if !HasWriteAccess(cid, perms) { return Fail(EACCES); }
        Put(path, TWrite(db.m[path], id, value, perms), old(db.m));
      } else {
        Add(path, value);
      }
      return Done;
    }

    method Del(cid: nat, path: Path, ghost bound: nat) returns (reply: Reply)
      requires Tracks() && BoundedFor(db.m, id, bound)
      modifies this, db
      ensures (db.m, reply) == DeleteIn(old(db.m), id, cid, path, bound) && Tracks()
      decreases 2 * (bound - Depth(path)) + 1, 0
    {
      GetTEntry(path);
      if !TValid(db.m[path].te[id]) { return Fail(ENOENT); }
      Put(path, FetchData(db.m[path], id), old(db.m));
      if !HasWriteAccess(cid, db.m[path].te[id].perms) { return Fail(EACCES); }
      Put(path, FetchChildren(db.m[path], id), old(db.m));
      DeleteBranch(path, TChildren(db.m[path].te[id]), bound);
      UnregisterFromParent(path);
      MarkDeleted(path);
      return Done;
    }

    method MarkDeleted(path: Path)
      requires Tracks()
      modifies this, db
      ensures db.m == old(db.m)[path := TDelete(Ref(old(db.m), id, path), id)] && Tracks()
    {
      GetTEntry(path);
      assert path in OverlayOf(db.m, id);
      Put(path, TDelete(db.m[path], id), old(db.m));
    }

    method GetChildren(cid: nat, path: Path) returns (reply: Reply)
      requires Tracks()
      modifies this, db
      ensures (db.m, reply) == ChildrenIn(old(db.m), id, cid, path) && Tracks()
    {
      GetTEntry(path);
      if !TValid(db.m[path].te[id]) { return Fail(ENOENT); }
      Put(path, FetchData(db.m[path], id), old(db.m));
      if !HasReadAccess(cid, db.m[path].te[id].perms) { return Fail(EACCES); }
      Put(path, FetchChildren(db.m[path], id), old(db.m));
      return Children(TChildren(db.m[path].te[id]));
    }

    method GetPerms(cid: nat, path: Path) returns (reply: Reply)
      requires Tracks()
      modifies this, db
      ensures (db.m, reply) == GetPermsIn(old(db.m), id, cid, path) && Tracks()
    {
      GetTEntry(path);
      if !TValid(db.m[path].te[id]) { return Fail(ENOENT); }
      Put(path, FetchData(db.m[path], id), old(db.m));
      if !HasReadAccess(cid, db.m[path].te[id].perms) { return Fail(EACCES); }
      return PermList(db.m[path].te[id].perms);
    }

    method SetPerms(cid: nat, path: Path, perms: Perms) returns (reply: Reply)
      requires Tracks()
      modifies this, db
      ensures (db.m, reply) == SetPermsIn(old(db.m), id, cid, path, perms) && Tracks()
    {
      GetTEntry(path);
      if !TValid(db.m[path].te[id]) { return Fail(ENOENT); }
      Put(path, FetchData(db.m[path], id), old(db.m));
      if !HasWriteAccess(cid, db.m[path].te[id].perms) { return Fail(EACCES); }
      Put(path, TWrite(db.m[path], id, db.m[path].te[id].value, perms), old(db.m));
      return Done;
    }

    method Abort()
      requires Tracks()
      modifies this, db
      ensures db.m == AbortAll(old(db.m), id) && records == {} && Tracks()
    {
      ghost var start := db.m;
      var todo := records;
      while todo != {}
        invariant todo <= OverlayOf(start, id).Keys
        invariant forall p | p in todo :: p in db.m && db.m[p] == start[p]
        invariant forall p | p !in todo :: (p in db.m <==> p in AbortAll(start, id)) && (p in db.m ==> db.m[p] == AbortAll(start, id)[p])
      {
        var r :| r in todo;
        todo := todo - {r};
        var rec := db.m[r];
        var dropped := Drop(rec, id);
        if dropped.e.deleteSeq > dropped.e.writeSeq && dropped.te == map[] {
          db.m := db.m - {r};
        } else {
          db.m := db.m[r := dropped];
        }
      }
      assert db.m == AbortAll(start, id);
      records := {};
      assert OverlayOf(db.m, id).Keys == {};
    }

    method Merge(version: Version) returns (success: bool)
      requires Tracks()
      modifies this, db
      ensures success == CanMerge(old(db.m), id)
      ensures db.m == if success then DoMerge(old(db.m), id, version) else AbortAll(old(db.m), id)
      ensures records == {} && Tracks()
    {
      success := Validate();
      if success { Install(version); } else { Abort(); }
    }

    /** can_merge */
    method Validate() returns (ok: bool)
      requires Tracks()
      ensures ok == CanMerge(db.m, id)
    {
      var todo := records;
      while todo != {}
        invariant todo <= records
        invariant forall p | p in records - todo :: CanMergeRecord(db.m[p], id)
      {
        var r :| r in todo;
        todo := todo - {r};
        var e := db.m[r].e;
        var te := db.m[r].te[id];
        assert r in OverlayOf(db.m, id);
        if te.initValid {
          if e.deleteSeq > te.initSeq { return false; }
        } else {
          if e.writeSeq > te.initSeq { return false; }
        }
        if te.readSeq != 0 && e.writeSeq > te.readSeq { return false; }
        if te.readChildrenSeq != 0 && e.writeChildrenSeq > te.readChildrenSeq { return false; }
      }
      forall p | p in db.m && id in db.m[p].te ensures CanMergeRecord(db.m[p], id) {
        assert p in OverlayOf(db.m, id);
      }
      return true;
    }

    /** do_merge */
    method Install(version: Version)
      requires Tracks()
      modifies this, db
      ensures db.m == DoMerge(old(db.m), id, version) && records == {} && Tracks()
    {
      ghost var start := db.m;
      var todo := records;
      while todo != {}
        invariant todo <= OverlayOf(start, id).Keys
        invariant forall p | p in todo :: p in db.m && db.m[p] == start[p]
        invariant forall p | p !in todo :: (p in db.m <==> p in DoMerge(start, id, version))
                                        && (p in db.m ==> db.m[p] == DoMerge(start, id, version)[p])
      {
        var r :| r in todo;
        todo := todo - {r};
        var rec := Drop(D.Install(db.m[r], id, version), id);
        if rec.te == map[] {
          if Valid(rec.e) {
            db.m := db.m[r := rec.(e := rec.e.(writeSeq := 1, deleteSeq := 0, writeChildrenSeq := 0), nextSeq := 2)];
          } else {
            db.m := db.m - {r};
          }
        } else {
          db.m := db.m[r := rec];
        }
        assert Settle(rec) == MergeRecord(start[r], id, version);
      }
      assert db.m == DoMerge(start, id, version);
      records := {};
      forall p ensures p !in OverlayOf(db.m, id) {
        if p in db.m && id in start[p].te { assert db.m[p] == MergeRecord(start[p], id, version).value; }
      }
    }

    method RegisterWithParent(path: Path)
      requires Tracks()
      modifies this, db
      ensures db.m == RegisterIn(old(db.m), id, path) && Tracks()
    {
      if path.Sub? {
        GetTEntry(path.parent);
        Put(path.parent, TLink(db.m[path.parent], id, path.name), old(db.m));
      }
    }

    method UnregisterFromParent(path: Path)
      requires Tracks()
      modifies this, db
      ensures db.m == UnregisterIn(old(db.m), id, path) && Tracks()
    {
      if path.Sub? {
        GetTEntry(path.parent);
        Put(path.parent, TUnlink(db.m[path.parent], id, path.name), old(db.m));
      }
    }

    method EnsureBranch(path: Path)
      requires Tracks()
      modifies this, db
      ensures db.m == (if path.Sub? then CreateIn(old(db.m), id, path.parent).0 else old(db.m)) && Tracks()
      decreases path, 0
    {
      if path.Sub? { var _ := Create(path.parent); }
    }

    method DeleteBranch(path: Path, children: set<Name>, ghost bound: nat)
      requires Tracks() && BoundedFor(db.m, id, bound) && Depth(path) <= bound
      modifies this, db
      ensures db.m == DeleteChildrenIn(old(db.m), id, path, children, bound) && Tracks()
      decreases 2 * (bound - Depth(path)), 0
    {
      var todo := children;
      while todo != {}
        invariant Tracks() && BoundedFor(db.m, id, bound)
        invariant DeleteChildrenIn(db.m, id, path, todo, bound) == DeleteChildrenIn(old(db.m), id, path, children, bound)
      {
        var c := Least(todo);
        todo := todo - {c};
        var _ := Del(0, Sub(path, c), bound);
      }
    }

    method GetParentPerms(path: Path) returns (perms: Perms)
      requires Tracks()
      modifies this, db
      ensures (db.m, perms) == ParentPermsIn(old(db.m), id, path) && Tracks()
    {
      if path.Sub? {
        GetTEntry(path.parent);
        Put(path.parent, FetchData(db.m[path.parent], id), old(db.m));
        return db.m[path.parent].te[id].perms;
      }
      return DEFAULT_PERMS;
    }
  }
}
