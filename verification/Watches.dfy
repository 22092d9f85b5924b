/**
 `watch_mgr`: which watches a change notifies, and when.

 The index keeps, for every path, the watches on it and the watches strictly below it.  IndexAgrees ties
 it to the plain set of registered watches.  A std::set of watch pointers is iterated in address order,
 which means nothing to a client: the firing contracts allow any order among the watches of one path.
 */
module Watches {
  import opened Paths

  type Tid = nat

  /** A registered watch; `address` is its identity. */
  datatype Watch = Watch(address: nat, path: Path)

  /** A queued call of `callback(key, watch, path)`. */
  datatype Notice = Notice(key: Path, watch: Watch, path: Path)

  predicate AtOrBelow(q: Path, p: Path) {
    q == p || Below(q, p)
  }

  /** A watch hears of its own path or of something below it, under a key that it is at or below. */
  predicate Truthful(list: seq<Notice>) {
    forall n | n in list :: AtOrBelow(n.path, n.watch.path) && AtOrBelow(n.watch.path, n.key)
  }

  datatype WatchRecord = WatchRecord(path: set<Watch>, children: set<Watch>)

  type Index = map<Path, WatchRecord>

  const NO_WATCHES := WatchRecord({}, {})

  /** Reads a missing record as an empty one, which is what `db[path]` would create. */
  function At(db: Index, p: Path): WatchRecord {
    if p in db then db[p] else NO_WATCHES
  }

  // ------------------------------------------------------------- index upkeep

  function RegisterWithParents(db: Index, p: Path, w: Watch): Index
    decreases p
  {
    match p
    case Root(_) => db
    case Sub(parent, _) =>
      var r := At(db, parent);
      RegisterWithParents(db[parent := r.(children := r.children + {w})], parent, w)
  }

  /** A record with nothing left in it is removed. */
  function Keep(db: Index, p: Path, r: WatchRecord): Index {
    if r == NO_WATCHES then db - {p} else db[p := r]
  }

  function UnregisterFromParents(db: Index, p: Path, w: Watch): Index
    decreases p
  {
    match p
    case Root(_) => db
    case Sub(parent, _) =>
      var r := At(db, parent);
      UnregisterFromParents(Keep(db, parent, r.(children := r.children - {w})), parent, w)
  }

  function AddWatch(db: Index, w: Watch): Index {
    var r := At(db, w.path);
    RegisterWithParents(db[w.path := r.(path := r.path + {w})], w.path, w)
  }

  function DelWatch(db: Index, w: Watch): Index {
    var r := At(db, w.path);
    UnregisterFromParents(Keep(db, w.path, r.(path := r.path - {w})), w.path, w)
  }

  /** The index says of every path exactly which registered watches are on it and strictly below it. */
  ghost predicate IndexAgrees(db: Index, watches: set<Watch>) {
    forall p, w {:trigger At(db, p), w in watches} ::
      && (w in At(db, p).path <==> w in watches && w.path == p)
      && (w in At(db, p).children <==> w in watches && Below(w.path, p))
  }

  lemma {:induction false} RegisterWithParentsExact(db: Index, p: Path, w: Watch)
    ensures var db' := RegisterWithParents(db, p, w);
      forall q :: At(db', q) == if Below(p, q) then At(db, q).(children := At(db, q).children + {w}) else At(db, q)
    decreases p
  {
    match p
    case Root(_) =>
    case Sub(parent, _) =>
      var r := At(db, parent);
      var db' := db[parent := r.(children := r.children + {w})];
      RegisterWithParentsExact(db', parent, w);
      forall q ensures Below(p, q) <==> q == parent || Below(parent, q) { }
      assert !Below(parent, parent) by { if Below(parent, parent) { BelowIsDeeper(parent, parent); } }
  }

  lemma {:induction false} UnregisterFromParentsExact(db: Index, p: Path, w: Watch)
    ensures var db' := UnregisterFromParents(db, p, w);
      forall q :: At(db', q) == if Below(p, q) then At(db, q).(children := At(db, q).children - {w}) else At(db, q)
    decreases p
  {
    match p
    case Root(_) =>
    case Sub(parent, _) =>
      var r := At(db, parent);
      var db' := Keep(db, parent, r.(children := r.children - {w}));
      UnregisterFromParentsExact(db', parent, w);
      forall q ensures Below(p, q) <==> q == parent || Below(parent, q) { }
      assert !Below(parent, parent) by { if Below(parent, parent) { BelowIsDeeper(parent, parent); } }
  }

  /** Unregistering leaves no empty record on the way up. */
  lemma {:induction false} NoEmptyLeft(db: Index, p: Path, w: Watch)
    ensures var db' := UnregisterFromParents(db, p, w);
      && (forall q | q in db' && Below(p, q) :: db'[q] != NO_WATCHES)
      && (forall q | !Below(p, q) :: (q in db' <==> q in db) && (q in db ==> db'[q] == db[q]))
    decreases p
  {
    match p
    case Root(_) =>
    case Sub(parent, _) =>
      var r := At(db, parent);
      NoEmptyLeft(Keep(db, parent, r.(children := r.children - {w})), parent, w);
      forall q ensures Below(p, q) <==> q == parent || Below(parent, q) { }
      assert !Below(parent, parent) by { if Below(parent, parent) { BelowIsDeeper(parent, parent); } }
  }

  lemma AddAgrees(db: Index, watches: set<Watch>, w: Watch)
    requires IndexAgrees(db, watches)
    ensures IndexAgrees(AddWatch(db, w), watches + {w})
  {
    var r := At(db, w.path);
    var db' := db[w.path := r.(path := r.path + {w})];
    RegisterWithParentsExact(db', w.path, w);
    assert !Below(w.path, w.path) by { if Below(w.path, w.path) { BelowIsDeeper(w.path, w.path); } }
    forall p, v ensures
      && (v in At(AddWatch(db, w), p).path <==> v in watches + {w} && v.path == p)
      && (v in At(AddWatch(db, w), p).children <==> v in watches + {w} && Below(v.path, p))
    {
      assert v in watches || v !in watches;
      assert At(db, p) == At(db, p);
    }
  }

  lemma DelAgrees(db: Index, watches: set<Watch>, w: Watch)
    requires IndexAgrees(db, watches)
    ensures IndexAgrees(DelWatch(db, w), watches - {w})
  {
    var r := At(db, w.path);
    var db' := Keep(db, w.path, r.(path := r.path - {w}));
    UnregisterFromParentsExact(db', w.path, w);
    assert !Below(w.path, w.path) by { if Below(w.path, w.path) { BelowIsDeeper(w.path, w.path); } }
    forall p, v ensures
      && (v in At(DelWatch(db, w), p).path <==> v in watches - {w} && v.path == p)
      && (v in At(DelWatch(db, w), p).children <==> v in watches - {w} && Below(v.path, p))
    {
      assert v in watches || v !in watches;
      assert At(db, p) == At(db, p);
    }
  }

  /** `db[path]` in the firing code may create an empty record; nobody can tell. */
  lemma ReferenceAgrees(db: Index, watches: set<Watch>, p: Path)
    requires IndexAgrees(db, watches)
    ensures IndexAgrees(db[p := At(db, p)], watches)
  {
    var db' := db[p := At(db, p)];
    forall q ensures At(db', q) == At(db, q) { }
    forall q, w ensures
      && (w in At(db', q).path <==> w in watches && w.path == q)
      && (w in At(db', q).children <==> w in watches && Below(w.path, q))
    {
      assert w in watches || w !in watches;
    }
  }

  // ------------------------------------------------------------- what a change notifies

  /** Every notice once, and exactly the wanted ones. */
  ghost predicate Exactly(seg: seq<Notice>, wanted: iset<Notice>) {
    && (forall i, j | 0 <= i < j < |seg| :: seg[i] != seg[j])
    && (forall n :: n in seg <==> n in wanted)
  }

  /** Watches nearer to the changed path are told first. */
  ghost predicate NearestFirst(seg: seq<Notice>) {
    forall i, j | 0 <= i < j < |seg| :: Depth(seg[i].key) >= Depth(seg[j].key)
  }

  ghost function OnPath(watches: set<Watch>, p: Path, fire: Path): iset<Notice> {
    iset w | w in watches && w.path == p :: Notice(p, w, fire)
  }

  ghost function Above(watches: set<Watch>, p: Path, fire: Path): iset<Notice> {
    iset w | w in watches && Below(p, w.path) :: Notice(w.path, w, fire)
  }

  /** A change at p: the watches on p and on its ancestors hear of p, nearest first. */
  ghost predicate ChangeNotices(seg: seq<Notice>, watches: set<Watch>, p: Path) {
    Exactly(seg, OnPath(watches, p, p) + Above(watches, p, p)) && NearestFirst(seg)
  }

  /** The watches strictly below p hear of their own path. */
  ghost predicate BranchNotices(seg: seq<Notice>, watches: set<Watch>, p: Path) {
    Exactly(seg, iset w | w in watches && Below(w.path, p) :: Notice(p, w, w.path))
  }

  ghost function NoticesOf(watchers: set<Watch>, key: Path, fire: Path, own: bool): iset<Notice> {
    iset w | w in watchers :: Notice(key, w, if own then w.path else fire)
  }

  lemma NoNotice(key: Path, fire: Path, own: bool)
    ensures Exactly([], NoticesOf({}, key, fire, own))
  {
  }

  lemma OneMoreNotice(seg: seq<Notice>, watchers: set<Watch>, w: Watch, key: Path, fire: Path, own: bool)
    requires Exactly(seg, NoticesOf(watchers, key, fire, own)) && w !in watchers
    ensures Exactly(seg + [Notice(key, w, if own then w.path else fire)], NoticesOf(watchers + {w}, key, fire, own))
  {
    var n := Notice(key, w, if own then w.path else fire);
    assert n !in NoticesOf(watchers, key, fire, own);
    forall i, j | 0 <= i < j < |seg + [n]| ensures (seg + [n])[i] != (seg + [n])[j] {
      assert seg[i] in seg;
    }
    forall m ensures m in seg + [n] <==> m in NoticesOf(watchers + {w}, key, fire, own) {
      if m in NoticesOf(watchers + {w}, key, fire, own) {
        var v :| v in watchers + {w} && m == Notice(key, v, if own then v.path else fire);
      }
      if m in seg { assert m in NoticesOf(watchers, key, fire, own); }
    }
  }

  lemma ExactlyAppend(a: seq<Notice>, b: seq<Notice>, A: iset<Notice>, B: iset<Notice>)
    requires Exactly(a, A) && Exactly(b, B) && A !! B
    ensures Exactly(a + b, A + B)
  {
    forall i, j | 0 <= i < j < |a + b| ensures (a + b)[i] != (a + b)[j] {
      if i < |a| <= j { assert a[i] in A && b[j - |a|] in B; }
    }
  }

  /** Climbing one level: first the parent's watches, then those further up. */
  lemma ClimbNotices(here: seq<Notice>, further: seq<Notice>, watches: set<Watch>, p: Path, fire: Path)
    requires p.Sub?
    requires Exactly(here, OnPath(watches, p.parent, fire))
    requires Exactly(further, Above(watches, p.parent, fire)) && NearestFirst(further)
    ensures Exactly(here + further, Above(watches, p, fire)) && NearestFirst(here + further)
  {
    JoinLevels(here, further, watches, p.parent, fire);
    forall q ensures Below(p, q) <==> q == p.parent || Below(p.parent, q) { }
    assert OnPath(watches, p.parent, fire) + Above(watches, p.parent, fire) == Above(watches, p, fire);
  }

  /** The watches on p followed by those above p. */
  lemma JoinLevels(here: seq<Notice>, further: seq<Notice>, watches: set<Watch>, p: Path, fire: Path)
    requires Exactly(here, OnPath(watches, p, fire))
    requires Exactly(further, Above(watches, p, fire)) && NearestFirst(further)
    ensures Exactly(here + further, OnPath(watches, p, fire) + Above(watches, p, fire)) && NearestFirst(here + further)
  {
    forall q | Below(p, q) ensures Depth(q) < Depth(p) { BelowIsDeeper(p, q); }
    assert OnPath(watches, p, fire) !! Above(watches, p, fire);
    ExactlyAppend(here, further, OnPath(watches, p, fire), Above(watches, p, fire));
    var seg := here + further;
    forall i, j | 0 <= i < j < |seg| ensures Depth(seg[i].key) >= Depth(seg[j].key) {
      if j < |here| { assert here[i] in OnPath(watches, p, fire) && here[j] in OnPath(watches, p, fire); }
      else if i < |here| { assert here[i] in OnPath(watches, p, fire) && further[j - |here|] in Above(watches, p, fire); }
    }
  }

  // ------------------------------------------------------------- the manager

  class WatchMgr {
    var db: Index
    /** The events of each transaction that has any, waiting for its end. */
    var tdb: map<Tid, seq<Notice>>
    /** Everything handed to the event manager so far. */
    var events: seq<Notice>
    ghost var watches: set<Watch>

    ghost predicate Valid()
      reads this
    {
      IndexAgrees(db, watches) && 0 !in tdb
      && Truthful(events) && forall tid | tid in tdb :: Truthful(tdb[tid])
    }

    /** The list that a change under tid is appended to. */
    ghost function Out(tid: Tid): seq<Notice>
      reads this
    {
      if tid == 0 then events else if tid in tdb then tdb[tid] else []
    }

    /** Nothing but the list of tid changed, and that only at its end. */
    twostate predicate OnlyAppends(tid: Tid)
      reads this
    {
      && watches == old(watches)
      && old(Out(tid)) <= Out(tid)
      && (forall other | other != tid :: Out(other) == old(Out(other)))
      && tdb.Keys <= old(tdb.Keys) + {tid}
    }

    constructor ()
      ensures Valid() && watches == {} && events == [] && tdb == map[]
    {
      db, tdb, events, watches := map[], map[], [], {};
    }

    method Add(w: Watch)
      requires Valid()
      modifies this
      ensures Valid() && db == AddWatch(old(db), w) && watches == old(watches) + {w}
      ensures events == old(events) + [Notice(w.path, w, w.path)] && tdb == old(tdb)
    {
      var r := At(db, w.path);
      db := db[w.path := r.(path := r.path + {w})];
      RegisterParents(w.path, w);
      watches := watches + {w};
      AddAgrees(old(db), old(watches), w);
      events := events + [Notice(w.path, w, w.path)];
    }

    method Del(w: Watch)
      requires Valid()
      modifies this
      ensures Valid() && db == DelWatch(old(db), w) && watches == old(watches) - {w}
      ensures events == old(events) && tdb == old(tdb)
      ensures forall q | q in db && (q == w.path || Below(w.path, q)) :: db[q] != NO_WATCHES
    {
      var r := At(db, w.path);
      r := r.(path := r.path - {w});
      db := db[w.path := r];
      if r.path == {} && r.children == {} { db := db - {w.path}; }
      assert db == Keep(old(db), w.path, r);
      UnregisterParents(w.path, w);
      watches := watches - {w};
      DelAgrees(old(db), old(watches), w);
      NoEmptyLeft(Keep(old(db), w.path, r), w.path, w);
    }

    method RegisterParents(path: Path, w: Watch)
      modifies this`db
      ensures db == RegisterWithParents(old(db), path, w)
      decreases path
    {
      if path.Sub? {
        var r := At(db, path.parent);
        db := db[path.parent := r.(children := r.children + {w})];
        RegisterParents(path.parent, w);
      }
    }

    method UnregisterParents(path: Path, w: Watch)
      modifies this`db
      ensures db == UnregisterFromParents(old(db), path, w)
      decreases path
    {
      if path.Sub? {
        var r := At(db, path.parent);
        r := r.(children := r.children - {w});
        db := db[path.parent := r];
        if r.path == {} && r.children == {} { db := db - {path.parent}; }
        assert db == Keep(old(db), path.parent, r);
        UnregisterParents(path.parent, w);
      }
    }

    /** Appends one notice for each watch of `todo`, in some order: the loops of _fire and _tfire, and
        with `own` those of _fire_children and _tfire_children. */
    method Enqueue(tid: Tid, key: Path, watchers: set<Watch>, fire: Path, own: bool)
      requires Valid() && (own || forall w | w in watchers :: AtOrBelow(fire, w.path))
      requires forall w | w in watchers :: AtOrBelow(w.path, key)
      modifies this`tdb, this`events
      ensures Valid() && OnlyAppends(tid)
      ensures Exactly(Out(tid)[|old(Out(tid))|..],
                      NoticesOf(watchers, key, fire, own))
    {
      hide Below, IndexAgrees, Exactly, NoticesOf;
      if tid != 0 && tid !in tdb { tdb := tdb[tid := []]; }
      ghost var start := Out(tid);
      assert Exactly([], NoticesOf({}, key, fire, own)) by { NoNotice(key, fire, own); }
      assert watchers - watchers == {};
      ghost var seg: seq<Notice> := [];
      var todo := watchers;
      while todo != {}
        invariant todo <= watchers && Valid() && (tid != 0 ==> tid in tdb)
        invariant Out(tid) == start + seg
        invariant Exactly(seg, NoticesOf(watchers - todo, key, fire, own))
        invariant forall other | other != tid :: Out(other) == old(Out(other))
        invariant tdb.Keys <= old(tdb.Keys) + {tid}
      {
        var w :| w in todo;
        var n := Notice(key, w, if own then w.path else fire);
        OneMoreNotice(seg, watchers - todo, w, key, fire, own);
        assert watchers - (todo - {w}) == watchers - todo + {w};
        todo := todo - {w};
        if tid == 0 { events := events + [n]; } else { tdb := tdb[tid := tdb[tid] + [n]]; }
        seg := seg + [n];
      }
      assert Out(tid)[|start|..] == seg;
      assert watchers - todo == watchers;
    }

    method Fire(tid: Tid, path: Path)
      requires Valid()
      modifies this`db, this`tdb, this`events
      ensures Valid() && OnlyAppends(tid)
      ensures Exactly(Out(tid)[|old(Out(tid))|..], OnPath(watches, path, path))
    {
      FireAt(tid, path, path);
    }

    /** _fire and _tfire */
    method FireAt(tid: Tid, path: Path, fire: Path)
      requires Valid() && AtOrBelow(fire, path)
      modifies this`db, this`tdb, this`events
      ensures Valid() && OnlyAppends(tid)
      ensures Exactly(Out(tid)[|old(Out(tid))|..], OnPath(watches, path, fire))
    {
      ReferenceAgrees(db, watches, path);
      db := db[path := At(db, path)];
      assert forall w :: w in At(db, path).path <==> w in watches && w.path == path;
      Enqueue(tid, path, db[path].path, fire, false);
      assert NoticesOf(db[path].path, path, fire, false) == OnPath(watches, path, fire);
    }

    /** _fire_parents and _tfire_parents */
    method FireParents(tid: Tid, path: Path, fire: Path)
      requires Valid() && AtOrBelow(fire, path)
      modifies this`db, this`tdb, this`events
      ensures Valid() && OnlyAppends(tid)
      ensures var seg := Out(tid)[|old(Out(tid))|..]; Exactly(seg, Above(watches, path, fire)) && NearestFirst(seg)
      decreases path
    {
      if path.Sub? {
        ghost var start := Out(tid);
        if fire != path { BelowTransitive(fire, path, path.parent); }
        FireAt(tid, path.parent, fire);
        ghost var middle := Out(tid);
        FireParents(tid, path.parent, fire);
        ClimbNotices(middle[|start|..], Out(tid)[|middle|..], watches, path, fire);
        assert Out(tid)[|start|..] == middle[|start|..] + Out(tid)[|middle|..];
      }
    }

    method FireChildren(tid: Tid, path: Path)
      requires Valid()
      modifies this`db, this`tdb, this`events
      ensures Valid() && OnlyAppends(tid)
      ensures BranchNotices(Out(tid)[|old(Out(tid))|..], watches, path)
    {
      ReferenceAgrees(db, watches, path);
      db := db[path := At(db, path)];
      assert forall w :: w in At(db, path).children <==> w in watches && Below(w.path, path);
      Enqueue(tid, path, db[path].children, path, true);
      assert NoticesOf(db[path].children, path, path, true)
          == (iset w | w in watches && Below(w.path, path) :: Notice(path, w, w.path));
    }

    /** A transaction committed: its events go to the event manager, in order. */
    method FireTransaction(tid: Tid)
      requires Valid() && tid != 0
      modifies this`tdb, this`events
      ensures Valid() && watches == old(watches)
      ensures events == old(events) + old(Out(tid)) && tdb == old(tdb) - {tid}
    {
      var list := if tid in tdb then tdb[tid] else [];
      var i := 0;
      while i < |list|
        invariant i <= |list| && events == old(events) + list[..i] && tdb == old(tdb)
      {
        events := events + [list[i]];
        i := i + 1;
      }
      tdb := tdb - {tid};
    }

    method AbortTransaction(tid: Tid)
      requires Valid()
      modifies this`tdb
      ensures Valid() && tdb == old(tdb) - {tid}
    {
      tdb := tdb - {tid};
    }

    /** `callback` looks the watch up under the key: a queued notice is delivered exactly when its watch is
        still registered. */
    method Callback(n: Notice) returns (deliver: bool)
      requires Valid()
      ensures deliver <==> n.watch in watches && AtOrBelow(n.watch.path, n.key)
      ensures n in events ==> (deliver <==> n.watch in watches)
    {
      assert n.watch in watches || n.watch !in watches;
      if n.key in db {
        deliver := n.watch in db[n.key].path || n.watch in db[n.key].children;
      } else {
        deliver := false;
      }
      assert deliver <==> n.watch in At(db, n.key).path || n.watch in At(db, n.key).children;
    }
  }
}
