/**
 Ending a transaction: can_merge, do_merge and abort over the whole database.
 A successful validation means the committed tree is compatible with the transaction's observations
 (ValidatedIsCompatible); installing then makes the committed tree the one the overlay shows
 (CommitInstallsView) or, as shipped, that tree and the nodes it lacks; ShippedLosesDeletes says when they differ.
 */
module Commit {
  import opened Paths
  import opened Tree
  import opened Database
  import opened SimpleAccess
  import opened Transaction
  import opened Views

  predicate CanMerge(db: Db, id: Tid) {
    forall p | p in db :: id in db[p].te ==> CanMergeRecord(db[p], id)
  }

  function DoMerge(db: Db, id: Tid, version: Version): Db {
    map p | p in db && (id in db[p].te ==> MergeRecord(db[p], id, version).Some?) ::
      if id in db[p].te then MergeRecord(db[p], id, version).value else db[p]
  }

  function AbortAll(db: Db, id: Tid): Db {
    map p | p in db && (id in db[p].te ==> AbortRecord(db[p], id).Some?) ::
      if id in db[p].te then AbortRecord(db[p], id).value else db[p]
  }

  /** Some entry that was valid when the transaction first touched it ends up deleted. */
  predicate DeletesCommitted(db: Db, id: Tid) {
    exists p | p in db :: id in db[p].te && LosesDelete(db[p].te[id])
  }

  /** The committed tree agrees with everything a validated transaction has observed. */
  lemma ValidatedIsCompatible(db: Db, id: Tid)
    requires DbOk(db) && CanMerge(db, id)
    ensures Compatible(Committed(db), db, id)
  {
  }

  /** One record: what is left of it is valid exactly when the overlay entry is, and holds what it shows. */
  lemma InstallShows(S: Tree, r: Record, id: Tid, p: Path, version: Version)
    requires RecordOk(r) && id in r.te && CanMergeRecord(r, id)
    requires (p in S <==> Valid(r.e)) && (p in S ==> S[p] == NodeOf(r.e))
    ensures var i := Install(r, id, version).e; var te := r.te[id];
      && (TValid(te) ==> Valid(i) && NodeOf(i) == Held(S, p, te))
      && (!TValid(te) && (version.Repaired? || !LosesDelete(te)) ==> !Valid(i))
      && (!TValid(te) && version.Shipped? && LosesDelete(te) ==> Valid(i) && NodeOf(i) == NodeOf(r.e))
  {
  }

  lemma SettleKeepsNode(r: Record)
    ensures Settle(r).Some? ==> (Valid(Settle(r).value.e) <==> Valid(r.e)) && NodeOf(Settle(r).value.e) == NodeOf(r.e)
    ensures Settle(r).None? ==> !Valid(r.e)
  {
  }

  lemma MergedAt(db: Db, id: Tid, version: Version, p: Path)
    requires DbOk(db) && CanMerge(db, id) && p in db && id in db[p].te
    ensures var t := Committed(DoMerge(db, id, version)); var te := db[p].te[id]; var S := Committed(db);
      && (TValid(te) ==> p in t && t[p] == Held(S, p, te))
      && (!TValid(te) ==> (p in t <==> version.Shipped? && LosesDelete(te)))
      && (!TValid(te) && p in t ==> p in S && t[p] == S[p])
  {
    CommittedAt(db, p);
    InstallShows(Committed(db), db[p], id, p, version);
    ValidationIsSound(db[p], id);
    SettleKeepsNode(Drop(Install(db[p], id, version), id));
    CommittedAt(DoMerge(db, id, version), p);
  }

  /** What a commit makes of the committed tree S when the transaction showed t.  As shipped, nodes that
      the transaction deleted stay as they were. */
  function Installed(version: Version, S: Tree, t: Tree): Tree {
    match version
    case Repaired => t
    case Shipped => S + t
  }

  /** Installing a validated overlay, exactly. */
  lemma CommitInstallsView(db: Db, id: Tid, version: Version, t: Tree)
    requires DbOk(db) && CanMerge(db, id) && Shows(Committed(db), db, id, t)
    ensures Committed(DoMerge(db, id, version)) == Installed(version, Committed(db), t)
  {
    var S, u := Committed(db), Committed(DoMerge(db, id, version));
    forall p ensures (p in u <==> p in Installed(version, S, t)) && (p in u ==> u[p] == Installed(version, S, t)[p]) {
      assert ShownAt(S, Get(db, p), id, p, t);
      CommittedAt(db, p);
      CommittedAt(DoMerge(db, id, version), p);
      if id in Get(db, p).te {
        MergedAt(db, id, version, p);
        ValidationIsSound(db[p], id);
      }
    }
  }

  lemma InstalledKeepsClosed(version: Version, S: Tree, t: Tree)
    requires Closed(S) && Closed(t)
    ensures Closed(Installed(version, S, t))
  {
  }

  /** Installing t on S leaves a node of S that t lacks where t has the parent. */
  predicate LeavesOrphan(S: Tree, t: Tree) {
    exists p | p in S :: p !in t && p.Sub? && p.parent in t
  }

  /** As shipped, a well-formed tree stays well-formed exactly when no node is left behind under a parent
      that no longer lists it. */
  lemma InstalledKeepsTree(S: Tree, t: Tree)
    requires WellFormed(S) && WellFormed(t)
    ensures WellFormed(Installed(Shipped, S, t)) <==> !LeavesOrphan(S, t)
  {
    var u := Installed(Shipped, S, t);
    InstalledKeepsClosed(Shipped, S, t);
    if LeavesOrphan(S, t) {
      var p :| p in S && p !in t && p.Sub? && p.parent in t;
      assert p in u && !Hangs(u, p);
    } else {
      forall p | p in u ensures Hangs(u, p) {
        assert if p in t then Hangs(t, p) else Hangs(S, p);
      }
    }
  }

  /** The guard of the branch at fault and one look at the parent: an entry that was found valid ends
      deleted while the transaction sees its parent as valid. */
  predicate DeletesUnderParent(db: Db, id: Tid) {
    exists p | p in db :: id in db[p].te && LosesDelete(db[p].te[id]) && p.Sub? && ValidFor(Get(db, p.parent), id)
  }

  lemma ParentIsShown(db: Db, id: Tid, t: Tree, p: Path)
    requires DbOk(db) && Shows(Committed(db), db, id, t)
    ensures p in t <==> ValidFor(Get(db, p), id)
  {
    assert ShownAt(Committed(db), Get(db, p), id, p, t);
    CommittedAt(db, p);
  }

  lemma OrphansAreDeletesUnderParent(db: Db, id: Tid, t: Tree)
    requires DbOk(db) && CanMerge(db, id) && Shows(Committed(db), db, id, t)
    ensures LeavesOrphan(Committed(db), t) <==> DeletesUnderParent(db, id)
  {
    hide DbOk, CanMerge, Shows, Committed, LosesDelete, ValidFor;
    forall p ensures p in Committed(db) && p !in t && p.Sub? && p.parent in t
                <==> p in db && id in db[p].te && LosesDelete(db[p].te[id]) && p.Sub? && ValidFor(Get(db, p.parent), id) {
      LostAt(db, id, t, p);
      if p.Sub? { ParentIsShown(db, id, t, p.parent); }
    }
  }

  /** A transaction ends with an entry deleted that it found valid exactly when the tree it shows lacks
      a committed node, and that is exactly when the shipped do_merge fails to install that tree. */
  lemma ShippedLosesDeletes(db: Db, id: Tid, t: Tree)
    requires DbOk(db) && CanMerge(db, id) && Shows(Committed(db), db, id, t)
    ensures DeletesCommitted(db, id) <==> exists p :: p in Committed(db) && p !in t
    ensures Committed(DoMerge(db, id, Shipped)) == t <==> !DeletesCommitted(db, id)
  {
    hide CanMergeRecord, LosesDelete, Shows, Committed, DbOk, DoMerge;
    var S := Committed(db);
    forall p ensures p in S && p !in t <==> p in db && id in db[p].te && LosesDelete(db[p].te[id]) {
      LostAt(db, id, t, p);
    }
    CommitInstallsView(db, id, Shipped, t);
    if p :| p in S && p !in t {
      assert p in S + t;
    } else {
      assert S + t == t;
    }
  }

  lemma LostAt(db: Db, id: Tid, t: Tree, p: Path)
    requires DbOk(db) && CanMerge(db, id) && Shows(Committed(db), db, id, t)
    ensures p in Committed(db) && p !in t <==> p in db && id in db[p].te && LosesDelete(db[p].te[id])
  {
    assert ShownAt(Committed(db), Get(db, p), id, p, t);
    CommittedAt(db, p);
    if id in Get(db, p).te { ValidationIsSound(db[p], id); }
  }

  // ------------------------------------------------------------- what ending leaves behind

  /** id's overlay is gone, every other overlay is as it was, and the records are sound. */
  ghost predicate Ended(db: Db, db': Db, id: Tid) {
    && DbOk(db')
    && (forall p :: id !in Get(db', p).te && SameElsewhere(Get(db, p).te, Get(db', p).te, id))
  }

  lemma DoMergeEnds(db: Db, id: Tid, version: Version)
    requires DbOk(db) && CanMerge(db, id)
    ensures Ended(db, DoMerge(db, id, version), id)
  {
    var db' := DoMerge(db, id, version);
    forall p ensures RecordOk(Get(db', p)) && id !in Get(db', p).te && SameElsewhere(Get(db, p).te, Get(db', p).te, id) {
      GetOk(db, p);
      MergedRecord(db, id, version, p);
    }
    forall p | p in db' ensures RecordOk(db'[p]) { assert RecordOk(Get(db', p)); }
  }

  lemma MergedRecord(db: Db, id: Tid, version: Version, p: Path)
    requires DbOk(db) && CanMerge(db, id)
    ensures var r, r' := Get(db, p), Get(DoMerge(db, id, version), p);
      RecordOk(r') && id !in r'.te && SameElsewhere(r.te, r'.te, id)
  {
    GetOk(db, p);
    if p in db && id in db[p].te {
      hide MergeRecord, Install, CanMergeRecord, RecordOk, SameElsewhere;
      FreshRecordOk();
      MergeRecordOk(db[p], id, version);
    }
  }

  lemma AbortedAt(db: Db, id: Tid, p: Path)
    requires DbOk(db)
    ensures var r, r' := Get(db, p), Get(AbortAll(db, id), p);
      && RecordOk(r') && id !in r'.te && SameElsewhere(r.te, r'.te, id)
      && (Valid(r'.e) <==> Valid(r.e)) && (Valid(r.e) ==> r'.e == r.e)
  {
    GetOk(db, p);
    DropOk(Get(db, p), id);
  }

  lemma AbortEnds(db: Db, id: Tid)
    requires DbOk(db)
    ensures Ended(db, AbortAll(db, id), id)
    ensures Committed(AbortAll(db, id)) == Committed(db)
  {
    var db' := AbortAll(db, id);
    forall p ensures
      && RecordOk(Get(db', p)) && id !in Get(db', p).te && SameElsewhere(Get(db, p).te, Get(db', p).te, id)
      && (p in Committed(db') <==> p in Committed(db)) && (p in Committed(db) ==> Committed(db')[p] == Committed(db)[p])
    {
      AbortedAt(db, id, p);
      CommittedAt(db, p);
      CommittedAt(db', p);
    }
    forall p | p in db' ensures RecordOk(db'[p]) { assert RecordOk(Get(db', p)); }
  }

  /** Ending one transaction leaves the overlays of the others alone. */
  lemma EndedKeepsOthers(db: Db, db': Db, id: Tid)
    requires Ended(db, db', id)
    ensures forall j | j != id :: OverlayOf(db', j) == OverlayOf(db, j)
    ensures OverlayOf(db', id) == map[]
  {
    forall j | j != id ensures OverlayOf(db', j) == OverlayOf(db, j) {
      forall p ensures (p in OverlayOf(db', j) <==> p in OverlayOf(db, j))
                    && (p in OverlayOf(db, j) ==> OverlayOf(db', j)[p] == OverlayOf(db, j)[p]) {
        assert SameElsewhere(Get(db, p).te, Get(db', p).te, id);
      }
    }
    forall p ensures p !in OverlayOf(db', id) { assert id !in Get(db', p).te; }
  }

  lemma CommitsKeepOverlays(db: Db, db': Db)
    requires OnlyCommits(db, db')
    ensures forall j :: OverlayOf(db', j) == OverlayOf(db, j)
  {
    forall j ensures OverlayOf(db', j) == OverlayOf(db, j) {
      forall p ensures (p in OverlayOf(db', j) <==> p in OverlayOf(db, j))
                    && (p in OverlayOf(db, j) ==> OverlayOf(db', j)[p] == OverlayOf(db, j)[p]) {
        assert Get(db', p).te == Get(db, p).te;
      }
    }
  }

  /** What an overlay shows and observed depends on that overlay alone. */
  lemma SameOverlay(S: Tree, db: Db, db': Db, id: Tid)
    requires OverlayOf(db, id) == OverlayOf(db', id)
    ensures Compatible(S, db', id) ==> Compatible(S, db, id)
    ensures forall t :: Shows(S, db, id, t) ==> Shows(S, db', id, t)
  {
    forall p ensures (id in Get(db, p).te <==> id in Get(db', p).te)
                  && (id in Get(db, p).te ==> Get(db, p).te[id] == Get(db', p).te[id]) {
      assert p in OverlayOf(db, id) <==> p in OverlayOf(db', id);
      assert p in OverlayOf(db, id) ==> OverlayOf(db, id)[p] == OverlayOf(db', id)[p];
    }
    if Compatible(S, db', id) {
      forall p ensures AgreesAt(S, Get(db, p), id, p) { assert AgreesAt(S, Get(db', p), id, p); }
    }
    forall t | Shows(S, db, id, t) ensures Shows(S, db', id, t) {
      forall p ensures ShownAt(S, Get(db', p), id, p, t) { assert ShownAt(S, Get(db, p), id, p, t); }
    }
  }
}
