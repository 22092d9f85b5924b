/**
 Database records: a committed entry, one overlay entry per transaction, and the stamps that
 order them.  Every function below is one group of assignments of the C++ code on one record.

 `Record.log` and `TEntry.mark` are history: they record what happened to the committed entry and
 what a transaction saw of it.  No operation reads them to decide anything; only the invariants do.
 */
module Database {
  import opened Paths
  import opened Tree

  type Tid = nat

  /** What can happen to a committed entry. */
  datatype Change = Written | Deleted | ChildrenChanged

  datatype Entry = Entry(
    value: string, perms: Perms, children: set<Name>,
    writeSeq: nat, deleteSeq: nat, writeChildrenSeq: nat)

  datatype Data = Data(value: string, perms: Perms)

  /** History of an overlay entry: the data it copied, and the lengths of the record's log when it
      was initialised, first read and first listed. */
  datatype Mark = Mark(seen: Option<Data>, initAt: nat, readAt: nat, listAt: nat)

  datatype TEntry = TEntry(
    value: string, perms: Perms,
    children: set<Name>, childrenAdd: set<Name>, childrenRem: set<Name>,
    initSeq: nat, initValid: bool,
    readSeq: nat, writeSeq: nat, deleteSeq: nat, readChildrenSeq: nat,
    mark: Mark)

  datatype Record = Record(e: Entry, te: map<Tid, TEntry>, nextSeq: nat, log: seq<Change>)

  type Db = map<Path, Record>

  const FRESH_RECORD := Record(Entry("", [], {}, 0, 0, 0), map[], 1, [])

  /** `db[path]`: a missing key yields a default record. */
  function Get(db: Db, p: Path): Record {
    if p in db then db[p] else FRESH_RECORD
  }

  predicate Valid(e: Entry) { e.writeSeq > e.deleteSeq }

  predicate TValid(te: TEntry) { te.writeSeq > te.deleteSeq }

  /** The children list a transaction works with. */
  function TChildren(te: TEntry): set<Name> {
    te.children + te.childrenAdd - te.childrenRem
  }

  // --------------------------------------------------- the committed entry

  function WriteEntry(r: Record, value: string, perms: Perms): Record {
    r.(e := r.e.(value := value, perms := perms, writeSeq := r.nextSeq),
       nextSeq := r.nextSeq + 1, log := r.log + [Written])
  }

  function MarkDeleted(r: Record): Record {
    r.(e := r.e.(deleteSeq := r.nextSeq), nextSeq := r.nextSeq + 1, log := r.log + [Deleted])
  }

  function SetChildren(r: Record, names: set<Name>): Record {
    r.(e := r.e.(children := names, writeChildrenSeq := r.nextSeq),
       nextSeq := r.nextSeq + 1, log := r.log + [ChildrenChanged])
  }

  // --------------------------------------------------- a transaction's overlay entry

  /** get_tentry */
  function Touch(r: Record, id: Tid): Record {
    if id in r.te then r
    else r.(te := r.te[id := TEntry("", [], {}, {}, {}, r.nextSeq, Valid(r.e), 0, r.e.writeSeq, r.e.deleteSeq, 0,
                                   Mark(None, |r.log|, 0, 0))],
            nextSeq := r.nextSeq + 1)
  }

  /** fetch_tentry_data */
  function FetchData(r: Record, id: Tid): (r': Record)
    requires id in r.te
    ensures id in r'.te
  {
    var te := r.te[id];
    if te.readSeq != 0 then r
    else
      var copied := if te.writeSeq < te.initSeq && te.deleteSeq < te.initSeq
        then te.(value := r.e.value, perms := r.e.perms, mark := te.mark.(seen := Some(Data(r.e.value, r.e.perms))))
        else te;
      r.(te := r.te[id := copied.(readSeq := r.nextSeq, mark := copied.mark.(readAt := |r.log|))],
         nextSeq := r.nextSeq + 1)
  }

  /** fetch_tentry_children */
  function FetchChildren(r: Record, id: Tid): (r': Record)
    requires id in r.te
    ensures id in r'.te
  {
    var te := r.te[id];
    if te.readChildrenSeq != 0 then r
    else
      var listed := if Valid(r.e) then te.(children := te.children + r.e.children) else te;
      r.(te := r.te[id := listed.(readChildrenSeq := r.nextSeq, mark := te.mark.(listAt := |r.log|))],
         nextSeq := r.nextSeq + 1)
  }

  function TWrite(r: Record, id: Tid, value: string, perms: Perms): (r': Record)
    requires id in r.te
    ensures id in r'.te
  {
    r.(te := r.te[id := r.te[id].(value := value, perms := perms, writeSeq := r.nextSeq)], nextSeq := r.nextSeq + 1)
  }

  function TDelete(r: Record, id: Tid): (r': Record)
    requires id in r.te
    ensures id in r'.te
  {
    r.(te := r.te[id := r.te[id].(deleteSeq := r.nextSeq)], nextSeq := r.nextSeq + 1)
  }

  function TLink(r: Record, id: Tid, name: Name): (r': Record)
    requires id in r.te
    ensures id in r'.te
  {
    var te := r.te[id];
    r.(te := r.te[id := te.(childrenAdd := te.childrenAdd + {name}, childrenRem := te.childrenRem - {name})])
  }

  function TUnlink(r: Record, id: Tid, name: Name): (r': Record)
    requires id in r.te
    ensures id in r'.te
  {
    var te := r.te[id];
    r.(te := r.te[id := te.(childrenRem := te.childrenRem + {name}, childrenAdd := te.childrenAdd - {name})])
  }

  // --------------------------------------------------- validation and installation

  /** One record's part of can_merge. */
  predicate CanMergeRecord(r: Record, id: Tid)
    requires id in r.te
  {
    var te := r.te[id];
    && !(if te.initValid then r.e.deleteSeq > te.initSeq else r.e.writeSeq > te.initSeq)
    && !(te.readSeq != 0 && r.e.writeSeq > te.readSeq)
    && !(te.readChildrenSeq != 0 && r.e.writeChildrenSeq > te.readChildrenSeq)
  }

  /** The code as shipped, or with the delete branch of do_merge repaired. */
  datatype Version = Shipped | Repaired

  /** One record's part of do_merge, up to dropping the overlay entry. */
  function Install(r: Record, id: Tid, version: Version): Record
    requires id in r.te
  {
    var te := r.te[id];
    if TValid(te) then
      var written := if te.writeSeq > te.initSeq then WriteEntry(r, te.value, te.perms) else r;
      if te.childrenAdd != {} || te.childrenRem != {}
      then SetChildren(written, written.e.children + te.childrenAdd - te.childrenRem)
      else written
    else if te.deleteSeq > te.initSeq then
      match version
      case Shipped => // the stamp goes to the overlay entry, which is dropped next
        r.(te := r.te[id := te.(deleteSeq := r.nextSeq)], nextSeq := r.nextSeq + 1)
      case Repaired => // the stamp goes to the committed entry, whose children are gone as well
        MarkDeleted(SetChildren(r, {}))
    else r
  }

  function Drop(r: Record, id: Tid): Record {
    r.(te := r.te - {id})
  }

  /** do_merge's clean-up of a record that lost its overlay entry: with no other overlay left a
      valid entry restarts its stamps and an invalid one goes. */
  function Settle(d: Record): Option<Record> {
    if d.te != map[] then Some(d)
    else if Valid(d.e)
    then Some(d.(e := d.e.(writeSeq := 1, deleteSeq := 0, writeChildrenSeq := 0), nextSeq := 2))
    else None
  }

  /** What do_merge leaves of a record. */
  function MergeRecord(r: Record, id: Tid, version: Version): Option<Record>
    requires id in r.te
  {
    Settle(Drop(Install(r, id, version), id))
  }

  /** What abort leaves of a record. */
  function AbortRecord(r: Record, id: Tid): Option<Record> {
    var d := Drop(r, id);
    if d.e.deleteSeq > d.e.writeSeq && d.te == map[] then None else Some(d)
  }

  // --------------------------------------------------- stamps against history

  ghost predicate Since(log: seq<Change>, at: nat, change: Change) {
    at <= |log| && change in log[at..]
  }

  /** can_merge said over the history: nothing the transaction relied on has happened since. */
  ghost predicate Undisturbed(r: Record, id: Tid)
    requires id in r.te
  {
    var te := r.te[id];
    && !Since(r.log, te.mark.initAt, if te.initValid then Deleted else Written)
    && !(te.readSeq != 0 && Since(r.log, te.mark.readAt, Written))
    && !(te.readChildrenSeq != 0 && Since(r.log, te.mark.listAt, ChildrenChanged))
  }

  ghost predicate StampsAgree(r: Record, te: TEntry) {
    && te.mark.initAt <= |r.log| && te.mark.readAt <= |r.log| && te.mark.listAt <= |r.log|
    && (r.e.deleteSeq > te.initSeq <==> Since(r.log, te.mark.initAt, Deleted))
    && (r.e.writeSeq > te.initSeq <==> Since(r.log, te.mark.initAt, Written))
    && (te.readSeq != 0 ==> (r.e.writeSeq > te.readSeq <==> Since(r.log, te.mark.readAt, Written)))
    && (te.readChildrenSeq != 0 ==>
          (r.e.writeChildrenSeq > te.readChildrenSeq <==> Since(r.log, te.mark.listAt, ChildrenChanged)))
  }

  /** What the overlay entry holds is still true of the committed entry unless history says otherwise. */
  ghost predicate CopiesHold(r: Record, te: TEntry) {
    && (te.initValid && !Since(r.log, te.mark.initAt, Deleted) ==> Valid(r.e))
    && (!te.initValid && !Since(r.log, te.mark.initAt, Written) ==> !Valid(r.e))
    && (te.readSeq != 0 && te.mark.seen.Some? && !Since(r.log, te.mark.readAt, Written) ==>
          te.mark.seen.value == Data(r.e.value, r.e.perms))
    && (te.readChildrenSeq != 0 && !Since(r.log, te.mark.listAt, ChildrenChanged) ==> te.children == r.e.children)
  }

  /** The overlay entry's own bookkeeping. */
  ghost predicate OverlayOk(r: Record, te: TEntry) {
    && 0 < te.initSeq < r.nextSeq && te.readSeq < r.nextSeq && te.readChildrenSeq < r.nextSeq
    && te.writeSeq < r.nextSeq && te.deleteSeq < r.nextSeq
    && te.writeSeq != te.initSeq && te.deleteSeq != te.initSeq
    && (te.writeSeq == te.deleteSeq ==> te.writeSeq == 0)
    && (te.writeSeq < te.initSeq && te.deleteSeq < te.initSeq ==> TValid(te) == te.initValid)
    && te.childrenAdd !! te.childrenRem
    && (te.readChildrenSeq == 0 ==> te.children == {})
    && (te.mark.seen.Some? ==> te.readSeq != 0)
    && (te.mark.seen.Some? && te.writeSeq < te.initSeq ==> Data(te.value, te.perms) == te.mark.seen.value)
    && (te.mark.seen.None? && te.readSeq != 0 ==> te.writeSeq > te.initSeq || te.deleteSeq > te.initSeq)
  }

  ghost predicate EntryOk(r: Record) {
    && r.e.writeSeq < r.nextSeq && r.e.deleteSeq < r.nextSeq && r.e.writeChildrenSeq < r.nextSeq
    && (r.e.writeSeq == r.e.deleteSeq ==> r.e.writeSeq == 0)
    && (!Valid(r.e) ==> r.e.children == {})
  }

  ghost predicate TEntryOk(r: Record, te: TEntry) {
    OverlayOk(r, te) && StampsAgree(r, te) && CopiesHold(r, te)
  }

  ghost predicate RecordOk(r: Record) {
    && EntryOk(r)
    && forall id | id in r.te :: TEntryOk(r, r.te[id])
  }

  /** The stamp comparisons decide exactly what the history says. */
  lemma StampsRefineHistory(r: Record, id: Tid)
    requires RecordOk(r) && id in r.te
    ensures CanMergeRecord(r, id) <==> Undisturbed(r, id)
  {
  }

  /** Validation is sound: what the transaction copied is what is committed now. */
  lemma ValidationIsSound(r: Record, id: Tid)
    requires RecordOk(r) && id in r.te && CanMergeRecord(r, id)
    ensures var te := r.te[id];
      && te.initValid == Valid(r.e)
      && (te.mark.seen.Some? ==> te.mark.seen.value == Data(r.e.value, r.e.perms))
      && (te.readChildrenSeq != 0 ==> te.children == r.e.children)
  {
  }

  // --------------------------------------------------- how records evolve

  /** Only the committed side of the record moved. */
  ghost predicate Commits(r: Record, r': Record) {
    r'.te == r.te && r.nextSeq <= r'.nextSeq && r.log <= r'.log
  }

  /** Nothing the overlay entry learned is forgotten. */
  ghost predicate Learns(te: TEntry, te': TEntry) {
    && te'.initSeq == te.initSeq && te'.initValid == te.initValid && te'.mark.initAt == te.mark.initAt
    && (te.readSeq != 0 ==> te'.readSeq == te.readSeq && te'.mark.readAt == te.mark.readAt && te'.mark.seen == te.mark.seen)
    && (te.mark.seen.Some? ==> te'.mark.seen == te.mark.seen)
    && (te.readChildrenSeq != 0 ==>
          te'.readChildrenSeq == te.readChildrenSeq && te'.mark.listAt == te.mark.listAt && te'.children == te.children)
  }

  ghost predicate SameElsewhere(m: map<Tid, TEntry>, m': map<Tid, TEntry>, id: Tid) {
    && (forall j | j in m && j != id :: j in m' && m'[j] == m[j])
    && (forall j | j in m' && j != id :: j in m)
  }

  /** Only transaction id's side of the record moved. */
  ghost predicate Overlays(r: Record, r': Record, id: Tid) {
    && r'.e == r.e && r'.log == r.log && r.nextSeq <= r'.nextSeq
    && SameElsewhere(r.te, r'.te, id)
    && (id in r.te ==> id in r'.te && Learns(r.te[id], r'.te[id]))
    && (id in r'.te ==> NewMarksAreNow(r, r'.te[id], id))
  }

  /** What the overlay entry learned, it learned at the present end of the log. */
  ghost predicate NewMarksAreNow(r: Record, te': TEntry, id: Tid) {
    && (id !in r.te ==> te'.mark.initAt == |r.log|)
    && (te'.readSeq != 0 && (id in r.te ==> r.te[id].readSeq == 0) ==> te'.mark.readAt == |r.log|)
    && (te'.readChildrenSeq != 0 && (id in r.te ==> r.te[id].readChildrenSeq == 0) ==> te'.mark.listAt == |r.log|)
  }

  lemma LogGrows(log: seq<Change>, log': seq<Change>, at: nat, change: Change)
    requires log <= log' && at <= |log|
    ensures Since(log', at, change) <==> Since(log, at, change) || Since(log', |log|, change)
  {
  }

  /** A transaction that cannot commit stays that way whatever is committed meanwhile. */
  lemma DoomedStaysDoomed(r: Record, r': Record, id: Tid)
    requires RecordOk(r) && RecordOk(r') && id in r.te && id in r'.te && r'.te[id] == r.te[id] && r.log <= r'.log
    ensures !CanMergeRecord(r, id) ==> !CanMergeRecord(r', id)
  {
    var te := r.te[id];
    StampsRefineHistory(r, id);
    StampsRefineHistory(r', id);
    assert TEntryOk(r, te);
    LogGrows(r.log, r'.log, te.mark.initAt, Deleted);
    LogGrows(r.log, r'.log, te.mark.initAt, Written);
    LogGrows(r.log, r'.log, te.mark.readAt, Written);
    LogGrows(r.log, r'.log, te.mark.listAt, ChildrenChanged);
  }

  /** A transaction's own operations neither doom nor rescue it; other transactions' do not either. */
  lemma OverlaysKeepVerdict(r: Record, r': Record, id: Tid, actor: Tid)
    requires RecordOk(r) && RecordOk(r') && Overlays(r, r', actor) && id in r'.te
    ensures CanMergeRecord(r', id) <==> (id in r.te ==> CanMergeRecord(r, id))
  {
  }

  lemma NothingSinceNow(log: seq<Change>)
    ensures forall c :: !Since(log, |log|, c)
  {
  }

  // --------------------------------------------------- every update keeps the record invariant

  lemma CommitKeepsRecord(r: Record, r': Record, change: Change)
    requires RecordOk(r) && EntryOk(r') && r'.te == r.te
    requires r'.nextSeq == r.nextSeq + 1 && r'.log == r.log + [change]
    requires change != Written ==> r'.e.writeSeq == r.e.writeSeq && r'.e.value == r.e.value && r'.e.perms == r.e.perms
    requires change != Deleted ==> r'.e.deleteSeq == r.e.deleteSeq
    requires change != ChildrenChanged ==> r'.e.writeChildrenSeq == r.e.writeChildrenSeq && r'.e.children == r.e.children
    requires change == Written ==> r'.e.writeSeq == r.nextSeq
    requires change == Deleted ==> r'.e.deleteSeq == r.nextSeq
    requires change == ChildrenChanged ==> r'.e.writeChildrenSeq == r.nextSeq
    ensures RecordOk(r') && Commits(r, r')
  {
    forall id | id in r'.te ensures TEntryOk(r', r'.te[id]) {
      var te := r.te[id];
      assert TEntryOk(r, te);
      forall at: nat, c: Change | at <= |r.log| ensures Since(r'.log, at, c) <==> Since(r.log, at, c) || c == change {
        LogGrows(r.log, r'.log, at, c);
        assert r'.log[|r.log|..] == [change];
      }
    }
  }

  lemma WriteEntryOk(r: Record, value: string, perms: Perms)
    requires RecordOk(r)
    ensures RecordOk(WriteEntry(r, value, perms)) && Commits(r, WriteEntry(r, value, perms))
  {
    CommitKeepsRecord(r, WriteEntry(r, value, perms), Written);
  }

  lemma SetChildrenOk(r: Record, names: set<Name>)
    requires RecordOk(r) && (Valid(r.e) || names == {})
    ensures RecordOk(SetChildren(r, names)) && Commits(r, SetChildren(r, names))
  {
    CommitKeepsRecord(r, SetChildren(r, names), ChildrenChanged);
  }

  lemma MarkDeletedOk(r: Record)
    requires RecordOk(r) && r.e.children == {}
    ensures RecordOk(MarkDeleted(r)) && Commits(r, MarkDeleted(r))
  {
    CommitKeepsRecord(r, MarkDeleted(r), Deleted);
  }

  /** The entry's stamps and history are all that an overlay entry's invariant looks at. */
  lemma TEntryFrame(r: Record, r': Record, te: TEntry)
    requires TEntryOk(r, te) && r'.e == r.e && r'.log == r.log && r.nextSeq <= r'.nextSeq
    ensures TEntryOk(r', te)
  {
  }

  /** An update of one overlay entry that only raises nextSeq. */
  lemma OverlayKeepsRecord(r: Record, r': Record, id: Tid)
    requires RecordOk(r) && id in r'.te && r'.e == r.e && r'.log == r.log && r.nextSeq <= r'.nextSeq
    requires r'.te == r.te[id := r'.te[id]]
    requires TEntryOk(r', r'.te[id])
    requires id in r.te ==> Learns(r.te[id], r'.te[id])
    requires NewMarksAreNow(r, r'.te[id], id)
    ensures RecordOk(r') && Overlays(r, r', id)
  {
    forall j | j in r'.te ensures TEntryOk(r', r'.te[j]) {
      if j != id { TEntryFrame(r, r', r.te[j]); }
    }
  }

  lemma TouchOk(r: Record, id: Tid)
    requires RecordOk(r)
    ensures RecordOk(Touch(r, id)) && Overlays(r, Touch(r, id), id)
  {
    NothingSinceNow(r.log);
    if id !in r.te { OverlayKeepsRecord(r, Touch(r, id), id); }
  }

  lemma FetchDataOk(r: Record, id: Tid)
    requires RecordOk(r) && id in r.te
    ensures RecordOk(FetchData(r, id)) && Overlays(r, FetchData(r, id), id)
  {
    NothingSinceNow(r.log);
    assert TEntryOk(r, r.te[id]);
    OverlayKeepsRecord(r, FetchData(r, id), id);
  }

  lemma FetchChildrenOk(r: Record, id: Tid)
    requires RecordOk(r) && id in r.te
    ensures RecordOk(FetchChildren(r, id)) && Overlays(r, FetchChildren(r, id), id)
  {
    assert TEntryOk(r, r.te[id]);
    FetchedListOk(r, id);
    OverlayKeepsRecord(r, FetchChildren(r, id), id);
  }

  lemma FetchedListOk(r: Record, id: Tid)
    requires EntryOk(r) && id in r.te && TEntryOk(r, r.te[id])
    ensures var r' := FetchChildren(r, id); TEntryOk(r', r'.te[id])
  {
  }

  lemma TWriteOk(r: Record, id: Tid, value: string, perms: Perms)
    requires RecordOk(r) && id in r.te
    ensures RecordOk(TWrite(r, id, value, perms)) && Overlays(r, TWrite(r, id, value, perms), id)
  {
    assert TEntryOk(r, r.te[id]);
    OverlayKeepsRecord(r, TWrite(r, id, value, perms), id);
  }

  lemma TDeleteOk(r: Record, id: Tid)
    requires RecordOk(r) && id in r.te
    ensures RecordOk(TDelete(r, id)) && Overlays(r, TDelete(r, id), id)
  {
    assert TEntryOk(r, r.te[id]);
    OverlayKeepsRecord(r, TDelete(r, id), id);
  }

  lemma TLinkOk(r: Record, id: Tid, name: Name)
    requires RecordOk(r) && id in r.te
    ensures RecordOk(TLink(r, id, name)) && Overlays(r, TLink(r, id, name), id)
  {
    assert TEntryOk(r, r.te[id]);
    var te := r.te[id];
    RelinkOk(r, id, te.childrenAdd + {name}, te.childrenRem - {name});
  }

  lemma TUnlinkOk(r: Record, id: Tid, name: Name)
    requires RecordOk(r) && id in r.te
    ensures RecordOk(TUnlink(r, id, name)) && Overlays(r, TUnlink(r, id, name), id)
  {
    assert TEntryOk(r, r.te[id]);
    var te := r.te[id];
    RelinkOk(r, id, te.childrenAdd - {name}, te.childrenRem + {name});
  }

  lemma RelinkOk(r: Record, id: Tid, add: set<Name>, rem: set<Name>)
    requires RecordOk(r) && id in r.te && add !! rem
    ensures var r' := r.(te := r.te[id := r.te[id].(childrenAdd := add, childrenRem := rem)]);
      RecordOk(r') && Overlays(r, r', id)
  {
    var te := r.te[id];
    assert TEntryOk(r, te);
    var te' := te.(childrenAdd := add, childrenRem := rem);
    assert TEntryOk(r, te');
    OverlayKeepsRecord(r, r.(te := r.te[id := te']), id);
  }

  /** The branch of do_merge that the shipped code gets wrong: a valid entry is deleted. */
  predicate LosesDelete(te: TEntry) {
    te.initValid && !TValid(te)
  }

  lemma InstallOk(r: Record, id: Tid, version: Version)
    requires RecordOk(r) && id in r.te && CanMergeRecord(r, id)
    ensures RecordOk(Install(r, id, version))
    ensures SameElsewhere(r.te, Install(r, id, version).te, id)
    ensures r.log <= Install(r, id, version).log
  {
    var te := r.te[id];
    assert TEntryOk(r, te);
    ValidationIsSound(r, id);
    if TValid(te) {
      InstallValidOk(r, id, version);
    } else if te.deleteSeq > te.initSeq {
      match version {
        case Shipped =>
          assert TEntryOk(r.(nextSeq := r.nextSeq + 1), te.(deleteSeq := r.nextSeq));
          OverlayKeepsRecord(r, Install(r, id, version), id);
        case Repaired =>
          SetChildrenOk(r, {});
          MarkDeletedOk(SetChildren(r, {}));
      }
    }
  }

  lemma InstallValidOk(r: Record, id: Tid, version: Version)
    requires RecordOk(r) && id in r.te && TValid(r.te[id]) && r.te[id].initValid == Valid(r.e)
    ensures RecordOk(Install(r, id, version)) && Commits(r, Install(r, id, version))
  {
    var te := r.te[id];
    assert TEntryOk(r, te);
    WriteEntryOk(r, te.value, te.perms);
    var written := if te.writeSeq > te.initSeq then WriteEntry(r, te.value, te.perms) else r;
    assert Valid(written.e);
    SetChildrenOk(written, written.e.children + te.childrenAdd - te.childrenRem);
  }

  lemma DropOk(r: Record, id: Tid)
    requires RecordOk(r)
    ensures RecordOk(Drop(r, id))
  {
    forall j | j in Drop(r, id).te ensures TEntryOk(Drop(r, id), r.te[j]) {
      assert TEntryOk(r, r.te[j]);
    }
  }

  /** The counter reset happens only when no overlay is left, so no stamp outlives it; and a record
      that another transaction references is neither reset nor erased. */
  lemma MergeRecordOk(r: Record, id: Tid, version: Version)
    requires RecordOk(r) && id in r.te && CanMergeRecord(r, id)
    ensures var m := MergeRecord(r, id, version);
      && (m.Some? ==> RecordOk(m.value) && id !in m.value.te && SameElsewhere(r.te, m.value.te, id))
      && (m.None? ==> SameElsewhere(r.te, map[], id))
      && (r.te.Keys != {id} ==> m == Some(Drop(Install(r, id, version), id)))
  {
    InstallOk(r, id, version);
    SettleOk(r.te, Install(r, id, version), id);
  }

  lemma SettleOk(te: map<Tid, TEntry>, i: Record, id: Tid)
    requires RecordOk(i) && id in te && SameElsewhere(te, i.te, id)
    ensures var s := Settle(Drop(i, id));
      && (s.Some? ==> RecordOk(s.value) && id !in s.value.te && SameElsewhere(te, s.value.te, id))
      && (s.None? ==> SameElsewhere(te, map[], id))
      && (te.Keys != {id} ==> s == Some(Drop(i, id)))
  {
    var d := Drop(i, id);
    DropOk(i, id);
    assert SameElsewhere(te, d.te, id);
    if te.Keys != {id} {
      var j :| j in te && j != id;
      assert j in d.te;
    }
  }
}
