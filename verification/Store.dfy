/**
 `store`: runs transactions side by side over one database and sends each call to the direct
 accessor or to the transaction it names.  The ghost journal is what an observer of the calls would
 write down; Valid says, among other things, that serving it gives the committed tree and the replies.
 */
module Stores {
  import opened Paths
  import opened Tree
  import opened D = Database
  import opened S = SimpleAccess
  import opened T = Transaction
  import opened Commit
  import opened Runs
  import Mstore

  class Store {
    const version: Version
    const db: Mstore.Database
    const access: Mstore.SimpleAccess
    var nextTid: Tid
    var trans: map<Tid, Mstore.Transaction>
    ghost var journal: Journal

    ghost function State(): StoreState
      reads this, db
    {
      StoreState(db.m, nextTid, trans.Keys)
    }

    /** The objects fit together; holds after every call. */
    ghost predicate WellLinked()
      reads this, db, trans.Values
    {
      && access.db == db && DbOk(db.m) && nextTid > 0 && 0 !in trans
      && (forall id | id in trans :: id < nextTid && trans[id].id == id && trans[id].db == db && trans[id].Tracks())
      && (forall id :: OverlayOf(db.m, id) != map[] ==> id in trans)
    }

    ghost predicate Valid()
      reads this, db, trans.Values
    {
      WellLinked() && Inv(State(), journal, version)
    }

    constructor (version: Version)
      ensures Valid() && fresh(db) && fresh(access) && State() == INITIAL
      ensures this.version == version && journal == UNWRITTEN && db.m == map[] && nextTid == 1
    {
      var shared := new Mstore.Database();
      this.version := version;
      db := shared;
      access := new Mstore.SimpleAccess(shared);
      nextTid := 1;
      trans := map[];
      journal := UNWRITTEN;
      new;
      InitialInv(version);
    }

    method Branch() returns (tid: Tid)
      requires Valid()
      modifies this
      ensures Valid() && (State(), Branched(tid)) == Next(old(State()), Runs.Branch, version)
      ensures journal == Note(old(journal), Runs.Branch, Branched(tid))
      ensures tid !in old(trans) && trans.Keys == old(trans.Keys) + {tid} && fresh(trans[tid])
      ensures forall id | id in old(trans) :: trans[id] == old(trans)[id]
    {
      hide Inv, OverlayOf, DbOk, Committed, Closed;
      InvFacts(State(), journal, version);
      tid := nextTid;
      nextTid := nextTid + 1;
      var t := new Mstore.Transaction(tid, db);
      trans := trans[tid := t];
      BranchInv(old(State()), journal, version);
      assert State() == Next(old(State()), Runs.Branch, version).0;
      journal := Note(journal, Runs.Branch, Branched(tid));
    }

    /** create, read, update, del, get_children, get_perms and set_perms share this dispatch; `op` holds
        the client and the other arguments, and its path is replaced by the one given as a string.
        tid 0 stands for "outside any transaction". */
    method Call(tid: Tid, path: string, op: Op) returns (out: Outcome)
      requires Valid() && path != ""
      modifies this`journal, db, trans.Values
      ensures var op' := op.(path := Parse(DropTrailingSlash(path)));
        var ev := if tid == 0 then DirectOp(op') else TransactionOp(tid, op');
        && Valid() && (State(), out) == Next(old(State()), ev, version)
        && journal == Note(old(journal), ev, out) && trans == old(trans)
        && (tid == 0 ==> (db.m, out) == (Direct(old(db.m), op').0, Replied(Direct(old(db.m), op').1)))
        && (tid in trans ==> (db.m, out) == (InTransaction(old(db.m), tid, op').0, Replied(InTransaction(old(db.m), tid, op').1)))
        && (tid != 0 && tid !in trans ==> out == Refused(EINVAL) && db.m == old(db.m))
    {
      hide *;
      out := Dispatch(tid, op.(path := Parse(DropTrailingSlash(path))));
    }

    method Dispatch(tid: Tid, op: Op) returns (out: Outcome)
      requires Valid()
      modifies this`journal, db, trans.Values
      ensures var ev := if tid == 0 then DirectOp(op) else TransactionOp(tid, op);
        Valid() && (State(), out) == Next(old(State()), ev, version) && journal == Note(old(journal), ev, out)
      ensures trans == old(trans)
      ensures tid == 0 ==> (db.m, out) == (Direct(old(db.m), op).0, Replied(Direct(old(db.m), op).1))
      ensures tid in trans ==> (db.m, out) == (InTransaction(old(db.m), tid, op).0, Replied(InTransaction(old(db.m), tid, op).1))
      ensures tid != 0 && tid !in trans ==> out == Refused(EINVAL) && db.m == old(db.m)
    {
      hide Inv, OverlayOf, DbOk, Committed, Closed, Direct, InTransaction, Note;
      InvFacts(State(), journal, version);
      ghost var ev := if tid == 0 then DirectOp(op) else TransactionOp(tid, op);
      NextInv(State(), journal, ev, version);
      if tid == 0 {
        out := CallDirect(op);
        OverlaysAfterDirect(old(State()), journal, op, version);
      } else if tid in trans {
        out := CallTransaction(trans[tid], op);
        InTransactionIsIsolated(old(db.m), tid, op);
      } else {
        out := Refused(EINVAL);
      }
      assert State() == Next(old(State()), ev, version).0;
      journal := Note(journal, ev, out);
    }

    method CallDirect(op: Op) returns (out: Outcome)
      requires access.db == db && DbOk(db.m) && Closed(Committed(db.m))
      modifies db
      ensures (db.m, out) == (Direct(old(db.m), op).0, Replied(Direct(old(db.m), op).1))
    {
      var reply;
      match op {
        case Create(_, p) => var created := access.Create(p); reply := Created(created);
        case Read(cid, p) => reply := access.Read(cid, p);
        case Update(cid, p, value) => reply := access.Update(cid, p, value);
        case Delete(cid, p) => reply := access.Del(cid, p, DepthBound(db.m));
        case GetChildren(cid, p) => reply := access.GetChildren(cid, p);
        case GetPerms(cid, p) => reply := access.GetPerms(cid, p);
        case SetPerms(cid, p, perms) => reply := access.SetPerms(cid, p, perms);
      }
      out := Replied(reply);
    }

    method CallTransaction(t: Mstore.Transaction, op: Op) returns (out: Outcome)
      requires t.Tracks()
      modifies t, t.db
      ensures t.Tracks()
      ensures (t.db.m, out) == (InTransaction(old(t.db.m), t.id, op).0, Replied(InTransaction(old(t.db.m), t.id, op).1))
    {
      var reply;
      match op {
        case Create(_, p) => var created := t.Create(p); reply := Created(created);
        case Read(cid, p) => reply := t.Read(cid, p);
        case Update(cid, p, value) => reply := t.Update(cid, p, value);
        case Delete(cid, p) => reply := t.Del(cid, p, DepthBoundFor(t.db.m, t.id));
        case GetChildren(cid, p) => reply := t.GetChildren(cid, p);
        case GetPerms(cid, p) => reply := t.GetPerms(cid, p);
        case SetPerms(cid, p, perms) => reply := t.SetPerms(cid, p, perms);
      }
      out := Replied(reply);
    }

    method Merge(tid: Tid) returns (out: Outcome)
      requires Valid()
      modifies this`journal, this`trans, db, trans.Values
      ensures Valid() && (State(), out) == Next(old(State()), Runs.Merge(tid), version)
      ensures journal == Note(old(journal), Runs.Merge(tid), out)
      ensures trans == old(trans) - {tid} && (tid == 0 ==> out.Refused?)
      ensures tid !in old(trans) ==> out == Refused(ENOENT) && db.m == old(db.m)
      ensures tid in old(trans) ==>
        && out == Merged(CanMerge(old(db.m), tid))
        && (CanMerge(old(db.m), tid) ==> db.m == DoMerge(old(db.m), tid, version))
        && (!CanMerge(old(db.m), tid) ==> db.m == AbortAll(old(db.m), tid))
    {
      hide Inv, OverlayOf, DbOk, Committed, Closed, DoMerge, AbortAll, CanMerge, Note;
      InvFacts(State(), journal, version);
      if tid in trans {
        var success := trans[tid].Merge(version);
        AfterEnd(old(State()), tid, version);
        trans := trans - {tid};
        out := Merged(success);
      } else {
        out := Refused(ENOENT);
      }
      NextInv(old(State()), journal, Runs.Merge(tid), version);
      journal := Note(journal, Runs.Merge(tid), out);
    }

    method Abort(tid: Tid) returns (out: Outcome)
      requires Valid()
      modifies this`journal, this`trans, db, trans.Values
      ensures Valid() && (State(), out) == Next(old(State()), Runs.Abort(tid), version)
      ensures journal == Note(old(journal), Runs.Abort(tid), out) && trans == old(trans) - {tid}
      ensures tid == 0 ==> out.Refused?
      ensures tid !in old(trans) ==> out == Refused(ENOENT) && db.m == old(db.m)
      ensures tid in old(trans) ==> out == Aborted && db.m == AbortAll(old(db.m), tid)
    {
      hide Inv, OverlayOf, DbOk, Committed, Closed, DoMerge, AbortAll, CanMerge, Note;
      InvFacts(State(), journal, version);
      if tid in trans {
        trans[tid].Abort();
        AfterEnd(old(State()), tid, version);
        trans := trans - {tid};
        out := Aborted;
      } else {
        out := Refused(ENOENT);
      }
      NextInv(old(State()), journal, Runs.Abort(tid), version);
      journal := Note(journal, Runs.Abort(tid), out);
    }
  }

  lemma OverlaysAfterDirect(s: StoreState, j: Journal, op: Op, version: Version)
    requires Inv(s, j, version)
    ensures DbOk(Direct(s.db, op).0)
    ensures forall id :: OverlayOf(Direct(s.db, op).0, id) == OverlayOf(s.db, id)
  {
    DirectIsStep(s.db, op);
    CommitsKeepOverlays(s.db, Direct(s.db, op).0);
  }

  lemma AfterEnd(s: StoreState, tid: Tid, version: Version)
    requires DbOk(s.db)
    ensures var a := AbortAll(s.db, tid);
      DbOk(a) && OverlayOf(a, tid) == map[] && forall id | id != tid :: OverlayOf(a, id) == OverlayOf(s.db, id)
    ensures CanMerge(s.db, tid) ==> var d := DoMerge(s.db, tid, version);
      DbOk(d) && OverlayOf(d, tid) == map[] && forall id | id != tid :: OverlayOf(d, id) == OverlayOf(s.db, id)
  {
    AbortEnds(s.db, tid);
    EndedKeepsOthers(s.db, AbortAll(s.db, tid), tid);
    if CanMerge(s.db, tid) {
      DoMergeEnds(s.db, tid, version);
      EndedKeepsOthers(s.db, DoMerge(s.db, tid, version), tid);
    }
  }
}
