/**
 `xenstore`: the store's changes tied to the notices they cause.  The ghost history records, call by
 call, the notices each successful change produced and how each transaction ended; Valid says that what
 reached the event manager is exactly Delivered(history).
 */
module Xenstores {
  import opened Paths
  import Tree
  import Runs
  import opened Watches
  import Stores
  import D = Database
  import S = SimpleAccess
  import T = Transaction
  import Laws

  datatype Happening =
    | Changed(tid: Tid, seg: seq<Notice>)
    | Ended(tid: Tid, committed: bool)

  /** The notices of tid's changes since it last ended. */
  function Pending(history: seq<Happening>, tid: Tid): seq<Notice> {
    if history == [] then []
    else
      var last := history[|history| - 1];
      var before := Pending(history[..|history| - 1], tid);
      match last
      case Changed(t, seg) => if t == tid then before + seg else before
      case Ended(t, _) => if t == tid then [] else before
  }

  /** What the event manager is handed: changes outside transactions as they come, and a transaction's
      when it commits. */
  function Delivered(history: seq<Happening>): seq<Notice> {
    if history == [] then []
    else
      var last := history[|history| - 1];
      var before := Delivered(history[..|history| - 1]);
      match last
      case Changed(t, seg) => if t == 0 then before + seg else before
      case Ended(t, committed) => if committed then before + Pending(history[..|history| - 1], t) else before
  }

  /** Change i of transaction tid is still undecided at the end of the history. */
  ghost predicate Undecided(history: seq<Happening>, i: int, tid: Tid) {
    0 <= i < |history| && history[i].Changed? && history[i].tid == tid
    && forall j | i < j < |history| :: !(history[j].Ended? && history[j].tid == tid)
  }

  /** Change i took effect: outside any transaction, or its transaction's next end is a commit. */
  ghost predicate TookEffect(history: seq<Happening>, i: int) {
    0 <= i < |history| && history[i].Changed?
    && (history[i].tid == 0
        || exists j | i < j < |history| :: history[j] == Ended(history[i].tid, true) && Undecided(history[..j], i, history[i].tid))
  }

  lemma {:induction false} PendingExact(history: seq<Happening>, tid: Tid, n: Notice)
    ensures n in Pending(history, tid) <==> exists i :: Undecided(history, i, tid) && n in history[i].seg
  {
    if history != [] {
      var k := |history| - 1;
      var init := history[..k];
      PendingExact(init, tid, n);
      if n in Pending(history, tid) {
        if history[k].Changed? && history[k].tid == tid && n in history[k].seg {
          assert Undecided(history, k, tid);
        } else {
          var i :| Undecided(init, i, tid) && n in init[i].seg;
          assert Undecided(history, i, tid);
        }
      }
      if i :| Undecided(history, i, tid) && n in history[i].seg {
        if i < k { assert Undecided(init, i, tid) && init[i] == history[i]; }
      }
    }
  }

  /** Atomicity of a transaction's notices: a notice reaches the event manager exactly when the change
      that caused it took effect. */
  lemma DeliveredExact(history: seq<Happening>, n: Notice)
    requires forall i | 0 <= i < |history| && history[i].Ended? :: history[i].tid != 0
    ensures n in Delivered(history) <==> exists i :: TookEffect(history, i) && n in history[i].seg
  {
    if n in Delivered(history) { var _ := DeliveredTookEffect(history, n); }
    forall i | TookEffect(history, i) && n in history[i].seg ensures n in Delivered(history) {
      TookEffectDelivered(history, i, n);
    }
  }

  lemma {:induction false} DeliveredTookEffect(history: seq<Happening>, n: Notice) returns (i: int)
    requires n in Delivered(history)
    ensures TookEffect(history, i) && n in history[i].seg
  {
    var k := |history| - 1;
    var init := history[..k];
    if n in Delivered(init) {
      i := DeliveredTookEffect(init, n);
      StillTookEffect(history, k, i);
    } else if history[k].Changed? {
      i := k;
    } else {
      PendingExact(init, history[k].tid, n);
      i :| Undecided(init, i, history[k].tid) && n in init[i].seg;
    }
  }

  lemma {:induction false} TookEffectDelivered(history: seq<Happening>, i: int, n: Notice)
    requires forall i | 0 <= i < |history| && history[i].Ended? :: history[i].tid != 0
    requires TookEffect(history, i) && n in history[i].seg
    ensures n in Delivered(history)
  {
    var k := |history| - 1;
    var init := history[..k];
    if i < k {
      assert init[i] == history[i];
      if history[i].tid == 0 {
        TookEffectDelivered(init, i, n);
      } else {
        var j :| i < j < |history| && history[j] == Ended(history[i].tid, true) && Undecided(history[..j], i, history[i].tid);
        if j < k {
          assert init[..j] == history[..j];
          TookEffectDelivered(init, i, n);
        } else {
          PendingExact(init, history[k].tid, n);
        }
      }
    }
  }

  lemma StillTookEffect(history: seq<Happening>, k: nat, i: int)
    requires k <= |history| && TookEffect(history[..k], i)
    ensures TookEffect(history, i)
  {
    var init := history[..k];
    if init[i].tid != 0 {
      var j :| i < j < k && init[j] == Ended(init[i].tid, true) && Undecided(init[..j], i, init[i].tid);
      assert init[..j] == history[..j] && history[j] == init[j];
    }
  }

  lemma OneMoreChange(history: seq<Happening>, tid: Tid, seg: seq<Notice>)
    ensures
      var more := history + [Changed(tid, seg)];
      && Delivered(more) == (if tid == 0 then Delivered(history) + seg else Delivered(history))
      && forall t :: Pending(more, t) == if t == tid then Pending(history, t) + seg else Pending(history, t)
  {
  }

  /** What a removal of p notifies: as a change, and then the watches strictly below it. */
  ghost predicate RemovalNotices(seg: seq<Notice>, watches: set<Watch>, p: Path) {
    exists k | 0 <= k <= |seg| :: ChangeNotices(seg[..k], watches, p) && BranchNotices(seg[k..], watches, p)
  }

  lemma ChangeThenBranch(change: seq<Notice>, below: seq<Notice>, watches: set<Watch>, p: Path)
    requires ChangeNotices(change, watches, p) && BranchNotices(below, watches, p)
    ensures RemovalNotices(change + below, watches, p)
  {
    var seg := change + below;
    assert seg[..|change|] == change && seg[|change|..] == below;
  }

  class Xenstore {
    const st: Stores.Store
    const wmgr: WatchMgr
    ghost var history: seq<Happening>

    ghost predicate Valid()
      reads this, st, st.db, st.trans.Values, wmgr
    {
      && st.Valid() && wmgr.Valid()
      && wmgr.tdb.Keys <= st.trans.Keys && Tells()
    }

    /** The event manager got what the history delivers, and each transaction's list is what it has pending. */
    ghost predicate Tells()
      reads this, wmgr
    {
      && (forall i | 0 <= i < |history| && history[i].Ended? :: history[i].tid != 0)
      && wmgr.events == Delivered(history)
      && (forall tid | tid != 0 :: wmgr.Out(tid) == Pending(history, tid))
    }

    constructor (version: D.Version)
      ensures Valid() && history == [] && wmgr.watches == {} && st.trans == map[]
      ensures S.Committed(st.db.m) == map[Root("") := Tree.Node("", [Tree.Permission(0, false, false)], {})]
    {
      hide Runs.Inv, Runs.Next, Runs.Note, Stores.Store.WellLinked, IndexAgrees;
      var s := new Stores.Store(version);
      var w := new WatchMgr();
      st := s;
      wmgr := w;
      history := [];
      new;
      var _ := st.Call(0, "/", Tree.Create(0, Root("")));
      SamePathWithSlash("x");
      Laws.FirstTree();
    }

    /** store_write, store_mkdir, store_set_perms and store_rm: the store is changed first and, when
        that succeeded (for mkdir: when it created), the watches are told. */
    method Change(tid: Tid, path: string, op: Tree.Op) returns (out: Runs.Outcome, ghost seg: seq<Notice>)
      requires Valid() && path != ""
      requires op.Update? || op.Create? || op.SetPerms? || op.Delete?
      modifies this, st`journal, st.db, st.trans.Values, wmgr
      ensures Valid()
      ensures var op' := op.(path := Parse(DropTrailingSlash(path)));
        var ev := if tid == 0 then Runs.DirectOp(op') else Runs.TransactionOp(tid, op');
        (st.State(), out) == Runs.Next(old(st.State()), ev, st.version)
      ensures wmgr.watches == old(wmgr.watches)
      ensures out in {Runs.Replied(Tree.Done), Runs.Replied(Tree.Created(true))} ==>
        && history == old(history) + [Changed(tid, seg)]
        && (op.Delete? ==> RemovalNotices(seg, wmgr.watches, Parse(path)))
        && (!op.Delete? ==> ChangeNotices(seg, wmgr.watches, Parse(path)))
      ensures out !in {Runs.Replied(Tree.Done), Runs.Replied(Tree.Created(true))} ==>
        history == old(history) && wmgr.events == old(wmgr.events) && wmgr.tdb == old(wmgr.tdb)
    {
      hide Runs.Inv, Runs.Next, Runs.Note, Stores.Store.WellLinked, RemovalNotices, ChangeNotices, IndexAgrees,
           S.Direct, T.InTransaction, Pending, Delivered, Truthful, Parse, DropTrailingSlash;
      seg := [];
      out := st.Call(tid, path, op);
      assert st.Valid() && wmgr.Valid() && Tells();
      if out == Runs.Replied(Tree.Done) || out == Runs.Replied(Tree.Created(true)) {
        seg := Notify(tid, Parse(path), op.Delete?);
      }
    }

    /** fire, fire_parents and, for a removal, fire_children. */
    method Notify(tid: Tid, path: Path, removed: bool) returns (ghost seg: seq<Notice>)
      requires wmgr.Valid() && Tells()
      modifies this, wmgr
      ensures wmgr.Valid() && Tells() && wmgr.OnlyAppends(tid)
      ensures history == old(history) + [Changed(tid, seg)]
      ensures removed ==> RemovalNotices(seg, wmgr.watches, path)
      ensures !removed ==> ChangeNotices(seg, wmgr.watches, path)
    {
      hide ChangeNotices, BranchNotices, RemovalNotices, IndexAgrees, Pending, Delivered;
      ghost var start := wmgr.Out(tid);
      seg := NotifyUpwards(tid, path);
      if removed {
        ghost var change, up := seg, wmgr.Out(tid);
        wmgr.FireChildren(tid, path);
        ghost var below := wmgr.Out(tid)[|up|..];
        seg := change + below;
        ChangeThenBranch(change, below, wmgr.watches, path);
      }
      assert wmgr.Out(tid) == start + seg;
      assert tid != 0 ==> wmgr.Out(0) == old(wmgr.Out(0));
      OneMoreChange(history, tid, seg);
      history := history + [Changed(tid, seg)];
    }

    method NotifyUpwards(tid: Tid, path: Path) returns (ghost seg: seq<Notice>)
      requires wmgr.Valid()
      modifies wmgr
      ensures wmgr.Valid() && wmgr.OnlyAppends(tid)
      ensures wmgr.Out(tid) == old(wmgr.Out(tid)) + seg && ChangeNotices(seg, wmgr.watches, path)
    {
      ghost var start := wmgr.Out(tid);
      wmgr.Fire(tid, path);
      ghost var here := wmgr.Out(tid);
      wmgr.FireParents(tid, path, path);
      ghost var up := wmgr.Out(tid);
      seg := here[|start|..] + up[|here|..];
      JoinLevels(here[|start|..], up[|here|..], wmgr.watches, path, path);
    }

    method TransactionStart() returns (tid: Tid)
      requires Valid()
      modifies this, st
      ensures Valid() && (st.State(), Runs.Branched(tid)) == Runs.Next(old(st.State()), Runs.Branch, st.version)
      ensures history == old(history)
    {
      tid := st.Branch();
    }

    /** On commit the pending notices go out; on conflict or abort they are dropped. */
    method TransactionEnd(tid: Tid, commit: bool) returns (out: Runs.Outcome)
      requires Valid()
      modifies this, st`journal, st`trans, st.db, st.trans.Values, wmgr
      ensures var ev := if commit then Runs.Merge(tid) else Runs.Abort(tid);
        Valid() && (st.State(), out) == Runs.Next(old(st.State()), ev, st.version)
      ensures wmgr.watches == old(wmgr.watches)
      ensures out.Refused? ==> history == old(history) && wmgr.events == old(wmgr.events)
      ensures !out.Refused? ==> history == old(history) + [Ended(tid, out == Runs.Merged(true))]
      ensures out == Runs.Merged(true) ==> wmgr.events == old(wmgr.events) + old(wmgr.Out(tid))
      ensures out != Runs.Merged(true) ==> wmgr.events == old(wmgr.events)
      ensures !out.Refused? ==> wmgr.tdb == old(wmgr.tdb) - {tid}
    {
      hide Runs.Inv, Runs.Note, Stores.Store.WellLinked, IndexAgrees;
      if commit {
        out := st.Merge(tid);
      } else {
        out := st.Abort(tid);
      }
      if !out.Refused? { Settle(tid, out == Runs.Merged(true)); }
    }

    method Settle(tid: Tid, committed: bool)
      requires wmgr.Valid() && Tells() && tid != 0
      modifies this, wmgr
      ensures wmgr.Valid() && Tells() && wmgr.watches == old(wmgr.watches)
      ensures history == old(history) + [Ended(tid, committed)]
      ensures wmgr.events == old(wmgr.events) + if committed then old(wmgr.Out(tid)) else []
      ensures wmgr.tdb == old(wmgr.tdb) - {tid}
    {
      if committed {
        wmgr.FireTransaction(tid);
      } else {
        wmgr.AbortTransaction(tid);
      }
      history := history + [Ended(tid, committed)];
      assert history[..|history| - 1] == old(history);
    }

    method WatchAdd(w: Watch)
      requires Valid()
      modifies this, wmgr
      ensures Valid() && wmgr.watches == old(wmgr.watches) + {w}
      ensures history == old(history) + [Changed(0, [Notice(w.path, w, w.path)])]
    {
      wmgr.Add(w);
      history := history + [Changed(0, [Notice(w.path, w, w.path)])];
    }

    method WatchDel(w: Watch)
      requires Valid()
      modifies wmgr
      ensures Valid() && wmgr.watches == old(wmgr.watches) - {w}
    {
      wmgr.Del(w);
    }
  }
}
