/**
 The store as its clients see it: a tree of nodes, and what each operation does to it.
 This is the serial meaning that the direct accessors and the transactions are proved against.
 */
module Tree {
  import opened Paths

  datatype Permission = Permission(cid: nat, read: bool, write: bool)
  type Perms = seq<Permission>

  datatype Node = Node(value: string, perms: Perms, children: set<Name>)

  /** Only the valid entries are in the map. */
  type Tree = map<Path, Node>

  datatype Errno = ENOENT | EACCES | EINVAL

  datatype Op =
    | Create(cid: nat, path: Path)
    | Read(cid: nat, path: Path)
    | Update(cid: nat, path: Path, value: string)
    | Delete(cid: nat, path: Path)
    | GetChildren(cid: nat, path: Path)
    | GetPerms(cid: nat, path: Path)
    | SetPerms(cid: nat, path: Path, perms: Perms)

  datatype Reply =
    | Fail(err: Errno)
    | Done
    | Created(created: bool)
    | Value(value: string)
    | Children(names: set<Name>)
    | PermList(perms: Perms)

  const DEFAULT_PERMS: Perms := [Permission(0, false, false)]

  predicate HasReadAccess(cid: nat, perms: Perms) {
    cid == 0 || perms == [] || perms[0].cid == cid || perms[0].read
    || exists p | p in perms :: p.cid == cid && p.read
  }

  predicate HasWriteAccess(cid: nat, perms: Perms) {
    cid == 0 || perms == [] || perms[0].cid == cid || perms[0].write
    || exists p | p in perms :: p.cid == cid && p.write
  }

  ghost predicate Hangs(t: Tree, p: Path) {
    p.Sub? ==> p.parent in t && p.name in t[p.parent].children
  }

  /** Every listed child exists. */
  ghost predicate Closed(t: Tree) {
    forall p, n | p in t && n in t[p].children :: Sub(p, n) in t
  }

  /** Every node but a root hangs from a node that lists it, and every listed child exists. */
  ghost predicate WellFormed(t: Tree) {
    (forall p {:trigger Hangs(t, p)} | p in t :: Hangs(t, p)) && Closed(t)
  }

  // ------------------------------------------------------------- operations

  function AddName(t: Tree, p: Path): Tree {
    if p.Sub? && p.parent in t
    then t[p.parent := t[p.parent].(children := t[p.parent].children + {p.name})]
    else t
  }

  function DropName(t: Tree, p: Path): Tree {
    if p.Sub? && p.parent in t
    then t[p.parent := t[p.parent].(children := t[p.parent].children - {p.name})]
    else t
  }

  function ParentPerms(t: Tree, p: Path): Perms {
    if p.Sub? && p.parent in t then t[p.parent].perms else DEFAULT_PERMS
  }

  /** A new node: missing ancestors first, then the name in the parent, then the node itself. */
  function AddNode(t: Tree, p: Path, value: string): Tree {
    AddLeaf(if p.Sub? && p.parent !in t then AddNode(t, p.parent, "") else t, p, value)
  }

  function AddLeaf(t: Tree, p: Path, value: string): Tree {
    var listed := AddName(t, p);
    listed[p := Node(value, ParentPerms(listed, p), {})]
  }

  /** The child lists lead from p down to q. */
  predicate Reached(t: Tree, q: Path, p: Path): (r: bool)
    ensures r ==> Below(q, p)
  {
    q.Sub? && q.parent in t && q.name in t[q.parent].children && (q.parent == p || Reached(t, q.parent, p))
  }

  /** p and everything its child lists lead to go away, and p's parent forgets p's name. */
  function RemoveBranch(t: Tree, p: Path): Tree {
    DropName(map q | q in t && q != p && !Reached(t, q, p) :: t[q], p)
  }

  function Step(t: Tree, op: Op): (Tree, Reply) {
    var p := op.path;
    match op
    case Create(_, _) =>
      if p in t then (t, Created(false)) else (AddNode(t, p, ""), Created(true))
    case Update(cid, _, value) =>
      if p !in t then (AddNode(t, p, value), Done)
      else if !HasWriteAccess(cid, t[p].perms) then (t, Fail(EACCES))
      else (t[p := t[p].(value := value)], Done)
    case Delete(cid, _) =>
      if p !in t then (t, Fail(ENOENT))
      else if !HasWriteAccess(cid, t[p].perms) then (t, Fail(EACCES))
      else (RemoveBranch(t, p), Done)
    case SetPerms(cid, _, perms) =>
      if p !in t then (t, Fail(ENOENT))
      else if !HasWriteAccess(cid, t[p].perms) then (t, Fail(EACCES))
      else (t[p := t[p].(perms := perms)], Done)
    case Read(cid, _) => (t, if p in t && HasReadAccess(cid, t[p].perms) then Value(t[p].value) else Refusal(t, p))
    case GetChildren(cid, _) => (t, if p in t && HasReadAccess(cid, t[p].perms) then Children(t[p].children) else Refusal(t, p))
    case GetPerms(cid, _) => (t, if p in t && HasReadAccess(cid, t[p].perms) then PermList(t[p].perms) else Refusal(t, p))
  }

  function Refusal(t: Tree, p: Path): Reply {
    if p in t then Fail(EACCES) else Fail(ENOENT)
  }

  /** Running operations one after another. */
  function Replay(t: Tree, ops: seq<Op>): (r: (Tree, seq<Reply>))
    ensures |r.1| == |ops|
  {
    if ops == [] then (t, [])
    else
      var before := Replay(t, ops[..|ops| - 1]);
      var last := Step(before.0, ops[|ops| - 1]);
      (last.0, before.1 + [last.1])
  }

  lemma ReplaySnoc(t: Tree, ops: seq<Op>, op: Op)
    ensures Replay(t, ops + [op]) ==
            (Step(Replay(t, ops).0, op).0, Replay(t, ops).1 + [Step(Replay(t, ops).0, op).1])
  {
  }

  lemma {:induction false} ReplayAppend(t: Tree, a: seq<Op>, b: seq<Op>)
    ensures Replay(t, a + b) == (Replay(Replay(t, a).0, b).0, Replay(t, a).1 + Replay(Replay(t, a).0, b).1)
  {
    hide Step;
    if b == [] {
      assert a + b == a;
      assert Replay(t, a).1 + [] == Replay(t, a).1;
    } else {
      var b0, op := b[..|b| - 1], b[|b| - 1];
      ReplayAppend(t, a, b0);
      ReplaySnoc(t, a + b0, op);
      ReplaySnoc(Replay(t, a).0, b0, op);
      assert b == b0 + [op] && a + b == (a + b0) + [op];
      var mid := Replay(t, a);
      hide Replay;
      assert mid.1 + (Replay(mid.0, b0).1 + [Step(Replay(mid.0, b0).0, op).1])
          == (mid.1 + Replay(mid.0, b0).1) + [Step(Replay(mid.0, b0).0, op).1];
    }
  }

  // ------------------------------------------------------------- well-formed trees

  /** In a well-formed tree the child lists lead to everything that is below. */
  lemma {:induction false} BranchIsRooted(t: Tree, q: Path, p: Path)
    requires WellFormed(t) && q in t && Below(q, p)
    ensures Reached(t, q, p) && p in t && Toward(q, p) in t[p].children
  {
    assert Hangs(t, q);
    if q.parent != p { BranchIsRooted(t, q.parent, p); }
  }

  lemma {:induction false} ReachedFromTop(t: Tree, q: Path, p: Path)
    requires Reached(t, q, p)
    ensures p in t && Toward(q, p) in t[p].children
  {
    if q.parent != p { ReachedFromTop(t, q.parent, p); }
  }

  /** Reached from p is the same as at or reached from one of p's listed children. */
  lemma {:induction false} ReachedChild(t: Tree, q: Path, p: Path, c: Name)
    requires p in t && c in t[p].children
    ensures (q == Sub(p, c) || Reached(t, q, Sub(p, c))) <==> (Reached(t, q, p) && Toward(q, p) == c)
  {
    if q.Sub? {
      ReachedChild(t, q.parent, p, c);
      if Below(q.parent, p) { BelowIsDeeper(q.parent, p); }
    }
  }

  /** What is reached from p depends on the lists of p and of what is reached. */
  lemma {:induction false} SameReach(t: Tree, u: Tree, q: Path, p: Path)
    requires forall r | r == p || Reached(t, r, p) :: (r in t <==> r in u) && (r in t ==> u[r].children == t[r].children)
    ensures Reached(u, q, p) <==> Reached(t, q, p)
  {
    if q.Sub? { SameReach(t, u, q.parent, p); }
  }

  /** The parent's permissions, or those of a root: nobody but client 0 may read or write. */
  ghost predicate Inherits(t: Tree, p: Path)
    requires p in t
  {
    t[p].perms == if p.Sub? && p.parent in t then t[p.parent].perms else [Permission(0, false, false)]
  }

  /** What AddNode leaves, told without its recursion: the missing ancestors and nothing else
      are new, they are empty and inherit their permissions, and old nodes gain at most one name. */
  ghost predicate IsBranchAdded(t: Tree, t': Tree, p: Path, value: string) {
    && (forall q :: q in t' <==> q in t || q == p || Below(p, q))
    && (forall q | q in t :: t'[q].value == t[q].value && t'[q].perms == t[q].perms)
    && (forall q | q in t' && q !in t ::
          t'[q].value == (if q == p then value else ""))
    && (forall q {:trigger Inherits(t', q)} | q in t' && q !in t :: Inherits(t', q))
    && (forall q | q in t' :: t'[q].children == (if q in t then t[q].children else {})
                                                + (if Below(p, q) then {Toward(p, q)} else {}))
  }

  lemma AddLeafKeepsTree(t: Tree, p: Path, value: string)
    requires WellFormed(t) && p !in t && (p.Sub? ==> p.parent in t)
    ensures WellFormed(AddLeaf(t, p, value))
  {
    var t' := AddLeaf(t, p, value);
    assert p.Sub? ==> p.parent != p;
    forall q | q in t' ensures Hangs(t', q) {
      if q != p { assert Hangs(t, q); }
    }
    forall q, n | q in t' && n in t'[q].children ensures Sub(q, n) in t' {
      if Sub(q, n) != p { assert q in t && n in t[q].children; }
    }
  }

  lemma {:induction false} AddNodeExact(t: Tree, p: Path, value: string)
    requires WellFormed(t) && p !in t
    ensures IsBranchAdded(t, AddNode(t, p, value), p, value)
    ensures WellFormed(AddNode(t, p, value))
  {
    forall q | Below(p, q) ensures q != p { BelowIsDeeper(p, q); }
    if p.Root? {
      AddLeafKeepsTree(t, p, value);
    } else if p.parent in t {
      AddLeafKeepsTree(t, p, value);
      forall q | Below(p.parent, q) ensures q in t && Toward(p.parent, q) in t[q].children {
        BranchIsRooted(t, p.parent, q);
      }
      forall q | Below(p, q) ensures q == p.parent || Below(p.parent, q) { }
    } else {
      AddNodeExact(t, p.parent, "");
      var branch := AddNode(t, p.parent, "");
      assert p !in branch by {
        if Below(p.parent, p) {
          BelowIsDeeper(p.parent, p);
          assert false;
        }
      }
      AddLeafKeepsTree(branch, p, value);
      AddLeafOnBranch(t, branch, p, value);
    }
  }

  lemma AddLeafOnBranch(t: Tree, branch: Tree, p: Path, value: string)
    requires p.Sub? && p !in t && p.parent !in t && p !in branch
    requires IsBranchAdded(t, branch, p.parent, "")
    ensures IsBranchAdded(t, AddLeaf(branch, p, value), p, value)
  {
    var t' := AddLeaf(branch, p, value);
    forall q ensures Below(p, q) ==> q != p { if Below(p, q) { BelowIsDeeper(p, q); } }
    forall q ensures Below(p.parent, q) ==> q != p.parent { if Below(p.parent, q) { BelowIsDeeper(p.parent, q); } }
    assert t'.Keys == branch.Keys + {p};
    forall q ensures Below(p, q) <==> q == p.parent || Below(p.parent, q) { }
    forall q | q in t' && q != p ensures
      t'[q].children == (if q in t then t[q].children else {}) + (if Below(p, q) then {Toward(p, q)} else {})
    {
      assert q in branch;
      assert q != p.parent ==> t'[q].children == branch[q].children;
    }
    forall q | q in t' && q !in t ensures Inherits(t', q) {
      if q != p {
        assert Inherits(branch, q);
        if q.Sub? && q.parent == p { NotBetween(p, q); }
      }
    }
  }

  lemma NotBetween(p: Path, q: Path)
    requires p.Sub? && q.Sub? && q.parent == p
    ensures q != p.parent && !Below(p.parent, q)
  {
    assert Below(q, p);
    BelowIsDeeper(q, p);
    if Below(p.parent, q) { BelowIsDeeper(p.parent, q); }
  }

  /** The tree once the branches of the children `gone` of p have been removed. */
  ghost function Without(t: Tree, p: Path, gone: set<Name>): Tree {
    map q | q in t && !(Reached(t, q, p) && Toward(q, p) in gone) ::
      if q == p then t[q].(children := t[q].children - gone) else t[q]
  }

  lemma WithoutNone(t: Tree, p: Path)
    ensures Without(t, p, {}) == t
  {
    assert forall q | q in t :: t[q].(children := t[q].children - {}) == t[q];
  }

  /** Removing one more child's branch. */
  lemma WithoutOneMore(t: Tree, p: Path, gone: set<Name>, c: Name)
    requires Closed(t) && p in t && c in t[p].children && c !in gone
    ensures Sub(p, c) in Without(t, p, gone)
    ensures RemoveBranch(Without(t, p, gone), Sub(p, c)) == Without(t, p, gone + {c})
  {
    var u := Without(t, p, gone);
    var child := Sub(p, c);
    NotBelowItself(p);
    assert !Below(p, child) by { if Below(p, child) { BelowIsDeeper(p, child); BelowIsDeeper(child, p); } }
    forall q ensures (q == child || Reached(t, q, child)) <==> (Reached(t, q, p) && Toward(q, p) == c) { ReachedChild(t, q, p, c); }
    forall q ensures Reached(u, q, child) <==> Reached(t, q, child) { SameReach(t, u, q, child); }
    var v := RemoveBranch(u, child);
    var w := Without(t, p, gone + {c});
    assert v.Keys == w.Keys;
    forall q | q in v ensures v[q] == w[q] {
      if q == p { assert t[p].children - gone - {c} == t[p].children - (gone + {c}); }
    }
  }

  lemma NotBelowItself(p: Path)
    ensures !Below(p, p) && (p.Sub? ==> !Below(p.parent, p))
  {
    forall q | Below(q, p) ensures Depth(p) < Depth(q) { BelowIsDeeper(q, p); }
  }

  /** Removing every child's branch, then the name in the parent, then the node is RemoveBranch. */
  lemma WithoutAll(t: Tree, p: Path)
    requires p in t
    ensures DropName(Without(t, p, t[p].children), p) - {p} == RemoveBranch(t, p)
  {
    var u := Without(t, p, t[p].children);
    var rest := map q | q in t && q != p && !Reached(t, q, p) :: t[q];
    forall q | Reached(t, q, p) ensures Toward(q, p) in t[p].children { ReachedFromTop(t, q, p); }
    assert u - {p} == rest;
    NotBelowItself(p);
  }

  /** A delete keeps every list truthful. */
  lemma RemoveBranchKeepsClosed(t: Tree, p: Path)
    requires Closed(t) && p in t
    ensures Closed(RemoveBranch(t, p))
  {
    var t' := RemoveBranch(t, p);
    NotBelowItself(p);
    forall q, n | q in t' && n in t'[q].children ensures Sub(q, n) in t' {
      assert n in t[q].children && !Reached(t, q, p);
    }
  }

  lemma RemoveBranchNodes(t: Tree, p: Path)
    requires WellFormed(t) && p in t
    ensures var t' := RemoveBranch(t, p);
      && (forall q :: q in t' <==> q in t && q != p && !Below(q, p))
      && (forall q | q in t' :: t'[q].value == t[q].value && t'[q].perms == t[q].perms)
      && (forall q | q in t' :: t'[q].children ==
            if p.Sub? && q == p.parent then t[q].children - {p.name} else t[q].children)
  {
    forall q | q in t ensures Reached(t, q, p) <==> Below(q, p) { if Below(q, p) { BranchIsRooted(t, q, p); } }
  }

  /** A delete takes out exactly the branch; every other node keeps its value and permissions,
      and only the parent's child list changes, by one name. */
  lemma RemoveBranchExact(t: Tree, p: Path)
    requires WellFormed(t) && p in t
    ensures var t' := RemoveBranch(t, p);
      && WellFormed(t')
      && (forall q :: q in t' <==> q in t && q != p && !Below(q, p))
      && (forall q | q in t' :: t'[q].value == t[q].value && t'[q].perms == t[q].perms)
      && (forall q | q in t' :: t'[q].children ==
            if p.Sub? && q == p.parent then t[q].children - {p.name} else t[q].children)
  {
    hide RemoveBranch;
    var t' := RemoveBranch(t, p);
    RemoveBranchNodes(t, p);
    forall q | q in t' ensures Hangs(t', q) {
      assert Hangs(t, q);
    }
    RemoveBranchKeepsClosed(t, p);
  }

  /** u is t with the branches of some children of p removed, and `names` are the other children. */
  ghost predicate Midway(t: Tree, p: Path, names: set<Name>, u: Tree) {
    && Closed(t) && Closed(u) && p in t && names <= t[p].children
    && u == Without(t, p, t[p].children - names)
  }

  lemma MidwayStart(t: Tree, p: Path)
    requires Closed(t) && p in t
    ensures Midway(t, p, t[p].children, t)
  {
    WithoutNone(t, p);
    assert t[p].children - t[p].children == {};
  }

  lemma MidwayIsClosed(t: Tree, p: Path, names: set<Name>, u: Tree)
    requires Midway(t, p, names, u)
    ensures Closed(u)
    ensures names == {} ==> u == Without(t, p, t[p].children)
  {
    if names == {} { assert t[p].children - {} == t[p].children; }
  }

  lemma MidwayStep(t: Tree, p: Path, names: set<Name>, u: Tree, c: Name)
    requires Midway(t, p, names, u) && c in names
    ensures Sub(p, c) in u && Midway(t, p, names - {c}, RemoveBranch(u, Sub(p, c)))
  {
    WithoutOneMore(t, p, t[p].children - names, c);
    RemoveBranchKeepsClosed(u, Sub(p, c));
    assert t[p].children - names + {c} == t[p].children - (names - {c});
  }

  lemma {:induction false} AddNodeKeepsClosed(t: Tree, p: Path, value: string)
    requires Closed(t) && p !in t
    ensures Closed(AddNode(t, p, value)) && p in AddNode(t, p, value)
  {
    var branch := if p.Sub? && p.parent !in t then AddNode(t, p.parent, "") else t;
    if p.Sub? && p.parent !in t { AddNodeKeepsClosed(t, p.parent, ""); }
  }

  /** Every operation keeps the lists truthful, whether or not every node hangs from its parent. */
  lemma StepKeepsClosed(t: Tree, op: Op)
    requires Closed(t)
    ensures Closed(Step(t, op).0)
  {
    hide AddNode, RemoveBranch;
    var p := op.path;
    if op.Create? && p !in t { AddNodeKeepsClosed(t, p, ""); }
    if op.Update? && p !in t { AddNodeKeepsClosed(t, p, op.value); }
    if op.Delete? && p in t { RemoveBranchKeepsClosed(t, p); }
  }

  lemma StepKeepsTree(t: Tree, op: Op)
    requires WellFormed(t)
    ensures WellFormed(Step(t, op).0)
  {
    var p := op.path;
    if op.Create? && p !in t { AddNodeExact(t, p, ""); }
    else if op.Update? && p !in t { AddNodeExact(t, p, op.value); }
    else if op.Delete? && p in t { RemoveBranchExact(t, p); }
    else {
      var t' := Step(t, op).0;
      forall q | q in t' ensures Hangs(t', q) { assert Hangs(t, q); }
    }
  }

  lemma {:induction false} ReplayKeepsTree(t: Tree, ops: seq<Op>)
    requires WellFormed(t)
    ensures WellFormed(Replay(t, ops).0)
  {
    if ops != [] {
      ReplayKeepsTree(t, ops[..|ops| - 1]);
      StepKeepsTree(Replay(t, ops[..|ops| - 1]).0, ops[|ops| - 1]);
    }
  }

  lemma {:induction false} ReplayKeepsClosed(t: Tree, ops: seq<Op>)
    requires Closed(t)
    ensures Closed(Replay(t, ops).0)
  {
    if ops != [] {
      ReplayKeepsClosed(t, ops[..|ops| - 1]);
      StepKeepsClosed(Replay(t, ops[..|ops| - 1]).0, ops[|ops| - 1]);
    }
  }
}
