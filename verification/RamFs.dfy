/**
  The RAM file system (src/fs/ramfs.cpp): a pool of nodes linked into a tree by parent, first-child and
  next-sibling links. A node is its place in the pool; a new node becomes the first child of its parent.
 */
module RamFs {

  import opened Common

  const POOL: nat := 128
  const NAME_MAX: nat := 127

  /** A link of -1 is the null pointer. */
  datatype Node = Node(name: string, dir: bool, parent: nat, next: int, child: int)

  type Tree = seq<Node>

  /** The youngest child of d below the place i, or -1. */
  function YoungestBelow(t: Tree, d: nat, i: nat): (r: int)
    requires i <= |t|
    ensures -1 <= r < i && r != 0
    ensures r > 0 ==> t[r].parent == d
    ensures forall k :: 0 < k < i && k > r ==> t[k].parent != d
  {
    if i <= 1 then -1 else if t[i - 1].parent == d then i - 1 else YoungestBelow(t, d, i - 1)
  }

  ghost predicate NodeOk(t: Tree, i: nat)
    requires i < |t|
  {
    && t[i].parent <= i && (i > 0 ==> t[i].parent < i) && t[t[i].parent].dir
    && t[i].next == (if i == 0 then -1 else YoungestBelow(t, t[i].parent, i))
    && t[i].child == YoungestBelow(t, i, |t|)
  }

  /** The root is its own parent; every list of children runs from the youngest to the oldest. */
  ghost predicate TreeOk(t: Tree) {
    && |t| >= 1 && t[0].dir && forall i :: 0 <= i < |t| ==> NodeOk(t, i)
  }

  // ---------- Creation ----------

  function RootTree(): Tree { [Node("/", true, 0, -1, -1)] }

  /** A new node in front of its siblings. */
  function Created(t: Tree, parent: nat, name: string, dir: bool): Tree
    requires parent < |t|
  {
    t[parent := t[parent].(child := |t|)] + [Node(name, dir, parent, t[parent].child, -1)]
  }

  lemma {:induction false} YoungestKept(t: Tree, t': Tree, d: nat, i: nat)
    requires i <= |t| <= |t'| && forall k :: 0 <= k < |t| ==> t'[k].parent == t[k].parent
    ensures YoungestBelow(t', d, i) == YoungestBelow(t, d, i)
  {
    if i > 1 && t[i - 1].parent != d { YoungestKept(t, t', d, i - 1); }
  }

  /** The nodes that were there keep their places in their lists; the parent's list begins with the new one. */
  lemma OldNodeOk(t: Tree, parent: nat, name: string, dir: bool, i: nat)
    requires TreeOk(t) && parent < |t| && t[parent].dir && i < |t|
    ensures NodeOk(Created(t, parent, name, dir), i)
  {
    var t' := Created(t, parent, name, dir);
    assert NodeOk(t, i);
    YoungestKept(t, t', t[i].parent, i);
    YoungestKept(t, t', i, |t|);
  }

  lemma NewNodeOk(t: Tree, parent: nat, name: string, dir: bool)
    requires TreeOk(t) && parent < |t| && t[parent].dir
    ensures NodeOk(Created(t, parent, name, dir), |t|)
  {
    var t' := Created(t, parent, name, dir);
    assert NodeOk(t, parent);
    YoungestKept(t, t', parent, |t|);
    forall k | 0 < k < |t'| ensures t'[k].parent != |t| {
      if k < |t| { assert NodeOk(t, k); }
    }
    NoChildren(t', |t|, |t'|);
  }

  lemma CreatedKeepsTree(t: Tree, parent: nat, name: string, dir: bool)
    requires TreeOk(t) && parent < |t| && t[parent].dir
    ensures TreeOk(Created(t, parent, name, dir))
  {
    var t' := Created(t, parent, name, dir);
    hide NodeOk;
    forall i | 0 <= i < |t'| ensures NodeOk(t', i) {
      if i < |t| { OldNodeOk(t, parent, name, dir, i); } else { NewNodeOk(t, parent, name, dir); }
    }
  }

  lemma {:induction false} NoChildren(t: Tree, d: nat, i: nat)
    requires i <= |t| && forall k :: 0 < k < i ==> t[k].parent != d
    ensures YoungestBelow(t, d, i) == -1
  {
    if i > 1 { NoChildren(t, d, i - 1); }
  }

  // ---------- Lookup ----------

  /** The youngest child of d below the place i that has this name. */
  function LookupBelow(t: Tree, d: nat, name: string, i: nat): (r: int)
    requires i <= |t|
    ensures -1 <= r < i && r != 0
    ensures r > 0 ==> t[r].parent == d && t[r].name == name
    ensures forall k :: 0 < k < i && k > r ==> !(t[k].parent == d && t[k].name == name)
  {
    if i <= 1 then -1
    else if t[i - 1].parent == d && t[i - 1].name == name then i - 1
    else LookupBelow(t, d, name, i - 1)
  }

  /** The child of d with this name that was created last, if d is a directory and has one. */
  function Lookup(t: Tree, d: nat, name: string): (r: Option<nat>)
    requires d < |t|
    ensures r.Some? ==> 0 < r.value < |t| && t[r.value].parent == d && t[r.value].name == name
  {
    var i := LookupBelow(t, d, name, |t|);
    if !t[d].dir || i == -1 then None else Some(i)
  }

  /** A new node is found under its name, and hides only an older namesake. */
  lemma CreatedIsFound(t: Tree, parent: nat, name: string, dir: bool, d: nat, other: string)
    requires TreeOk(t) && parent < |t| && t[parent].dir && d < |t|
    ensures var t' := Created(t, parent, name, dir);
            Lookup(t', d, other) == if d == parent && other == name then Some(|t|) else Lookup(t, d, other)
  {
    LookupKept(t, Created(t, parent, name, dir), d, other, |t|);
  }

  lemma {:induction false} LookupKept(t: Tree, t': Tree, d: nat, name: string, i: nat)
    requires i <= |t| <= |t'| && forall k :: 0 <= k < |t| ==> t'[k].parent == t[k].parent && t'[k].name == t[k].name
    ensures LookupBelow(t', d, name, i) == LookupBelow(t, d, name, i)
  {
    if i > 1 { LookupKept(t, t', d, name, i - 1); }
  }

  /** The tree has one node more, with this name and kind below this parent; the others are what they were. */
  ghost predicate IsAdded(t: Tree, t': Tree, parent: nat, name: string, dir: bool) {
    && |t'| == |t| + 1 && t'[|t|].name == name && t'[|t|].dir == dir && t'[|t|].parent == parent
    && forall k :: 0 <= k < |t| ==>
         t'[k].name == t[k].name && t'[k].dir == t[k].dir && t'[k].parent == t[k].parent && t'[k].next == t[k].next
  }

  /** Between two neighbours in the list of children there is no other child. */
  lemma {:induction false} LookupSkips(t: Tree, d: nat, name: string, i: nat)
    requires i <= |t|
    ensures LookupBelow(t, d, name, i) == LookupBelow(t, d, name, YoungestBelow(t, d, i) + 1)
  {
    if i > 1 && t[i - 1].parent != d { LookupSkips(t, d, name, i - 1); }
  }

  class RamFs {
    var nodes: Tree

    ghost predicate Valid()
      reads this
    {
      TreeOk(nodes) && |nodes| <= POOL
    }

    /** ramfs_create_root */
    constructor ()
      ensures Valid() && nodes == RootTree()
    {
      nodes := RootTree();
    }

    /** ramfs_create_file and ramfs_create_dir; memory says whether kmalloc finds room for the node. */
    method Create(parent: nat, name: string, dir: bool, memory: bool) returns (r: Option<nat>)
      requires Valid() && parent < |nodes| && |name| <= NAME_MAX
      modifies this
      ensures Valid()
      ensures r.Some? <==> old(nodes)[parent].dir && |old(nodes)| < POOL && memory
      ensures nodes == if r.Some? then Created(old(nodes), parent, name, dir) else old(nodes)
      ensures r.Some? ==> r.value == |old(nodes)| && IsAdded(old(nodes), nodes, parent, name, dir)
    {
      if !nodes[parent].dir { return None; }
      if |nodes| >= POOL || !memory { return None; }
      CreatedKeepsTree(nodes, parent, name, dir);
      var n := |nodes|;
      nodes := nodes + [Node(name, dir, parent, -1, -1)];
      nodes := nodes[n := nodes[n].(next := nodes[parent].child)];
      nodes := nodes[parent := nodes[parent].(child := n)];
      assert nodes == Created(old(nodes), parent, name, dir);
      return Some(n);
    }

    /** ramfs_finddir: walks the list of children. */
    method FindDir(d: nat, name: string) returns (r: Option<nat>)
      requires Valid() && d < |nodes|
      ensures r == Lookup(nodes, d, name)
    {
      if !nodes[d].dir { return None; }
      assert NodeOk(nodes, d);
      LookupSkips(nodes, d, name, |nodes|);
      var cur := nodes[d].child;
      while cur != -1
        invariant -1 <= cur < |nodes| && cur != 0 && (cur > 0 ==> nodes[cur].parent == d)
        invariant LookupBelow(nodes, d, name, |nodes|) == LookupBelow(nodes, d, name, cur + 1)
        decreases cur
      {
        if nodes[cur].name == name { return Some(cur); }
        assert NodeOk(nodes, cur);
        LookupSkips(nodes, d, name, cur);
        cur := nodes[cur].next;
      }
      return None;
    }
  }
}
