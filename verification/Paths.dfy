/**
  Path resolution (src/fs/vfs.cpp) over the RAM file system, mount points, and the shell's `pwd`
  (src/shell/shell.cpp:859-894).
 */
module Paths {

  import opened Common
  import opened RamFs

  const COMPONENT_MAX: nat := 127

  // ---------- Components ----------

  /** The length of the next component: up to a slash, and never more than the component buffer holds. */
  function Reach(path: string, k: nat): (n: nat)
    requires k <= COMPONENT_MAX
    ensures n <= |path| && k + n <= COMPONENT_MAX
    ensures forall i :: 0 <= i < n ==> path[i] != '/'
    ensures n < |path| && k + n < COMPONENT_MAX ==> path[n] == '/'
    decreases |path|
  {
    if path == "" || path[0] == '/' || k == COMPONENT_MAX then 0 else 1 + Reach(path[1..], k + 1)
  }

  /** The components of a path; a longer one is cut into pieces of 127 characters. */
  function Components(path: string): seq<string>
    decreases |path|
  {
    if path == "" then []
    else if path[0] == '/' then Components(path[1..])
    else [path[..Reach(path, 0)]] + Components(path[Reach(path, 0)..])
  }

  lemma {:induction false} ReachAppend(p: string, q: string, k: nat)
    requires k <= COMPONENT_MAX
    ensures Reach(p + "/" + q, k) == Reach(p, k)
    decreases |p|
  {
    if p == "" {
      assert (p + "/" + q)[0] == '/';
    } else {
      ReachAppend(p[1..], q, if k < COMPONENT_MAX then k + 1 else k);
      assert (p + "/" + q)[1..] == p[1..] + "/" + q;
    }
  }

  /** A slash separates: the components of p/q are those of p, then those of q, whatever p and q are. */
  lemma {:induction false} ComponentsAppend(p: string, q: string)
    ensures Components(p + "/" + q) == Components(p) + Components(q)
    decreases |p|
  {
    hide Reach;
    var path := p + "/" + q;
    if p == "" {
      assert path[1..] == q;
    } else if p[0] == '/' {
      assert path[1..] == p[1..] + "/" + q;
      ComponentsAppend(p[1..], q);
    } else {
      ReachAppend(p, q, 0);
      var n := Reach(p, 0);
      assert path[n..] == p[n..] + "/" + q && path[..n] == p[..n];
      ComponentsAppend(p[n..], q);
    }
  }

  // ---------- Resolution ----------

  function Step(t: Tree, cur: nat, c: string): (r: Option<nat>)
    requires cur < |t| && t[cur].parent < |t|
    ensures r.Some? ==> r.value < |t|
  {
    if c == "." then Some(cur) else if c == ".." then Some(t[cur].parent) else Lookup(t, cur, c)
  }

  ghost predicate ParentsIn(t: Tree) { forall i :: 0 <= i < |t| ==> t[i].parent < |t| }

  /** One component after the other. */
  ghost function Follow(t: Tree, cur: nat, cs: seq<string>): (r: Option<nat>)
    requires ParentsIn(t) && cur < |t|
    ensures r.Some? ==> r.value < |t|
    decreases |cs|
  {
    if cs == [] then Some(cur)
    else
      match Step(t, cur, cs[0])
      case None => None
      case Some(next) => Follow(t, next, cs[1..])
  }

  lemma {:induction false} FollowAppend(t: Tree, cur: nat, a: seq<string>, b: seq<string>)
    requires ParentsIn(t) && cur < |t|
    ensures Follow(t, cur, a + b) ==
            match Follow(t, cur, a) case None => None case Some(mid) => Follow(t, mid, b)
    decreases |a|
  {
    if a == [] {
      assert a + b == b;
    } else {
      assert (a + b)[0] == a[0] && (a + b)[1..] == a[1..] + b;
      var next := Step(t, cur, a[0]);
      if next.Some? { FollowAppend(t, next.value, a[1..], b); }
    }
  }

  /** What a walk over a path comes to. */
  ghost function Walked(t: Tree, cur: nat, path: string): Option<nat>
    requires ParentsIn(t) && cur < |t|
  {
    Follow(t, cur, Components(path))
  }

  /** Resolution composes: walking p/q is walking p and from there q. */
  lemma WalkComposes(t: Tree, cur: nat, p: string, q: string)
    requires ParentsIn(t) && cur < |t|
    ensures Walked(t, cur, p + "/" + q) ==
            match Walked(t, cur, p) case None => None case Some(mid) => Walked(t, mid, q)
  {
    ComponentsAppend(p, q);
    FollowAppend(t, cur, Components(p), Components(q));
  }

  lemma TreeParents(t: Tree)
    requires TreeOk(t)
    ensures ParentsIn(t)
  {
    forall i | 0 <= i < |t| ensures t[i].parent < |t| { assert NodeOk(t, i); }
  }

  /** The loop that vfs_resolve and vfs_resolve_relative share. */
  method Walk(fs: RamFs, base: nat, path: string) returns (r: Option<nat>)
    requires fs.Valid() && base < |fs.nodes| && ParentsIn(fs.nodes)
    ensures r == Walked(fs.nodes, base, path)
  {
    hide Components, LookupBelow, NodeOk;
    var current: nat, i: nat := base, 0;
    assert path[0..] == path;
    while i < |path|
      invariant 0 <= i <= |path| && current < |fs.nodes|
      invariant Walked(fs.nodes, base, path) == Walked(fs.nodes, current, path[i..])
      decreases |path| - i
    {
      i := SkipSlashes(path, i);
      if i == |path| { break; }
      var component;
      component, i := TakeComponent(path, i);
      if component == "." { continue; }
      if component == ".." {
        current := fs.nodes[current].parent;
        continue;
      }
      var next := fs.FindDir(current, component);
      if next.None? { return None; }
      current := next.value;
    }
    assert path[i..] == "";
    NoComponents();
    return Some(current);
  }

  lemma NoComponents()
    ensures Components("") == []
  {
  }

  /** Copies the next component. */
  method TakeComponent(path: string, start: nat) returns (component: string, i: nat)
    requires start < |path| && path[start] != '/'
    ensures start < i <= |path| && Components(path[start..]) == [component] + Components(path[i..])
  {
    i := start;
    component := "";
    while i < |path| && path[i] != '/' && |component| < COMPONENT_MAX
      invariant start <= i <= |path| && i - start <= COMPONENT_MAX && component == path[start..i]
      invariant forall k :: start <= k < i ==> path[k] != '/'
    {
      component := component + [path[i]];
      i := i + 1;
    }
    NextComponent(path, start, i);
  }

  method SkipSlashes(path: string, from: nat) returns (i: nat)
    requires from < |path|
    ensures from <= i <= |path| && (i < |path| ==> path[i] != '/')
    ensures Components(path[from..]) == Components(path[i..])
  {
    i := from;
    while i < |path| && path[i] == '/'
      invariant from <= i <= |path| && Components(path[from..]) == Components(path[i..])
    {
      assert path[i..][1..] == path[i + 1..];
      i := i + 1;
    }
  }

  lemma NextComponent(path: string, start: nat, i: nat)
    requires start < i <= |path| && i - start <= COMPONENT_MAX && forall k :: start <= k < i ==> path[k] != '/'
    requires i < |path| && i - start < COMPONENT_MAX ==> path[i] == '/'
    ensures Components(path[start..]) == [path[start..i]] + Components(path[i..])
  {
    hide Reach;
    var rest := path[start..];
    var n := Reach(rest, 0);
    assert forall k :: 0 <= k < |rest| ==> rest[k] == path[start + k];
    assert i < |path| ==> rest[i - start] == path[i];
    assert n == i - start;
    assert rest[..n] == path[start..i] && rest[n..] == path[i..];
  }

  // ---------- pwd ----------

  const MAX_DEPTH: nat := 64
  const PATH_MAX: nat := 256

  /** d and its ancestors below the root, at most n of them, from d upwards. */
  ghost function Up(t: Tree, d: nat, n: nat): (r: seq<nat>)
    requires TreeOk(t) && d < |t|
    ensures forall k :: 0 <= k < |r| ==> 0 < r[k] < |t|
    decreases n
  {
    if d == 0 || n == 0 then [] else assert NodeOk(t, d); [d] + Up(t, t[d].parent, n - 1)
  }

  ghost function Depth(t: Tree, d: nat): nat
    requires TreeOk(t) && d < |t|
    decreases d
  {
    if d == 0 then 0 else assert NodeOk(t, d); 1 + Depth(t, t[d].parent)
  }

  /** The names from the topmost node down, with slashes between them. */
  function Joined(t: Tree, up: seq<nat>): string
    requires forall k :: 0 <= k < |up| ==> up[k] < |t|
  {
    if up == [] then "" else if |up| == 1 then t[up[0]].name else Joined(t, up[1..]) + "/" + t[up[0]].name
  }

  function NamesDown(t: Tree, up: seq<nat>): seq<string>
    requires forall k :: 0 <= k < |up| ==> up[k] < |t|
  {
    if up == [] then [] else NamesDown(t, up[1..]) + [t[up[0]].name]
  }

  /** What pwd prints for d. */
  ghost function PwdText(t: Tree, d: nat): string
    requires TreeOk(t) && d < |t|
  {
    "/" + Joined(t, Up(t, d, MAX_DEPTH))
  }

  /** A name that is one component and means the child of that name. */
  predicate Ordinary(name: string) {
    0 < |name| <= COMPONENT_MAX && '/' !in name && name != "." && name != ".."
  }

  lemma OneComponent(name: string)
    requires 0 < |name| <= COMPONENT_MAX && '/' !in name
    ensures Components(name) == [name]
  {
    hide Reach;
    var n := Reach(name, 0);
    assert n == |name| by { assert forall k :: 0 <= k < |name| ==> name[k] in name; }
    assert name[..n] == name && name[n..] == "";
  }

  /** The components of the joined names are the names. */
  lemma {:induction false} ComponentsOfJoined(t: Tree, up: seq<nat>)
    requires forall k :: 0 <= k < |up| ==> up[k] < |t| && Ordinary(t[up[k]].name)
    ensures Components(Joined(t, up)) == NamesDown(t, up)
    decreases |up|
  {
    if up != [] {
      var name := t[up[0]].name;
      OneComponent(name);
      hide Components;
      if |up| == 1 {
        assert NamesDown(t, up[1..]) == [];
      } else {
        ComponentsAppend(Joined(t, up[1..]), name);
        ComponentsOfJoined(t, up[1..]);
      }
    } else {
      NoComponents();
    }
  }

  /** Every node of the list is the one that its name finds, not a namesake created before it. */
  ghost predicate Visible(t: Tree, up: seq<nat>)
    requires forall k :: 0 <= k < |up| ==> up[k] < |t| && t[up[k]].parent < |t|
  {
    forall k :: 0 <= k < |up| ==> Lookup(t, t[up[k]].parent, t[up[k]].name) == Some(up[k])
  }

  lemma {:induction false} FollowDown(t: Tree, d: nat, n: nat)
    requires TreeOk(t) && ParentsIn(t) && d < |t| && Depth(t, d) <= n
    requires forall k :: 0 <= k < |Up(t, d, n)| ==> Ordinary(t[Up(t, d, n)[k]].name)
    ensures Follow(t, 0, NamesDown(t, Up(t, d, n))) == Some(d) <==> Visible(t, Up(t, d, n))
    decreases n
  {
    if d != 0 {
      assert NodeOk(t, d);
      var p, name := t[d].parent, t[d].name;
      var up, above := Up(t, d, n), Up(t, p, n - 1);
      assert up[1..] == above && up[0] == d;
      assert forall k :: 0 <= k < |above| ==> above[k] == up[k + 1];
      FollowDown(t, p, n - 1);
      FollowAppend(t, 0, NamesDown(t, above), [name]);
      VisibleCons(t, d, above);
      hide Lookup, NodeOk;
      var mid := Follow(t, 0, NamesDown(t, above));
      if mid.Some? { FollowOne(t, mid.value, name); }
    }
  }

  lemma FollowOne(t: Tree, x: nat, name: string)
    requires ParentsIn(t) && x < |t|
    ensures Follow(t, x, [name]) == Step(t, x, name)
    ensures Ordinary(name) ==> Follow(t, x, [name]) == Lookup(t, x, name)
  {
    assert [name][1..] == [];
  }

  lemma VisibleCons(t: Tree, d: nat, above: seq<nat>)
    requires ParentsIn(t) && d < |t| && forall k :: 0 <= k < |above| ==> above[k] < |t|
    ensures Visible(t, [d] + above) <==> Visible(t, above) && Lookup(t, t[d].parent, t[d].name) == Some(d)
  {
    var up := [d] + above;
    assert up[0] == d && forall k :: 0 <= k < |above| ==> above[k] == up[k + 1];
  }

  /**
    The round trip: the path that pwd prints, walked from the root, leads back to the directory exactly when
    no node on the way has been hidden by a namesake.
   */
  lemma PwdRoundTrip(t: Tree, d: nat)
    requires TreeOk(t) && ParentsIn(t) && d < |t| && Depth(t, d) <= MAX_DEPTH
    requires forall k :: 0 <= k < |Up(t, d, MAX_DEPTH)| ==> Ordinary(t[Up(t, d, MAX_DEPTH)[k]].name)
    ensures Walked(t, 0, PwdText(t, d)) == Some(d) <==> Visible(t, Up(t, d, MAX_DEPTH))
  {
    hide Up, Joined, Follow;
    var up := Up(t, d, MAX_DEPTH);
    ComponentsOfJoined(t, up);
    ComponentsAppend("", Joined(t, up));
    NoComponents();
    hide Components;
    assert "" + "/" + Joined(t, up) == PwdText(t, d);
    FollowDown(t, d, MAX_DEPTH);
  }

  /** A dot stays, and two dots undo a step down; at the root they stay. */
  lemma DotsUndo(t: Tree, cur: nat, name: string)
    requires TreeOk(t) && ParentsIn(t) && cur < |t| && Ordinary(name)
    ensures Walked(t, cur, ".") == Some(cur) && Walked(t, 0, "..") == Some(0)
    ensures Walked(t, cur, name + "/" + "..") == if Lookup(t, cur, name).Some? then Some(cur) else None
  {
    assert NodeOk(t, 0);
    OneComponent(".");
    OneComponent("..");
    OneComponent(name);
    hide Components;
    FollowOne(t, cur, ".");
    FollowOne(t, 0, "..");
    WalkComposes(t, cur, name, "..");
    FollowOne(t, cur, name);
    var child := Lookup(t, cur, name);
    if child.Some? { FollowOne(t, child.value, ".."); }
  }

  /** Where siblings have different names nothing is hidden. */
  lemma UniqueIsVisible(t: Tree, up: seq<nat>)
    requires TreeOk(t) && ParentsIn(t) && forall k :: 0 <= k < |up| ==> 0 < up[k] < |t|
    requires forall i, j :: 0 < i < j < |t| && t[i].parent == t[j].parent ==> t[i].name != t[j].name
    ensures Visible(t, up)
  {
    forall k | 0 <= k < |up| ensures Lookup(t, t[up[k]].parent, t[up[k]].name) == Some(up[k]) {
      assert NodeOk(t, up[k]);
    }
  }

  /** The pwd branch of the shell, for a path that fits the buffer. */
  method Pwd(fs: RamFs, cwd: nat) returns (text: string)
    requires fs.Valid() && cwd < |fs.nodes| && |PwdText(fs.nodes, cwd)| < PATH_MAX
    ensures text == PwdText(fs.nodes, cwd)
  {
    hide Up;
    UpStep(fs.nodes, cwd, MAX_DEPTH);
    if fs.nodes[cwd].parent == cwd { return "/"; }
    var nodes := new nat[MAX_DEPTH];
    var ni := Collect(fs, cwd, nodes);
    text := Print(fs, nodes, ni);
  }

  /** Prints a slash and the names, the topmost first, with slashes between them. */
  method Print(fs: RamFs, nodes: array<nat>, ni: nat) returns (text: string)
    requires 0 < ni <= nodes.Length && forall k :: 0 <= k < ni ==> nodes[k] < |fs.nodes|
    requires |Joined(fs.nodes, nodes[..ni])| + 1 < PATH_MAX
    ensures text == "/" + Joined(fs.nodes, nodes[..ni])
  {
    ghost var t, up := fs.nodes, nodes[..ni];
    var path := new char[PATH_MAX];
    path[0] := '/';
    var pi: nat, i: nat := 1, ni;
    PrintedEnds(t, up);
    hide Joined, Printed;
    while i > 0
      invariant 0 <= i <= ni
      invariant pi == 1 + |Printed(t, up, i)| < PATH_MAX && path[..pi] == "/" + Printed(t, up, i)
    {
      i := i - 1;
      PrintedStep(t, up, i);
      PrintedFits(t, up, i);
      ghost var before := path[..pi];
      pi := CopyName(path, pi, fs.nodes[nodes[i]].name);
      if i > 0 {
        path[pi] := '/';
        pi := pi + 1;
        assert path[..pi] == before + t[up[i]].name + "/";
      }
    }
    text := path[..pi];
  }

  lemma PrintedEnds(t: Tree, up: seq<nat>)
    requires forall k :: 0 <= k < |up| ==> up[k] < |t|
    ensures Printed(t, up, |up|) == "" && Printed(t, up, 0) == Joined(t, up)
  {
    assert up[0..] == up;
  }

  /** The ancestors of cwd, upwards, until the root or until the array is full. */
  method Collect(fs: RamFs, cwd: nat, nodes: array<nat>) returns (ni: nat)
    requires fs.Valid() && cwd < |fs.nodes| && nodes.Length == MAX_DEPTH
    modifies nodes
    ensures ni <= MAX_DEPTH && nodes[..ni] == Up(fs.nodes, cwd, MAX_DEPTH)
  {
    hide Up;
    ni := 0;
    var cur: nat := cwd;
    ghost var t := fs.nodes;
    assert [] + Up(t, cwd, MAX_DEPTH) == Up(t, cwd, MAX_DEPTH);
    while ni < MAX_DEPTH && fs.nodes[cur].parent != cur
      invariant ni <= MAX_DEPTH && cur < |t| && fs.nodes == t
      invariant Up(t, cwd, MAX_DEPTH) == nodes[..ni] + Up(t, cur, MAX_DEPTH - ni)
    {
      UpStep(t, cur, MAX_DEPTH - ni);
      assert NodeOk(t, cur);
      ghost var before := nodes[..ni];
      nodes[ni] := cur;
      cur := fs.nodes[cur].parent;
      ni := ni + 1;
      assert nodes[..ni] == before + [nodes[ni - 1]];
    }
    UpStep(t, cur, MAX_DEPTH - ni);
  }

  lemma UpStep(t: Tree, d: nat, n: nat)
    requires TreeOk(t) && d < |t|
    ensures t[d].parent < |t| && (t[d].parent == d <==> d == 0)
    ensures Up(t, d, n) == if d == 0 || n == 0 then [] else [d] + Up(t, t[d].parent, n - 1)
  {
    assert NodeOk(t, d);
  }

  method CopyName(path: array<char>, at: nat, name: string) returns (pi: nat)
    requires at + |name| <= path.Length
    modifies path
    ensures pi == at + |name| && path[..pi] == old(path[..at]) + name
  {
    var j := 0;
    pi := at;
    while j < |name|
      invariant 0 <= j <= |name| && pi == at + j && path[..pi] == old(path[..at]) + name[..j]
    {
      path[pi] := name[j];
      pi := pi + 1;
      j := j + 1;
    }
    assert name[..|name|] == name;
  }

  /** What has been printed when the i nearest nodes are still to come. */
  function Printed(t: Tree, up: seq<nat>, i: nat): string
    requires i <= |up| && forall k :: 0 <= k < |up| ==> up[k] < |t|
  {
    if i == |up| then "" else Joined(t, up[i..]) + if i > 0 then "/" else ""
  }

  lemma PrintedStep(t: Tree, up: seq<nat>, i: nat)
    requires i < |up| && forall k :: 0 <= k < |up| ==> up[k] < |t|
    ensures Printed(t, up, i) == Printed(t, up, i + 1) + t[up[i]].name + if i > 0 then "/" else ""
  {
    assert up[i..][1..] == up[i + 1..];
  }

  lemma {:induction false} PrintedFits(t: Tree, up: seq<nat>, i: nat)
    requires i < |up| && forall k :: 0 <= k < |up| ==> up[k] < |t|
    ensures |Printed(t, up, i)| <= |Joined(t, up)|
  {
    if i == 0 {
      assert up[0..] == up;
    } else {
      PrintedStep(t, up, i - 1);
      PrintedFits(t, up, i - 1);
    }
  }

  // ---------- Mounts ----------

  datatype Mount = Mount(path: string, root: nat, used: bool)

  /** The mount's path is the whole path, or is followed by a slash in it. */
  predicate Matches(m: Mount, path: string) {
    m.used && m.path <= path && (|path| == |m.path| || path[|m.path|] == '/')
  }

  /** The longest match, the first of equal ones. */
  ghost predicate Best(mounts: seq<Mount>, path: string, i: int) {
    && 0 <= i < |mounts| && Matches(mounts[i], path)
    && forall k :: 0 <= k < |mounts| && Matches(mounts[k], path) ==>
         |mounts[k].path| < |mounts[i].path| || (|mounts[k].path| == |mounts[i].path| && i <= k)
  }

  /** find_mount_root */
  method FindMount(mounts: array<Mount>, path: string) returns (best: int)
    ensures best == -1 || Best(mounts[..], path, best)
    ensures best == -1 <==> forall i :: 0 <= i < mounts.Length ==> !Matches(mounts[i], path)
  {
    best := -1;
    var bestLen: int := -1;
    var i := 0;
    while i < mounts.Length
      invariant 0 <= i <= mounts.Length
      invariant best == -1 || Best(mounts[..i], path, best)
      invariant best == -1 <==> forall k :: 0 <= k < i ==> !Matches(mounts[k], path)
      invariant bestLen == if best == -1 then -1 else |mounts[best].path|
    {
      if mounts[i].used {
        var len := CommonLength(mounts[i].path, path);
        if len == |mounts[i].path| && (len == |path| || path[len] == '/') && len > bestLen {
          bestLen := len;
          best := i;
        }
      }
      i := i + 1;
    }
    assert mounts[..mounts.Length] == mounts[..];
  }

  /** How far two strings agree. */
  method CommonLength(a: string, b: string) returns (len: nat)
    ensures len <= |a| && len <= |b| && a[..len] == b[..len]
    ensures len < |a| && len < |b| ==> a[len] != b[len]
    ensures len == |a| <==> a <= b
  {
    len := 0;
    while len < |a| && len < |b| && a[len] == b[len]
      invariant len <= |a| && len <= |b| && a[..len] == b[..len]
    {
      len := len + 1;
    }
    if a <= b && len < |a| { PrefixAt(a, b, len); }
  }

  lemma PrefixAt(a: string, b: string, k: nat)
    requires a <= b && k < |a|
    ensures k < |b| && a[k] == b[k]
  {
  }

  /** The walk goes on from the root of the best mount; without one there is no result. */
  ghost predicate ResolvesTo(t: Tree, mounts: seq<Mount>, path: string, r: Option<nat>)
    requires ParentsIn(t) && forall i :: 0 <= i < |mounts| ==> mounts[i].root < |t|
  {
    && (path == "" || (forall i :: 0 <= i < |mounts| ==> !Matches(mounts[i], path)) ==> r == None)
    && (forall i :: path != "" && Best(mounts, path, i) ==> r == Walked(t, mounts[i].root, path[|mounts[i].path|..]))
  }

  /** vfs_resolve: the walk goes on from the root of the longest matching mount. */
  method Resolve(fs: RamFs, mounts: array<Mount>, path: string) returns (r: Option<nat>)
    requires fs.Valid() && forall i :: 0 <= i < mounts.Length ==> mounts[i].root < |fs.nodes|
    ensures ParentsIn(fs.nodes)
    ensures ResolvesTo(fs.nodes, mounts[..], path, r)
  {
    TreeParents(fs.nodes);
    if path == "" { return None; }
    var best := FindMount(mounts, path);
    if best == -1 { return None; }
    r := Walk(fs, mounts[best].root, path[|mounts[best].path|..]);
  }

  /** The mount at "/" takes the path "/" and paths that begin with two slashes, and no other. */
  lemma RootMountMatches(m: Mount, path: string)
    requires m.used && m.path == "/"
    ensures Matches(m, path) <==> path == "/" || "//" <= path
  {
    if path == "/" || "//" <= path { assert path[0] == '/'; }
  }

  /** So with the root mount alone no path that pwd prints, except "/", can be resolved as it stands. */
  lemma PwdIsNotAbsolute(t: Tree, d: nat, m: Mount)
    requires TreeOk(t) && 0 < d < |t| && m.used && m.path == "/"
    requires forall k :: 0 <= k < |Up(t, d, MAX_DEPTH)| ==> Ordinary(t[Up(t, d, MAX_DEPTH)[k]].name)
    ensures !Matches(m, PwdText(t, d))
  {
    hide Up;
    UpStep(t, d, MAX_DEPTH);
    var up := Up(t, d, MAX_DEPTH);
    assert up != [];
    JoinedBegins(t, up);
    RootMountMatches(m, PwdText(t, d));
  }

  lemma {:induction false} JoinedBegins(t: Tree, up: seq<nat>)
    requires up != [] && forall k :: 0 <= k < |up| ==> up[k] < |t| && Ordinary(t[up[k]].name)
    ensures Joined(t, up) != "" && Joined(t, up)[0] != '/'
    decreases |up|
  {
    if |up| > 1 {
      JoinedBegins(t, up[1..]);
    } else {
      assert t[up[0]].name[0] in t[up[0]].name;
    }
  }

  /** vfs_resolve_relative */
  method ResolveRelative(fs: RamFs, mounts: array<Mount>, base: nat, path: string) returns (r: Option<nat>)
    requires fs.Valid() && base < |fs.nodes| && forall i :: 0 <= i < mounts.Length ==> mounts[i].root < |fs.nodes|
    ensures ParentsIn(fs.nodes)
    ensures if path != "" && path[0] == '/' then ResolvesTo(fs.nodes, mounts[..], path, r)
            else r == Walked(fs.nodes, base, path)
  {
    TreeParents(fs.nodes);
    if path != "" && path[0] == '/' {
      r := Resolve(fs, mounts, path);
    } else {
      r := Walk(fs, base, path);
    }
  }
}
