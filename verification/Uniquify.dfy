/** Renaming the modules a design model shares with its top level, in the model's hierarchy tree. */
module Uniquify {
  import opened Wrappers

  /** The value of a hierarchy node: instance name, module name, instances. */
  datatype Tree = Tree(inst: string, mod: string, kids: seq<Tree>)

  /** The modules to rename, the design under test, and the suffix. */
  datatype Setup = Setup(common: set<string>, dut: string, suffix: string)

  function Suffixed(c: Setup, name: string): string {
    name + "_" + c.suffix
  }

  // ----- what the recursive pass does to a tree

  /** One instance: left alone if it is the design under test, else updated and, if common, renamed. */
  function UpdateKid(c: Setup, kid: Tree): (Tree, bool)
    decreases kid, 3
  {
    if kid.mod == c.dut then (kid, false)
    else
      var u := Update(c, kid);
      (if u.1 && kid.mod in c.common then u.0.(mod := Suffixed(c, kid.mod)) else u.0, u.1)
  }

  /** The first n updated instances, and whether any of them is a common module or above one. */
  function UpdateKids(c: Setup, t: Tree, n: nat): (r: (seq<Tree>, bool))
    requires n <= |t.kids|
    ensures |r.0| == n && forall i | 0 <= i < n :: r.0[i] == UpdateKid(c, t.kids[i]).0
    decreases t, 1, n
  {
    if n == 0 then ([], false)
    else
      var before, u := UpdateKids(c, t, n - 1), UpdateKid(c, t.kids[n - 1]);
      (before.0 + [u.0], before.1 || u.1)
  }

  function Update(c: Setup, t: Tree): (Tree, bool)
    decreases t, 2
  {
    var u := UpdateKids(c, t, |t.kids|);
    (t.(kids := u.0), t.mod in c.common || u.1)
  }

  // ----- what it is meant to do

  /** The new name of a module below the root. */
  function Renamed(c: Setup, name: string): string {
    if name in c.common then Suffixed(c, name) else name
  }

  /** Every node below the root gets its new name, except the design under test and what lies below it. */
  function Rename(c: Setup, t: Tree): (r: Tree)
    ensures |r.kids| == |t.kids| && r.mod == t.mod && r.inst == t.inst
  {
    t.(kids := seq(|t.kids|, i requires 0 <= i < |t.kids| =>
      if t.kids[i].mod == c.dut then t.kids[i] else Rename(c, t.kids[i]).(mod := Renamed(c, t.kids[i].mod))))
  }

  /**
   The pass keeps the shape of the tree and renames exactly the common modules below the root outside the design
   under test.
   */
  lemma {:induction false} UpdateIsRename(c: Setup, t: Tree)
    ensures Update(c, t).0 == Rename(c, t)
    ensures t.mod in c.common ==> Update(c, t).1
  {
    forall i | 0 <= i < |t.kids|
      ensures UpdateKid(c, t.kids[i]).0 == Rename(c, t).kids[i]
    {
      UpdateIsRename(c, t.kids[i]);
    }
  }

  // ----- the modules of a hierarchy

  /** The nodes a traversal visits that does not enter nodes of the module to ignore. */
  ghost predicate Visits(t: Tree, ignore: Option<string>, name: string)
    decreases t
  {
    t.mod == name || exists i | 0 <= i < |t.kids| :: Some(t.kids[i].mod) != ignore && Visits(t.kids[i], ignore, name)
  }

  /** How many nodes that are. */
  function Size(t: Tree, ignore: Option<string>): (n: nat)
    ensures n > 0
    decreases t, 2
  {
    1 + KidsSize(t, |t.kids|, ignore)
  }

  function KidsSize(t: Tree, n: nat, ignore: Option<string>): nat
    requires n <= |t.kids|
    decreases t, 1, n
  {
    if n == 0 then 0
    else KidsSize(t, n - 1, ignore) + if Some(t.kids[n - 1].mod) == ignore then 0 else Size(t.kids[n - 1], ignore)
  }

  function QueueSize(q: seq<Tree>, ignore: Option<string>): nat {
    if q == [] then 0 else Size(q[0], ignore) + QueueSize(q[1..], ignore)
  }

  lemma {:induction false} QueueAppend(q: seq<Tree>, t: Tree, ignore: Option<string>)
    ensures QueueSize(q + [t], ignore) == QueueSize(q, ignore) + Size(t, ignore)
  {
    if q == [] {
      assert q + [t] == [t] && [t][1..] == [];
      assert QueueSize([t], ignore) == Size(t, ignore) + QueueSize([], ignore);
    } else {
      assert (q + [t])[1..] == q[1..] + [t];
      QueueAppend(q[1..], t, ignore);
    }
  }

  /** Still to come from a queue. */
  ghost predicate Queued(q: seq<Tree>, ignore: Option<string>, name: string) {
    exists i | 0 <= i < |q| :: Visits(q[i], ignore, name)
  }

  /**
   The worklist collects each visited node's module once: the list is as long as there are nodes, and holds
   their modules.
   */
  method BfsCollectModules(tree: Tree, ignore: Option<string>) returns (modules: seq<string>)
    ensures |modules| == Size(tree, ignore)
    ensures forall name: string :: name in modules <==> Visits(tree, ignore, name)
  {
    var q := [tree];
    modules := [];
    assert QueueSize(q, ignore) == Size(tree, ignore) + QueueSize(q[1..], ignore) && q[1..] == [];
    assert forall name: string :: Queued(q, ignore, name) <==> Visits(tree, ignore, name) by {
      forall name: string
        ensures Queued(q, ignore, name) <==> Visits(tree, ignore, name)
      {
        assert Visits(q[0], ignore, name) == Visits(tree, ignore, name);
      }
    }
    while |q| != 0
      invariant |modules| + QueueSize(q, ignore) == Size(tree, ignore)
      invariant forall name: string :: name in modules || Queued(q, ignore, name) <==> Visits(tree, ignore, name)
      decreases QueueSize(q, ignore)
    {
      var front := q[0];
      ghost var rest, found := q[1..], modules;
      ghost var before := q;
      q := q[1..];
      modules := modules + [front.mod];
      for k := 0 to |front.kids|
        invariant QueueSize(q, ignore) == QueueSize(rest, ignore) + KidsSize(front, k, ignore)
        invariant forall name: string ::
                    Queued(q, ignore, name) <==> Queued(rest, ignore, name) || KidsVisit(front, k, ignore, name)
      {
        var c := front.kids[k];
        if Some(c.mod) != ignore {
          QueueAppend(q, c, ignore);
          Enqueue(q, c, ignore);
          q := q + [c];
        }
      }
      Dequeue(before, ignore);
    }
  }

  /** Among the first k instances of a node. */
  ghost predicate KidsVisit(t: Tree, k: nat, ignore: Option<string>, name: string)
    requires k <= |t.kids|
  {
    exists i | 0 <= i < k :: Some(t.kids[i].mod) != ignore && Visits(t.kids[i], ignore, name)
  }

  lemma {:induction false} Enqueue(q: seq<Tree>, t: Tree, ignore: Option<string>)
    ensures forall name: string :: Queued(q + [t], ignore, name) <==> Queued(q, ignore, name) || Visits(t, ignore, name)
  {
    hide Visits;
    forall name: string
      ensures Queued(q + [t], ignore, name) <==> Queued(q, ignore, name) || Visits(t, ignore, name)
    {
      assert (q + [t])[|q|] == t;
      if Queued(q, ignore, name) {
        var i :| 0 <= i < |q| && Visits(q[i], ignore, name);
        assert (q + [t])[i] == q[i];
      }
    }
  }

  lemma {:induction false} Dequeue(q: seq<Tree>, ignore: Option<string>)
    requires |q| > 0
    ensures forall name: string ::
              Queued(q, ignore, name) <==>
              name == q[0].mod || KidsVisit(q[0], |q[0].kids|, ignore, name) || Queued(q[1..], ignore, name)
  {
    forall name: string
      ensures Queued(q, ignore, name) <==>
              name == q[0].mod || KidsVisit(q[0], |q[0].kids|, ignore, name) || Queued(q[1..], ignore, name)
    {
      assert Visits(q[0], ignore, name) <==> name == q[0].mod || KidsVisit(q[0], |q[0].kids|, ignore, name);
      hide Visits, KidsVisit;
      if Queued(q[1..], ignore, name) {
        var i :| 0 <= i < |q[1..]| && Visits(q[1..][i], ignore, name);
        assert q[i + 1] == q[1..][i];
      }
      if Queued(q, ignore, name) {
        var i :| 0 <= i < |q| && Visits(q[i], ignore, name);
        assert i > 0 ==> q[1..][i - 1] == q[i];
      }
    }
  }

  // ----- after the renaming

  /** Modules visited below the root. */
  ghost predicate Below(t: Tree, ignore: Option<string>, name: string) {
    KidsVisit(t, |t.kids|, ignore, name)
  }

  /** No new name is the name of the design under test. */
  ghost predicate KeepsDut(c: Setup, t: Tree) {
    forall name: string | Below(t, Some(c.dut), name) :: Renamed(c, name) != c.dut
  }

  lemma {:induction false} BelowKid(t: Tree, i: nat, ignore: Option<string>, name: string)
    requires i < |t.kids| && Some(t.kids[i].mod) != ignore && Visits(t.kids[i], ignore, name)
    ensures Below(t, ignore, name)
  {}

  /** A module visited below the root after the renaming is the new name of one visited before. */
  lemma {:induction false} BelowAfter(c: Setup, t: Tree, name: string) returns (was: string)
    requires Below(Rename(c, t), Some(c.dut), name)
    ensures Below(t, Some(c.dut), was) && name == Renamed(c, was)
    decreases t
  {
    var r, ignore := Rename(c, t), Some(c.dut);
    var i :| 0 <= i < |r.kids| && Some(r.kids[i].mod) != ignore && Visits(r.kids[i], ignore, name);
    var kid := t.kids[i];
    assert kid.mod != c.dut;
    var k := Rename(c, kid);
    assert r.kids[i] == k.(mod := Renamed(c, kid.mod));
    if name == r.kids[i].mod {
      was := kid.mod;
      assert Visits(kid, ignore, was);
    } else {
      assert Below(k, ignore, name);
      was := BelowAfter(c, kid, name);
      assert Visits(kid, ignore, was);
    }
    BelowKid(t, i, ignore, was);
  }

  /** And, unless a new name is the name of the design under test, all new names are visited. */
  lemma {:induction false} BelowBefore(c: Setup, t: Tree, was: string)
    requires Below(t, Some(c.dut), was) && KeepsDut(c, t)
    ensures Below(Rename(c, t), Some(c.dut), Renamed(c, was))
    decreases t
  {
    var r, ignore := Rename(c, t), Some(c.dut);
    var i :| 0 <= i < |t.kids| && Some(t.kids[i].mod) != ignore && Visits(t.kids[i], ignore, was);
    var kid := t.kids[i];
    var k := Rename(c, kid);
    assert r.kids[i] == k.(mod := Renamed(c, kid.mod));
    assert Visits(kid, ignore, kid.mod);
    BelowKid(t, i, ignore, kid.mod);
    if was == kid.mod {
      assert Visits(r.kids[i], ignore, Renamed(c, was));
    } else {
      assert Below(kid, ignore, was);
      forall name: string | Below(kid, ignore, name)
        ensures Renamed(c, name) != c.dut
      {
        assert Visits(kid, ignore, name);
        BelowKid(t, i, ignore, name);
      }
      BelowBefore(c, kid, was);
      assert Below(r.kids[i], ignore, Renamed(c, was));
    }
    BelowKid(r, i, ignore, Renamed(c, was));
  }

  /** The modules of the renamed model are the root's own and the new names of those below it. */
  lemma {:induction false} ModulesAfter(c: Setup, t: Tree, name: string)
    requires KeepsDut(c, t)
    ensures Visits(Rename(c, t), Some(c.dut), name) <==>
            name == t.mod || exists was: string :: Below(t, Some(c.dut), was) && name == Renamed(c, was)
  {
    var r, ignore := Rename(c, t), Some(c.dut);
    assert Visits(r, ignore, name) <==> name == r.mod || Below(r, ignore, name);
    if Below(r, ignore, name) {
      var was := BelowAfter(c, t, name);
    }
    forall was: string | Below(t, ignore, was) && name == Renamed(c, was)
      ensures Below(r, ignore, name)
    {
      BelowBefore(c, t, was);
    }
    hide Visits, Below, Rename;
  }

  /** The setup of the script: what is renamed are the modules the model shares with the top level. */
  ghost predicate SharedModules(c: Setup, top: Tree, model: Tree) {
    forall name: string :: name in c.common <==> Visits(top, None, name) && Visits(model, Some(c.dut), name)
  }

  ghost predicate NoSuffixInTop(c: Setup, top: Tree) {
    forall name: string | Visits(top, None, name) :: forall stem: string :: name != Suffixed(c, stem)
  }

  /**
   When no module of the top level carries the suffix, the renamed model shares no module with the top level
   exactly when its root was not shared.
   */
  lemma {:induction false} DisjointExactly(c: Setup, top: Tree, model: Tree)
    requires SharedModules(c, top, model) && NoSuffixInTop(c, top)
    ensures (forall name: string | Visits(Rename(c, model), Some(c.dut), name) :: !Visits(top, None, name)) <==>
            model.mod !in c.common
  {
    var r, ignore := Rename(c, model), Some(c.dut);
    assert Visits(model, ignore, model.mod) && Visits(r, ignore, r.mod) && r.mod == model.mod;
    if model.mod in c.common {
      assert Visits(top, None, model.mod);
    } else {
      forall name: string | Visits(r, ignore, name)
        ensures !Visits(top, None, name)
      {
        if name != model.mod {
          assert Below(r, ignore, name);
          var was := BelowAfter(c, model, name);
          assert Visits(model, ignore, was);
          assert was in c.common ==> name == Suffixed(c, was);
        }
      }
    }
  }

  // ----- the pass in place

  /** A hierarchy node: the module name is rewritten in place. */
  class Node {
    const instanceName: string
    var moduleName: string
    const instances: seq<Node>
    // the node and everything below it
    ghost const repr: set<Node>

    /** Instances are trees of their own. */
    ghost predicate Valid()
      decreases repr
    {
      && this in repr
      && (forall i | 0 <= i < |instances| ::
            instances[i].repr < repr && this !in instances[i].repr && instances[i].Valid())
      && (forall i, j | 0 <= i < j < |instances| :: instances[i].repr !! instances[j].repr)
    }

    /** The tree below this node. */
    ghost function Value(): Tree
      requires Valid()
      reads repr
      decreases repr, |instances| + 1
    {
      Tree(instanceName, moduleName, Values(|instances|))
    }

    ghost function Values(n: nat): (ts: seq<Tree>)
      requires Valid() && n <= |instances|
      reads repr
      ensures |ts| == n && forall i | 0 <= i < n :: ts[i] == instances[i].Value()
      decreases repr, n
    {
      if n == 0 then [] else Values(n - 1) + [instances[n - 1].Value()]
    }

    constructor (instanceName: string, moduleName: string, instances: seq<Node>)
      requires forall i | 0 <= i < |instances| :: instances[i].Valid()
      requires forall i, j | 0 <= i < j < |instances| :: instances[i].repr !! instances[j].repr
      ensures Valid() && this.instances == instances
      ensures Value().inst == instanceName && Value().mod == moduleName && |Value().kids| == |instances|
      ensures forall i | 0 <= i < |instances| :: Value().kids[i] == old(instances[i].Value())
    {
      this.instanceName, this.moduleName, this.instances := instanceName, moduleName, instances;
      this.repr := {this} + Union(instances);
      new;
      UnionHolds(instances);
    }
  }

  ghost function Union(nodes: seq<Node>): set<Node> {
    if nodes == [] then {} else Union(nodes[..|nodes| - 1]) + nodes[|nodes| - 1].repr
  }

  lemma {:induction false} UnionHolds(nodes: seq<Node>)
    ensures forall i | 0 <= i < |nodes| :: nodes[i].repr <= Union(nodes)
  {
    if nodes != [] {
      UnionHolds(nodes[..|nodes| - 1]);
    }
  }

  /** One instance of the recursive pass. */
  method UpdateChild(c: Setup, child: Node) returns (below: bool)
    requires child.Valid()
    modifies child.repr
    ensures child.Value() == UpdateKid(c, old(child.Value())).0 && below == UpdateKid(c, old(child.Value())).1
    decreases child.repr, 1
  {
    if child.moduleName == c.dut { return false; }
    ghost var before := child.Value();
    below := DfsUpdateModules(c, child);
    ghost var kids := child.Values(|child.instances|);
    if below && child.moduleName in c.common {
      child.moduleName := Suffixed(c, child.moduleName);
      assert child.Values(|child.instances|) == kids;
    }
  }

  method DfsUpdateModules(c: Setup, tree: Node) returns (updated: bool)
    requires tree.Valid()
    modifies tree.repr
    ensures tree.Value() == Update(c, old(tree.Value())).0 && updated == Update(c, old(tree.Value())).1
    decreases tree.repr, 0
  {
    var childsToUpdate: seq<string> := [];
    ghost var t := tree.Value();
    hide UpdateKid, Update;
    for i := 0 to |tree.instances|
      invariant tree.moduleName == t.mod
      invariant (childsToUpdate != []) == UpdateKids(c, t, i).1
      invariant forall j | 0 <= j < i :: tree.instances[j].Value() == UpdateKid(c, t.kids[j]).0
      invariant forall j | i <= j < |tree.instances| :: tree.instances[j].Value() == t.kids[j]
    {
      var child := tree.instances[i];
      var name := child.moduleName;
      var below := UpdateChild(c, child);
      if below {
        childsToUpdate := childsToUpdate + [name];
      }
    }
    updated := tree.moduleName in c.common || |childsToUpdate| > 0;
  }
}
