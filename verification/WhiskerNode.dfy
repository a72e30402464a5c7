/** The rule tree as nodes changed in place: replace and use_whisker descend to one leaf and
    write there, and the value of the tree moves as the functions on values say. */
module WhiskerNodes {
  import opened MemoryRanges
  import opened Bytes
  import opened WhiskerTrees

  /** What an in-place operation reports: true, false, or its assert. */
  datatype Verdict = Yes | No | Failed

  class WhiskerNode {
    var domain: Box
    var children: seq<WhiskerNode>
    var leaf: seq<Whisker>
    ghost var Repr: set<WhiskerNode>

    ghost predicate Valid()
      reads this, Repr
      ensures Valid() ==> this in Repr
      decreases Repr
    {
      && this in Repr
      && (leaf == [] || (|leaf| == 1 && children == []))
      && (forall c :: c in children ==> c in Repr && c.Repr <= Repr && this !in c.Repr && c.Valid())
      && (forall i, j :: 0 <= i < j < |children| ==> children[i].Repr !! children[j].Repr)
    }

    ghost function View(): Tree
      requires Valid()
      reads this, Repr
      decreases Repr
    {
      if leaf != [] then Tree.Leaf(domain, leaf[0])
      else Tree.Node(domain, seq(|children|, i requires 0 <= i < |children| && Valid() reads this, Repr => children[i].View()))
    }

    constructor (w: Whisker)
      ensures Valid() && fresh(Repr) && View() == Tree.Leaf(w.domain, w)
    {
      domain, children, leaf := w.domain, [], [w];
      Repr := {this};
    }

    /** use_whisker on a point of the box. */
    method UseWhisker(q: Memory) returns (r: Verdict)
      requires Valid()
      modifies Repr
      ensures Valid() && Repr == old(Repr)
      ensures View() == if Find(old(View()), q).Found? then Use(old(View()), q) else old(View())
      ensures r == match Find(old(View()), q) case Found(_) => Yes case Outside => No case Broken => Failed
      decreases Repr, 2
    {
      if !domain.Contains(q) {
        return No;
      }
      if leaf != [] {
        leaf := [leaf[0].(count := Add32(leaf[0].count % TWO32, 1))];
        return Yes;
      }
      r := UseChildren(q);
    }

    /** The search among the children. */
    method UseChildren(q: Memory) returns (r: Verdict)
      requires Valid() && leaf == []
      modifies Repr
      ensures Valid() && Repr == old(Repr)
      ensures View() == if FindIn(old(View()), 0, q).Found? then UseIn(old(View()), 0, q) else old(View())
      ensures r == match FindIn(old(View()), 0, q) case Found(_) => Yes case Outside => No case Broken => Failed
      decreases Repr, 1
    {
      ghost var t := View();
      var k := 0;
      while k < |children|
        invariant 0 <= k <= |children| == |t.children| && Valid() && Repr == old(Repr) && View() == t
        invariant leaf == []
        invariant FindIn(t, 0, q) == FindIn(t, k, q)
        invariant UseIn(t, 0, q) == UseIn(t, k, q)
      {
        r := UseChild(k, q);
        if r != No {
          return;
        }
        assert t.children[k := t.children[k]] == t.children;
        k := k + 1;
      }
      r := Failed;
    }

    /** The value of a node all of whose children but one are as they were. */
    lemma ViewAfter(t: Tree, k: nat)
      requires Valid() && leaf == [] && t.Node? && t.domain == domain && k < |children| == |t.children|
      requires forall j :: 0 <= j < |children| && j != k ==> children[j].View() == t.children[j]
      ensures View() == Node(t.domain, t.children[k := children[k].View()])
      ensures children[k].View() == t.children[k] ==> View() == t
    {
      assert View().children == t.children[k := children[k].View()];
      assert t.children[k := t.children[k]] == t.children;
    }

    ghost function ChildUsed(c: Tree, q: Memory): Tree {
      if Find(c, q).Found? then Use(c, q) else c
    }

    method UseChild(k: nat, q: Memory) returns (r: Verdict)
      requires Valid() && leaf == [] && k < |children|
      modifies Repr
      ensures Valid() && Repr == old(Repr) && leaf == [] && |children| == old(|children|)
      ensures var t := old(View()); View() == Node(t.domain, t.children[k := ChildUsed(t.children[k], q)])
      ensures r == match Find(old(View()).children[k], q) case Found(_) => Yes case Outside => No case Broken => Failed
      decreases Repr, 0
    {
      ghost var t := View();
      r := children[k].UseWhisker(q);
      ViewAfter(t, k);
    }

    /** replace, either overload: the one leaf at the target's midpoint is overwritten. */
    method ReplaceLeaf(e: Edit) returns (r: Verdict)
      requires Valid()
      modifies Repr
      ensures Valid() && fresh(Repr - old(Repr))
      ensures match Replace(old(View()), e)
              case Done(t) => r == Yes && View() == t
              case NotHere => r == No && View() == old(View())
              case Aborted => r == Failed && View() == old(View())
      ensures r == No ==> Repr == old(Repr)
      decreases Repr, 2
    {
      if !domain.Contains(e.Target().Midpoint()) {
        return No;
      }
      if leaf != [] {
        if !e.Target().Same(leaf[0].domain) {
          return Failed;
        }
        match e {
          case Rule(w) => leaf := [w];
          case Subtree(_, dst) => Assign(dst);
        }
        return Yes;
      }
      r := ReplaceInChildren(e);
    }

    method ReplaceInChildren(e: Edit) returns (r: Verdict)
      requires Valid() && leaf == []
      modifies Repr
      ensures Valid() && fresh(Repr - old(Repr))
      ensures match ReplaceIn(old(View()), 0, e)
              case Done(t) => r == Yes && View() == t
              case NotHere => r == No && View() == old(View())
              case Aborted => r == Failed && View() == old(View())
      ensures r != No
      decreases Repr, 1
    {
      ghost var t := View();
      var k := 0;
      while k < |children|
        invariant 0 <= k <= |children| == |t.children| && Valid() && Repr == old(Repr) && View() == t
        invariant leaf == []
        invariant ReplaceIn(t, 0, e) == ReplaceIn(t, k, e)
      {
        r := ReplaceInChild(k, e);
        if r != No {
          return;
        }
        k := k + 1;
      }
      r := Failed;
    }

    method ReplaceInChild(k: nat, e: Edit) returns (r: Verdict)
      requires Valid() && leaf == [] && k < |children|
      modifies Repr
      ensures Valid() && fresh(Repr - old(Repr)) && leaf == [] && |children| == old(|children|)
      ensures r == No ==> Repr == old(Repr)
      ensures var t := old(View());
              match Replace(t.children[k], e)
              case Done(c) => r == Yes && View() == Node(t.domain, t.children[k := c])
              case NotHere => r == No && View() == t
              case Aborted => r == Failed && View() == t
      decreases Repr, 0
    {
      hide Replace, ReplaceIn, Find, WellFormed;
      ghost var t := View();
      r := children[k].ReplaceLeaf(e);
      Repr := Repr + children[k].Repr;
      forall j | 0 <= j < |children| && j != k
        ensures children[j].Valid() && children[j].Repr == old(children[j].Repr) && children[j].View() == t.children[j]
        ensures children[j].Repr !! children[k].Repr
      {
        assert children[j] in children;
      }
      assert forall c :: c in children ==> c in Repr && c.Repr <= Repr && this !in c.Repr && c.Valid();
      assert Valid();
      ViewAfter(t, k);
    }

    /** The copy behind an assignment of trees: new nodes all the way down. */
    method Assign(t: Tree)
      modifies this
      ensures Valid() && fresh(Repr - {this}) && View() == t
      decreases t
    {
      domain := t.domain;
      match t {
        case Leaf(_, w) =>
          children, leaf, Repr := [], [w], {this};
        case Node(_, ts) =>
          ghost var below;
          children, below := CopyAll(ts);
          leaf, Repr := [], {this} + below;
          assert forall i :: 0 <= i < |ts| ==> children[i].View() == ts[i];
          assert Valid();
          assert View().children == ts;
      }
    }

    static method CopyAll(ts: seq<Tree>) returns (nodes: seq<WhiskerNode>, ghost below: set<WhiskerNode>)
      ensures |nodes| == |ts| && fresh(below)
      ensures forall i :: 0 <= i < |ts| ==> nodes[i] in below && nodes[i].Repr <= below
      ensures forall i :: 0 <= i < |ts| ==> nodes[i].Valid() && nodes[i].View() == ts[i]
      ensures forall i, j :: 0 <= i < j < |ts| ==> nodes[i].Repr !! nodes[j].Repr
      decreases ts
    {
      nodes, below := [], {};
      for k := 0 to |ts|
        invariant |nodes| == k && fresh(below)
        invariant forall i :: 0 <= i < k ==> nodes[i] in below && nodes[i].Repr <= below
        invariant forall i :: 0 <= i < k ==> nodes[i].Valid() && nodes[i].View() == ts[i]
        invariant forall i, j :: 0 <= i < j < k ==> nodes[i].Repr !! nodes[j].Repr
      {
        var n := new WhiskerNode(Whisker(0, 0, 0.0, 0.0, ts[k].domain, 0));
        n.Assign(ts[k]);
        nodes, below := nodes + [n], below + n.Repr;
      }
    }
  }
}
