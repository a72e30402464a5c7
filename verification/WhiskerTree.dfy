/** The tree of rules over a recursively bisected box (class WhiskerTree): lookup,
    use counting and replacement by range midpoint, on values. */
module WhiskerTrees {
  import opened Bytes
  import opened MemoryRanges

  /** A rule, its box, and how often that box was used. */
  datatype Whisker = Whisker(generation: nat, windowIncrement: int, windowMultiple: real, intersend: real,
                             domain: Box, count: nat)

  datatype Tree = Leaf(domain: Box, whisker: Whisker) | Node(domain: Box, children: seq<Tree>)

  /** A lookup: a rule, a point outside, or the assert at the end of the search. */
  datatype Lookup = Found(w: Whisker) | Outside | Broken

  function Find(t: Tree, q: Memory): Lookup
    decreases t, 1, 0
  {
    if !t.domain.Contains(q) then Outside
    else match t
      case Leaf(_, w) => Found(w)
      case Node(_, children) => FindIn(t, 0, q)
  }

  /** The search among the children from index k on. */
  function FindIn(t: Tree, k: nat, q: Memory): Lookup
    requires t.Node? && k <= |t.children|
    decreases t, 0, |t.children| - k
  {
    if k == |t.children| then Broken
    else
      var r := Find(t.children[k], q);
      if r.Outside? then FindIn(t, k + 1, q) else r
  }

  function Domains(ts: seq<Tree>): (ds: seq<Box>)
    ensures |ds| == |ts|
  {
    seq(|ts|, i requires 0 <= i < |ts| => ts[i].domain)
  }

  /** Every inner box is partitioned by its children, and every rule carries its leaf's box. */
  ghost predicate WellFormed(t: Tree) {
    match t
    case Leaf(domain, w) => w.domain == domain
    case Node(domain, children) =>
      Partition(Domains(children), domain) && forall c :: c in children ==> WellFormed(c)
  }

  /** How many leaves hold the point. */
  ghost function LeavesAt(t: Tree, q: Memory): nat
    decreases t, 1, 0
  {
    match t
    case Leaf(domain, _) => if domain.Contains(q) then 1 else 0
    case Node(_, children) => LeavesAmong(t, |children|, q)
  }

  ghost function LeavesAmong(t: Tree, k: nat, q: Memory): nat
    requires t.Node? && k <= |t.children|
    decreases t, 0, k
  {
    if k == 0 then 0 else LeavesAmong(t, k - 1, q) + LeavesAt(t.children[k - 1], q)
  }

  // ------------------------------------------------------------ one child per point

  lemma {:induction false} HoldersNone(boxes: seq<Box>, q: Memory)
    ensures Holders(boxes, q) == 0 <==> forall k :: 0 <= k < |boxes| ==> !boxes[k].Contains(q)
  {
    if boxes != [] {
      var front := boxes[..|boxes| - 1];
      HoldersNone(front, q);
      assert forall k :: 0 <= k < |front| ==> boxes[k] == front[k];
    }
  }

  /** One holder: some box has the point and no other has. */
  lemma {:induction false} HoldersOne(boxes: seq<Box>, q: Memory) returns (k: nat)
    requires Holders(boxes, q) == 1
    ensures k < |boxes| && boxes[k].Contains(q)
    ensures forall j :: 0 <= j < |boxes| && boxes[j].Contains(q) ==> j == k
  {
    var front := boxes[..|boxes| - 1];
    assert forall j :: 0 <= j < |front| ==> boxes[j] == front[j];
    HoldersNone(front, q);
    if boxes[|boxes| - 1].Contains(q) {
      k := |boxes| - 1;
    } else {
      k := HoldersOne(front, q);
    }
  }

  /** In a well-formed inner box, the child that holds the point. */
  lemma ChildOf(t: Tree, q: Memory) returns (k: nat)
    requires t.Node? && WellFormed(t) && t.domain.Contains(q)
    ensures k < |t.children| && t.children[k].domain.Contains(q) && WellFormed(t.children[k])
    ensures forall j :: 0 <= j < |t.children| && t.children[j].domain.Contains(q) ==> j == k
  {
    assert Holders(Domains(t.children), q) == 1;
    k := HoldersOne(Domains(t.children), q);
    assert forall j :: 0 <= j < |t.children| ==> Domains(t.children)[j] == t.children[j].domain;
  }

  /** A child's points are points of the parent. */
  lemma ChildInside(t: Tree, k: nat, q: Memory)
    requires t.Node? && WellFormed(t) && k < |t.children| && t.children[k].domain.Contains(q)
    ensures t.domain.Contains(q)
  {
    HoldersNone(Domains(t.children), q);
    assert Domains(t.children)[k].Contains(q);
  }

  /** The search settles on the first child that holds the point. */
  lemma {:induction false} FindInSkips(t: Tree, from: nat, k: nat, q: Memory)
    requires t.Node? && from <= k < |t.children|
    requires forall j :: from <= j < k ==> !t.children[j].domain.Contains(q)
    requires t.children[k].domain.Contains(q) && !Find(t.children[k], q).Outside?
    ensures FindIn(t, from, q) == Find(t.children[k], q)
    decreases k - from
  {
    if from < k {
      FindInSkips(t, from + 1, k, q);
    }
  }

  /** Lookup reaches a rule for exactly the points of the tree's box: never the assert. */
  lemma {:induction false} FindTotal(t: Tree, q: Memory)
    requires WellFormed(t)
    ensures if t.domain.Contains(q) then Find(t, q).Found? && Find(t, q).w.domain.Contains(q)
            else Find(t, q) == Outside
    decreases t
  {
    if t.Node? && t.domain.Contains(q) {
      var k := ChildOf(t, q);
      FindTotal(t.children[k], q);
      FindInSkips(t, 0, k, q);
    }
  }

  lemma {:induction false} LeavesAmongOne(t: Tree, upTo: nat, k: nat, q: Memory)
    requires t.Node? && upTo <= |t.children| && k < |t.children|
    requires forall j :: 0 <= j < |t.children| ==> LeavesAt(t.children[j], q) == if j == k then 1 else 0
    ensures LeavesAmong(t, upTo, q) == if k < upTo then 1 else 0
    decreases upTo
  {
    if upTo > 0 {
      LeavesAmongOne(t, upTo - 1, k, q);
    }
  }

  lemma {:induction false} LeavesAmongNone(t: Tree, upTo: nat, q: Memory)
    requires t.Node? && upTo <= |t.children|
    requires forall j :: 0 <= j < |t.children| ==> LeavesAt(t.children[j], q) == 0
    ensures LeavesAmong(t, upTo, q) == 0
    decreases upTo
  {
    if upTo > 0 {
      LeavesAmongNone(t, upTo - 1, q);
    }
  }

  /** The leaves of a well-formed tree partition its box. */
  lemma {:induction false} LeavesPartition(t: Tree, q: Memory)
    requires WellFormed(t)
    ensures LeavesAt(t, q) == if t.domain.Contains(q) then 1 else 0
    decreases t
  {
    if t.Node? {
      forall j | 0 <= j < |t.children|
        ensures LeavesAt(t.children[j], q) == if t.children[j].domain.Contains(q) then 1 else 0
      {
        LeavesPartition(t.children[j], q);
      }
      if t.domain.Contains(q) {
        var k := ChildOf(t, q);
        LeavesAmongOne(t, |t.children|, k, q);
      } else {
        forall j | 0 <= j < |t.children| ensures !t.children[j].domain.Contains(q) {
          if t.children[j].domain.Contains(q) {
            ChildInside(t, j, q);
          }
        }
        LeavesAmongNone(t, |t.children|, q);
      }
    }
  }

  // ------------------------------------------------------------ replacement

  /** The two overloads of replace: put a rule into its leaf, or a subtree in its place. */
  datatype Edit = Rule(w: Whisker) | Subtree(src: Whisker, dst: Tree) {
    function Target(): Box {
      if Rule? then w.domain else src.domain
    }

    /** A leaf after the edit. */
    function AtLeaf(domain: Box): Tree {
      if Rule? then Leaf(domain, w) else dst
    }
  }

  /** replace: true with the changed tree, false for a midpoint outside, or an assert. */
  datatype Outcome = Done(t: Tree) | NotHere | Aborted

  function Replace(t: Tree, e: Edit): Outcome
    decreases t, 1, 0
  {
    if !t.domain.Contains(e.Target().Midpoint()) then NotHere
    else match t
      case Leaf(domain, w) => if e.Target().Same(w.domain) then Done(e.AtLeaf(domain)) else Aborted
      case Node(_, _) => ReplaceIn(t, 0, e)
  }

  function ReplaceIn(t: Tree, k: nat, e: Edit): Outcome
    requires t.Node? && k <= |t.children|
    decreases t, 0, |t.children| - k
  {
    if k == |t.children| then Aborted
    else match Replace(t.children[k], e)
      case Done(c) => Done(Node(t.domain, t.children[k := c]))
      case NotHere => ReplaceIn(t, k + 1, e)
      case Aborted => Aborted
  }

  lemma {:induction false} ReplaceInSkips(t: Tree, from: nat, k: nat, e: Edit)
    requires t.Node? && from <= k < |t.children|
    requires forall j :: from <= j < k ==> !t.children[j].domain.Contains(e.Target().Midpoint())
    requires t.children[k].domain.Contains(e.Target().Midpoint())
    requires Replace(t.children[k], e) != NotHere
    ensures ReplaceIn(t, from, e) ==
      if Replace(t.children[k], e).Done? then Done(Node(t.domain, t.children[k := Replace(t.children[k], e).t]))
      else Aborted
    decreases k - from
  {
    if from < k {
      ReplaceInSkips(t, from + 1, k, e);
    }
  }

  /** Exactly what replace does to a well-formed tree: it looks at the one leaf that holds the
      target's midpoint, and aborts unless that leaf's box compares equal to the target. */
  lemma {:induction false} ReplaceOutcome(t: Tree, e: Edit)
    requires WellFormed(t)
    ensures var m := e.Target().Midpoint();
            if !t.domain.Contains(m) then Replace(t, e) == NotHere
            else Find(t, m).Found? && (Replace(t, e) == Aborted || Replace(t, e).Done?)
                 && (Replace(t, e).Done? <==> e.Target().Same(Find(t, m).w.domain))
    decreases t
  {
    var m := e.Target().Midpoint();
    if t.Node? && t.domain.Contains(m) {
      var k := ChildOf(t, m);
      ReplaceOutcome(t.children[k], e);
      ReplaceInSkips(t, 0, k, e);
      FindTotal(t.children[k], m);
      FindInSkips(t, 0, k, m);
    }
  }

  /** Some leaf of the tree covers exactly this box. */
  ghost predicate HasLeaf(t: Tree, box: Box) {
    match t
    case Leaf(domain, _) => domain == box
    case Node(_, children) => exists c :: c in children && HasLeaf(c, box)
  }

  lemma {:induction false} LeafInside(t: Tree, box: Box, q: Memory)
    requires WellFormed(t) && HasLeaf(t, box) && box.Contains(q)
    ensures t.domain.Contains(q)
    decreases t
  {
    if t.Node? {
      var c :| c in t.children && HasLeaf(c, box);
      LeafInside(c, box, q);
      var k :| 0 <= k < |t.children| && t.children[k] == c;
      ChildInside(t, k, q);
    }
  }

  /** The subtree that is grafted covers the leaf's box. */
  ghost predicate Fits(e: Edit) {
    e.Target().Nonempty() && (e.Subtree? ==> WellFormed(e.dst) && e.dst.domain == e.Target())
  }

  /** What a lookup finds inside the edited box. */
  function FindEdited(e: Edit, q: Memory): Lookup {
    if e.Rule? then Found(e.w) else Find(e.dst, q)
  }

  lemma MidpointInside(box: Box)
    ensures box.Contains(box.Midpoint()) <==> box.Nonempty()
  {
  }

  /** Replacing a leaf of nonempty box, by a rule or by a subtree over the same box, succeeds,
      keeps the partition, and changes lookup for the points of that box only. */
  lemma {:induction false} ReplaceExact(t: Tree, e: Edit)
    requires WellFormed(t) && Fits(e) && HasLeaf(t, e.Target())
    ensures Replace(t, e).Done?
    ensures WellFormed(Replace(t, e).t) && Replace(t, e).t.domain == t.domain
    ensures forall q :: e.Target().Contains(q) ==> Find(Replace(t, e).t, q) == FindEdited(e, q)
    ensures forall q :: !e.Target().Contains(q) ==> Find(Replace(t, e).t, q) == Find(t, q)
    decreases t
  {
    var box := e.Target();
    var m := box.Midpoint();
    MidpointInside(box);
    LeafInside(t, box, m);
    match t {
      case Leaf(domain, w) =>
        forall q ensures Find(e.AtLeaf(domain), q) == if box.Contains(q) then FindEdited(e, q) else Find(t, q) {
          if e.Subtree? {
            FindTotal(e.dst, q);
          }
        }
      case Node(_, children) =>
        var c :| c in children && HasLeaf(c, box);
        var j :| 0 <= j < |children| && children[j] == c;
        LeafInside(c, box, m);
        var k := ChildOf(t, m);
        assert j == k;
        ReplaceExact(c, e);
        ReplaceInSkips(t, 0, k, e);
        var c' := Replace(c, e).t;
        ChildReplaced(t, k, c');
        forall q ensures Find(Node(t.domain, children[k := c']), q) == if box.Contains(q) then FindEdited(e, q) else Find(t, q) {
          FindAfterChild(t, k, c', q);
          if box.Contains(q) {
            LeafInside(c, box, q);
            ChildInside(t, k, q);
          } else if t.domain.Contains(q) {
            var i := ChildOf(t, q);
            FindTotal(children[i], q);
            FindInSkips(t, 0, i, q);
          }
        }
    }
  }

  /** A child may be exchanged for a well-formed one over the same box. */
  lemma ChildReplaced(t: Tree, k: nat, c': Tree)
    requires t.Node? && WellFormed(t) && k < |t.children|
    requires WellFormed(c') && c'.domain == t.children[k].domain
    ensures WellFormed(Node(t.domain, t.children[k := c']))
  {
    assert Domains(t.children[k := c']) == Domains(t.children);
  }

  lemma FindAfterChild(t: Tree, k: nat, c': Tree, q: Memory)
    requires t.Node? && WellFormed(t) && k < |t.children|
    requires WellFormed(c') && c'.domain == t.children[k].domain
    ensures var t' := Node(t.domain, t.children[k := c']);
            if !t.domain.Contains(q) then Find(t', q) == Outside
            else if c'.domain.Contains(q) then Find(t', q) == Find(c', q)
            else Find(t', q) == Find(t, q)
  {
    var t' := Node(t.domain, t.children[k := c']);
    if t.domain.Contains(q) {
      var i := ChildOf(t, q);
      FindTotal(t.children[i], q);
      assert WellFormed(t'.children[i]) && t'.children[i].domain == t.children[i].domain by {
        assert t'.children[i] == if i == k then c' else t.children[i];
      }
      FindTotal(t'.children[i], q);
      FindInSkips(t, 0, i, q);
      FindInSkips(t', 0, i, q);
    }
  }

  /** The box comparison ignores the second axis, so a rule can be accepted for a leaf whose
      box differs from its own: an accepted rule keeps the tree well formed exactly when the
      boxes are equal on every axis. */
  lemma {:induction false} RuleKeepsIff(t: Tree, w: Whisker)
    requires WellFormed(t) && Replace(t, Rule(w)).Done?
    ensures Find(t, w.domain.Midpoint()).Found?
    ensures WellFormed(Replace(t, Rule(w)).t) <==> w.domain == Find(t, w.domain.Midpoint()).w.domain
    ensures Replace(t, Rule(w)).t.domain == t.domain
    decreases t
  {
    var m := w.domain.Midpoint();
    if t.Node? {
      var k := ChildOf(t, m);
      ReplaceOutcome(t.children[k], Rule(w));
      ReplaceInSkips(t, 0, k, Rule(w));
      RuleKeepsIff(t.children[k], w);
      FindTotal(t.children[k], m);
      FindInSkips(t, 0, k, m);
      var c' := Replace(t.children[k], Rule(w)).t;
      if WellFormed(c') {
        ChildReplaced(t, k, c');
      } else {
        assert c' == t.children[k := c'][k];
      }
    }
  }

  lemma SecondAxisSlips()
    ensures exists t: Tree, w: Whisker ::
              WellFormed(t) && Replace(t, Rule(w)).Done? && !WellFormed(Replace(t, Rule(w)).t)
  {
    var box := Box(Memory(0.0, 0.0, 0.0, 0.0), Memory(2.0, 2.0, 2.0, 2.0));
    var wide := Box(Memory(0.0, 0.0, 0.0, 0.0), Memory(2.0, 3.0, 2.0, 2.0));
    var t := Leaf(box, Whisker(0, 1, 1.0, 3.0, box, 0));
    var w := Whisker(0, 1, 1.0, 3.0, wide, 0);
    assert Replace(t, Rule(w)) == Done(Leaf(box, w));
    assert WellFormed(t) && !WellFormed(Leaf(box, w));
  }

  // ------------------------------------------------------------ growing a tree

  /** A rule copied into each of its pieces; a fresh range starts with no uses. */
  function Pieces(w: Whisker, boxes: seq<Box>): (ts: seq<Tree>)
    ensures |ts| == |boxes|
  {
    seq(|boxes|, i requires 0 <= i < |boxes| => Leaf(boxes[i], w.(domain := boxes[i], count := 0)))
  }

  /** The bisecting constructor. */
  method Bisected(w: Whisker, medians: Memory) returns (ok: bool, t: Tree)
    requires Between(w.domain, medians)
    ensures ok <==> !BisectFails(w.domain, medians)
    ensures ok ==> t.Node? && WellFormed(t) && t.domain == w.domain && |t.children| == 16
    ensures ok ==> forall q :: w.domain.Contains(q) ==> CopiedAt(t, w, q)
    ensures Inside(w.domain, medians) ==> ok && Cut(Domains(t.children), w.domain, medians, 4)
  {
    var boxes: seq<Box>;
    ok, boxes := Bisect(w.domain, medians);
    t := Node(w.domain, Pieces(w, boxes));
    assert Domains(Pieces(w, boxes)) == boxes;
    if ok {
      forall q | w.domain.Contains(q) ensures CopiedAt(t, w, q) {
        PieceFound(t, w, q);
      }
    }
  }

  /** A lookup finds the rule's own action, in the piece of its box that holds the point. */
  ghost predicate CopiedAt(t: Tree, w: Whisker, q: Memory) {
    match Find(t, q)
    case Found(v) =>
      && v.domain.Contains(q) && v.generation == w.generation && v.windowIncrement == w.windowIncrement
      && v.windowMultiple == w.windowMultiple && v.intersend == w.intersend && v.count == 0
    case _ => false
  }

  lemma PieceFound(t: Tree, w: Whisker, q: Memory)
    requires WellFormed(t) && t.Node? && t.domain.Contains(q)
    requires t.children == Pieces(w, Domains(t.children))
    ensures CopiedAt(t, w, q)
  {
    var k := ChildOf(t, q);
    FindTotal(t.children[k], q);
    FindInSkips(t, 0, k, q);
    assert t.children[k] == Pieces(w, Domains(t.children))[k];
  }

  /** A tree after a run of edits, each of which must succeed. */
  function Edited(t: Tree, edits: seq<Edit>): Outcome {
    if edits == [] then Done(t)
    else
      var before := Edited(t, edits[..|edits| - 1]);
      if before.Done? then Replace(before.t, edits[|edits| - 1]) else before
  }

  /** Each edit of the run fits some leaf of the tree it meets. */
  ghost predicate EditsFit(t: Tree, edits: seq<Edit>) {
    edits != [] ==>
      var front, e := edits[..|edits| - 1], edits[|edits| - 1];
      EditsFit(t, front) && Fits(e) && (Edited(t, front).Done? ==> HasLeaf(Edited(t, front).t, e.Target()))
  }

  /** Any tree grown from one box by fitting edits finds one rule for each point of the box:
      its leaves partition the box and no search reaches an assert. */
  lemma {:induction false} GrownTreeTotal(t: Tree, edits: seq<Edit>)
    requires WellFormed(t) && EditsFit(t, edits)
    ensures Edited(t, edits).Done?
    ensures var g := Edited(t, edits).t;
            WellFormed(g) && g.domain == t.domain
            && (forall q :: Find(g, q) != Broken && (Find(g, q) == Outside <==> !t.domain.Contains(q)))
            && (forall q :: LeavesAt(g, q) == if t.domain.Contains(q) then 1 else 0)
  {
    if edits != [] {
      var front := edits[..|edits| - 1];
      GrownTreeTotal(t, front);
      ReplaceExact(Edited(t, front).t, edits[|edits| - 1]);
    }
    var g := Edited(t, edits).t;
    forall q ensures Find(g, q) != Broken && (Find(g, q) == Outside <==> !t.domain.Contains(q)) {
      FindTotal(g, q);
    }
    forall q ensures LeavesAt(g, q) == if t.domain.Contains(q) then 1 else 0 {
      LeavesPartition(g, q);
    }
  }

  // ------------------------------------------------------------ use counts

  /** use_whisker: the found rule's counter goes up by one. */
  function Use(t: Tree, q: Memory): Tree
    decreases t, 1, 0
  {
    if !t.domain.Contains(q) then t
    else match t
      case Leaf(domain, w) => Leaf(domain, w.(count := Add32(w.count % TWO32, 1)))
      case Node(_, _) => UseIn(t, 0, q)
  }

  function UseIn(t: Tree, k: nat, q: Memory): Tree
    requires t.Node? && k <= |t.children|
    decreases t, 0, |t.children| - k
  {
    if k == |t.children| then t
    else if Find(t.children[k], q).Outside? then UseIn(t, k + 1, q)
    else Node(t.domain, t.children[k := Use(t.children[k], q)])
  }

  /** total_whisker_queries, as an unsigned sum. */
  function Total(t: Tree): (n: nat)
    ensures n < TWO32
    decreases t, 1, 0
  {
    match t
    case Leaf(_, w) => w.count % TWO32
    case Node(_, _) => TotalTo(t, |t.children|)
  }

  function TotalTo(t: Tree, k: nat): (n: nat)
    requires t.Node? && k <= |t.children|
    ensures n < TWO32
    decreases t, 0, k
  {
    if k == 0 then 0 else Add32(TotalTo(t, k - 1), Total(t.children[k - 1]))
  }

  /** Unsigned 32-bit addition. */
  function Add32(a: nat, b: nat): (c: nat)
    requires a < TWO32 && b < TWO32
    ensures c < TWO32
  {
    if a + b < TWO32 then a + b else a + b - TWO32
  }

  lemma Add32Shift(a: nat, b: nat)
    requires a < TWO32 && b < TWO32
    ensures Add32(Add32(a, 1), b) == Add32(Add32(a, b), 1) == Add32(a, Add32(b, 1))
  {
  }

  lemma Add32Step(n: nat)
    ensures Add32(n % TWO32, 1) == (n + 1) % TWO32
  {
  }

  lemma {:induction false} UseInSkips(t: Tree, from: nat, k: nat, q: Memory)
    requires t.Node? && from <= k < |t.children|
    requires forall j :: from <= j < k ==> !t.children[j].domain.Contains(q)
    requires !Find(t.children[k], q).Outside?
    ensures UseIn(t, from, q) == Node(t.domain, t.children[k := Use(t.children[k], q)])
    decreases k - from
  {
    if from < k {
      UseInSkips(t, from + 1, k, q);
    }
  }

  lemma {:induction false} TotalToChanged(t: Tree, k: nat, c': Tree, upTo: nat)
    requires t.Node? && k < |t.children| && upTo <= |t.children|
    requires Total(c') == Add32(Total(t.children[k]), 1)
    ensures var t' := Node(t.domain, t.children[k := c']);
            TotalTo(t', upTo) == if k < upTo then Add32(TotalTo(t, upTo), 1) else TotalTo(t, upTo)
    decreases upTo
  {
    if upTo > 0 {
      TotalToChanged(t, k, c', upTo - 1);
      Add32Shift(TotalTo(t, upTo - 1), Total(t.children[upTo - 1]));
    }
  }

  /** Every lookup of a point in the box is counted once, in one leaf. */
  lemma {:induction false} UseCounts(t: Tree, q: Memory)
    requires WellFormed(t) && t.domain.Contains(q)
    ensures WellFormed(Use(t, q)) && Use(t, q).domain == t.domain
    ensures Total(Use(t, q)) == Add32(Total(t), 1)
    decreases t
  {
    if t.Node? {
      var k := ChildOf(t, q);
      UseCounts(t.children[k], q);
      FindTotal(t.children[k], q);
      UseInSkips(t, 0, k, q);
      var c' := Use(t.children[k], q);
      ChildReplaced(t, k, c');
      TotalToChanged(t, k, c', |t.children|);
    }
  }

  /** A use is counted in the rule that a lookup finds: for the points of its box that rule's
      count is one more, and for no other point does a lookup change. */
  lemma {:induction false} UseExact(t: Tree, q: Memory)
    requires WellFormed(t) && t.domain.Contains(q)
    ensures Find(t, q).Found?
    ensures
      var w := Find(t, q).w;
      forall p :: Find(Use(t, q), p) == if w.domain.Contains(p) then Found(w.(count := (w.count + 1) % TWO32)) else Find(t, p)
    ensures forall p :: Find(t, q).w.domain.Contains(p) ==> t.domain.Contains(p)
    decreases t
  {
    match t {
      case Leaf(_, w) =>
        Add32Step(w.count);
      case Node(_, children) =>
        var k := ChildOf(t, q);
        var c' := Use(children[k], q);
        UseExact(children[k], q);
        UseCounts(children[k], q);
        FindInSkips(t, 0, k, q);
        UseInSkips(t, 0, k, q);
        var w := Find(t, q).w;
        forall p
          ensures Find(Use(t, q), p) == if w.domain.Contains(p) then Found(w.(count := (w.count + 1) % TWO32)) else Find(t, p)
          ensures w.domain.Contains(p) ==> t.domain.Contains(p)
        {
          FindAfterChild(t, k, c', p);
          UsedElsewhere(t, k, w, p);
        }
    }
  }

  lemma UsedElsewhere(t: Tree, k: nat, w: Whisker, p: Memory)
    requires t.Node? && WellFormed(t) && k < |t.children|
    requires w.domain.Contains(p) ==> t.children[k].domain.Contains(p)
    ensures w.domain.Contains(p) ==> t.domain.Contains(p)
    ensures t.children[k].domain.Contains(p) ==> Find(t, p) == Find(t.children[k], p)
  {
    if t.children[k].domain.Contains(p) {
      ChildInside(t, k, p);
      var i := ChildOf(t, p);
      assert i == k;
      FindTotal(t.children[k], p);
      FindInSkips(t, 0, k, p);
    }
  }

  function UseAll(t: Tree, qs: seq<Memory>): Tree {
    if qs == [] then t else Use(UseAll(t, qs[..|qs| - 1]), qs[|qs| - 1])
  }

  /** The query total after a run of lookups inside the box. */
  lemma {:induction false} UseAllCounts(t: Tree, qs: seq<Memory>)
    requires WellFormed(t) && forall k :: 0 <= k < |qs| ==> t.domain.Contains(qs[k])
    ensures WellFormed(UseAll(t, qs)) && UseAll(t, qs).domain == t.domain
    ensures Total(UseAll(t, qs)) == (Total(t) + |qs|) % TWO32
  {
    if qs != [] {
      Add32Step(Total(t) + |qs| - 1);
      UseAllCounts(t, qs[..|qs| - 1]);
      UseCounts(UseAll(t, qs[..|qs| - 1]), qs[|qs| - 1]);
    }
  }
}
