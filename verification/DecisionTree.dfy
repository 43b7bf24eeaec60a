/** The classifier that chooses a compressor: a decision tree kept as a flat list of nodes. */
module DecisionTrees {
  import opened Wrappers
  import opened FileProcessors

  type Point = seq<int>

  /** A node; one whose children are the same is a leaf. */
  datatype Node = Node(leftChild: int, rightChild: int, feature: int, threshold: real, value: int)

  datatype Choice = Choice(compressor: Compressor, level: int)

  datatype Error = InvalidPoint

  predicate IsLeaf(node: Node) {
    node.leftChild == node.rightChild
  }

  /** Children come after their parent, and what a node refers to exists. */
  predicate NodeFits(nodes: seq<Node>, i: nat, nFeatures: nat, nChoices: nat)
    requires i < |nodes|
  {
    var node := nodes[i];
    if IsLeaf(node) then 0 <= node.value < nChoices
    else i < node.leftChild < |nodes| && i < node.rightChild < |nodes| && 0 <= node.feature < nFeatures
  }

  predicate WellFormed(nodes: seq<Node>, nFeatures: nat, nChoices: nat) {
    nodes != [] && forall i | 0 <= i < |nodes| :: NodeFits(nodes, i, nFeatures, nChoices)
  }

  // ----- The tree that the nodes stand for -----

  datatype Tree = Leaf(value: nat) | Branch(feature: nat, threshold: real, left: Tree, right: Tree)

  predicate Fits(tree: Tree, nFeatures: nat, nChoices: nat) {
    match tree
    case Leaf(value) => value < nChoices
    case Branch(feature, _, left, right) => feature < nFeatures && Fits(left, nFeatures, nChoices) && Fits(right, nFeatures, nChoices)
  }

  function Build(nodes: seq<Node>, i: nat, nFeatures: nat, nChoices: nat): (tree: Tree)
    requires WellFormed(nodes, nFeatures, nChoices) && i < |nodes|
    ensures Fits(tree, nFeatures, nChoices)
    decreases |nodes| - i
  {
    var node := nodes[i];
    assert NodeFits(nodes, i, nFeatures, nChoices);
    if IsLeaf(node) then Leaf(node.value)
    else Branch(node.feature, node.threshold, Build(nodes, node.leftChild, nFeatures, nChoices), Build(nodes, node.rightChild, nFeatures, nChoices))
  }

  predicate AtMost(point: Point, feature: nat, threshold: real)
    requires feature < |point|
  {
    point[feature] as real <= threshold
  }

  function Eval(tree: Tree, point: Point, nChoices: nat): (value: nat)
    requires Fits(tree, |point|, nChoices)
    ensures value < nChoices
  {
    match tree
    case Leaf(value) => value
    case Branch(feature, threshold, left, right) => if AtMost(point, feature, threshold) then Eval(left, point, nChoices) else Eval(right, point, nChoices)
  }

  // ----- The way through the nodes -----

  /** From an inner node, the left child comes next when the point is at or below the threshold, and
      the right one otherwise. */
  predicate IsNext(nodes: seq<Node>, point: Point, i: int, next: int) {
    && 0 <= i < |nodes| && nodes[i].leftChild != nodes[i].rightChild && 0 <= nodes[i].feature < |point|
    && (point[nodes[i].feature] as real <= nodes[i].threshold ==> next == nodes[i].leftChild)
    && (point[nodes[i].feature] as real > nodes[i].threshold ==> next == nodes[i].rightChild)
  }

  /** The way of a point from a node on: every index comes next after the one before it, and the last
      one is a node whose children are the same. */
  predicate IsWay(nodes: seq<Node>, point: Point, i: int, path: seq<int>) {
    && path != [] && path[0] == i && 0 <= path[|path| - 1] < |nodes|
    && nodes[path[|path| - 1]].leftChild == nodes[path[|path| - 1]].rightChild
    && (forall k | 0 < k < |path| :: IsNext(nodes, point, path[k - 1], path[k]))
  }

  /** The tree answers what stands at the end of the way. */
  lemma {:induction false} WayDecides(nodes: seq<Node>, point: Point, nChoices: nat, i: nat, path: seq<int>)
    requires WellFormed(nodes, |point|, nChoices) && i < |nodes| && IsWay(nodes, point, i, path)
    ensures nodes[path[|path| - 1]].value == Eval(Build(nodes, i, |point|, nChoices), point, nChoices)
    decreases |path|
  {
    assert NodeFits(nodes, i, |point|, nChoices);
    if |path| > 1 {
      assert IsNext(nodes, point, path[0], path[1]);
      WayGoesOn(nodes, point, i, path);
      hide IsWay;
      WayDecides(nodes, point, nChoices, path[1], path[1..]);
    }
  }

  lemma WayGoesOn(nodes: seq<Node>, point: Point, i: nat, path: seq<int>)
    requires IsWay(nodes, point, i, path) && |path| > 1
    ensures IsWay(nodes, point, path[1], path[1..])
  {
    hide IsNext;
  }

  lemma {:induction false} WayExists(nodes: seq<Node>, point: Point, nChoices: nat, i: nat) returns (path: seq<int>)
    requires WellFormed(nodes, |point|, nChoices) && i < |nodes|
    ensures IsWay(nodes, point, i, path)
    decreases |nodes| - i
  {
    var node := nodes[i];
    assert NodeFits(nodes, i, |point|, nChoices);
    path := [i];
    if !IsLeaf(node) {
      var next := if AtMost(point, node.feature, node.threshold) then node.leftChild else node.rightChild;
      var rest := WayExists(nodes, point, nChoices, next);
      path := [i] + rest;
      assert IsNext(nodes, point, i, next);
      hide WellFormed, NodeFits, IsNext;
    }
  }

  class DecisionTree {
    const nodes: seq<Node>
    const compressors: seq<Choice>
    const nFeatures: nat

    ghost predicate Valid() {
      WellFormed(nodes, nFeatures, |compressors|)
    }

    constructor (nodes: seq<Node>, compressors: seq<Choice>, nFeatures: nat)
      requires WellFormed(nodes, nFeatures, |compressors|)
      ensures Valid() && this.nodes == nodes && this.compressors == compressors && this.nFeatures == nFeatures
    {
      this.nodes, this.compressors, this.nFeatures := nodes, compressors, nFeatures;
    }

    ghost function Tree(): (tree: Tree)
      requires Valid()
      ensures Fits(tree, nFeatures, |compressors|)
    {
      Build(nodes, 0, nFeatures, |compressors|)
    }

    /** Walks the nodes from the first one. A point of the wrong dimension is refused. */
    method Classify(point: Point) returns (choice: Result<Choice, Error>)
      requires Valid()
      ensures choice.Success? <==> |point| == nFeatures
      ensures choice.Success? ==> choice.value == compressors[Eval(Tree(), point, |compressors|)]
      ensures choice.Success? ==> exists path :: IsWay(nodes, point, 0, path)
      ensures choice.Success? ==> forall path | IsWay(nodes, point, 0, path) ::
                var last := nodes[path[|path| - 1]].value;
                0 <= last < |compressors| && choice.value == compressors[last]
    {
      if |point| != nFeatures {
        return Failure(InvalidPoint);
      }
      var current := 0;
      assert NodeFits(nodes, 0, nFeatures, |compressors|);
      while !IsLeaf(nodes[current])
        invariant 0 <= current < |nodes| && NodeFits(nodes, current, nFeatures, |compressors|)
        invariant Eval(Build(nodes, current, nFeatures, |compressors|), point, |compressors|) == Eval(Tree(), point, |compressors|)
        decreases |nodes| - current
      {
        var node := nodes[current];
        current := if point[node.feature] as real <= node.threshold then node.leftChild else node.rightChild;
        assert NodeFits(nodes, current, nFeatures, |compressors|);
      }
      choice := Success(compressors[nodes[current].value]);
      ghost var way := WayExists(nodes, point, |compressors|, 0);
      forall path | IsWay(nodes, point, 0, path)
        ensures nodes[path[|path| - 1]].value == Eval(Tree(), point, |compressors|)
      {
        WayDecides(nodes, point, |compressors|, 0, path);
      }
    }
  }

  // ----- The tree as rules -----

  /** A test on one feature: at most, or more than, a threshold. */
  datatype Test = Test(feature: nat, threshold: real, atMost: bool)

  datatype Rule = Rule(tests: seq<Test>, value: nat)

  predicate Passes(point: Point, test: Test) {
    test.feature < |point| && (AtMost(point, test.feature, test.threshold) <==> test.atMost)
  }

  predicate Applies(point: Point, rule: Rule) {
    forall i | 0 <= i < |rule.tests| :: Passes(point, rule.tests[i])
  }

  function Under(test: Test, rules: seq<Rule>): seq<Rule> {
    seq(|rules|, i requires 0 <= i < |rules| => Rule([test] + rules[i].tests, rules[i].value))
  }

  /** One rule for every leaf: the tests on the way to it. */
  function Rules(tree: Tree): seq<Rule> {
    match tree
    case Leaf(value) => [Rule([], value)]
    case Branch(feature, threshold, left, right) =>
      Under(Test(feature, threshold, true), Rules(left)) + Under(Test(feature, threshold, false), Rules(right))
  }

  lemma UnderApplies(point: Point, test: Test, rules: seq<Rule>, i: nat)
    requires i < |rules|
    ensures Applies(point, Under(test, rules)[i]) <==> Passes(point, test) && Applies(point, rules[i])
  {
    var rule := Under(test, rules)[i];
    if Applies(point, rule) {
      assert Passes(point, rule.tests[0]);
      forall k | 0 <= k < |rules[i].tests|
        ensures Passes(point, rules[i].tests[k])
      {
        assert Passes(point, rule.tests[k + 1]);
      }
    }
  }

  /** Of the rules of a tree exactly one applies to a point, and it gives the tree's answer: the tree says
      everything about every point and never two things. */
  lemma {:induction false} ExactlyOneRule(tree: Tree, point: Point, nChoices: nat) returns (k: nat)
    requires Fits(tree, |point|, nChoices)
    ensures k < |Rules(tree)| && Rules(tree)[k].value == Eval(tree, point, nChoices)
    ensures forall i | 0 <= i < |Rules(tree)| :: Applies(point, Rules(tree)[i]) <==> i == k
  {
    match tree {
      case Leaf(value) => k := 0;
      case Branch(feature, threshold, left, right) =>
        var goesLeft := AtMost(point, feature, threshold);
        var l, r := Rules(left), Rules(right);
        var n := ExactlyOneRule(if goesLeft then left else right, point, nChoices);
        k := if goesLeft then n else |l| + n;
        hide Applies;
        forall i | 0 <= i < |l| + |r|
          ensures Applies(point, Rules(tree)[i]) <==> i == k
        {
          if i < |l| {
            UnderApplies(point, Test(feature, threshold, true), l, i);
          } else {
            UnderApplies(point, Test(feature, threshold, false), r, i - |l|);
          }
        }
    }
  }

  // ----- What the answer depends on -----

  /** The points are on the same side of every threshold of the tree. */
  predicate SameSides(tree: Tree, p: Point, q: Point)
    requires |p| == |q|
  {
    match tree
    case Leaf(_) => true
    case Branch(feature, threshold, left, right) =>
      && feature < |p| && (AtMost(p, feature, threshold) <==> AtMost(q, feature, threshold))
      && SameSides(left, p, q) && SameSides(right, p, q)
  }

  lemma {:induction false} SameSidesSameAnswer(tree: Tree, p: Point, q: Point, nChoices: nat)
    requires |p| == |q| && Fits(tree, |p|, nChoices) && SameSides(tree, p, q)
    ensures Eval(tree, p, nChoices) == Eval(tree, q, nChoices)
  {
    match tree
    case Leaf(_) =>
    case Branch(_, _, left, right) =>
      SameSidesSameAnswer(left, p, q, nChoices);
      SameSidesSameAnswer(right, p, q, nChoices);
  }

  /** No threshold on the feature lies from `low` up to, and not including, `high`. */
  predicate NoneBetween(tree: Tree, feature: nat, low: int, high: int) {
    match tree
    case Leaf(_) => true
    case Branch(f, threshold, left, right) =>
      && (f == feature ==> !(low as real <= threshold < high as real))
      && NoneBetween(left, feature, low, high) && NoneBetween(right, feature, low, high)
  }

  lemma {:induction false} NoneBetweenSameSides(tree: Tree, p: Point, feature: nat, low: int, high: int, nChoices: nat)
    requires Fits(tree, |p|, nChoices) && feature < |p| && low <= high && NoneBetween(tree, feature, low, high)
    ensures SameSides(tree, p[feature := low], p[feature := high])
  {
    match tree
    case Leaf(_) =>
    case Branch(f, threshold, left, right) =>
      NoneBetweenSameSides(left, p, feature, low, high, nChoices);
      NoneBetweenSameSides(right, p, feature, low, high, nChoices);
  }

  /** Raising a coordinate changes no answer when the tree has no threshold in between. */
  lemma {:induction false} Saturates(tree: Tree, p: Point, feature: nat, low: int, high: int, nChoices: nat)
    requires Fits(tree, |p|, nChoices) && feature < |p| && low <= high && NoneBetween(tree, feature, low, high)
    ensures Eval(tree, p[feature := low], nChoices) == Eval(tree, p[feature := high], nChoices)
  {
    NoneBetweenSameSides(tree, p, feature, low, high, nChoices);
    SameSidesSameAnswer(tree, p[feature := low], p[feature := high], nChoices);
  }

  // ----- When two values of a feature are told apart -----

  /** Ranges of the features 0 and 2 of a point of three. */
  datatype Box = Box(low0: int, high0: int, low2: int, high2: int)

  predicate Inside(box: Box, a: int, c: int) {
    box.low0 <= a <= box.high0 && box.low2 <= c <= box.high2
  }

  predicate Empty(box: Box) {
    box.low0 > box.high0 || box.low2 > box.high2
  }

  /** The part of a box where the feature is at most the threshold. */
  function Lower(box: Box, feature: nat, threshold: real): Box {
    var k := threshold.Floor;
    if feature == 0 then box.(high0 := if k < box.high0 then k else box.high0)
    else box.(high2 := if k < box.high2 then k else box.high2)
  }

  /** The part where it is more. */
  function Upper(box: Box, feature: nat, threshold: real): Box {
    var k := threshold.Floor + 1;
    if feature == 0 then box.(low0 := if k > box.low0 then k else box.low0)
    else box.(low2 := if k > box.low2 then k else box.low2)
  }

  /** Two walks at once, one with the value `b` of feature 1 and one with the value `b'`, over the points of
      the box that take both: they end with the same answer. */
  predicate SameInBox(t: Tree, u: Tree, b: int, b': int, box: Box) {
    if Empty(box) then true
    else match t
      case Branch(f, threshold, left, right) =>
        if f == 1 then SameInBox(if b as real <= threshold then left else right, u, b, b', box)
        else SameInBox(left, u, b, b', Lower(box, f, threshold)) && SameInBox(right, u, b, b', Upper(box, f, threshold))
      case Leaf(v) =>
        match u
        case Branch(f, threshold, left, right) =>
          if f == 1 then SameInBox(t, if b' as real <= threshold then left else right, b, b', box)
          else SameInBox(t, left, b, b', Lower(box, f, threshold)) && SameInBox(t, right, b, b', Upper(box, f, threshold))
        case Leaf(w) => v == w
  }

  /** A test splits a box in two. */
  lemma Splits(box: Box, feature: nat, threshold: real, a: int, c: int)
    requires feature == 0 || feature == 2
    ensures var x := if feature == 0 then a else c;
            && (Inside(Lower(box, feature, threshold), a, c) <==> Inside(box, a, c) && x as real <= threshold)
            && (Inside(Upper(box, feature, threshold), a, c) <==> Inside(box, a, c) && !(x as real <= threshold))
  {
    var x := if feature == 0 then a else c;
    assert x as real <= threshold <==> x <= threshold.Floor;
  }

  ghost predicate SameAnswers(t: Tree, u: Tree, b: int, b': int, box: Box, nChoices: nat)
    requires Fits(t, 3, nChoices) && Fits(u, 3, nChoices)
  {
    forall a, c | Inside(box, a, c) :: Eval(t, [a, b, c], nChoices) == Eval(u, [a, b', c], nChoices)
  }

  /** Deciding a test of the first tree, or of the second, decides the question on both parts of the box. */
  lemma FirstSplit(t: Tree, u: Tree, b: int, b': int, box: Box, nChoices: nat)
    requires t.Branch? && t.feature != 1 && Fits(t, 3, nChoices) && Fits(u, 3, nChoices)
    ensures SameAnswers(t, u, b, b', box, nChoices)
            <==> SameAnswers(t.left, u, b, b', Lower(box, t.feature, t.threshold), nChoices)
                 && SameAnswers(t.right, u, b, b', Upper(box, t.feature, t.threshold), nChoices)
  {
    hide Inside, Lower, Upper;
    forall a, c
      ensures Eval(t, [a, b, c], nChoices)
              == if (if t.feature == 0 then a else c) as real <= t.threshold then Eval(t.left, [a, b, c], nChoices) else Eval(t.right, [a, b, c], nChoices)
      ensures Inside(box, a, c) <==> Inside(Lower(box, t.feature, t.threshold), a, c) || Inside(Upper(box, t.feature, t.threshold), a, c)
      ensures Inside(Lower(box, t.feature, t.threshold), a, c) ==> (if t.feature == 0 then a else c) as real <= t.threshold
      ensures Inside(Upper(box, t.feature, t.threshold), a, c) ==> !((if t.feature == 0 then a else c) as real <= t.threshold)
    {
      Splits(box, t.feature, t.threshold, a, c);
    }
    hide Eval;
  }

  lemma Swapped(t: Tree, u: Tree, b: int, b': int, box: Box, nChoices: nat)
    requires Fits(t, 3, nChoices) && Fits(u, 3, nChoices)
    ensures SameAnswers(t, u, b, b', box, nChoices) <==> SameAnswers(u, t, b', b, box, nChoices)
  {
    hide Inside, Eval;
  }

  lemma Chosen(t: Tree, u: Tree, b: int, b': int, box: Box, nChoices: nat)
    requires t.Branch? && t.feature == 1 && Fits(t, 3, nChoices) && Fits(u, 3, nChoices)
    ensures SameAnswers(t, u, b, b', box, nChoices)
            <==> SameAnswers(if b as real <= t.threshold then t.left else t.right, u, b, b', box, nChoices)
  {
    hide Inside;
    var next := if b as real <= t.threshold then t.left else t.right;
    forall a, c
      ensures Eval(t, [a, b, c], nChoices) == Eval(next, [a, b, c], nChoices)
    {
    }
    hide Eval;
  }

  lemma Inhabited(box: Box)
    ensures Empty(box) || Inside(box, box.low0, box.low2)
    ensures Empty(box) ==> forall a, c :: !Inside(box, a, c)
  {
  }

  /** The walks decide whether any point of the box is answered differently for the two values. */
  lemma {:induction false} SameInBoxExactly(t: Tree, u: Tree, b: int, b': int, box: Box, nChoices: nat)
    requires Fits(t, 3, nChoices) && Fits(u, 3, nChoices)
    ensures SameInBox(t, u, b, b', box) <==> SameAnswers(t, u, b, b', box, nChoices)
    decreases t, u
  {
    Inhabited(box);
    if !Empty(box) {
      match t {
        case Branch(f, threshold, left, right) =>
          hide Eval, Lower, Upper, Inside, SameAnswers;
          if f == 1 {
            Chosen(t, u, b, b', box, nChoices);
            SameInBoxExactly(if b as real <= threshold then left else right, u, b, b', box, nChoices);
          } else {
            FirstSplit(t, u, b, b', box, nChoices);
            SameInBoxExactly(left, u, b, b', Lower(box, f, threshold), nChoices);
            SameInBoxExactly(right, u, b, b', Upper(box, f, threshold), nChoices);
          }
        case Leaf(v) =>
          if u.Branch? {
            LeafAgainst(t, u, b, b', box, nChoices);
          } else {
            assert SameAnswers(t, u, b, b', box, nChoices) <==> v == u.value;
          }
      }
    }
  }

  lemma {:induction false} LeafAgainst(t: Tree, u: Tree, b: int, b': int, box: Box, nChoices: nat)
    requires t.Leaf? && Fits(t, 3, nChoices) && Fits(u, 3, nChoices) && u.Branch? && !Empty(box)
    ensures SameInBox(t, u, b, b', box) <==> SameAnswers(t, u, b, b', box, nChoices)
    decreases t, u, 0
  {
    hide Eval, Lower, Upper, Inside, SameAnswers;
    var f, threshold, left, right := u.feature, u.threshold, u.left, u.right;
    Swapped(t, u, b, b', box, nChoices);
    if f == 1 {
      var next := if b' as real <= threshold then left else right;
      Chosen(u, t, b', b, box, nChoices);
      Swapped(t, next, b, b', box, nChoices);
      SameInBoxExactly(t, next, b, b', box, nChoices);
    } else {
      FirstSplit(u, t, b', b, box, nChoices);
      Swapped(t, left, b, b', Lower(box, f, threshold), nChoices);
      Swapped(t, right, b, b', Upper(box, f, threshold), nChoices);
      SameInBoxExactly(t, left, b, b', Lower(box, f, threshold), nChoices);
      SameInBoxExactly(t, right, b, b', Upper(box, f, threshold), nChoices);
    }
  }
}
