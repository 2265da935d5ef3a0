/**
 * The imperative side of itree.go: buildTree over datasets, the exclusion
 * map copy, the traverse loop, and the BuildForest and Score loops, each
 * proved against its specification in TreeSpec.
 */
module IsolationTrees {
  import opened Wrappers
  import opened DataSetSpec
  import opened TreeSpec
  import opened DataSets
  import Random

  /** addExclusion: a fresh map filled entry by entry from `exclude`, then `attr` set to true. */
  method AddExclusion(exclude: map<Attribute, bool>, attr: Attribute) returns (m: map<Attribute, bool>)
    ensures m == WithExclusion(exclude, attr)
  {
    m := map[];
    var pending := exclude.Keys;
    while pending != {}
      invariant pending <= exclude.Keys
      invariant m.Keys == exclude.Keys - pending
      invariant forall k :: k in m ==> m[k] == exclude[k]
      decreases pending
    {
      var k :| k in pending;
      m := m[k := exclude[k]];
      pending := pending - {k};
    }
    m := m[attr := true];
  }

  /**
   * buildTree: the node records the dataset's size; it is a leaf for at
   * most one row, at the depth bound, or when Split reports NotSplittable
   * (the only error Split returns); otherwise both sides are built one
   * level deeper, with the split attribute excluded when a side is empty.
   */
  method BuildTree(ds: DataSet, depth: nat, maxDepth: nat, exclude: map<Attribute, bool>,
                   src: Random.Source, site: Random.Site) returns (node: Node)
    requires ds.Valid() && Random.Valid(src)
    ensures node == BuildTreeSpec(ds.Model(), depth, maxDepth, exclude, src, site)
    decreases maxDepth - depth
  {
    if ds.size <= 1 || depth >= maxDepth {
      return Leaf(ds.size);
    }
    var res, left, right := ds.Split(exclude, src, site);
    if res.Err? {
      return Leaf(ds.size);
    }
    var split := res.value;
    var ex := exclude;
    if left.size == 0 || right.size == 0 {
      ex := AddExclusion(exclude, split.attribute);
    }
    var l := BuildTree(left, depth + 1, maxDepth, ex, src, site.Child(true));
    var r := BuildTree(right, depth + 1, maxDepth, ex, src, site.Child(false));
    node := Inner(split, l, r, ds.size);
  }

  /**
   * IsolationTree.traverse: from the root, left when the point satisfies
   * the node's condition and right otherwise, one step per inner node;
   * at the leaf, the steps plus avgPathLen of the leaf's size.
   */
  method Traverse(tree: Tree, point: Row, harmonic: int -> real) returns (pathLength: real)
    ensures pathLength == PathLength(tree.root, point, harmonic)
  {
    pathLength := 0.0;
    var node := tree.root;
    while node.Inner?
      invariant pathLength + PathSteps(node, point) as real == PathSteps(tree.root, point) as real
      invariant Reached(node, point) == Reached(tree.root, point)
      decreases node
    {
      if Check(node.split, Lookup(point, node.split.attribute)) {
        node := node.left;
      } else {
        node := node.right;
      }
      pathLength := pathLength + 1.0;
    }
    pathLength := pathLength + AvgPathLen(node.remainingSize, harmonic);
  }

  /** One pass of BuildForest's first loop: tree i grown from a Sample of SampleSize rows, depth bound MaxDepth, no exclusions. */
  method GrowTree(ds: DataSet, draws: seq<int>, src: Random.Source, i: nat) returns (tree: Tree)
    requires ds.Valid() && Random.Valid(src) && SampleDraws(ds.size, SampleSize, draws)
    ensures tree == ForestTree(ds.Model(), draws, src, i)
  {
    var sample := ds.Sample(SampleSize, draws);
    assert sample.Model() == SampleTable(ds.Model(), draws);
    var root := BuildTree(sample, 0, MaxDepth, map[], src, Random.Site(i, []));
    tree := Tree(root);
  }

  /** BuildForest's first loop: the NumTrees trees, tree i grown by GrowTree from draw stream i. */
  method GrowTrees(ds: DataSet, draws: seq<seq<int>>, src: Random.Source) returns (trees: seq<Tree>)
    requires ds.Valid() && Random.Valid(src) && ForestDraws(ds.size, draws)
    ensures trees == ForestTrees(ds.Model(), draws, src, NumTrees)
  {
    trees := [];
    for i := 0 to NumTrees
      invariant trees == ForestTrees(ds.Model(), draws, src, i)
    {
      var tree := GrowTree(ds, draws[i], src, i);
      trees := trees + [tree];
    }
  }

  /**
   * BuildForest: the NumTrees trees, each attribute keyed by its name (the
   * loop attributeSet also runs), and avgPathLen(SampleSize).
   */
  method BuildForest(ds: DataSet, draws: seq<seq<int>>, src: Random.Source, harmonic: int -> real)
    returns (forest: Forest)
    requires ds.Valid() && Random.Valid(src) && ForestDraws(ds.size, draws)
    ensures forest == BuildForestSpec(ds.Model(), draws, src, harmonic)
  {
    var trees := GrowTrees(ds, draws, src);
    var attributes := ds.AttributeSet();
    forest := Forest(trees, attributes, AvgPathLen(SampleSize, harmonic));
  }

  /**
   * Score's first loop: each forest attribute looked up by name in the
   * record and converted; a missing name or an unparsable number panics,
   * an error here.
   */
  method RecordPoint(attrs: map<string, Attribute>, record: map<string, string>, parseFloat: string -> Option<real>)
    returns (res: Result<Row, ScoreError>)
    ensures res.Ok? <==> Scorable(attrs, record, parseFloat)
    ensures res.Ok? ==> res.value == PointOf(attrs, record, parseFloat)
    ensures res.Err? ==> ScoreErrorFits(attrs, record, parseFloat, res.error)
  {
    var point: Row := map[];
    var pending := attrs.Keys;
    while pending != {}
      invariant pending <= attrs.Keys
      invariant point.Keys == set k | k in attrs.Keys - pending :: attrs[k]
      invariant forall k :: k in attrs.Keys - pending ==>
                  && attrs[k].name in record
                  && ToValue(attrs[k], record[attrs[k].name], parseFloat).Ok?
                  && point[attrs[k]] == ToValue(attrs[k], record[attrs[k].name], parseFloat).value
      decreases pending
    {
      var k :| k in pending;
      var f := attrs[k];
      if f.name !in record {
        return Err(NotFound(f.name));
      }
      var v := ToValue(f, record[f.name], parseFloat);
      if v.Err? {
        return Err(v.error);
      }
      point := point[f := v.value];
      pending := pending - {k};
    }
    return Ok(point);
  }

  /** Score's second loop: the path lengths of all trees for the point, summed in tree order. */
  method TotalPathLength(trees: seq<Tree>, point: Row, harmonic: int -> real) returns (total: real)
    ensures total == Sum(PathLengths(trees, point, harmonic))
  {
    total := 0.0;
    for i := 0 to |trees|
      invariant total == Sum(PathLengths(trees[..i], point, harmonic))
    {
      var n := Traverse(trees[i], point, harmonic);
      ghost var before := PathLengths(trees[..i], point, harmonic);
      assert PathLengths(trees[..i + 1], point, harmonic) == before + [n];
      assert (before + [n])[..|before|] == before;
      total := total + n;
    }
    assert trees[..|trees|] == trees;
  }

  /** Score: the converted point and the average path length over the trees. */
  method Score(forest: Forest, record: map<string, string>, parseFloat: string -> Option<real>, harmonic: int -> real)
    returns (res: Result<ScoreResult, ScoreError>)
    requires |forest.trees| > 0
    ensures res.Ok? <==> Scorable(forest.attributes, record, parseFloat)
    ensures res.Ok? ==> var p := PointOf(forest.attributes, record, parseFloat);
                        res.value == ScoreResult(p, Mean(PathLengths(forest.trees, p, harmonic)))
    ensures res.Err? ==> ScoreErrorFits(forest.attributes, record, parseFloat, res.error)
  {
    var point := RecordPoint(forest.attributes, record, parseFloat);
    if point.Err? {
      return Err(point.error);
    }
    var total := TotalPathLength(forest.trees, point.value, harmonic);
    res := Ok(ScoreResult(point.value, total / (|forest.trees| as real)));
  }
}
