/**
 * The isolation tree of itree.go as values: the node structure buildTree
 * produces, the path traverse follows, avgPathLen, and the properties of
 * trees built from a table by the recursion.
 */
module TreeSpec {
  import opened Wrappers
  import opened Seqs
  import opened DataSetSpec
  import Random

  /** NumTrees, SampleSize and the depth bound ceil(log2(SampleSize)) BuildForest uses. */
  const NumTrees: nat := 100
  const SampleSize: nat := 256
  const MaxDepth: nat := 8

  function Pow2(n: nat): nat {
    if n == 0 then 1 else 2 * Pow2(n - 1)
  }

  /** MaxDepth is ceil(log2(SampleSize)): the least exponent whose power of two reaches SampleSize. */
  lemma MaxDepthIsCeilLog2()
    ensures Pow2(MaxDepth) >= SampleSize
    ensures forall e: nat :: e < MaxDepth ==> Pow2(e) < SampleSize
  {
    assert Pow2(7) == 128;
    forall e: nat | e < MaxDepth ensures Pow2(e) < SampleSize {
      Pow2Monotone(e, 7);
    }
  }

  lemma {:induction false} Pow2Monotone(a: nat, b: nat)
    requires a <= b
    ensures Pow2(a) <= Pow2(b)
  {
    if a < b {
      Pow2Monotone(a, b - 1);
    }
  }

  /**
   * IsolationTreeNode: a leaf holding the size of the dataset it was built
   * from, or an inner node with its split condition, both children and
   * that size. (The node's isLeaf flag is which constructor it is.)
   */
  datatype Node =
    | Leaf(remainingSize: nat)
    | Inner(split: SplitCondition, left: Node, right: Node, remainingSize: nat)

  datatype Tree = Tree(root: Node)

  /** The number of inner nodes on the longest path from the node down to a leaf. */
  function Height(n: Node): nat {
    match n
    case Leaf(_) => 0
    case Inner(_, l, r, _) => 1 + if Height(l) >= Height(r) then Height(l) else Height(r)
  }

  /** The attributes split on anywhere in the tree. */
  function SplitAttributes(n: Node): set<Attribute> {
    match n
    case Leaf(_) => {}
    case Inner(c, l, r, _) => {c.attribute} + SplitAttributes(l) + SplitAttributes(r)
  }

  /** At every inner node the two children's sizes add up to the node's own. */
  ghost predicate SizesAddUp(n: Node) {
    match n
    case Leaf(_) => true
    case Inner(_, l, r, size) => l.remainingSize + r.remainingSize == size && SizesAddUp(l) && SizesAddUp(r)
  }

  /** Below a split that left one side empty, that attribute is never split on again. */
  ghost predicate NoRepeatAfterEmptySide(n: Node) {
    match n
    case Leaf(_) => true
    case Inner(c, l, r, _) =>
      && (l.remainingSize == 0 || r.remainingSize == 0 ==> c.attribute !in SplitAttributes(l) + SplitAttributes(r))
      && NoRepeatAfterEmptySide(l) && NoRepeatAfterEmptySide(r)
  }

  /** addExclusion: a new exclusion map holding the old entries and `attr` set to true. */
  function WithExclusion(exclude: map<Attribute, bool>, attr: Attribute): (r: map<Attribute, bool>)
    ensures r.Keys == exclude.Keys + {attr}
    ensures r[attr]
    ensures forall a :: a in exclude && a != attr ==> r[a] == exclude[a]
  {
    exclude[attr := true]
  }

  /** The exclusion map the children of a node get: extended with the split attribute when a side is empty. */
  function ChildExclusion(exclude: map<Attribute, bool>, s: SplitResult): map<Attribute, bool> {
    if |s.matched.rows| == 0 || |s.notMatched.rows| == 0 then WithExclusion(exclude, s.condition.attribute)
    else exclude
  }

  /**
   * buildTree: a leaf when at most one row is left, when the depth bound is
   * reached or when Split finds nothing to split on; otherwise the drawn
   * condition with a subtree for each side, one level deeper. The random
   * draws of a node are those of its site; its children draw at the
   * child sites.
   */
  function BuildTreeSpec(t: Table, depth: nat, maxDepth: nat, exclude: map<Attribute, bool>,
                         src: Random.Source, site: Random.Site): (r: Node)
    requires Random.Valid(src)
    ensures r.remainingSize == |t.rows|
    ensures depth >= maxDepth || |t.rows| <= 1 ==> r.Leaf?
    decreases maxDepth - depth
  {
    if |t.rows| <= 1 || depth >= maxDepth then Leaf(|t.rows|)
    else
      match SplitSpec(t, exclude, src, site)
      case Err(_) => Leaf(|t.rows|)
      case Ok(s) =>
        var ex := ChildExclusion(exclude, s);
        Inner(s.condition,
              BuildTreeSpec(s.matched, depth + 1, maxDepth, ex, src, site.Child(true)),
              BuildTreeSpec(s.notMatched, depth + 1, maxDepth, ex, src, site.Child(false)),
              |t.rows|)
  }

  /** A node is a leaf iff at most one row is left, the depth bound is reached, or every attribute is excluded. */
  lemma LeafIff(t: Table, depth: nat, maxDepth: nat, exclude: map<Attribute, bool>, src: Random.Source, site: Random.Site)
    requires Random.Valid(src)
    ensures BuildTreeSpec(t, depth, maxDepth, exclude, src, site).Leaf? <==>
              |t.rows| <= 1 || depth >= maxDepth || forall a :: a in t.attributes ==> a in exclude
  {
    if |t.rows| > 1 && depth < maxDepth {
      SplitNotSplittableIff(t, exclude, src, site);
    }
  }

  /** Each node's size is the size of the table it was built from, and the children's sizes add up. */
  lemma {:induction false} TreeSizes(t: Table, depth: nat, maxDepth: nat, exclude: map<Attribute, bool>,
                                     src: Random.Source, site: Random.Site)
    requires Random.Valid(src)
    ensures var n := BuildTreeSpec(t, depth, maxDepth, exclude, src, site);
            n.remainingSize == |t.rows| && SizesAddUp(n)
    decreases maxDepth - depth
  {
    if |t.rows| > 1 && depth < maxDepth && SplitSpec(t, exclude, src, site).Ok? {
      var s := SplitSpec(t, exclude, src, site).value;
      var ex := ChildExclusion(exclude, s);
      SplitPartitions(t, exclude, src, site);
      TreeSizes(s.matched, depth + 1, maxDepth, ex, src, site.Child(true));
      TreeSizes(s.notMatched, depth + 1, maxDepth, ex, src, site.Child(false));
    }
  }

  /** No node lies deeper than the depth bound. */
  lemma {:induction false} TreeHeight(t: Table, depth: nat, maxDepth: nat, exclude: map<Attribute, bool>,
                                      src: Random.Source, site: Random.Site)
    requires Random.Valid(src) && depth <= maxDepth
    ensures depth + Height(BuildTreeSpec(t, depth, maxDepth, exclude, src, site)) <= maxDepth
    decreases maxDepth - depth
  {
    if |t.rows| > 1 && depth < maxDepth && SplitSpec(t, exclude, src, site).Ok? {
      var s := SplitSpec(t, exclude, src, site).value;
      var ex := ChildExclusion(exclude, s);
      var l := BuildTreeSpec(s.matched, depth + 1, maxDepth, ex, src, site.Child(true));
      var r := BuildTreeSpec(s.notMatched, depth + 1, maxDepth, ex, src, site.Child(false));
      assert BuildTreeSpec(t, depth, maxDepth, exclude, src, site) == Inner(s.condition, l, r, |t.rows|);
      TreeHeight(s.matched, depth + 1, maxDepth, ex, src, site.Child(true));
      TreeHeight(s.notMatched, depth + 1, maxDepth, ex, src, site.Child(false));
    }
  }

  /** The tree only splits on declared attributes, and never on one the exclusion map holds. */
  lemma {:induction false} ExcludedNeverSplit(t: Table, depth: nat, maxDepth: nat, exclude: map<Attribute, bool>,
                                              src: Random.Source, site: Random.Site)
    requires Random.Valid(src)
    ensures forall a :: a in SplitAttributes(BuildTreeSpec(t, depth, maxDepth, exclude, src, site)) ==>
              a in t.attributes && a !in exclude
    decreases maxDepth - depth
  {
    if |t.rows| > 1 && depth < maxDepth && SplitSpec(t, exclude, src, site).Ok? {
      var s := SplitSpec(t, exclude, src, site).value;
      var ex := ChildExclusion(exclude, s);
      SplitConditionDrawn(t, exclude, src, site);
      SplitPartitions(t, exclude, src, site);
      ExcludedNeverSplit(s.matched, depth + 1, maxDepth, ex, src, site.Child(true));
      ExcludedNeverSplit(s.notMatched, depth + 1, maxDepth, ex, src, site.Child(false));
    }
  }

  /** Once a split leaves a side empty, its attribute is excluded from both subtrees. */
  lemma {:induction false} EmptySideExcludes(t: Table, depth: nat, maxDepth: nat, exclude: map<Attribute, bool>,
                                             src: Random.Source, site: Random.Site)
    requires Random.Valid(src)
    ensures NoRepeatAfterEmptySide(BuildTreeSpec(t, depth, maxDepth, exclude, src, site))
    decreases maxDepth - depth
  {
    if |t.rows| > 1 && depth < maxDepth && SplitSpec(t, exclude, src, site).Ok? {
      var s := SplitSpec(t, exclude, src, site).value;
      var ex := ChildExclusion(exclude, s);
      TreeSizes(s.matched, depth + 1, maxDepth, ex, src, site.Child(true));
      TreeSizes(s.notMatched, depth + 1, maxDepth, ex, src, site.Child(false));
      ExcludedNeverSplit(s.matched, depth + 1, maxDepth, ex, src, site.Child(true));
      ExcludedNeverSplit(s.notMatched, depth + 1, maxDepth, ex, src, site.Child(false));
      EmptySideExcludes(s.matched, depth + 1, maxDepth, ex, src, site.Child(true));
      EmptySideExcludes(s.notMatched, depth + 1, maxDepth, ex, src, site.Child(false));
    }
  }

  // ---------------------------------------------------------------------
  // traverse and avgPathLen

  /** The side traverse takes at an inner node: left iff the point satisfies the split condition. */
  function Next(n: Node, point: Row): (r: Node)
    requires n.Inner?
    ensures r == n.left || r == n.right
    ensures Height(r) < Height(n)
  {
    if Check(n.split, Lookup(point, n.split.attribute)) then n.left else n.right
  }

  /** The number of inner nodes traverse passes from `n`. */
  function PathSteps(n: Node, point: Row): (r: nat)
    ensures r == 0 <==> n.Leaf?
  {
    match n
    case Leaf(_) => 0
    case Inner(_, _, _, _) => 1 + PathSteps(Next(n, point), point)
  }

  /** The leaf traverse stops at. */
  function Reached(n: Node, point: Row): (r: Node)
    ensures r.Leaf?
  {
    match n
    case Leaf(_) => n
    case Inner(_, _, _, _) => Reached(Next(n, point), point)
  }

  /**
   * avgPathLen: 0 for at most one row, otherwise 2 H(n-1) - 2(n-1)/n with
   * the harmonic-number estimate `harmonic` given.
   */
  function AvgPathLen(size: int, harmonic: int -> real): (r: real)
    ensures size <= 1 ==> r == 0.0
  {
    if size <= 1 then 0.0
    else 2.0 * harmonic(size - 1) - (2.0 * (size - 1) as real) / (size as real)
  }

  /** traverse's result: the steps taken plus the expected remaining path length at the leaf reached. */
  function PathLength(root: Node, point: Row, harmonic: int -> real): (r: real)
    ensures Reached(root, point).remainingSize <= 1 ==> r == PathSteps(root, point) as real
    ensures root.Leaf? ==> r == AvgPathLen(root.remainingSize, harmonic)
  {
    PathSteps(root, point) as real + AvgPathLen(Reached(root, point).remainingSize, harmonic)
  }

  /** traverse passes at most as many inner nodes as the tree is high. */
  lemma {:induction false} PathStepsBounded(n: Node, point: Row)
    ensures PathSteps(n, point) <= Height(n)
  {
    if n.Inner? {
      PathStepsBounded(Next(n, point), point);
    }
  }

  /**
   * A row the tree was built from follows its own rows down: the leaf it
   * reaches still holds at least that row, so its size is at least one.
   */
  lemma {:induction false} OwnRowReachesNonEmptyLeaf(t: Table, depth: nat, maxDepth: nat, exclude: map<Attribute, bool>,
                                                     src: Random.Source, site: Random.Site, k: nat)
    requires Random.Valid(src) && k < |t.rows|
    ensures Reached(BuildTreeSpec(t, depth, maxDepth, exclude, src, site), t.rows[k]).remainingSize >= 1
    decreases maxDepth - depth
  {
    var row := t.rows[k];
    if |t.rows| > 1 && depth < maxDepth && SplitSpec(t, exclude, src, site).Ok? {
      var s := SplitSpec(t, exclude, src, site).value;
      var ex := ChildExclusion(exclude, s);
      var l := BuildTreeSpec(s.matched, depth + 1, maxDepth, ex, src, site.Child(true));
      var r := BuildTreeSpec(s.notMatched, depth + 1, maxDepth, ex, src, site.Child(false));
      var n := Inner(s.condition, l, r, |t.rows|);
      assert BuildTreeSpec(t, depth, maxDepth, exclude, src, site) == n;
      SplitRowsMembers(t.rows, s.condition);
      assert row in t.rows;
      if Matches(s.condition, row) {
        var j :| 0 <= j < |s.matched.rows| && s.matched.rows[j] == row;
        assert Reached(n, row) == Reached(l, row);
        OwnRowReachesNonEmptyLeaf(s.matched, depth + 1, maxDepth, ex, src, site.Child(true), j);
      } else {
        var j :| 0 <= j < |s.notMatched.rows| && s.notMatched.rows[j] == row;
        assert Reached(n, row) == Reached(r, row);
        OwnRowReachesNonEmptyLeaf(s.notMatched, depth + 1, maxDepth, ex, src, site.Child(false), j);
      }
    }
  }

  // ---------------------------------------------------------------------
  // BuildForest and Score

  /**
   * IsolationForest: the trees, the attributes keyed by name, and the
   * expected average path length of a sample.
   */
  datatype Forest = Forest(trees: seq<Tree>, attributes: map<string, Attribute>, expectedAverage: real)

  /** The sample BuildForest grows tree i from: at most SampleSize rows drawn without replacement. */
  function SampleTable(t: Table, draws: seq<int>): Table
    requires SampleDraws(|t.rows|, SampleSize, draws)
  {
    Table(t.attributes, SampleRows(t.rows, SampleSize, draws))
  }

  /** Tree i of the forest, grown from its sample with no exclusions, drawing at the sites of tree i. */
  function ForestTree(t: Table, draws: seq<int>, src: Random.Source, i: nat): Tree
    requires Random.Valid(src) && SampleDraws(|t.rows|, SampleSize, draws)
  {
    Tree(BuildTreeSpec(SampleTable(t, draws), 0, MaxDepth, map[], src, Random.Site(i, [])))
  }

  /** Per-tree draw streams for Sample, each long enough to draw a full sample. */
  ghost predicate ForestDraws(size: nat, draws: seq<seq<int>>) {
    |draws| == NumTrees && forall i :: 0 <= i < |draws| ==> SampleDraws(size, SampleSize, draws[i])
  }

  /** The first n trees of the forest, in order. */
  function ForestTrees(t: Table, draws: seq<seq<int>>, src: Random.Source, n: nat): (r: seq<Tree>)
    requires Random.Valid(src) && n <= |draws|
    requires forall i :: 0 <= i < |draws| ==> SampleDraws(|t.rows|, SampleSize, draws[i])
    ensures |r| == n
  {
    if n == 0 then [] else ForestTrees(t, draws, src, n - 1) + [ForestTree(t, draws[n - 1], src, n - 1)]
  }

  /** Tree k of the first n is ForestTree k. */
  lemma {:induction false} ForestTreesAt(t: Table, draws: seq<seq<int>>, src: Random.Source, n: nat, k: nat)
    requires Random.Valid(src) && k < n <= |draws|
    requires forall i :: 0 <= i < |draws| ==> SampleDraws(|t.rows|, SampleSize, draws[i])
    ensures ForestTrees(t, draws, src, n)[k] == ForestTree(t, draws[k], src, k)
  {
    if k < n - 1 {
      ForestTreesAt(t, draws, src, n - 1, k);
    }
  }

  /** BuildForest: NumTrees trees, the attributes by name, and avgPathLen(SampleSize). */
  function BuildForestSpec(t: Table, draws: seq<seq<int>>, src: Random.Source, harmonic: int -> real): (r: Forest)
    requires Random.Valid(src) && ForestDraws(|t.rows|, draws)
    ensures |r.trees| == NumTrees
    ensures r.attributes.Keys == Names(t.attributes)
    ensures r.expectedAverage == AvgPathLen(SampleSize, harmonic)
  {
    Forest(ForestTrees(t, draws, src, NumTrees),
           AttributeSet(t.attributes),
           AvgPathLen(SampleSize, harmonic))
  }

  /**
   * What BuildForest builds: exactly NumTrees trees, each rooted at a node
   * of min(SampleSize, size) rows, none higher than MaxDepth, none split on
   * an undeclared attribute; the attributes keyed by the declared names.
   */
  lemma ForestShape(t: Table, draws: seq<seq<int>>, src: Random.Source, harmonic: int -> real)
    requires Random.Valid(src) && ForestDraws(|t.rows|, draws)
    ensures var f := BuildForestSpec(t, draws, src, harmonic);
            && |f.trees| == NumTrees
            && f.attributes.Keys == Names(t.attributes)
            && (forall n :: n in f.attributes ==> f.attributes[n].name == n && f.attributes[n] in t.attributes)
            && forall i :: 0 <= i < NumTrees ==>
                 && f.trees[i].root.remainingSize == Clamp(SampleSize, |t.rows|)
                 && Height(f.trees[i].root) <= MaxDepth
                 && SplitAttributes(f.trees[i].root) <= Elements(t.attributes)
                 && SizesAddUp(f.trees[i].root)
  {
    var f := BuildForestSpec(t, draws, src, harmonic);
    forall i | 0 <= i < NumTrees
      ensures && f.trees[i].root.remainingSize == Clamp(SampleSize, |t.rows|)
              && Height(f.trees[i].root) <= MaxDepth
              && SplitAttributes(f.trees[i].root) <= Elements(t.attributes)
              && SizesAddUp(f.trees[i].root)
    {
      ForestTreesAt(t, draws, src, NumTrees, i);
      var s := SampleTable(t, draws[i]);
      TreeSizes(s, 0, MaxDepth, map[], src, Random.Site(i, []));
      TreeHeight(s, 0, MaxDepth, map[], src, Random.Site(i, []));
      ExcludedNeverSplit(s, 0, MaxDepth, map[], src, Random.Site(i, []));
    }
  }

  /** Each tree's path length for one point, in tree order. */
  function PathLengths(trees: seq<Tree>, point: Row, harmonic: int -> real): (r: seq<real>)
    ensures |r| == |trees|
  {
    seq(|trees|, i requires 0 <= i < |trees| => PathLength(trees[i].root, point, harmonic))
  }

  function Sum(xs: seq<real>): real {
    if xs == [] then 0.0 else Sum(xs[..|xs| - 1]) + xs[|xs| - 1]
  }

  /** Score's average: the total path length over the number of trees. */
  function Mean(xs: seq<real>): real
    requires |xs| > 0
  {
    Sum(xs) / (|xs| as real)
  }

  /** When every value lies in [lo, hi], so does their mean. */
  lemma MeanWithinBounds(xs: seq<real>, lo: real, hi: real)
    requires |xs| > 0
    requires forall i :: 0 <= i < |xs| ==> lo <= xs[i] <= hi
    ensures lo <= Mean(xs) <= hi
  {
    SumWithinBounds(xs, lo, hi);
    DivideBounds(Sum(xs), |xs| as real, lo, hi);
  }

  lemma {:induction false} SumWithinBounds(xs: seq<real>, lo: real, hi: real)
    requires forall i :: 0 <= i < |xs| ==> lo <= xs[i] <= hi
    ensures lo * (|xs| as real) <= Sum(xs) <= hi * (|xs| as real)
  {
    if xs != [] {
      var front := xs[..|xs| - 1];
      assert forall i :: 0 <= i < |front| ==> front[i] == xs[i];
      SumWithinBounds(front, lo, hi);
      var n := |front| as real;
      var last := xs[|xs| - 1];
      assert Sum(xs) == Sum(front) + last;
      assert lo <= last <= hi;
      MulSucc(lo, n);
      MulSucc(hi, n);
      var m := |xs| as real;
      assert lo * m == lo * n + lo && hi * m == hi * n + hi;
      assert lo * n + lo <= Sum(front) + last <= hi * n + hi;
      assert lo * m <= Sum(xs) <= hi * m;
    }
  }

  lemma MulSucc(x: real, n: real)
    ensures x * (n + 1.0) == x * n + x
  {
  }

  lemma DivideBounds(total: real, n: real, lo: real, hi: real)
    requires n > 0.0 && lo * n <= total <= hi * n
    ensures lo <= total / n <= hi
  {
  }

  /**
   * For trees built by BuildForest, every tree passes at most MaxDepth inner
   * nodes, so the step part of each tree's path length is at most MaxDepth.
   */
  lemma ForestStepsBounded(t: Table, draws: seq<seq<int>>, src: Random.Source, harmonic: int -> real, point: Row)
    requires Random.Valid(src) && ForestDraws(|t.rows|, draws)
    ensures var f := BuildForestSpec(t, draws, src, harmonic);
            forall i :: 0 <= i < |f.trees| ==> PathSteps(f.trees[i].root, point) <= MaxDepth
  {
    var f := BuildForestSpec(t, draws, src, harmonic);
    ForestShape(t, draws, src, harmonic);
    forall i | 0 <= i < |f.trees| ensures PathSteps(f.trees[i].root, point) <= MaxDepth {
      PathStepsBounded(f.trees[i].root, point);
    }
  }

  /** The leaf traverse reaches holds no more rows than the node it starts from. */
  lemma {:induction false} ReachedSizeBounded(n: Node, point: Row)
    requires SizesAddUp(n)
    ensures Reached(n, point).remainingSize <= n.remainingSize
  {
    if n.Inner? {
      ReachedSizeBounded(Next(n, point), point);
    }
  }

  /**
   * Score's average path length over a forest BuildForest built: when
   * avgPathLen lies in [lo, hi] for every sample size up to SampleSize, the
   * average lies in [lo, MaxDepth + hi], since every tree passes at most
   * MaxDepth inner nodes and reaches a leaf of at most SampleSize rows.
   */
  lemma ForestAverageBounded(t: Table, draws: seq<seq<int>>, src: Random.Source, harmonic: int -> real,
                             point: Row, lo: real, hi: real)
    requires Random.Valid(src) && ForestDraws(|t.rows|, draws)
    requires forall n: nat :: n <= SampleSize ==> lo <= AvgPathLen(n, harmonic) <= hi
    ensures var f := BuildForestSpec(t, draws, src, harmonic);
            lo <= Mean(PathLengths(f.trees, point, harmonic)) <= MaxDepth as real + hi
  {
    var f := BuildForestSpec(t, draws, src, harmonic);
    var xs := PathLengths(f.trees, point, harmonic);
    ForestShape(t, draws, src, harmonic);
    forall i | 0 <= i < |xs| ensures lo <= xs[i] <= MaxDepth as real + hi {
      var root := f.trees[i].root;
      PathStepsBounded(root, point);
      ReachedSizeBounded(root, point);
      var leaf := Reached(root, point).remainingSize;
      assert leaf <= SampleSize;
      assert lo <= AvgPathLen(leaf, harmonic) <= hi;
      assert xs[i] == PathSteps(root, point) as real + AvgPathLen(leaf, harmonic);
    }
    MeanWithinBounds(xs, lo, MaxDepth as real + hi);
  }

  /** The point Score evaluates: each forest attribute with the record's entry under its name, converted. */
  datatype ScoreResult = ScoreResult(attributes: Row, averagePathLength: real)

  /** What stops Score: a forest attribute whose name the record lacks, or a number that does not parse. */
  datatype ScoreError = NotFound(name: string) | NotAFloat(value: string)

  /**
   * NewAttributeValue with the float parser given: the string for a
   * categorical attribute, the parsed number for a numerical one, which
   * panics when the text is no number.
   */
  function ToValue(a: Attribute, v: string, parseFloat: string -> Option<real>): (r: Result<AttributeValue, ScoreError>)
    ensures r.Err? <==> a.kind == Numerical && parseFloat(v).None?
    ensures r.Ok? && a.kind == Categorical ==> r.value.str == v
    ensures r.Ok? && a.kind == Numerical ==> r.value.num == parseFloat(v).value
  {
    match a.kind
    case Categorical => Ok(AttributeValue(v, 0.0))
    case Numerical =>
      match parseFloat(v)
      case None => Err(NotAFloat(v))
      case Some(x) => Ok(AttributeValue("", x))
  }

  /** Every forest attribute's name is in the record and its entry converts. */
  ghost predicate Scorable(attrs: map<string, Attribute>, record: map<string, string>, parseFloat: string -> Option<real>) {
    forall k :: k in attrs ==> attrs[k].name in record && ToValue(attrs[k], record[attrs[k].name], parseFloat).Ok?
  }

  /** The converted point of a scorable record. */
  ghost function PointOf(attrs: map<string, Attribute>, record: map<string, string>, parseFloat: string -> Option<real>): (p: Row)
    requires Scorable(attrs, record, parseFloat)
    ensures p.Keys == attrs.Values
  {
    map a | a in attrs.Values :: ToValue(a, record[a.name], parseFloat).value
  }

  /** An error Score may report: it names a forest attribute the record lacks, or an entry that does not parse. */
  ghost predicate ScoreErrorFits(attrs: map<string, Attribute>, record: map<string, string>,
                                 parseFloat: string -> Option<real>, e: ScoreError) {
    match e
    case NotFound(n) => (exists k :: k in attrs && attrs[k].name == n) && n !in record
    case NotAFloat(v) =>
      exists k :: k in attrs && attrs[k].name in record && record[attrs[k].name] == v
                  && attrs[k].kind == Numerical && parseFloat(v).None?
  }

  /** A record that is not scorable has an error Score may report. */
  lemma UnscorableHasError(attrs: map<string, Attribute>, record: map<string, string>, parseFloat: string -> Option<real>)
    requires !Scorable(attrs, record, parseFloat)
    ensures exists e :: ScoreErrorFits(attrs, record, parseFloat, e)
  {
    var k :| k in attrs && !(attrs[k].name in record && ToValue(attrs[k], record[attrs[k].name], parseFloat).Ok?);
    if attrs[k].name !in record {
      assert ScoreErrorFits(attrs, record, parseFloat, NotFound(attrs[k].name));
    } else {
      assert ScoreErrorFits(attrs, record, parseFloat, NotAFloat(record[attrs[k].name]));
    }
  }
}
