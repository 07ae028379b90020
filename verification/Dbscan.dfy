/** What density clustering means: core points, chains of core points, and the labelling they determine. */
module Density {

  /** The points, the similarity they are compared with, and the two parameters of the clustering. */
  datatype Space<!P> = Space(points: seq<P>, sim: (P, P) -> real, eps: real, minPts: int)

  /** `p` and `q` are different points within `eps` of each other. */
  predicate Near<P>(s: Space<P>, p: int, q: int) {
    0 <= p < |s.points| && 0 <= q < |s.points| && p != q && 1.0 - s.sim(s.points[p], s.points[q]) <= s.eps
  }

  ghost predicate Symmetric<P>(s: Space<P>) {
    forall p, q :: Near(s, p, q) ==> Near(s, q, p)
  }

  /** The neighbours of `p` below `upto`, in ascending order. */
  function Region<P>(s: Space<P>, p: int, upto: nat): (r: seq<int>)
    ensures forall q :: q in r <==> Near(s, p, q) && q < upto
  {
    if upto == 0 then []
    else Region(s, p, upto - 1) + if Near(s, p, upto - 1) then [upto - 1] else []
  }

  predicate Core<P>(s: Space<P>, p: int) {
    0 <= p < |s.points| && |Region(s, p, |s.points|)| >= s.minPts
  }

  function Elements(r: seq<int>): set<int> {
    set q | q in r
  }

  lemma ElementsSnoc(r: seq<int>, x: int)
    requires x !in r
    ensures |Elements(r + [x])| == |Elements(r)| + 1
  {
    assert Elements(r + [x]) == Elements(r) + {x};
  }

  lemma {:induction false} RegionSize<P>(s: Space<P>, p: int, upto: nat)
    ensures |Region(s, p, upto)| == |Elements(Region(s, p, upto))|
  {
    if upto > 0 {
      var before := Region(s, p, upto - 1);
      RegionSize(s, p, upto - 1);
      if Near(s, p, upto - 1) {
        ElementsSnoc(before, upto - 1);
      } else {
        assert before + [] == before;
      }
    }
  }

  /** A point is a core point exactly if at least minPts other points have a similarity of at least 1 - eps to it. */
  lemma CoreExactly<P>(s: Space<P>, p: int)
    requires 0 <= p < |s.points|
    ensures Core(s, p) <==>
              |set q | 0 <= q < |s.points| && q != p && s.sim(s.points[p], s.points[q]) >= 1.0 - s.eps| >= s.minPts
  {
    var n := |s.points|;
    RegionSize(s, p, n);
    assert Elements(Region(s, p, n)) == set q | 0 <= q < n && q != p && s.sim(s.points[p], s.points[q]) >= 1.0 - s.eps;
  }

  // --- chains of neighbouring core points ---------------------------------------------------

  ghost predicate Chain<P>(s: Space<P>, path: seq<int>) {
    && path != []
    && (forall t :: 0 <= t < |path| ==> Core(s, path[t]))
    && (forall t :: 0 < t < |path| ==> Near(s, path[t - 1], path[t]))
  }

  ghost predicate ChainFrom<P>(s: Space<P>, path: seq<int>, p: int, q: int) {
    Chain(s, path) && path[0] == p && path[|path| - 1] == q
  }

  ghost predicate Linked<P>(s: Space<P>, p: int, q: int) {
    exists path :: ChainFrom(s, path, p, q)
  }

  lemma LinkedSelf<P>(s: Space<P>, p: int)
    requires Core(s, p)
    ensures Linked(s, p, p)
  {
    assert ChainFrom(s, [p], p, p);
  }

  lemma LinkedStep<P>(s: Space<P>, p: int, q: int, r: int)
    requires Linked(s, p, q) && Core(s, r) && Near(s, q, r)
    ensures Linked(s, p, r)
  {
    var path :| ChainFrom(s, path, p, q);
    assert ChainFrom(s, path + [r], p, r);
  }

  lemma LinkedSymmetric<P>(s: Space<P>, p: int, q: int)
    requires Symmetric(s) && Linked(s, p, q)
    ensures Linked(s, q, p)
  {
    var path :| ChainFrom(s, path, p, q);
    var back := seq(|path|, t requires 0 <= t < |path| => path[|path| - 1 - t]);
    forall t | 0 < t < |back| ensures Near(s, back[t - 1], back[t]) {
      assert Near(s, path[|path| - 1 - t], path[|path| - t]);
    }
    assert ChainFrom(s, back, q, p);
  }

  lemma LinkedTransitive<P>(s: Space<P>, p: int, q: int, r: int)
    requires Linked(s, p, q) && Linked(s, q, r)
    ensures Linked(s, p, r)
  {
    var front :| ChainFrom(s, front, p, q);
    var back :| ChainFrom(s, back, q, r);
    assert ChainFrom(s, front + back[1..], p, r);
  }

  // --- the labelling ------------------------------------------------------------------------

  ghost predicate HasCoreNeighbour<P>(s: Space<P>, p: int) {
    exists q :: Core(s, q) && Near(s, q, p)
  }

  /** Noise is exactly what is neither core nor next to a core point. */
  ghost predicate NoiseExact<P>(s: Space<P>, labels: seq<int>)
    requires |labels| == |s.points|
  {
    forall p :: 0 <= p < |labels| ==> (labels[p] == -1 <==> !Core(s, p) && !HasCoreNeighbour(s, p))
  }

  /** Core points share a label exactly when a chain of core points joins them. */
  ghost predicate CoresExact<P>(s: Space<P>, labels: seq<int>)
    requires |labels| == |s.points|
  {
    forall p, q :: Core(s, p) && Core(s, q) ==> (labels[p] == labels[q] <==> Linked(s, p, q))
  }

  ghost predicate Anchor<P>(s: Space<P>, labels: seq<int>, p: int, q: int)
    requires |labels| == |s.points|
  {
    0 <= p < |labels| && Core(s, q) && Near(s, q, p) && labels[q] == labels[p]
  }

  /** A border point carries the least label among the core points next to it. */
  ghost predicate BordersExact<P>(s: Space<P>, labels: seq<int>)
    requires |labels| == |s.points|
  {
    && (forall p :: 0 <= p < |labels| && !Core(s, p) && labels[p] >= 0 ==> exists q :: Anchor(s, labels, p, q))
    && (forall p, q :: 0 <= p < |labels| && !Core(s, p) && Core(s, q) && Near(s, q, p) ==> labels[p] <= labels[q])
  }

  /** Some core point below `j` carries label `c`. */
  ghost predicate SeenBelow<P>(s: Space<P>, labels: seq<int>, c: int, j: int)
    requires |labels| == |s.points|
  {
    exists p :: p < j && Core(s, p) && labels[p] == c
  }

  /** The labels are exactly -1 and 0 .. k-1, numbered in the order in which the clusters' first core points stand. */
  ghost predicate NumberedExactly<P>(s: Space<P>, labels: seq<int>, k: int)
    requires |labels| == |s.points|
  {
    && (forall p :: 0 <= p < |labels| ==> -1 <= labels[p] < k)
    && (forall c :: 0 <= c < k ==> SeenBelow(s, labels, c, |labels|))
    && (forall c, j :: Core(s, j) && 0 <= c < labels[j] ==> SeenBelow(s, labels, c, j))
  }

  ghost predicate Clustering<P>(s: Space<P>, labels: seq<int>, k: int) {
    |labels| == |s.points| && NoiseExact(s, labels) && CoresExact(s, labels) && BordersExact(s, labels) &&
    NumberedExactly(s, labels, k)
  }

  lemma {:induction false} CoreLabelsUnique<P>(s: Space<P>, l: seq<int>, k: int, m: seq<int>, k': int, j: int)
    requires Clustering(s, l, k) && Clustering(s, m, k') && Core(s, j)
    ensures l[j] == m[j]
    decreases j
  {
    forall i | i < j && Core(s, i) ensures l[i] == m[i] {
      CoreLabelsUnique(s, l, k, m, k', i);
    }
    if l[j] < m[j] {
      SharesSeenLabel(s, l, k, m, k', j);
    } else if m[j] < l[j] {
      SharesSeenLabel(s, m, k', l, k, j);
    }
  }

  lemma SharesSeenLabel<P>(s: Space<P>, l: seq<int>, k: int, m: seq<int>, k': int, j: int)
    requires Clustering(s, l, k) && Clustering(s, m, k') && Core(s, j) && SeenBelow(s, m, l[j], j)
    requires forall i :: i < j && Core(s, i) ==> l[i] == m[i]
    ensures l[j] == m[j]
  {
    var i :| i < j && Core(s, i) && m[i] == l[j];
    assert Linked(s, i, j);
  }

  /** These conditions leave no choice: one labelling satisfies them. */
  lemma ClusteringUnique<P>(s: Space<P>, l: seq<int>, k: int, m: seq<int>, k': int)
    requires Clustering(s, l, k) && Clustering(s, m, k')
    ensures l == m
  {
    forall j | Core(s, j) ensures l[j] == m[j] {
      CoreLabelsUnique(s, l, k, m, k', j);
    }
    forall p | 0 <= p < |l| ensures l[p] == m[p] {
      if !Core(s, p) && l[p] >= 0 {
        var q :| Anchor(s, l, p, q);
        var r :| Anchor(s, m, p, r);
      }
    }
  }
}

/** pkg/swarm/graph_cluster.go: CosineSimilarity over the reals, with the square root left open. */
module Cosine {
  import opened Density

  type Vector = seq<real>

  /** The sum over the first `upto` coordinates of the products. */
  function Dot(a: Vector, b: Vector, upto: nat): real
    requires upto <= |a| && upto <= |b|
  {
    if upto == 0 then 0.0 else Dot(a, b, upto - 1) + a[upto - 1] * b[upto - 1]
  }

  ghost predicate PositiveRoot(sqrt: real -> real) {
    forall x :: x > 0.0 ==> sqrt(x) > 0.0
  }

  lemma {:induction false} SquaresAreNotNegative(a: Vector, upto: nat)
    requires upto <= |a|
    ensures Dot(a, a, upto) >= 0.0
  {
    if upto > 0 {
      SquaresAreNotNegative(a, upto - 1);
    }
  }

  ghost function Similarity(sqrt: real -> real, a: Vector, b: Vector): real
    requires PositiveRoot(sqrt)
  {
    if |a| == 0 || |b| == 0 || |a| != |b| then 0.0
    else
      var normA, normB := Dot(a, a, |a|), Dot(b, b, |b|);
      if normA == 0.0 || normB == 0.0 then 0.0
      else
        SquaresAreNotNegative(a, |a|);
        SquaresAreNotNegative(b, |b|);
        var scale := sqrt(normA) * sqrt(normB);
        Dot(a, b, |a|) / scale
  }

  lemma {:induction false} DotSymmetric(a: Vector, b: Vector, upto: nat)
    requires upto <= |a| && upto <= |b|
    ensures Dot(a, b, upto) == Dot(b, a, upto)
  {
    if upto > 0 {
      DotSymmetric(a, b, upto - 1);
    }
  }

  lemma SimilaritySymmetric(sqrt: real -> real, a: Vector, b: Vector)
    requires PositiveRoot(sqrt)
    ensures Similarity(sqrt, a, b) == Similarity(sqrt, b, a)
  {
    if |a| == |b| {
      DotSymmetric(a, b, |a|);
    }
  }

  /** With a true square root the similarity is the cosine: its square is the square of the dot product over the squared
      lengths, and its sign that of the dot product. */
  lemma SimilarityIsCosine(sqrt: real -> real, a: Vector, b: Vector)
    requires PositiveRoot(sqrt) && (forall x :: x > 0.0 ==> sqrt(x) * sqrt(x) == x) && |a| == |b|
    ensures var s, d, aa, bb := Similarity(sqrt, a, b), Dot(a, b, |a|), Dot(a, a, |a|), Dot(b, b, |b|);
            if aa == 0.0 || bb == 0.0 then s == 0.0
            else s * s * (aa * bb) == d * d && (s > 0.0 <==> d > 0.0)
  {
    var d, aa, bb := Dot(a, b, |a|), Dot(a, a, |a|), Dot(b, b, |b|);
    SquaresAreNotNegative(a, |a|);
    SquaresAreNotNegative(b, |b|);
    if aa != 0.0 && bb != 0.0 {
      Scaled(d, sqrt(aa), sqrt(bb), aa, bb);
    }
  }

  lemma Scaled(d: real, x: real, y: real, aa: real, bb: real)
    requires x > 0.0 && y > 0.0 && x * x == aa && y * y == bb
    ensures var s := d / (x * y); s * s * (aa * bb) == d * d && (s > 0.0 <==> d > 0.0)
  {
    var m := x * y;
    var s := d / m;
    assert s * m == d;
    assert m * m == aa * bb by {
      assert m * m == (x * x) * (y * y);
    }
    assert (s * m) * (s * m) == s * s * (m * m);
    Signs(s, m);
  }

  lemma Signs(s: real, m: real)
    requires m > 0.0
    ensures s * m > 0.0 <==> s > 0.0
  {
  }

  /** So the neighbour relation the clustering works with is symmetric. */
  lemma CosineSpaceSymmetric(s: Space<Vector>, sqrt: real -> real)
    requires PositiveRoot(sqrt) && forall a, b :: s.sim(a, b) == Similarity(sqrt, a, b)
    ensures Symmetric(s)
  {
    forall p, q | Near(s, p, q) ensures Near(s, q, p) {
      SimilaritySymmetric(sqrt, s.points[p], s.points[q]);
    }
  }
}

/** pkg/swarm/graph_cluster.go: DBSCAN. */
module Dbscan {
  import opened Density

  const UNVISITED := -2
  const NOISE := -1

  // --- what holds between two clusters ------------------------------------------------------

  ghost predicate InRange<P>(s: Space<P>, labels: seq<int>, k: int) {
    && |labels| == |s.points|
    && (forall p :: 0 <= p < |labels| ==> UNVISITED <= labels[p] < k)
    && (forall p :: Core(s, p) ==> labels[p] != NOISE)
  }

  /** A labelled core point has passed its label on to everything next to it. */
  ghost predicate Closed<P>(s: Space<P>, labels: seq<int>)
    requires |labels| == |s.points|
  {
    forall p, q :: Core(s, p) && labels[p] >= 0 && Near(s, p, q) ==>
      0 <= labels[q] <= labels[p] && (Core(s, q) ==> labels[q] == labels[p])
  }

  ghost predicate Anchored<P>(s: Space<P>, labels: seq<int>)
    requires |labels| == |s.points|
  {
    forall p :: 0 <= p < |labels| && !Core(s, p) && labels[p] >= 0 ==> exists q :: Anchor(s, labels, p, q)
  }

  /** `roots[c]` is the first core point of cluster `c`. */
  ghost predicate Rooted<P>(s: Space<P>, labels: seq<int>, k: int, roots: seq<int>)
    requires |labels| == |s.points|
  {
    && |roots| == k
    && (forall c :: 0 <= c < k ==> Core(s, roots[c]) && labels[roots[c]] == c)
    && (forall c, d :: 0 <= c < d < k ==> roots[c] < roots[d])
    && (forall p :: Core(s, p) && 0 <= labels[p] < k ==> Linked(s, roots[labels[p]], p) && roots[labels[p]] <= p)
  }

  ghost predicate Between<P>(s: Space<P>, labels: seq<int>, k: int, roots: seq<int>, i: int) {
    && 0 <= i <= |s.points|
    && InRange(s, labels, k)
    && Closed(s, labels)
    && Anchored(s, labels)
    && Rooted(s, labels, k, roots)
    && (forall p :: 0 <= p < i ==> labels[p] != UNVISITED)
    && (forall c :: 0 <= c < k ==> roots[c] < i)
  }

  // --- what holds while cluster `k` grows ---------------------------------------------------

  /** Only points without a cluster have changed, and only to `k`. */
  ghost predicate Grown(before: seq<int>, labels: seq<int>, k: int) {
    |labels| == |before| &&
    forall p :: 0 <= p < |labels| ==> labels[p] == before[p] || (before[p] < 0 && labels[p] == k)
  }

  ghost predicate Reached<P>(s: Space<P>, labels: seq<int>, k: int, x: int)
    requires |labels| == |s.points|
  {
    exists q :: Core(s, q) && labels[q] == k && Near(s, q, x)
  }

  /** The cluster so far: its core points hang together with `i`, its other points lie next to one of them. */
  ghost predicate ClusterOk<P>(s: Space<P>, before: seq<int>, labels: seq<int>, k: int, i: int) {
    && |labels| == |s.points| && Grown(before, labels, k) && InRange(s, labels, k + 1)
    && Core(s, i) && labels[i] == k
    && (forall p :: Core(s, p) && labels[p] == k ==> Linked(s, i, p))
    && (forall p :: 0 <= p < |labels| && labels[p] == k && !Core(s, p) ==> Reached(s, labels, k, p))
  }

  /** The seeds are exactly what its core points reach. */
  ghost predicate SeedsOk<P>(s: Space<P>, labels: seq<int>, k: int, seed: seq<int>)
    requires |labels| == |s.points|
  {
    && (forall t :: 0 <= t < |seed| ==> Reached(s, labels, k, seed[t]))
    && (forall p, x :: Core(s, p) && labels[p] == k && Near(s, p, x) ==> x in seed)
  }

  ghost predicate Growing<P>(s: Space<P>, before: seq<int>, labels: seq<int>, k: int, i: int, seed: seq<int>) {
    ClusterOk(s, before, labels, k, i) && SeedsOk(s, labels, k, seed)
  }

  ghost predicate Handled(labels: seq<int>, seed: seq<int>, j: int) {
    0 <= j <= |seed| &&
    (forall t :: 0 <= t < |seed| ==> 0 <= seed[t] < |labels|) &&
    forall t :: 0 <= t < j ==> labels[seed[t]] >= 0
  }

  lemma StartCluster<P>(s: Space<P>, labels: seq<int>, k: int, roots: seq<int>, i: int)
    requires Between(s, labels, k, roots, i) && Core(s, i) && labels[i] == UNVISITED
    ensures Growing(s, labels, labels[i := k], k, i, Region(s, i, |s.points|))
    ensures Handled(labels[i := k], Region(s, i, |s.points|), 0)
  {
    LinkedSelf(s, i);
    var seed := Region(s, i, |s.points|);
    forall t | 0 <= t < |seed| ensures Near(s, i, seed[t]) {
      assert seed[t] in seed;
    }
  }

  lemma ReachedStays<P>(s: Space<P>, labels: seq<int>, k: int, nb: int)
    requires |labels| == |s.points| && 0 <= nb < |labels|
    ensures forall x :: Reached(s, labels, k, x) ==> Reached(s, labels[nb := k], k, x)
  {
    forall x | Reached(s, labels, k, x) ensures Reached(s, labels[nb := k], k, x) {
      var q :| Core(s, q) && labels[q] == k && Near(s, q, x);
      assert labels[nb := k][q] == k;
    }
  }

  lemma Join<P>(s: Space<P>, before: seq<int>, labels: seq<int>, k: int, i: int, nb: int)
    requires ClusterOk(s, before, labels, k, i) && k >= 0 && 0 <= nb < |labels| && labels[nb] < 0
    requires Reached(s, labels, k, nb) && (Core(s, nb) ==> Linked(s, i, nb))
    ensures ClusterOk(s, before, labels[nb := k], k, i)
  {
    ReachedStays(s, labels, k, nb);
  }

  /** A point without core property joins the cluster. */
  lemma Absorb<P>(s: Space<P>, before: seq<int>, labels: seq<int>, k: int, i: int, seed: seq<int>, nb: int)
    requires Growing(s, before, labels, k, i, seed) && k >= 0
    requires nb in seed && 0 <= nb < |labels| && labels[nb] < 0 && !Core(s, nb)
    ensures Growing(s, before, labels[nb := k], k, i, seed)
  {
    Join(s, before, labels, k, i, nb);
    ReachedStays(s, labels, k, nb);
  }

  /** The seed list once the neighbours of the core point `nb` have joined it. */
  lemma SeedsGrow<P>(s: Space<P>, labels: seq<int>, k: int, seed: seq<int>, nb: int)
    requires |labels| == |s.points| && 0 <= nb < |labels| && Core(s, nb) && SeedsOk(s, labels, k, seed)
    ensures SeedsOk(s, labels[nb := k], k, seed + Region(s, nb, |s.points|))
  {
    var after, more := labels[nb := k], Region(s, nb, |s.points|);
    var all := seed + more;
    ReachedStays(s, labels, k, nb);
    forall t | 0 <= t < |all| ensures Reached(s, after, k, all[t]) {
      if t < |seed| {
        assert all[t] == seed[t];
      } else {
        assert all[t] in more && after[nb] == k;
      }
    }
    forall p, x | Core(s, p) && after[p] == k && Near(s, p, x) ensures x in all {
      assert if p == nb then x in more else x in seed;
    }
  }

  /** A core point joins the cluster and its neighbours join the seed list. */
  lemma Expand<P>(s: Space<P>, before: seq<int>, labels: seq<int>, k: int, i: int, seed: seq<int>, nb: int)
    requires Growing(s, before, labels, k, i, seed) && k >= 0
    requires nb in seed && 0 <= nb < |labels| && labels[nb] == UNVISITED && Core(s, nb)
    ensures Growing(s, before, labels[nb := k], k, i, seed + Region(s, nb, |s.points|))
  {
    SeedsGrow(s, labels, k, seed, nb);
    assert Reached(s, labels, k, nb);
    var q :| Core(s, q) && labels[q] == k && Near(s, q, nb);
    LinkedStep(s, i, q, nb);
    Join(s, before, labels, k, i, nb);
  }

  lemma ClusterClosed<P>(s: Space<P>, before: seq<int>, labels: seq<int>, k: int, roots: seq<int>, i: int, seed: seq<int>)
    requires Symmetric(s) && Between(s, before, k, roots, i) && k >= 0
    requires Growing(s, before, labels, k, i, seed) && Handled(labels, seed, |seed|)
    ensures Closed(s, labels)
  {
    forall p, q | Core(s, p) && labels[p] >= 0 && Near(s, p, q)
      ensures 0 <= labels[q] <= labels[p] && (Core(s, q) ==> labels[q] == labels[p])
    {
      if labels[p] == k {
        assert q in seed;
        var t :| 0 <= t < |seed| && seed[t] == q;
        assert before[p] < 0 && Near(s, q, p);
        assert Core(s, q) ==> before[q] < 0;
      } else {
        assert before[p] == labels[p] && before[q] >= 0;
      }
    }
  }

  lemma ClusterAnchored<P>(s: Space<P>, before: seq<int>, labels: seq<int>, k: int, roots: seq<int>, i: int, seed: seq<int>)
    requires Between(s, before, k, roots, i) && k >= 0
    requires Growing(s, before, labels, k, i, seed)
    ensures Anchored(s, labels)
  {
    forall p | 0 <= p < |labels| && !Core(s, p) && labels[p] >= 0 ensures exists q :: Anchor(s, labels, p, q) {
      if labels[p] == k {
        assert Reached(s, labels, k, p);
        var q :| Core(s, q) && labels[q] == k && Near(s, q, p);
        assert Anchor(s, labels, p, q);
      } else {
        var q :| Anchor(s, before, p, q);
        assert Anchor(s, labels, p, q);
      }
    }
  }

  lemma ClusterRooted<P>(s: Space<P>, before: seq<int>, labels: seq<int>, k: int, roots: seq<int>, i: int, seed: seq<int>)
    requires Between(s, before, k, roots, i) && k >= 0 && i < |before| && before[i] == UNVISITED
    requires Growing(s, before, labels, k, i, seed)
    ensures Rooted(s, labels, k + 1, roots + [i])
  {
    var roots' := roots + [i];
    forall p | Core(s, p) && 0 <= labels[p] < k + 1
      ensures Linked(s, roots'[labels[p]], p) && roots'[labels[p]] <= p
    {
      if labels[p] == k {
        assert before[p] < 0;
      } else {
        assert before[p] == labels[p];
      }
    }
  }

  /** The cluster is complete when the seed list is used up. */
  lemma FinishCluster<P>(s: Space<P>, before: seq<int>, labels: seq<int>, k: int, roots: seq<int>, i: int, seed: seq<int>)
    requires Symmetric(s) && Between(s, before, k, roots, i) && k >= 0 && i < |before| && before[i] == UNVISITED
    requires Growing(s, before, labels, k, i, seed) && Handled(labels, seed, |seed|)
    ensures Between(s, labels, k + 1, roots + [i], i + 1)
  {
    ClusterClosed(s, before, labels, k, roots, i, seed);
    ClusterAnchored(s, before, labels, k, roots, i, seed);
    ClusterRooted(s, before, labels, k, roots, i, seed);
  }

  // --- after the last cluster ---------------------------------------------------------------

  lemma {:induction false} ChainSharesLabel<P>(s: Space<P>, labels: seq<int>, path: seq<int>)
    requires |labels| == |s.points| && Closed(s, labels) && Chain(s, path) && labels[path[0]] >= 0
    ensures labels[path[|path| - 1]] == labels[path[0]]
    decreases |path|
  {
    if |path| > 1 {
      assert Near(s, path[0], path[1]);
      ChainSharesLabel(s, labels, path[1..]);
    }
  }

  lemma CoresAreExact<P>(s: Space<P>, labels: seq<int>, k: int, roots: seq<int>)
    requires Symmetric(s) && Between(s, labels, k, roots, |labels|)
    ensures CoresExact(s, labels)
  {
    forall p, q | Core(s, p) && Core(s, q) ensures labels[p] == labels[q] <==> Linked(s, p, q) {
      if Linked(s, p, q) {
        var path :| ChainFrom(s, path, p, q);
        ChainSharesLabel(s, labels, path);
      }
      if labels[p] == labels[q] {
        var root := roots[labels[p]];
        LinkedSymmetric(s, root, p);
        LinkedTransitive(s, p, root, q);
      }
    }
  }

  lemma NumberingIsExact<P>(s: Space<P>, labels: seq<int>, k: int, roots: seq<int>)
    requires Between(s, labels, k, roots, |labels|)
    ensures NumberedExactly(s, labels, k)
  {
    forall c | 0 <= c < k ensures SeenBelow(s, labels, c, |labels|) {
      assert Core(s, roots[c]);
    }
    forall c, j | Core(s, j) && 0 <= c < labels[j] ensures SeenBelow(s, labels, c, j) {
      assert roots[c] < roots[labels[j]] <= j && Core(s, roots[c]);
    }
  }

  lemma Finish<P>(s: Space<P>, labels: seq<int>, k: int, roots: seq<int>)
    requires Symmetric(s) && Between(s, labels, k, roots, |s.points|)
    ensures Clustering(s, labels, k)
  {
    CoresAreExact(s, labels, k, roots);
    NumberingIsExact(s, labels, k, roots);
    forall p | 0 <= p < |labels| ensures labels[p] == -1 <==> !Core(s, p) && !HasCoreNeighbour(s, p) {
      if !Core(s, p) && labels[p] >= 0 {
        var q :| Anchor(s, labels, p, q);
      }
    }
  }

  // --- the program --------------------------------------------------------------------------

  method RegionQuery<P>(s: Space<P>, idx: int) returns (result: seq<int>)
    requires 0 <= idx < |s.points|
    ensures result == Region(s, idx, |s.points|)
  {
    result := [];
    for i := 0 to |s.points|
      invariant result == Region(s, idx, i)
    {
      if i == idx { continue; }
      if 1.0 - s.sim(s.points[idx], s.points[i]) <= s.eps {
        result := result + [i];
      }
    }
  }

  /** The unvisited points: what is left to label. */
  ghost function Unvisited(labels: seq<int>): set<int> {
    set p | 0 <= p < |labels| && labels[p] == UNVISITED
  }

  ghost function LabelsAfter(labels: seq<int>, nb: int, k: int): seq<int>
    requires 0 <= nb < |labels|
  {
    if labels[nb] < 0 then labels[nb := k] else labels
  }

  ghost function SeedAfter<P>(s: Space<P>, labels: seq<int>, seed: seq<int>, nb: int): seq<int>
    requires 0 <= nb < |labels|
  {
    if labels[nb] == UNVISITED && Core(s, nb) then seed + Region(s, nb, |s.points|) else seed
  }

  /** One turn of the inner loop keeps what the cluster promises ... */
  lemma SeedStepGrows<P>(s: Space<P>, before: seq<int>, labels: seq<int>, k: int, i: int, seed: seq<int>, nb: int)
    requires Growing(s, before, labels, k, i, seed) && nb in seed && 0 <= nb < |labels| && k >= 0
    ensures Growing(s, before, LabelsAfter(labels, nb, k), k, i, SeedAfter(s, labels, seed, nb))
  {
    if labels[nb] == UNVISITED && Core(s, nb) {
      Expand(s, before, labels, k, i, seed, nb);
    } else if labels[nb] < 0 {
      Absorb(s, before, labels, k, i, seed, nb);
    }
  }

  lemma SeedStepHandled<P>(s: Space<P>, labels: seq<int>, k: int, seed: seq<int>, j: int)
    requires |labels| == |s.points| && Handled(labels, seed, j) && j < |seed| && k >= 0
    ensures Handled(LabelsAfter(labels, seed[j], k), SeedAfter(s, labels, seed, seed[j]), j + 1)
  {
    var more := Region(s, seed[j], |s.points|);
    forall t | 0 <= t < |more| ensures 0 <= more[t] < |labels| {
      assert more[t] in more;
    }
  }

  /** ... and uses up either an unvisited point or a seed. */
  lemma SeedStepProgress<P>(s: Space<P>, labels: seq<int>, k: int, seed: seq<int>, nb: int)
    requires 0 <= nb < |labels| && k >= 0
    ensures |Unvisited(LabelsAfter(labels, nb, k))| < |Unvisited(labels)| ||
            (Unvisited(LabelsAfter(labels, nb, k)) == Unvisited(labels) && SeedAfter(s, labels, seed, nb) == seed)
  {
    if labels[nb] == UNVISITED {
      assert Unvisited(LabelsAfter(labels, nb, k)) == Unvisited(labels) - {nb};
    } else {
      assert Unvisited(LabelsAfter(labels, nb, k)) == Unvisited(labels);
    }
  }

  /** Labels everything that the unvisited core point `i` reaches. */
  method GrowCluster<P>(s: Space<P>, labels: array<int>, k: int, ghost roots: seq<int>, i: int, neighbors: seq<int>)
    requires Symmetric(s) && labels.Length == |s.points| && k >= 0
    requires Between(s, labels[..], k, roots, i) && i < labels.Length
    requires Core(s, i) && labels[i] == UNVISITED && neighbors == Region(s, i, |s.points|)
    modifies labels
    ensures Between(s, labels[..], k + 1, roots + [i], i + 1)
  {
    ghost var before := labels[..];
    StartCluster(s, before, k, roots, i);
    labels[i] := k;
    assert labels[..] == before[i := k];
    var seed := neighbors;
    var j := 0;
    while j < |seed|
      invariant Growing(s, before, labels[..], k, i, seed) && Handled(labels[..], seed, j)
      decreases |Unvisited(labels[..])|, |seed| - j
    {
      ghost var now, had := labels[..], seed;
      var nb := seed[j];
      SeedStepGrows(s, before, now, k, i, had, nb);
      SeedStepHandled(s, now, k, had, j);
      SeedStepProgress(s, now, k, had, nb);
      if labels[nb] == NOISE {
        labels[nb] := k;
      } else if labels[nb] == UNVISITED {
        labels[nb] := k;
        var nbNeighbors := RegionQuery(s, nb);
        if |nbNeighbors| >= s.minPts {
          seed := seed + nbNeighbors;
        }
      }
      assert labels[..] == LabelsAfter(now, nb, k) && seed == SeedAfter(s, now, had, nb);
      j := j + 1;
    }
    FinishCluster(s, before, labels[..], k, roots, i, seed);
  }

  lemma NothingLabelled<P>(s: Space<P>, labels: seq<int>)
    requires |labels| == |s.points| && forall p :: 0 <= p < |labels| ==> labels[p] == UNVISITED
    ensures Between(s, labels, 0, [], 0)
  {
  }

  lemma AlreadyLabelled<P>(s: Space<P>, labels: seq<int>, k: int, roots: seq<int>, i: int)
    requires Between(s, labels, k, roots, i) && i < |labels| && labels[i] != UNVISITED
    ensures Between(s, labels, k, roots, i + 1)
  {
  }

  lemma MarkNoise<P>(s: Space<P>, labels: seq<int>, k: int, roots: seq<int>, i: int)
    requires Between(s, labels, k, roots, i) && i < |labels| && k >= 0 && labels[i] == UNVISITED && !Core(s, i)
    ensures Between(s, labels[i := NOISE], k, roots, i + 1)
  {
    var after := labels[i := NOISE];
    forall p | 0 <= p < |after| && !Core(s, p) && after[p] >= 0 ensures exists q :: Anchor(s, after, p, q) {
      var q :| Anchor(s, labels, p, q);
      assert Anchor(s, after, p, q);
    }
  }

  /** One turn of the main loop. */
  method Visit<P>(s: Space<P>, labels: array<int>, k: int, ghost roots: seq<int>, i: int)
    returns (k': int, ghost roots': seq<int>)
    requires Symmetric(s) && labels.Length == |s.points| && k >= 0
    requires Between(s, labels[..], k, roots, i) && i < labels.Length
    modifies labels
    ensures k' >= 0 && Between(s, labels[..], k', roots', i + 1)
  {
    k', roots' := k, roots;
    if labels[i] != UNVISITED {
      AlreadyLabelled(s, labels[..], k, roots, i);
      return;
    }
    var neighbors := RegionQuery(s, i);
    if |neighbors| < s.minPts {
      ghost var before := labels[..];
      MarkNoise(s, before, k, roots, i);
      labels[i] := NOISE;
      assert labels[..] == before[i := NOISE];
      return;
    }
    GrowCluster(s, labels, k, roots, i, neighbors);
    k', roots' := k + 1, roots + [i];
  }

  /** The closing loop of the source; after the main loop it finds nothing to change. */
  method SweepUnvisited(labels: array<int>)
    modifies labels
    ensures forall p :: 0 <= p < labels.Length ==>
              labels[p] == if old(labels[p]) == UNVISITED then NOISE else old(labels[p])
  {
    for i := 0 to labels.Length
      invariant forall p :: 0 <= p < i ==> labels[p] == if old(labels[p]) == UNVISITED then NOISE else old(labels[p])
      invariant forall p :: i <= p < labels.Length ==> labels[p] == old(labels[p])
    {
      if labels[i] == UNVISITED { labels[i] := NOISE; }
    }
  }

  method Cluster<P>(s: Space<P>) returns (labels: array<int>, k: int)
    requires Symmetric(s)
    ensures fresh(labels) && Clustering(s, labels[..], k)
  {
    var n := |s.points|;
    labels := new int[n](_ => UNVISITED);
    k := 0;
    ghost var roots: seq<int> := [];
    NothingLabelled(s, labels[..]);
    for i := 0 to n
      invariant k >= 0 && Between(s, labels[..], k, roots, i)
    {
      k, roots := Visit(s, labels, k, roots, i);
    }
    ghost var done := labels[..];
    SweepUnvisited(labels);
    assert labels[..] == done;
    Finish(s, labels[..], k, roots);
  }
}
