/**
 * `generate_custom_mapping`: a random coupling map over qubits
 * 0..num_qubits-1, used to force the router to insert swaps. Phase one
 * grows a random spanning tree by popping a random free qubit and
 * attaching it to a random qubit already placed; phase two appends
 * between 0 and 10 extra edges between placed qubits, each chosen by a
 * rejection loop that avoids a self-loop.
 *
 * The random source is injected as the finite sequence of raw draws it
 * produces: `random.randrange(0, k)` is the next draw modulo k (so every
 * outcome is reachable) and `random.randint(0, 10)` the next draw modulo 11.
 */
module GraphSampler {
  import opened Wrappers

  /** The two-element list [q0, q1] of the map. */
  datatype Edge = Edge(q0: nat, q1: nat)

  datatype MappingError =
    | UnboundQ1   // the rejection guard reads q1 before any assignment (num_qubits <= 1)
    | OutOfDraws  // the injected draws end before the function does

  // ---------------------------------------------------------------------
  // Graph vocabulary
  // ---------------------------------------------------------------------

  /** `list(range(lo, hi))`. */
  function Range(lo: nat, hi: nat): (r: seq<nat>)
    ensures |r| == if lo <= hi then hi - lo else 0
    ensures forall i :: 0 <= i < |r| ==> r[i] == lo + i
    decreases hi - lo
  {
    if lo < hi then [lo] + Range(lo + 1, hi) else []
  }

  predicate InRange(edges: seq<Edge>, n: nat)
  {
    forall e :: e in edges ==> e.q0 < n && e.q1 < n
  }

  predicate NoSelfLoop(edges: seq<Edge>)
  {
    forall e :: e in edges ==> e.q0 != e.q1
  }

  /** The map is undirected: an edge joins its endpoints both ways. */
  predicate Adjacent(edges: seq<Edge>, a: nat, b: nat)
  {
    Edge(a, b) in edges || Edge(b, a) in edges
  }

  ghost predicate IsWalk(edges: seq<Edge>, w: seq<nat>)
  {
    |w| > 0 && forall i :: 0 <= i < |w| - 1 ==> Adjacent(edges, w[i], w[i + 1])
  }

  ghost predicate Reachable(edges: seq<Edge>, a: nat, b: nat)
  {
    exists w :: IsWalk(edges, w) && w[0] == a && w[|w| - 1] == b
  }

  /** Every qubit below n can reach every other one: a single component. */
  ghost predicate Connected(edges: seq<Edge>, n: nat)
  {
    forall a, b :: 0 <= a < n && 0 <= b < n ==> Reachable(edges, a, b)
  }

  /** `paired_qubits` after the tree edges: 0, then each attached qubit in order. */
  function Placed(tree: seq<Edge>): (p: seq<nat>)
    ensures |p| == |tree| + 1 && p[0] == 0
  {
    if tree == [] then [0] else Placed(tree[..|tree| - 1]) + [tree[|tree| - 1].q0]
  }

  /** Each edge attaches a qubit not yet placed to one already placed. */
  ghost predicate TreeShaped(tree: seq<Edge>)
  {
    forall i :: 0 <= i < |tree| ==> tree[i].q1 in Placed(tree[..i]) && tree[i].q0 !in Placed(tree[..i])
  }

  /** The number of tree edges: one per qubit other than 0. */
  function TreeSize(n: nat): nat
  {
    if n >= 1 then n - 1 else 0
  }

  // ---------------------------------------------------------------------
  // Walks
  // ---------------------------------------------------------------------

  lemma WalkExtends(edges: seq<Edge>, more: seq<Edge>, w: seq<nat>)
    requires IsWalk(edges, w)
    ensures IsWalk(edges + more, w)
  {
    forall i | 0 <= i < |w| - 1
      ensures Adjacent(edges + more, w[i], w[i + 1])
    {
      assert Adjacent(edges, w[i], w[i + 1]);
    }
  }

  function Reverse(w: seq<nat>): (r: seq<nat>)
    ensures |r| == |w|
    ensures forall i :: 0 <= i < |w| ==> r[i] == w[|w| - 1 - i]
  {
    if w == [] then [] else Reverse(w[1..]) + [w[0]]
  }

  lemma ReverseWalk(edges: seq<Edge>, w: seq<nat>)
    requires IsWalk(edges, w)
    ensures IsWalk(edges, Reverse(w))
  {
    var r := Reverse(w);
    forall i | 0 <= i < |r| - 1
      ensures Adjacent(edges, r[i], r[i + 1])
    {
      var j := |w| - 2 - i;
      assert Adjacent(edges, w[j], w[j + 1]);
    }
  }

  lemma JoinWalks(edges: seq<Edge>, u: seq<nat>, w: seq<nat>)
    requires IsWalk(edges, u) && IsWalk(edges, w) && u[|u| - 1] == w[0]
    ensures IsWalk(edges, u + w[1..])
  {
    var j := u + w[1..];
    forall i | 0 <= i < |j| - 1
      ensures Adjacent(edges, j[i], j[i + 1])
    {
      if i < |u| - 1 {
        assert Adjacent(edges, u[i], u[i + 1]);
      } else {
        var k := i - (|u| - 1);
        assert j[i] == w[k] && j[i + 1] == w[k + 1];
        assert Adjacent(edges, w[k], w[k + 1]);
      }
    }
  }

  /** Reaching every qubit from qubit 0 is enough for one component. */
  lemma {:induction false} RootedIsConnected(edges: seq<Edge>, n: nat)
    requires forall q :: 0 <= q < n ==> Reachable(edges, 0, q)
    ensures Connected(edges, n)
  {
    forall a, b | 0 <= a < n && 0 <= b < n
      ensures Reachable(edges, a, b)
    {
      assert Reachable(edges, 0, a) && Reachable(edges, 0, b);
      var u :| IsWalk(edges, u) && u[0] == 0 && u[|u| - 1] == a;
      var w :| IsWalk(edges, w) && w[0] == 0 && w[|w| - 1] == b;
      ReverseWalk(edges, u);
      var ru := Reverse(u);
      JoinWalks(edges, ru, w);
      var j := ru + w[1..];
      assert j[0] == a;
      assert j[|j| - 1] == b;
    }
  }

  /** Extra edges never disconnect a connected map. */
  lemma ConnectedExtends(edges: seq<Edge>, more: seq<Edge>, n: nat)
    requires Connected(edges, n)
    ensures Connected(edges + more, n)
  {
    forall a, b | 0 <= a < n && 0 <= b < n
      ensures Reachable(edges + more, a, b)
    {
      assert Reachable(edges, a, b);
      var w :| IsWalk(edges, w) && w[0] == a && w[|w| - 1] == b;
      WalkExtends(edges, more, w);
    }
  }

  // ---------------------------------------------------------------------
  // Trees
  // ---------------------------------------------------------------------

  lemma TreeShapedPrefix(tree: seq<Edge>)
    requires tree != [] && TreeShaped(tree)
    ensures TreeShaped(tree[..|tree| - 1])
  {
    var init := tree[..|tree| - 1];
    forall i | 0 <= i < |init|
      ensures init[i].q1 in Placed(init[..i]) && init[i].q0 !in Placed(init[..i])
    {
      assert init[..i] == tree[..i];
    }
  }

  lemma TreeShapedSnoc(tree: seq<Edge>, e: Edge)
    requires TreeShaped(tree)
    requires e.q1 in Placed(tree) && e.q0 !in Placed(tree)
    ensures TreeShaped(tree + [e])
    ensures Placed(tree + [e]) == Placed(tree) + [e.q0]
  {
    var t := tree + [e];
    assert t[..|tree|] == tree;
    forall i | 0 <= i < |t|
      ensures t[i].q1 in Placed(t[..i]) && t[i].q0 !in Placed(t[..i])
    {
      if i < |tree| {
        assert t[..i] == tree[..i];
      }
    }
  }

  /** A walk ending next to q goes on to q. */
  lemma WalkSnoc(edges: seq<Edge>, w: seq<nat>, q: nat)
    requires IsWalk(edges, w) && Adjacent(edges, w[|w| - 1], q)
    ensures IsWalk(edges, w + [q])
  {
    var w' := w + [q];
    forall i | 0 <= i < |w'| - 1
      ensures Adjacent(edges, w'[i], w'[i + 1])
    {
      if i < |w| - 1 {
        assert w'[i] == w[i] && w'[i + 1] == w[i + 1];
      }
    }
  }

  /** Every qubit a tree has placed is reachable from qubit 0 along the tree. */
  lemma {:induction false} TreeReachesPlaced(tree: seq<Edge>)
    requires TreeShaped(tree)
    ensures forall q :: q in Placed(tree) ==> Reachable(tree, 0, q)
  {
    if tree == [] {
      assert IsWalk(tree, [0]);
    } else {
      var init := tree[..|tree| - 1];
      var e := tree[|tree| - 1];
      assert tree == init + [e];
      assert Placed(tree) == Placed(init) + [e.q0];
      TreeShapedPrefix(tree);
      TreeReachesPlaced(init);
      forall q | q in Placed(tree)
        ensures Reachable(tree, 0, q)
      {
        ReachAfterAttach(init, e, q);
      }
    }
  }

  /** One step of TreeReachesPlaced: attaching e keeps old qubits reachable and reaches e.q0. */
  lemma ReachAfterAttach(init: seq<Edge>, e: Edge, q: nat)
    requires forall x :: x in Placed(init) ==> Reachable(init, 0, x)
    requires e.q1 in Placed(init)
    requires q in Placed(init) || q == e.q0
    ensures Reachable(init + [e], 0, q)
  {
    var tree := init + [e];
    if q in Placed(init) {
      assert Reachable(init, 0, q);
      var w :| IsWalk(init, w) && w[0] == 0 && w[|w| - 1] == q;
      WalkExtends(init, [e], w);
    } else {
      assert Reachable(init, 0, e.q1);
      var w :| IsWalk(init, w) && w[0] == 0 && w[|w| - 1] == e.q1;
      WalkExtends(init, [e], w);
      assert Edge(q, e.q1) in tree;
      WalkSnoc(tree, w, q);
      assert (w + [q])[0] == 0;
    }
  }

  /** The endpoints of tree edges are placed, and never equal. */
  lemma {:induction false} TreeEdgesPlaced(tree: seq<Edge>)
    requires TreeShaped(tree)
    ensures forall e :: e in tree ==> e.q0 in Placed(tree) && e.q1 in Placed(tree)
    ensures NoSelfLoop(tree)
  {
    if tree != [] {
      var init := tree[..|tree| - 1];
      assert tree == init + [tree[|tree| - 1]];
      TreeShapedPrefix(tree);
      TreeEdgesPlaced(init);
    }
  }

  /**
   * A tree whose placed qubits are a permutation of 0..n-1 spans them:
   * its edges lie in range, contain no self-loop and connect all qubits.
   */
  lemma SpanningTree(tree: seq<Edge>, n: nat)
    requires n >= 1 && TreeShaped(tree)
    requires multiset(Placed(tree)) == multiset(Range(0, n))
    ensures InRange(tree, n) && NoSelfLoop(tree) && Connected(tree, n)
  {
    TreeEdgesPlaced(tree);
    TreeReachesPlaced(tree);
    forall q | q in Placed(tree)
      ensures q < n
    {
      assert q in multiset(Range(0, n));
    }
    forall q | 0 <= q < n
      ensures Reachable(tree, 0, q)
    {
      assert Range(0, n)[q] == q;
      assert q in multiset(Placed(tree));
    }
    RootedIsConnected(tree, n);
  }

  lemma {:induction false} RangeDistinct(lo: nat, hi: nat, x: nat)
    ensures multiset(Range(lo, hi))[x] <= 1
    decreases hi - lo
  {
    if lo < hi {
      RangeDistinct(lo + 1, hi, x);
      if x == lo {
        assert lo !in Range(lo + 1, hi);
      }
    }
  }

  /** Moving the popped free qubit to the placed ones keeps 0..all-1 split between them. */
  lemma PopFree(paired: seq<nat>, free: seq<nat>, i: nat, all: nat)
    requires i < |free|
    requires multiset(paired) + multiset(free) == multiset(Range(0, all))
    ensures free[i] !in paired
    ensures multiset(paired + [free[i]]) + multiset(free[..i] + free[i + 1..]) == multiset(Range(0, all))
  {
    assert free == free[..i] + [free[i]] + free[i + 1..];
    RangeDistinct(0, all, free[i]);
  }

  lemma TwoOccurrences(p: seq<nat>, i: nat, j: nat)
    requires i < j < |p| && p[i] == p[j]
    ensures multiset(p)[p[i]] >= 2
  {
    assert p == p[..j] + p[j..];
    assert p[..j][i] == p[i] && p[j..][0] == p[i];
  }

  /** A permutation of 0..all-1 holds each qubit once. */
  lemma PermutationDistinct(p: seq<nat>, all: nat, i: nat, j: nat)
    requires multiset(p) == multiset(Range(0, all))
    requires i < |p| && j < |p| && i != j
    ensures p[i] != p[j]
  {
    RangeDistinct(0, all, p[i]);
    if p[i] == p[j] {
      if i < j {
        TwoOccurrences(p, i, j);
      } else {
        TwoOccurrences(p, j, i);
      }
    }
  }

  // ---------------------------------------------------------------------
  // The two phases
  // ---------------------------------------------------------------------

  /** The variables of phase one: the tree so far, paired_qubits, free_qubits and q1. */
  datatype Growth = Growth(tree: seq<Edge>, paired: seq<nat>, free: seq<nat>, q1: Option<nat>)

  /**
   * The state of phase one after i qubits are attached. Step i pops the
   * free qubit at draw 2(i-1) modulo the free count and pairs it with the
   * placed qubit at draw 2(i-1)+1 modulo the placed count.
   */
  function Grow(n: nat, draws: seq<nat>, i: nat): (g: Growth)
    requires i <= TreeSize(n) && 2 * i <= |draws|
    ensures |g.tree| == i && |g.paired| == i + 1 && |g.free| == TreeSize(n) - i
  {
    if i == 0 then Growth([], [0], Range(1, n), None)
    else
      var g := Grow(n, draws, i - 1);
      var pos := 2 * (i - 1);
      var j := draws[pos] % |g.free|;
      var partner := g.paired[draws[pos + 1] % |g.paired|];
      Growth(g.tree + [Edge(g.free[j], partner)], g.paired + [g.free[j]],
             g.free[..j] + g.free[j + 1..], Some(partner))
  }

  /**
   * The rejection loop `while (q1 == q0)`: redraw q1 from draw pos on
   * until it differs from q0. Yields the final q1 and the next draw
   * position, or None when the draws run out first.
   */
  function Redraw(paired: seq<nat>, cur: nat, q0: nat, draws: seq<nat>, pos: nat): Option<(nat, nat)>
    requires |paired| > 0
    decreases |draws| - pos
  {
    if cur != q0 then Some((cur, pos))
    else if pos >= |draws| then None
    else Redraw(paired, paired[draws[pos] % |paired|], q0, draws, pos + 1)
  }

  /** An outcome of phase two with edges already added in front of it. */
  function Prefixed(prefix: seq<Edge>, x: (Result<seq<Edge>, MappingError>, nat)): (Result<seq<Edge>, MappingError>, nat)
  {
    (if x.0.Ok? then Ok(prefix + x.0.value) else x.0, x.1)
  }

  lemma PrefixedNothing(x: (Result<seq<Edge>, MappingError>, nat))
    ensures Prefixed([], x) == x
  {
    if x.0.Ok? {
      assert [] + x.0.value == x.0.value;
    }
  }

  lemma PrefixedAssoc(a: seq<Edge>, b: seq<Edge>, x: (Result<seq<Edge>, MappingError>, nat))
    ensures Prefixed(a, Prefixed(b, x)) == Prefixed(a + b, x)
  {
    if x.0.Ok? {
      assert a + (b + x.0.value) == (a + b) + x.0.value;
    }
  }

  /**
   * Phase two as written, for k more edges from draw pos on, with q1
   * holding `last`: draw q0; read the current q1 (failing if unbound);
   * redraw it while it equals q0; add the edge; the final q1 carries over
   * to the next edge. Yields the edges or the error, and the next draw
   * position.
   */
  function ExtraEdges(paired: seq<nat>, last: Option<nat>, k: nat, draws: seq<nat>, pos: nat)
    : (Result<seq<Edge>, MappingError>, nat)
    requires |paired| > 0
    decreases k
  {
    if k == 0 then (Ok([]), pos)
    else if pos >= |draws| then (Err(OutOfDraws), pos)
    else
      var q0 := paired[draws[pos] % |paired|];
      if last.None? then (Err(UnboundQ1), pos + 1)
      else
        match Redraw(paired, last.value, q0, draws, pos + 1)
        case None => (Err(OutOfDraws), |draws|)
        case Some((q1, next)) => Prefixed([Edge(q0, q1)], ExtraEdges(paired, Some(q1), k - 1, draws, next))
  }

  /**
   * Without a collision with the stale q1, every extra edge joins its own
   * q0 to that same q1 and takes exactly one draw.
   */
  lemma {:induction false} StaleQ1Reused(paired: seq<nat>, c: nat, k: nat, draws: seq<nat>, pos: nat)
    requires |paired| > 0 && pos + k <= |draws|
    requires forall j :: pos <= j < pos + k ==> paired[draws[j] % |paired|] != c
    ensures ExtraEdges(paired, Some(c), k, draws, pos).0.Ok?
    ensures ExtraEdges(paired, Some(c), k, draws, pos).1 == pos + k
    ensures var e := ExtraEdges(paired, Some(c), k, draws, pos).0.value;
            |e| == k && forall j :: 0 <= j < k ==> e[j] == Edge(paired[draws[pos + j] % |paired|], c)
    decreases k
  {
    if k > 0 {
      StaleQ1Reused(paired, c, k - 1, draws, pos + 1);
      var e := ExtraEdges(paired, Some(c), k, draws, pos).0.value;
      var rest := ExtraEdges(paired, Some(c), k - 1, draws, pos + 1).0.value;
      assert e == [Edge(paired[draws[pos] % |paired|], c)] + rest;
      forall j | 0 <= j < k
        ensures e[j] == Edge(paired[draws[pos + j] % |paired|], c)
      {
        if j > 0 {
          assert e[j] == rest[j - 1];
        }
      }
    }
  }

  /**
   * Phase two as intended: each edge draws q0 and then its own q1, and
   * redraws q1 while the two coincide; with fewer than two placed qubits
   * no edge is added.
   */
  function ExtraEdgesFixed(paired: seq<nat>, k: nat, draws: seq<nat>, pos: nat)
    : (Result<seq<Edge>, MappingError>, nat)
    requires |paired| > 0
    decreases k
  {
    if |paired| < 2 || k == 0 then (Ok([]), pos)
    else if pos + 1 >= |draws| then (Err(OutOfDraws), |draws|)
    else
      var q0 := paired[draws[pos] % |paired|];
      var q1 := paired[draws[pos + 1] % |paired|];
      match Redraw(paired, q1, q0, draws, pos + 2)
      case None => (Err(OutOfDraws), |draws|)
      case Some((c, next)) => Prefixed([Edge(q0, c)], ExtraEdgesFixed(paired, k - 1, draws, next))
  }

  /** The j-th of k draw pairs from pos on picks two different placed qubits. */
  predicate PairDiffers(paired: seq<nat>, draws: seq<nat>, pos: nat, j: nat)
    requires |paired| > 0 && pos + 2 * j + 1 < |draws|
  {
    paired[draws[pos + 2 * j] % |paired|] != paired[draws[pos + 2 * j + 1] % |paired|]
  }

  /** When no draw pair collides, the corrected phase two adds all k edges with two draws each. */
  lemma {:induction false} FixedWithoutCollision(paired: seq<nat>, k: nat, draws: seq<nat>, pos: nat)
    requires |paired| >= 2 && pos + 2 * k <= |draws|
    requires forall j :: 0 <= j < k ==> PairDiffers(paired, draws, pos, j)
    ensures ExtraEdgesFixed(paired, k, draws, pos).0.Ok?
    ensures ExtraEdgesFixed(paired, k, draws, pos).1 == pos + 2 * k
    ensures var e := ExtraEdgesFixed(paired, k, draws, pos).0.value;
            |e| == k && forall j :: 0 <= j < k ==>
              e[j] == Edge(paired[draws[pos + 2 * j] % |paired|], paired[draws[pos + 2 * j + 1] % |paired|])
    decreases k
  {
    if k > 0 {
      var next := pos + 2;
      forall j | 0 <= j < k - 1
        ensures PairDiffers(paired, draws, next, j)
      {
        assert PairDiffers(paired, draws, pos, j + 1);
        assert pos + 2 * (j + 1) == next + 2 * j;
      }
      assert PairDiffers(paired, draws, pos, 0);
      FixedWithoutCollision(paired, k - 1, draws, next);
      var e := ExtraEdgesFixed(paired, k, draws, pos).0.value;
      var rest := ExtraEdgesFixed(paired, k - 1, draws, pos + 2).0.value;
      assert e == [Edge(paired[draws[pos] % |paired|], paired[draws[pos + 1] % |paired|])] + rest;
      forall j | 0 <= j < k
        ensures e[j] == Edge(paired[draws[pos + 2 * j] % |paired|], paired[draws[pos + 2 * j + 1] % |paired|])
      {
        if j > 0 {
          assert e[j] == rest[j - 1];
          assert pos + 2 + 2 * (j - 1) == pos + 2 * j;
        }
      }
    }
  }

  /**
   * Phase one keeps its promises at every step: the tree so far is
   * tree-shaped, paired_qubits is its placed qubits, placed and free
   * qubits split 0..num_qubits-1 between them, and q1 is the partner of
   * the last edge.
   */
  lemma {:induction false} GrowInvariant(n: nat, draws: seq<nat>, i: nat)
    requires i <= TreeSize(n) && 2 * i <= |draws|
    ensures var g := Grow(n, draws, i);
            TreeShaped(g.tree) && g.paired == Placed(g.tree)
            && multiset(g.paired) + multiset(g.free) == multiset(Range(0, if n >= 1 then n else 1))
            && g.q1 == if g.tree == [] then None else Some(g.tree[|g.tree| - 1].q1)
  {
    if i == 0 {
      assert Range(0, if n >= 1 then n else 1) == [0] + Range(1, n);
    } else {
      GrowInvariant(n, draws, i - 1);
      var g := Grow(n, draws, i - 1);
      var j := draws[2 * (i - 1)] % |g.free|;
      var partner := g.paired[draws[2 * (i - 1) + 1] % |g.paired|];
      var e := Edge(g.free[j], partner);
      assert Grow(n, draws, i) == Growth(g.tree + [e], g.paired + [g.free[j]], g.free[..j] + g.free[j + 1..], Some(partner));
      PopFree(g.paired, g.free, j, if n >= 1 then n else 1);
      TreeShapedSnoc(g.tree, e);
    }
  }

  /** After phase one, q1 is the placed qubit picked by the last partner draw. */
  lemma GrowLastPartner(n: nat, draws: seq<nat>, i: nat)
    requires 0 < i <= TreeSize(n) && 2 * i <= |draws|
    ensures Grow(n, draws, i).q1 == Some(Grow(n, draws, i).paired[draws[2 * i - 1] % i])
  {
    var g := Grow(n, draws, i - 1);
    assert Grow(n, draws, i).paired[draws[2 * i - 1] % i] == g.paired[draws[2 * i - 1] % i];
  }

  /**
   * Phase one (the `while len(free_qubits)` loop). It consumes two draws
   * per qubit attached and leaves q1 at the partner of the last edge.
   */
  method BuildSpanningTree(n: nat, draws: seq<nat>) returns (tree: seq<Edge>, paired: seq<nat>, q1: Option<nat>)
    requires |draws| >= 2 * TreeSize(n)
    ensures |tree| == TreeSize(n)
    ensures TreeShaped(tree) && paired == Placed(tree)
    ensures multiset(paired) == multiset(Range(0, if n >= 1 then n else 1))
    ensures q1 == if tree == [] then None else Some(tree[|tree| - 1].q1)
    ensures var g := Grow(n, draws, TreeSize(n)); tree == g.tree && paired == g.paired && q1 == g.q1
  {
    var free := Range(1, n);
    paired := [0];
    tree := [];
    q1 := None;
    var pos := 0;
    while |free| > 0
      invariant pos == 2 * |tree| && |tree| + |free| == TreeSize(n)
      invariant Growth(tree, paired, free, q1) == Grow(n, draws, |tree|)
    {
      var i := draws[pos] % |free|;
      var q0 := free[i];
      var partner := paired[draws[pos + 1] % |paired|];
      assert Grow(n, draws, |tree| + 1)
             == Growth(tree + [Edge(q0, partner)], paired + [q0], free[..i] + free[i + 1..], Some(partner));
      free := free[..i] + free[i + 1..];
      paired := paired + [q0];
      tree := tree + [Edge(q0, partner)];
      q1 := Some(partner);
      pos := pos + 2;
    }
    GrowInvariant(n, draws, TreeSize(n));
  }

  /**
   * Phase two (the `for _ in range(...)` loop) for k extra edges. Each
   * draws q0 among the placed qubits; while q1, left over from the
   * previous edge, equals q0 it redraws q1. A q1 never assigned raises
   * before the first comparison.
   */
  method AddExtraEdges(paired: seq<nat>, q1: Option<nat>, k: nat, draws: seq<nat>, start: nat)
    returns (r: Result<seq<Edge>, MappingError>, used: nat)
    requires |paired| > 0
    requires q1.Some? ==> q1.value in paired
    requires start <= |draws|
    ensures start <= used <= |draws|
    ensures r == Err(OutOfDraws) ==> used == |draws|
    ensures r.Ok? ==> used >= start + k
    ensures k == 0 ==> r == Ok([]) && used == start
    ensures r.Ok? ==> |r.value| == k
    ensures r.Ok? ==> forall e :: e in r.value ==> e.q0 in paired && e.q1 in paired
    ensures r.Ok? ==> NoSelfLoop(r.value)
    ensures r == Err(UnboundQ1) <==> q1.None? && k > 0 && start < |draws|
    ensures (r, used) == ExtraEdges(paired, q1, k, draws, start)
    ensures q1.Some? && start + k <= |draws|
            && (forall j :: start <= j < start + k ==> paired[draws[j] % |paired|] != q1.value)
            ==> r.Ok? && used == start + k
                && forall j :: 0 <= j < k ==> r.value[j] == Edge(paired[draws[start + j] % |paired|], q1.value)
  {
    if q1.Some? && start + k <= |draws|
       && (forall j :: start <= j < start + k ==> paired[draws[j] % |paired|] != q1.value) {
      StaleQ1Reused(paired, q1.value, k, draws, start);
    }
    PrefixedNothing(ExtraEdges(paired, q1, k, draws, start));
    var last := q1;
    var pos: nat := start;
    var extra: seq<Edge> := [];
    while |extra| < k
      invariant |extra| <= k
      invariant start + |extra| <= pos <= |draws|
      invariant extra == [] ==> pos == start
      invariant last.Some? ==> last.value in paired
      invariant forall e :: e in extra ==> e.q0 in paired && e.q1 in paired && e.q0 != e.q1
      invariant q1.None? ==> last.None? && extra == [] && pos == start
      invariant q1.Some? ==> last.Some?
      invariant ExtraEdges(paired, q1, k, draws, start) == Prefixed(extra, ExtraEdges(paired, last, k - |extra|, draws, pos))
    {
      if pos >= |draws| {
        return Err(OutOfDraws), pos;
      }
      var q0 := paired[draws[pos] % |paired|];
      pos := pos + 1;
      if last.None? {
        return Err(UnboundQ1), pos;
      }
      ghost var after := pos;
      var cur := last.value;
      while cur == q0
        invariant cur in paired
        invariant start + |extra| < pos <= |draws|
        invariant Redraw(paired, last.value, q0, draws, after) == Redraw(paired, cur, q0, draws, pos)
        decreases |draws| - pos
      {
        if pos >= |draws| {
          return Err(OutOfDraws), pos;
        }
        cur := paired[draws[pos] % |paired|];
        pos := pos + 1;
      }
      PrefixedAssoc(extra, [Edge(q0, cur)], ExtraEdges(paired, Some(cur), k - |extra| - 1, draws, pos));
      last := Some(cur);
      extra := extra + [Edge(q0, cur)];
    }
    assert extra + [] == extra;
    r, used := Ok(extra), pos;
  }

  // ---------------------------------------------------------------------
  // The operation
  // ---------------------------------------------------------------------

  /** The number of extra edges randint asks for; the draw right after the tree's. */
  function ExtraCount(n: nat, draws: seq<nat>): nat
    requires |draws| > 2 * TreeSize(n)
  {
    draws[2 * TreeSize(n)] % 11
  }

  /**
   * num_qubits >= 2, the draws cover every extra edge's q0, and no q0
   * index hits the index of the partner the last tree edge left in q1.
   */
  predicate ExtraDrawsAvoidStaleQ1(n: nat, draws: seq<nat>)
  {
    var t := TreeSize(n);
    n >= 2 && |draws| > 2 * t && 2 * t + 1 + ExtraCount(n, draws) <= |draws|
    && forall j :: 2 * t + 1 <= j < 2 * t + 1 + ExtraCount(n, draws) ==> draws[j] % n != draws[2 * t - 1] % t
  }

  /** The j-th extra edge's pair of draws exists and picks two different indices below n. */
  predicate ExtraPairDiffers(n: nat, draws: seq<nat>, j: nat)
  {
    var s := 2 * TreeSize(n) + 1;
    n > 0 && s + 2 * j + 1 < |draws| && draws[s + 2 * j] % n != draws[s + 2 * j + 1] % n
  }

  /**
   * num_qubits >= 2 and every extra edge's pair of draws picks two
   * different indices, so the corrected loop never redraws.
   */
  predicate ExtraPairsDiffer(n: nat, draws: seq<nat>)
  {
    var t := TreeSize(n);
    n >= 2 && |draws| > 2 * t && 2 * t + 1 + 2 * ExtraCount(n, draws) <= |draws|
    && forall j :: 0 <= j < ExtraCount(n, draws) ==> ExtraPairDiffers(n, draws, j)
  }

  /**
   * The tree of phase one followed by extra edges between distinct placed
   * qubits: in range, free of self-loops, connected, and led by the
   * spanning tree.
   */
  lemma JoinedMapFacts(n: nat, tree: seq<Edge>, paired: seq<nat>, extra: seq<Edge>)
    requires |tree| == TreeSize(n) && TreeShaped(tree) && paired == Placed(tree)
    requires multiset(paired) == multiset(Range(0, if n >= 1 then n else 1))
    requires forall e :: e in extra ==> e.q0 in paired && e.q1 in paired
    requires NoSelfLoop(extra)
    ensures InRange(tree + extra, n) && NoSelfLoop(tree + extra) && Connected(tree + extra, n)
    ensures n >= 1 ==> TreeShaped((tree + extra)[..n - 1])
                       && multiset(Placed((tree + extra)[..n - 1])) == multiset(Range(0, n))
  {
    var edges := tree + extra;
    assert edges[..|tree|] == tree;
    TreeEdgesPlaced(tree);
    if n >= 1 {
      SpanningTree(tree, n);
      ConnectedExtends(tree, extra, n);
      forall q | q in paired
        ensures q < n
      {
        assert q in multiset(Range(0, n));
      }
    } else {
      assert paired == [0];
    }
  }

  /** Extra edges that all end at the last tree edge's partner share it with that edge. */
  lemma SharedPartner(tree: seq<Edge>, extra: seq<Edge>, paired: seq<nat>, draws: seq<nat>, s: nat, k: nat, c: nat)
    requires tree != [] && tree[|tree| - 1].q1 == c
    requires |paired| > 0 && |extra| == k && s + k <= |draws|
    requires forall j :: 0 <= j < k ==> extra[j] == Edge(paired[draws[s + j] % |paired|], c)
    ensures forall j :: |tree| <= j < |tree + extra| ==> (tree + extra)[j].q1 == (tree + extra)[|tree| - 1].q1
  {
    forall j | |tree| <= j < |tree + extra|
      ensures (tree + extra)[j].q1 == c
    {
      assert (tree + extra)[j] == extra[j - |tree|];
    }
  }

  /**
   * When the draws avoid the stale partner's index, every extra edge's q0
   * differs from the q1 phase one leaves behind.
   */
  lemma StaleQ1Avoided(n: nat, draws: seq<nat>, paired: seq<nat>, q1: Option<nat>, s: nat, k: nat)
    requires ExtraDrawsAvoidStaleQ1(n, draws) && s == 2 * TreeSize(n) + 1 && k == ExtraCount(n, draws)
    requires paired == Grow(n, draws, TreeSize(n)).paired && q1 == Grow(n, draws, TreeSize(n)).q1
    requires multiset(paired) == multiset(Range(0, n))
    ensures q1.Some? && s + k <= |draws|
    ensures forall j :: s <= j < s + k ==> paired[draws[j] % |paired|] != q1.value
  {
    var t := TreeSize(n);
    GrowLastPartner(n, draws, t);
    forall j | s <= j < s + k
      ensures paired[draws[j] % |paired|] != q1.value
    {
      PermutationDistinct(paired, n, draws[j] % n, draws[2 * t - 1] % t);
    }
  }

  /** When every extra pair of draws picks two indices, the corrected loop sees two different qubits. */
  lemma PairsAvoidCollision(n: nat, draws: seq<nat>, paired: seq<nat>, s: nat)
    requires ExtraPairsDiffer(n, draws) && s == 2 * TreeSize(n) + 1
    requires |paired| == n && multiset(paired) == multiset(Range(0, n))
    ensures forall j :: 0 <= j < ExtraCount(n, draws) ==> PairDiffers(paired, draws, s, j)
  {
    forall j | 0 <= j < ExtraCount(n, draws)
      ensures PairDiffers(paired, draws, s, j)
    {
      assert ExtraPairDiffers(n, draws, j);
      PermutationDistinct(paired, n, draws[s + 2 * j] % n, draws[s + 2 * j + 1] % n);
    }
  }

  /**
   * generate_custom_mapping. On success the map's first edges are a
   * spanning tree over 0..num_qubits-1, the rest 0..10 extra edges (as
   * many as the randint draw says); every endpoint is in range, no edge
   * is a self-loop and the map is one component. For num_qubits <= 1 any
   * extra edge raises on the unbound q1.
   */
  method GenerateCustomMapping(n: nat, draws: seq<nat>) returns (r: Result<seq<Edge>, MappingError>, used: nat)
    ensures used <= |draws|
    ensures r == Err(OutOfDraws) ==> used == |draws|
    ensures r.Ok? ==> used > 2 * TreeSize(n)
    ensures |draws| > 2 * TreeSize(n) && draws[2 * TreeSize(n)] % 11 == 0 ==> r.Ok? && |r.value| == TreeSize(n)
    ensures r.Ok? ==> InRange(r.value, n) && NoSelfLoop(r.value) && Connected(r.value, n)
    ensures r.Ok? ==> |draws| > 2 * TreeSize(n)
                      && |r.value| == TreeSize(n) + draws[2 * TreeSize(n)] % 11
    ensures r.Ok? ==> TreeSize(n) <= |r.value| <= TreeSize(n) + 10
    ensures r.Ok? && n >= 1 ==> TreeShaped(r.value[..n - 1])
                                && multiset(Placed(r.value[..n - 1])) == multiset(Range(0, n))
    ensures r == Err(UnboundQ1) <==> n <= 1 && |draws| >= 2 && draws[0] % 11 > 0
    ensures n <= 1 && |draws| >= 1 && draws[0] % 11 == 0 ==> r == Ok([])
    ensures |draws| <= 2 * TreeSize(n) ==> r == Err(OutOfDraws)
    ensures ExtraDrawsAvoidStaleQ1(n, draws) ==>
              r.Ok? && used == 2 * TreeSize(n) + 1 + ExtraCount(n, draws)
              && forall j :: TreeSize(n) <= j < |r.value| ==> r.value[j].q1 == r.value[TreeSize(n) - 1].q1
  {
    if |draws| <= 2 * TreeSize(n) {
      return Err(OutOfDraws), |draws|;
    }
    var tree, paired, q1 := BuildSpanningTree(n, draws);
    var k := ExtraCount(n, draws);
    if tree != [] {
      TreeEdgesPlaced(tree);
      assert tree[|tree| - 1] in tree;
    }
    var s := 2 * TreeSize(n) + 1;
    if ExtraDrawsAvoidStaleQ1(n, draws) {
      StaleQ1Avoided(n, draws, paired, q1, s, k);
    }
    var extra;
    extra, used := AddExtraEdges(paired, q1, k, draws, s);
    if extra.Err? {
      return Err(extra.error), used;
    }
    var edges := tree + extra.value;
    if ExtraDrawsAvoidStaleQ1(n, draws) {
      SharedPartner(tree, extra.value, paired, draws, s, k, q1.value);
    }
    JoinedMapFacts(n, tree, paired, extra.value);
    r := Ok(edges);
  }

  /** One qubit and one requested extra edge: the guard reads q1 before it exists. */
  method SingleQubitExtraEdgeRaises() returns (r: Result<seq<Edge>, MappingError>)
    ensures r == Err(UnboundQ1)
  {
    var used;
    r, used := GenerateCustomMapping(1, [1, 0]);
  }

  // ---------------------------------------------------------------------
  // Corrected phase two
  // ---------------------------------------------------------------------

  /**
   * Phase two as intended: every extra edge draws its own q1 before the
   * rejection check, and with fewer than two placed qubits no extra edge
   * can avoid a self-loop, so none is added.
   */
  method AddExtraEdgesFixed(paired: seq<nat>, k: nat, draws: seq<nat>, start: nat)
    returns (r: Result<seq<Edge>, MappingError>, used: nat)
    requires |paired| > 0
    requires start <= |draws|
    ensures start <= used <= |draws|
    ensures r == Err(OutOfDraws) ==> used == |draws|
    ensures r.Ok? && |paired| >= 2 ==> used >= start + 2 * k
    ensures r != Err(UnboundQ1)
    ensures (k == 0 || |paired| < 2) ==> r == Ok([]) && used == start
    ensures r.Ok? ==> |r.value| == if |paired| < 2 then 0 else k
    ensures r.Ok? ==> forall e :: e in r.value ==> e.q0 in paired && e.q1 in paired
    ensures r.Ok? ==> NoSelfLoop(r.value)
    ensures (r, used) == ExtraEdgesFixed(paired, k, draws, start)
    ensures |paired| >= 2 && start + 2 * k <= |draws|
            && (forall j :: 0 <= j < k ==> PairDiffers(paired, draws, start, j))
            ==> r.Ok? && used == start + 2 * k
                && forall j :: 0 <= j < k ==>
                     r.value[j] == Edge(paired[draws[start + 2 * j] % |paired|], paired[draws[start + 2 * j + 1] % |paired|])
  {
    if |paired| < 2 {
      return Ok([]), start;
    }
    if start + 2 * k <= |draws| && (forall j :: 0 <= j < k ==> PairDiffers(paired, draws, start, j)) {
      FixedWithoutCollision(paired, k, draws, start);
    }
    PrefixedNothing(ExtraEdgesFixed(paired, k, draws, start));
    var pos: nat := start;
    var extra: seq<Edge> := [];
    while |extra| < k
      invariant |extra| <= k
      invariant start + 2 * |extra| <= pos <= |draws|
      invariant extra == [] ==> pos == start
      invariant forall e :: e in extra ==> e.q0 in paired && e.q1 in paired && e.q0 != e.q1
      invariant ExtraEdgesFixed(paired, k, draws, start) == Prefixed(extra, ExtraEdgesFixed(paired, k - |extra|, draws, pos))
    {
      if pos + 1 >= |draws| {
        // q0 takes whatever draw is left and q1 finds none
        return Err(OutOfDraws), |draws|;
      }
      var q0 := paired[draws[pos] % |paired|];
      var q1 := paired[draws[pos + 1] % |paired|];
      pos := pos + 2;
      ghost var first, after := q1, pos;
      while q1 == q0
        invariant q1 in paired
        invariant start + 2 * |extra| + 2 <= pos <= |draws|
        invariant Redraw(paired, first, q0, draws, after) == Redraw(paired, q1, q0, draws, pos)
        decreases |draws| - pos
      {
        if pos >= |draws| {
          return Err(OutOfDraws), pos;
        }
        q1 := paired[draws[pos] % |paired|];
        pos := pos + 1;
      }
      PrefixedAssoc(extra, [Edge(q0, q1)], ExtraEdgesFixed(paired, k - |extra| - 1, draws, pos));
      extra := extra + [Edge(q0, q1)];
    }
    assert extra + [] == extra;
    r, used := Ok(extra), pos;
  }

  /**
   * generate_custom_mapping with the corrected phase two: it never reads
   * an unbound q1, and a single qubit yields the empty map.
   */
  method GenerateCustomMappingFixed(n: nat, draws: seq<nat>) returns (r: Result<seq<Edge>, MappingError>, used: nat)
    ensures used <= |draws|
    ensures r == Err(OutOfDraws) ==> used == |draws|
    ensures r.Ok? ==> used > 2 * TreeSize(n)
    ensures |draws| > 2 * TreeSize(n) && (n <= 1 || draws[2 * TreeSize(n)] % 11 == 0)
            ==> r.Ok? && |r.value| == TreeSize(n)
    ensures r != Err(UnboundQ1)
    ensures r.Ok? ==> InRange(r.value, n) && NoSelfLoop(r.value) && Connected(r.value, n)
    ensures r.Ok? ==> |draws| > 2 * TreeSize(n)
                      && |r.value| == TreeSize(n) + (if n >= 2 then draws[2 * TreeSize(n)] % 11 else 0)
    ensures r.Ok? && n >= 1 ==> TreeShaped(r.value[..n - 1])
                                && multiset(Placed(r.value[..n - 1])) == multiset(Range(0, n))
    ensures n <= 1 && |draws| >= 1 ==> r == Ok([])
    ensures |draws| <= 2 * TreeSize(n) ==> r == Err(OutOfDraws)
    ensures ExtraPairsDiffer(n, draws) ==>
              r.Ok? && used == 2 * TreeSize(n) + 1 + 2 * ExtraCount(n, draws)
              && |r.value| == TreeSize(n) + ExtraCount(n, draws)
  {
    if |draws| <= 2 * TreeSize(n) {
      return Err(OutOfDraws), |draws|;
    }
    var tree, paired, _ := BuildSpanningTree(n, draws);
    var k := ExtraCount(n, draws);
    var s := 2 * TreeSize(n) + 1;
    if ExtraPairsDiffer(n, draws) {
      PairsAvoidCollision(n, draws, paired, s);
    }
    var extra;
    extra, used := AddExtraEdgesFixed(paired, k, draws, s);
    if extra.Err? {
      return Err(extra.error), used;
    }
    JoinedMapFacts(n, tree, paired, extra.value);
    r := Ok(tree + extra.value);
  }
}
