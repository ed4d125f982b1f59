/**
 * Chaitin-style register allocation by graph colouring over three physical
 * registers (indices 0, 1, 2 stand for %rbx, %rcx, %rdx; larger indices are spill
 * slots).  The allocator object keeps the interference graph, the register map,
 * the work stack, the spill candidates, the move relation and the round-robin
 * counter for constants, and updates them phase by phase.
 */
module GraphColoring {
  import opened Ir

  const NUM_PHYSICAL_REGS: nat := 3

  /** `a` has an input that is a division or a modulo node. */
  predicate HasDivPred(g: Graph, a: NodeId)
    requires WellFormed(g) && a in g
  {
    exists k :: 0 <= k < |g[a].preds| && IsDivOrMod(g[g[a].preds[k]].kind)
  }

  /** `d` is a division or modulo whose RIGHT operand, looked through a projection, is `b`. */
  predicate IsDivisorOf(g: Graph, d: NodeId, b: NodeId)
    requires WellFormed(g) && d in g
  {
    IsDivOrMod(g[d].kind) && PredSkipProj(g, d, RIGHT) == b
  }

  /** Some predecessor of `a` is also a predecessor of `b`. */
  predicate SharePred(g: Graph, a: NodeId, b: NodeId)
    requires a in g && b in g
  {
    exists k :: 0 <= k < |g[a].preds| && g[a].preds[k] in g[b].preds
  }

  /**
   * `interferes`: the divisor rule, then the constant rule, then the shared-input
   * rule.  A division or modulo always interferes with its divisor, either way
   * round; otherwise interference needs a shared input.  A value with inputs
   * that is not a constant interferes with itself, which is why the graph
   * builder skips the pair of a node with itself.
   */
  predicate Interferes(g: Graph, a: NodeId, b: NodeId): (r: bool)
    requires WellFormed(g) && a in g && b in g
    ensures IsDivisorOf(g, a, b) || IsDivisorOf(g, b, a) ==> r
    ensures r ==> IsDivisorOf(g, a, b) || IsDivisorOf(g, b, a) || (SharePred(g, a, b) && SharePred(g, b, a))
    ensures a == b && |g[a].preds| > 0 && !g[a].kind.ConstInt? ==> r
  {
    SharePredSymmetric(g, a, b);
    assert |g[a].preds| > 0 ==> g[a].preds[0] in g[a].preds;
    if IsDivisorOf(g, a, b) || IsDivisorOf(g, b, a) then true
    else if (g[a].kind.ConstInt? || g[b].kind.ConstInt?) && !HasDivPred(g, a) && !HasDivPred(g, b) then false
    else SharePred(g, a, b)
  }

  lemma {:induction false} SharePredSymmetric(g: Graph, a: NodeId, b: NodeId)
    requires a in g && b in g
    ensures SharePred(g, a, b) ==> SharePred(g, b, a)
  {
    if SharePred(g, a, b) {
      var k :| 0 <= k < |g[a].preds| && g[a].preds[k] in g[b].preds;
      var j :| 0 <= j < |g[b].preds| && g[b].preds[j] == g[a].preds[k];
      assert g[b].preds[j] in g[a].preds;
    }
  }

  /** Interference does not depend on the order of its arguments. */
  lemma {:induction false} InterferesSymmetric(g: Graph, a: NodeId, b: NodeId)
    requires WellFormed(g) && a in g && b in g
    ensures Interferes(g, a, b) == Interferes(g, b, a)
  {
    SharePredSymmetric(g, a, b);
    SharePredSymmetric(g, b, a);
  }

  /**
   * The graph built from the reachable values: its edges are exactly the
   * interfering pairs of distinct keys.
   */
  ghost predicate IsInterferenceGraph(g: Graph, ig: map<NodeId, set<NodeId>>)
  {
    && WellFormed(g)
    && ig.Keys <= g.Keys
    && forall a, b :: a in ig && b in g ==> (b in ig[a] <==> b in ig && a != b && Interferes(g, a, b))
  }

  /** The built interference graph is undirected, loop-free and has edges only between keys. */
  lemma {:induction false} InterferenceGraphSymmetric(g: Graph, ig: map<NodeId, set<NodeId>>, a: NodeId, b: NodeId)
    requires IsInterferenceGraph(g, ig)
    requires forall n :: n in ig ==> ig[n] <= g.Keys
    requires a in ig && b in ig[a]
    ensures b in ig && a in ig[b] && a != b
  {
    InterferesSymmetric(g, a, b);
  }

  /** Every division or modulo value is joined to its divisor value in the built graph. */
  lemma {:induction false} DivisorEdge(g: Graph, ig: map<NodeId, set<NodeId>>, d: NodeId)
    requires IsInterferenceGraph(g, ig)
    requires d in ig && IsDivOrMod(g[d].kind)
    requires PredSkipProj(g, d, RIGHT) in ig && PredSkipProj(g, d, RIGHT) != d
    ensures PredSkipProj(g, d, RIGHT) in ig[d] && d in ig[PredSkipProj(g, d, RIGHT)]
  {
  }

  /** The fresh, empty edge sets `scan` gives to the values among `s`. */
  ghost function EmptyEdges(g: Graph, s: set<NodeId>): map<NodeId, set<NodeId>>
    requires s <= g.Keys
  {
    map n | n in s && NeedsRegister(g[n].kind) :: {}
  }

  lemma {:induction false} EmptyEdgesUnion(g: Graph, m: map<NodeId, set<NodeId>>, a: set<NodeId>, b: set<NodeId>, c: set<NodeId>)
    requires a <= b <= c <= g.Keys
    ensures m + EmptyEdges(g, b - a) + EmptyEdges(g, c - b) == m + EmptyEdges(g, c - a)
  {
  }

  /** The ordered pairs of `keys` on which `interferes` holds. */
  ghost function InterferingPairs(g: Graph, keys: set<NodeId>): set<(NodeId, NodeId)>
    requires WellFormed(g) && keys <= g.Keys
  {
    set a, b | a in keys && b in keys && Interferes(g, a, b) :: (a, b)
  }

  /**
   * After the ordered pairs (x, y) with x in `done`, and (cur, y) with y in
   * `curDone`, were processed, b is listed as a neighbour of a.
   */
  ghost predicate EdgeAdded(inter: set<(NodeId, NodeId)>, done: set<NodeId>, a: NodeId, b: NodeId, cur: NodeId, curDone: set<NodeId>)
  {
    a != b &&
    (((a in done || (a == cur && b in curDone)) && (a, b) in inter)
     || ((b in done || (b == cur && a in curDone)) && (b, a) in inter))
  }

  /** The state of the edge-building loops after the pairs `EdgeAdded` describes. */
  ghost predicate EdgesAfter(ig: map<NodeId, set<NodeId>>, keys: set<NodeId>, inter: set<(NodeId, NodeId)>,
                             done: set<NodeId>, cur: NodeId, curDone: set<NodeId>)
  {
    && ig.Keys == keys
    && (forall a :: a in keys ==> ig[a] <= keys)
    && forall a, b :: a in keys && b in keys ==> (b in ig[a] <==> EdgeAdded(inter, done, a, b, cur, curDone))
  }

  /** Processing the ordered pair (node, other) keeps `EdgesAfter`. */
  lemma {:induction false} EdgeStep(before: map<NodeId, set<NodeId>>, after: map<NodeId, set<NodeId>>, keys: set<NodeId>,
                 inter: set<(NodeId, NodeId)>, done: set<NodeId>, node: NodeId, other: NodeId, curDone: set<NodeId>)
    requires node in keys && other in keys && other !in curDone
    requires EdgesAfter(before, keys, inter, done, node, curDone)
    requires after == if node != other && (node, other) in inter
                      then before[node := before[node] + {other}][other := before[other] + {node}]
                      else before
    ensures EdgesAfter(after, keys, inter, done, node, curDone + {other})
  {
    forall a, b | a in keys && b in keys
      ensures b in after[a] <==> EdgeAdded(inter, done, a, b, node, curDone + {other})
    {
      assert b in before[a] <==> EdgeAdded(inter, done, a, b, node, curDone);
    }
  }

  /** `p` is a projection whose input `c` is a constant: the two hold the same value. */
  predicate IsMove(g: Graph, p: NodeId, c: NodeId)
    requires WellFormed(g)
  {
    p in g && g[p].kind.Proj? && g[p].preds[IN] == c && g[c].kind.ConstInt?
  }

  /** The move relation contributed by the nodes of `s`, in both directions. */
  ghost predicate MovePairIn(g: Graph, s: set<NodeId>, a: NodeId, b: NodeId)
    requires WellFormed(g)
  {
    (a in s && IsMove(g, a, b)) || (b in s && IsMove(g, b, a))
  }

  /** The move relation mentions only nodes of the graph and relates no node to itself. */
  ghost predicate MovesWellFormed(g: Graph, mr: map<NodeId, set<NodeId>>)
  {
    forall a :: a in mr ==> a in g && mr[a] <= g.Keys && a !in mr[a]
  }

  /** `b` is listed as move-related to `a`. */
  predicate Related(mr: map<NodeId, set<NodeId>>, a: NodeId, b: NodeId)
  {
    a in mr && b in mr[a]
  }

  /** The recorded move relation is symmetric and pairs a projection with its constant input. */
  lemma {:induction false} MoveRelationShape(g: Graph, reach: set<NodeId>, mr: map<NodeId, set<NodeId>>, a: NodeId, b: NodeId)
    requires WellFormed(g)
    requires forall x, y :: Related(mr, x, y) <==> MovePairIn(g, reach, x, y)
    requires Related(mr, a, b)
    ensures Related(mr, b, a)
    ensures IsMove(g, a, b) || IsMove(g, b, a)
  {
    assert MovePairIn(g, reach, a, b);
    assert MovePairIn(g, reach, b, a);
  }

  /**
   * `coalesce` would touch the pair (n, r): n is a key, r is listed as
   * move-related to n, and the two do not interfere.
   */
  ghost predicate Pending(g: Graph, ig: map<NodeId, set<NodeId>>, mr: map<NodeId, set<NodeId>>, n: NodeId, r: NodeId)
    requires WellFormed(g)
  {
    n in ig && Related(mr, n, r) && n in g && r in g && !Interferes(g, n, r)
  }

  ghost predicate NoCoalescable(g: Graph, ig: map<NodeId, set<NodeId>>, mr: map<NodeId, set<NodeId>>)
    requires WellFormed(g)
  {
    forall n, r :: !Pending(g, ig, mr, n, r)
  }

  /**
   * Java's `/` on int: division truncating toward zero, so the quotient has
   * the sign of `a` and the remainder `a - q * b` lies strictly between
   * `-b` and `b` with the sign of `a`.
   */
  function JavaDiv(a: int, b: int): (q: int)
    requires b > 0
    ensures a >= 0 ==> q >= 0 && q * b <= a < q * b + b
    ensures a < 0 ==> q <= 0 && q * b - b < a <= q * b
  {
    if a >= 0 then a / b else -((-a) / b)
  }

  /** The spill index `3 + ((n - 3) * 8) / 8`, computed as Java does. */
  function SpillIndex(size: nat): int
  {
    NUM_PHYSICAL_REGS + JavaDiv((size - NUM_PHYSICAL_REGS) * 8, 8)
  }

  /** Under truncating division the spill index is the current size of the register map. */
  lemma {:induction false} SpillIndexIsSize(size: nat)
    ensures SpillIndex(size) == size
  {
    var a := (size - NUM_PHYSICAL_REGS) * 8;
    if a >= 0 {
      assert a / 8 == size - NUM_PHYSICAL_REGS;
    } else {
      assert (-a) / 8 == NUM_PHYSICAL_REGS - size;
    }
  }

  /** A lookup that defaults to zero, as `getOrDefault(n, 0)`. */
  function GetOr(m: map<NodeId, int>, n: NodeId): int
  {
    if n in m then m[n] else 0
  }

  /**
   * The MCS weight of `n` after `pushed` were taken: how many of them list `n`
   * as a neighbour.
   */
  ghost function Weight(ig: map<NodeId, set<NodeId>>, pushed: seq<NodeId>, n: NodeId): nat
  {
    if pushed == [] then 0
    else
      var last := pushed[|pushed| - 1];
      Weight(ig, pushed[..|pushed| - 1], n) + (if last in ig && n in ig[last] then 1 else 0)
  }

  lemma {:induction false} WeightSnoc(ig: map<NodeId, set<NodeId>>, pushed: seq<NodeId>, m: NodeId, n: NodeId)
    ensures Weight(ig, pushed + [m], n) == Weight(ig, pushed, n) + (if m in ig && n in ig[m] then 1 else 0)
  {
    assert (pushed + [m])[..|pushed|] == pushed;
  }

  /** Each pushed node had maximal weight among the keys not pushed before it. */
  ghost predicate MaximalAtEachStep(ig: map<NodeId, set<NodeId>>, order: seq<NodeId>)
  {
    forall i, n :: 0 <= i < |order| && n in ig && n !in order[..i] ==>
      Weight(ig, order[..i], n) <= Weight(ig, order[..i], order[i])
  }

  lemma {:induction false} MaximalSnoc(ig: map<NodeId, set<NodeId>>, order: seq<NodeId>, m: NodeId)
    requires MaximalAtEachStep(ig, order)
    requires forall n :: n in ig && n !in order ==> Weight(ig, order, n) <= Weight(ig, order, m)
    ensures MaximalAtEachStep(ig, order + [m])
  {
    forall i, n | 0 <= i < |order| + 1 && n in ig && n !in (order + [m])[..i]
      ensures Weight(ig, (order + [m])[..i], n) <= Weight(ig, (order + [m])[..i], (order + [m])[i])
    {
      if i < |order| {
        assert (order + [m])[..i] == order[..i];
      } else {
        assert (order + [m])[..i] == order;
      }
    }
  }

  /** The registers still free for `node`: {0,1,2} minus those of its listed, assigned neighbours. */
  function Avail(ig: map<NodeId, set<NodeId>>, regs: map<NodeId, nat>, node: NodeId): set<nat>
  {
    {0, 1, 2} - HeldBy(Neighbours(ig, node), regs)
  }

  /** `interferenceGraph.getOrDefault(node, emptySet())`. */
  function Neighbours(ig: map<NodeId, set<NodeId>>, node: NodeId): set<NodeId>
  {
    if node in ig then ig[node] else {}
  }

  /** The registers held by the assigned nodes among `nbrs`. */
  function HeldBy(nbrs: set<NodeId>, regs: map<NodeId, nat>): set<nat>
  {
    set m | m in nbrs && m in regs :: regs[m]
  }

  /** Whether or not %rcx was put first, the final put of `node` leaves one more key and nothing else changed. */
  lemma {:induction false} OverwriteRcx(regs0: map<NodeId, nat>, regs1: map<NodeId, nat>, divisor: bool, node: NodeId, v: nat)
    requires regs1 == if divisor then regs0[node := 1] else regs0
    ensures regs1[node := v].Keys == regs0.Keys + {node}
    ensures forall m :: m in regs0 && m != node ==> regs1[node := v][m] == regs0[m]
    ensures regs1[node := v][node] == v
  {
    assert regs1.Keys == regs0.Keys || regs1.Keys == regs0.Keys + {node};
  }

  /**
   * The spill index put after %rcx: it is the size of the map before the put,
   * which is the final size when `node` already had an entry and one less otherwise.
   */
  lemma {:induction false} SpillAfterRcx(regs0: map<NodeId, nat>, regs1: map<NodeId, nat>, divisor: bool, node: NodeId)
    requires regs1 == if divisor then regs0[node := 1] else regs0
    ensures |regs1| >= |regs0|
    ensures |regs1| == if node in regs0 || divisor then |regs1[node := |regs1|]| else |regs1[node := |regs1|]| - 1
  {
    MapCard(regs0, regs1);
    assert node in regs1 <==> node in regs0 || divisor;
  }

  /** The assigned nodes of `nbrs` hold at most as many distinct registers as `regs` has entries. */
  lemma {:induction false} HeldByCard(nbrs: set<NodeId>, regs: map<NodeId, nat>)
    ensures |HeldBy(nbrs, regs)| <= |nbrs * regs.Keys|
    decreases nbrs
  {
    if nbrs != {} {
      NonEmptyHasMember(nbrs);
      var x :| x in nbrs;
      HeldByCard(nbrs - {x}, regs);
      HeldByRemove(nbrs, regs, x);
      AssignedRemove(nbrs, regs.Keys, x);
      if x in regs {
        var rest := HeldBy(nbrs - {x}, regs);
        SubsetCard(HeldBy(nbrs, regs), rest + {regs[x]});
        assert |rest + {regs[x]}| <= |rest| + 1;
      } else {
        SubsetCard(HeldBy(nbrs, regs), HeldBy(nbrs - {x}, regs));
      }
    }
  }

  /** Taking `x` out of `nbrs` loses at most the register `x` holds. */
  lemma {:induction false} HeldByRemove(nbrs: set<NodeId>, regs: map<NodeId, nat>, x: NodeId)
    ensures HeldBy(nbrs, regs) <= HeldBy(nbrs - {x}, regs) + (if x in regs then {regs[x]} else {})
  {
  }

  /** Taking `x` out of `nbrs` loses `x` from the assigned nodes, if it was one. */
  lemma {:induction false} AssignedRemove(nbrs: set<NodeId>, keys: set<NodeId>, x: NodeId)
    requires x in nbrs
    ensures x !in (nbrs - {x}) * keys
    ensures nbrs * keys == (nbrs - {x}) * keys + (if x in keys then {x} else {})
  {
  }

  /** When every physical register is taken by a neighbour, the map holds at least three entries. */
  lemma {:induction false} NoFreeRegisterMeansThreeEntries(ig: map<NodeId, set<NodeId>>, regs: map<NodeId, nat>, node: NodeId)
    requires Avail(ig, regs, node) == {}
    ensures |regs| >= NUM_PHYSICAL_REGS
  {
    var nbrs := Neighbours(ig, node);
    var full: set<nat>, held := {0, 1, 2}, HeldBy(nbrs, regs);
    assert full - held == {};
    assert 0 in held by { assert 0 !in full - held; }
    assert 1 in held by { assert 1 !in full - held; }
    assert 2 in held by { assert 2 !in full - held; }
    assert {0, 1, 2} <= HeldBy(nbrs, regs);
    HeldByCard(nbrs, regs);
    assert |{0, 1, 2}| == 3;
    SubsetCard({0, 1, 2}, HeldBy(nbrs, regs));
    SubsetCard(nbrs * regs.Keys, regs.Keys);
  }

  lemma {:induction false} SubsetCard<T>(a: set<T>, b: set<T>)
    requires a <= b
    ensures |a| <= |b|
  {
    assert b == a + (b - a);
  }

  /** A map with more keys has at least as many entries. */
  lemma {:induction false} MapCard(m: map<NodeId, nat>, m': map<NodeId, nat>)
    requires m.Keys <= m'.Keys
    ensures |m| <= |m'|
    ensures m.Keys == m'.Keys ==> |m| == |m'|
  {
    assert |m| == |m.Keys| && |m'| == |m'.Keys|;
    SubsetCard(m.Keys, m'.Keys);
  }

  /** How many nodes of `s` are constants. */
  ghost function CountConst(g: Graph, s: seq<NodeId>): nat
  {
    if s == [] then 0
    else (if s[0] in g && g[s[0]].kind.ConstInt? then 1 else 0) + CountConst(g, s[1..])
  }

  /** The values among the nodes of `s`. */
  ghost function Values(g: Graph, s: set<NodeId>): set<NodeId>
  {
    set n | n in s && n in g && NeedsRegister(g[n].kind)
  }

  /** Every constant in the map holds a physical register. */
  ghost predicate ConstsPhysical(g: Graph, regs: map<NodeId, nat>)
  {
    forall n :: n in regs && n in g && g[n].kind.ConstInt? ==> regs[n] < NUM_PHYSICAL_REGS
  }

  /** `node` is the divisor of one of its own inputs (the case at the %rcx assignment). */
  predicate IsDivisorOfInput(g: Graph, node: NodeId)
    requires WellFormed(g) && node in g
  {
    exists k :: 0 <= k < |g[node].preds| && IsDivisorOf(g, g[node].preds[k], node)
  }

  /**
   * A node is the divisor of one of its own inputs only on a cycle: on a
   * ranked (acyclic) graph the divisor of an input ranks below that input,
   * which ranks below the node.
   */
  lemma {:induction false} DivisorOfInputNeedsCycle(g: Graph, rank: map<NodeId, nat>, node: NodeId)
    requires WellFormed(g) && Ranked(g, rank) && node in g
    ensures !IsDivisorOfInput(g, node)
  {
    forall k | 0 <= k < |g[node].preds| ensures !IsDivisorOf(g, g[node].preds[k], node) {
      var d := g[node].preds[k];
      RankedEdge(g, rank, node, k);
      if IsDivOrMod(g[d].kind) {
        RankedEdge(g, rank, d, RIGHT);
        var p := g[d].preds[RIGHT];
        if g[p].kind.Proj? {
          RankedEdge(g, rank, p, IN);
        }
        assert rank[PredSkipProj(g, d, RIGHT)] < rank[d];
      }
    }
  }

  /** The reachable set is unique. */
  lemma {:induction false} ReachUnique(g: Graph, root: NodeId, s: set<NodeId>, t: set<NodeId>)
    requires IsReach(g, root, s) && IsReach(g, root, t)
    ensures s == t
  {
  }

  /**
   * On the graph and move relation built from the reachable set, `coalesce`
   * finds nothing to merge exactly when every reachable value interferes with
   * each of its move partners.
   */
  lemma {:induction false} CoalesceIff(g: Graph, reach: set<NodeId>, ig: map<NodeId, set<NodeId>>, mr: map<NodeId, set<NodeId>>)
    requires WellFormed(g) && reach <= g.Keys
    requires ig.Keys == Values(g, reach)
    requires forall a, b :: Related(mr, a, b) <==> MovePairIn(g, reach, a, b)
    ensures NoCoalescable(g, ig, mr) <==> CoalesceSucceeds(g, reach)
  {
    if NoCoalescable(g, ig, mr) {
      forall n, r | n in reach && n in g && r in g && NeedsRegister(g[n].kind) && MovePairIn(g, reach, n, r)
        ensures Interferes(g, n, r)
      {
        assert !Pending(g, ig, mr, n, r);
      }
    }
    if CoalesceSucceeds(g, reach) {
      forall n, r | n in ig && Related(mr, n, r) ensures r in g && Interferes(g, n, r) {
        assert MovePairIn(g, reach, n, r);
      }
    }
  }

  /** Every reachable value on a move pair interferes with its partner: coalescing never fires. */
  ghost predicate CoalesceSucceeds(g: Graph, reach: set<NodeId>)
    requires WellFormed(g)
  {
    forall n, r :: n in reach && n in g && r in g && NeedsRegister(g[n].kind) && MovePairIn(g, reach, n, r) ==> Interferes(g, n, r)
  }

  /**
   * Every move partner of a key is a projection of that key, which is a
   * constant, and a projection is never a key.  So the first partner that
   * `coalesce` finds not interfering is looked up as a key before any merge
   * happens, and that lookup yields null.
   */
  lemma {:induction false} MovePartnerNotKey(g: Graph, reach: set<NodeId>, ig: map<NodeId, set<NodeId>>,
                                             mr: map<NodeId, set<NodeId>>, n: NodeId, r: NodeId)
    requires WellFormed(g) && ig.Keys == Values(g, reach)
    requires forall a, b :: Related(mr, a, b) <==> MovePairIn(g, reach, a, b)
    requires n in ig && Related(mr, n, r)
    ensures IsMove(g, r, n) && r in reach && r !in ig
  {
    assert MovePairIn(g, reach, n, r);
  }

  /**
   * On a predecessor-closed set, `coalesce` succeeds exactly when every
   * projection of a constant in the set interferes with that constant.
   */
  lemma {:induction false} CoalesceSucceedsByMoves(g: Graph, reach: set<NodeId>)
    requires WellFormed(g) && Closed(g, reach)
    ensures CoalesceSucceeds(g, reach) <==> forall p, c :: p in reach && IsMove(g, p, c) ==> Interferes(g, c, p)
  {
    if CoalesceSucceeds(g, reach) {
      forall p, c | p in reach && IsMove(g, p, c) ensures Interferes(g, c, p) {
        assert PredsIn(g, p, reach);
        assert c in reach;
        assert MovePairIn(g, reach, c, p);
      }
    }
  }

  /** `ig` is `ig0` without the keys `gone`, which are also deleted from every remaining edge set. */
  ghost predicate Pruned(ig0: map<NodeId, set<NodeId>>, ig: map<NodeId, set<NodeId>>, gone: set<NodeId>)
  {
    && ig.Keys <= ig0.Keys && gone == ig0.Keys - ig.Keys
    && forall n :: n in ig ==> ig[n] == ig0[n] - gone
  }

  /** Deleting one more key everywhere extends the pruning by that key. */
  lemma {:induction false} PrunedStep(ig0: map<NodeId, set<NodeId>>, ig: map<NodeId, set<NodeId>>,
                                      ig': map<NodeId, set<NodeId>>, gone: set<NodeId>, node: NodeId)
    requires Pruned(ig0, ig, gone) && node in ig
    requires ig'.Keys == ig.Keys - {node} && forall n :: n in ig' ==> ig'[n] == ig[n] - {node}
    ensures Pruned(ig0, ig', gone + {node})
  {
    forall n | n in ig' ensures ig'[n] == ig0[n] - (gone + {node}) {
      assert ig'[n] == (ig0[n] - gone) - {node};
    }
  }

  /** Two prunings in a row are one. */
  lemma {:induction false} PrunedTrans(ig0: map<NodeId, set<NodeId>>, ig1: map<NodeId, set<NodeId>>,
                                       ig2: map<NodeId, set<NodeId>>, a: set<NodeId>, b: set<NodeId>)
    requires Pruned(ig0, ig1, a) && Pruned(ig1, ig2, b)
    ensures Pruned(ig0, ig2, a + b)
  {
    forall n | n in ig2 ensures ig2[n] == ig0[n] - (a + b) {
      assert ig2[n] == (ig0[n] - a) - b;
    }
  }

  /** Outside `done`, `regs` agrees with `regs0`. */
  ghost predicate KeptOutside(regs0: map<NodeId, nat>, regs: map<NodeId, nat>, done: set<NodeId>)
  {
    forall m :: m in regs0 && m !in done ==> m in regs && regs[m] == regs0[m]
  }

  /** Every node of `done` sits at an index no lower than `base`, and exactly at it when `exact`. */
  ghost predicate PutAtLeast(regs: map<NodeId, nat>, done: set<NodeId>, base: nat, exact: bool)
  {
    forall m :: m in done ==> m in regs && regs[m] >= base && (exact ==> regs[m] == base)
  }

  /**
   * `regs` is `regs0` with the nodes `done` put at spill indices no lower than
   * the size of `regs0`, and, when `exact`, at exactly that size.
   */
  ghost predicate SpilledAt(regs0: map<NodeId, nat>, regs: map<NodeId, nat>, done: set<NodeId>, exact: bool)
  {
    && regs.Keys == regs0.Keys + done
    && KeptOutside(regs0, regs, done)
    && PutAtLeast(regs, done, |regs0|, exact)
  }

  lemma {:induction false} KeptOutsideStep(regs0: map<NodeId, nat>, regs: map<NodeId, nat>, done: set<NodeId>, node: NodeId, v: nat)
    requires KeptOutside(regs0, regs, done)
    ensures KeptOutside(regs0, regs[node := v], done + {node})
  {
    forall m | m in regs0 && m !in done + {node} ensures m in regs[node := v] && regs[node := v][m] == regs0[m] {
      assert m != node;
    }
  }

  lemma {:induction false} PutAtLeastStep(regs: map<NodeId, nat>, done: set<NodeId>, base: nat, exact: bool, node: NodeId, v: nat)
    requires PutAtLeast(regs, done, base, exact)
    requires v >= base && (exact ==> v == base)
    ensures PutAtLeast(regs[node := v], done + {node}, base, exact)
  {
    forall m | m in done + {node} ensures m in regs[node := v] && regs[node := v][m] >= base && (exact ==> regs[node := v][m] == base) {
      if m != node {
        assert m in done;
      }
    }
  }

  /** Putting one more node at the spill index of the current size keeps `SpilledAt`; a node with an entry does not grow the map. */
  lemma {:induction false} SpillStep(regs0: map<NodeId, nat>, regs: map<NodeId, nat>, done: set<NodeId>, node: NodeId,
                                     exact: bool)
    requires SpilledAt(regs0, regs, done, exact)
    requires exact ==> node in regs0 && done <= regs0.Keys
    ensures SpilledAt(regs0, regs[node := |regs|], done + {node}, exact)
  {
    var size := |regs|;
    SpillSize(regs0, regs, done, exact);
    KeptOutsideStep(regs0, regs, done, node, size);
    PutAtLeastStep(regs, done, |regs0|, exact, node, size);
    KeysStep(regs0, regs, done, node, size);
  }

  /** Moving one node from `rest` to `done` keeps `done` the complement of `rest` within `all`. */
  lemma {:induction false} TakeStep(all: set<NodeId>, rest: set<NodeId>, done: set<NodeId>, node: NodeId)
    requires rest <= all && done == all - rest && node in rest
    ensures rest - {node} <= all && done + {node} == all - (rest - {node})
  {
  }

  /** Once every candidate is done, `SpilledAt` gives the final shape of the map. */
  lemma {:induction false} SpilledAll(regs0: map<NodeId, nat>, regs: map<NodeId, nat>, all: set<NodeId>, exact: bool)
    requires SpilledAt(regs0, regs, all, exact) && exact == (all <= regs0.Keys)
    ensures regs.Keys == regs0.Keys + all
    ensures forall m :: m in regs0 && m !in all ==> regs[m] == regs0[m]
    ensures forall m :: m in all ==> regs[m] >= |regs0|
    ensures exact ==> regs.Keys == regs0.Keys && forall m :: m in all ==> regs[m] == |regs|
  {
    SpillSize(regs0, regs, all, exact);
    if exact {
      assert regs.Keys == regs0.Keys;
    }
  }

  lemma {:induction false} KeysStep(regs0: map<NodeId, nat>, regs: map<NodeId, nat>, done: set<NodeId>, node: NodeId, v: nat)
    requires regs.Keys == regs0.Keys + done
    ensures regs[node := v].Keys == regs0.Keys + (done + {node})
  {
    assert regs[node := v].Keys == regs.Keys + {node};
  }

  /** The map being filled is never smaller than the one it started from, and no larger when it gained no key. */
  lemma {:induction false} SpillSize(regs0: map<NodeId, nat>, regs: map<NodeId, nat>, done: set<NodeId>, exact: bool)
    requires regs.Keys == regs0.Keys + done
    requires exact ==> done <= regs0.Keys
    ensures |regs| >= |regs0| && (exact ==> |regs| == |regs0|)
  {
    MapCard(regs0, regs);
  }

  class Allocator {
    var interferenceGraph: map<NodeId, set<NodeId>>
    var registers: map<NodeId, nat>
    var stack: seq<NodeId>
    var spillCandidates: set<NodeId>
    var moveRelated: map<NodeId, set<NodeId>>
    var nextConstReg: nat

    /** The state of a newly created allocator. */
    ghost predicate Initial()
      reads this
    {
      && interferenceGraph == map[] && registers == map[] && stack == []
      && spillCandidates == {} && moveRelated == map[] && nextConstReg == 0
    }

    constructor ()
      ensures Initial()
    {
      interferenceGraph, registers, stack := map[], map[], [];
      spillCandidates, moveRelated, nextConstReg := {}, map[], 0;
    }

    /**
     * `scan`: depth-first walk over predecessors; each newly visited value gets
     * an empty edge set.  The nodes it newly visits are reachable from `node`
     * and have all their predecessors visited.
     */
    method Scan(g: Graph, node: NodeId, visited: set<NodeId>) returns (visited': set<NodeId>)
      requires WellFormed(g) && node in g && visited <= g.Keys
      modifies this`interferenceGraph
      decreases g.Keys - visited, 1
      ensures visited <= visited' <= g.Keys && node in visited'
      ensures forall n :: n in visited' - visited ==> PredsIn(g, n, visited')
      ensures forall c :: Closed(g, c) && node in c ==> visited' - visited <= c
      ensures interferenceGraph == old(interferenceGraph) + EmptyEdges(g, visited' - visited)
    {
      if node in visited {
        assert EmptyEdges(g, visited - visited) == map[];
        return visited;
      }
      if NeedsRegister(g[node].kind) {
        interferenceGraph := interferenceGraph[node := {}];
      }
      assert (visited + {node}) - visited == {node};
      assert interferenceGraph == old(interferenceGraph) + EmptyEdges(g, (visited + {node}) - visited);
      visited' := ScanPreds(g, node, visited);
      EmptyEdgesUnion(g, old(interferenceGraph), visited, visited + {node}, visited');
    }

    /** The loop of `scan`: every predecessor of the newly visited `node` is walked in turn. */
    method ScanPreds(g: Graph, node: NodeId, visited: set<NodeId>) returns (visited': set<NodeId>)
      requires WellFormed(g) && node in g && visited <= g.Keys && node !in visited
      modifies this`interferenceGraph
      decreases g.Keys - visited, 0
      ensures visited + {node} <= visited' <= g.Keys
      ensures PredsIn(g, node, visited')
      ensures forall n :: n in visited' - visited - {node} ==> PredsIn(g, n, visited')
      ensures forall c :: Closed(g, c) && node in c ==> visited' - visited <= c
      ensures interferenceGraph == old(interferenceGraph) + EmptyEdges(g, visited' - (visited + {node}))
    {
      visited' := visited + {node};
      assert EmptyEdges(g, visited' - (visited + {node})) == map[];
      var preds := g[node].preds;
      for i := 0 to |preds|
        invariant visited + {node} <= visited' <= g.Keys
        invariant forall k :: 0 <= k < i ==> preds[k] in visited'
        invariant forall n :: n in visited' - visited - {node} ==> PredsIn(g, n, visited')
        invariant forall c :: Closed(g, c) && node in c ==> visited' - visited <= c
        invariant interferenceGraph == old(interferenceGraph) + EmptyEdges(g, visited' - (visited + {node}))
      {
        ghost var before := visited';
        visited' := Scan(g, preds[i], visited');
        EmptyEdgesUnion(g, old(interferenceGraph), visited + {node}, before, visited');
        forall n | n in before - visited - {node} ensures PredsIn(g, n, visited') {
          PredsInMono(g, n, before, visited');
        }
      }
    }

    /**
     * `scanForMoves`: the same walk, recording every projection of a constant
     * as move-related to that constant, in both directions.
     */
    method ScanForMoves(g: Graph, node: NodeId, visited: set<NodeId>) returns (visited': set<NodeId>)
      requires WellFormed(g) && node in g && visited <= g.Keys
      requires MovesWellFormed(g, moveRelated)
      modifies this`moveRelated
      ensures MovesWellFormed(g, moveRelated)
      decreases g.Keys - visited
      ensures visited <= visited' <= g.Keys && node in visited'
      ensures forall n :: n in visited' - visited ==> PredsIn(g, n, visited')
      ensures forall c :: Closed(g, c) && node in c ==> visited' - visited <= c
      ensures forall a, b :: Related(moveRelated, a, b) <==>
                (Related(old(moveRelated), a, b) || MovePairIn(g, visited' - visited, a, b))
    {
      if node in visited {
        return visited;
      }
      visited' := visited + {node};
      RecordMove(g, node);
      var preds := g[node].preds;
      for i := 0 to |preds|
        invariant visited + {node} <= visited' <= g.Keys
        invariant forall k :: 0 <= k < i ==> preds[k] in visited'
        invariant forall n :: n in visited' - visited - {node} ==> PredsIn(g, n, visited')
        invariant forall c :: Closed(g, c) && node in c ==> visited' - visited <= c
        invariant forall a, b :: Related(moveRelated, a, b) <==>
                    (Related(old(moveRelated), a, b) || MovePairIn(g, visited' - visited, a, b))
        invariant MovesWellFormed(g, moveRelated)
      {
        ghost var before := visited';
        visited' := ScanForMoves(g, preds[i], visited');
        forall n | n in before - visited - {node} ensures PredsIn(g, n, visited') {
          PredsInMono(g, n, before, visited');
        }
      }
    }

    /** The check in `scanForMoves`: a projection of a constant is move-related to it, both ways. */
    method RecordMove(g: Graph, node: NodeId)
      requires WellFormed(g) && node in g
      requires MovesWellFormed(g, moveRelated)
      modifies this`moveRelated
      ensures MovesWellFormed(g, moveRelated)
      ensures forall a, b :: Related(moveRelated, a, b) <==>
                (Related(old(moveRelated), a, b) || MovePairIn(g, {node}, a, b))
    {
      if g[node].kind.Proj? {
        var source := g[node].preds[IN];
        if g[source].kind.ConstInt? {
          var s := if source in moveRelated then moveRelated[source] else {};
          moveRelated := moveRelated[source := s + {node}];
          var t := if node in moveRelated then moveRelated[node] else {};
          moveRelated := moveRelated[node := t + {source}];
        }
      }
    }

    /**
     * `buildInterferenceGraph`: scan from the end block, then add an edge in
     * both directions for every ordered pair of distinct interfering keys.
     */
    method BuildInterferenceGraph(g: Graph, end: NodeId) returns (ghost reach: set<NodeId>)
      requires WellFormed(g) && end in g
      requires interferenceGraph == map[]
      modifies this`interferenceGraph
      ensures IsReach(g, end, reach)
      ensures interferenceGraph.Keys == Values(g, reach)
      ensures IsInterferenceGraph(g, interferenceGraph)
      ensures forall n :: n in interferenceGraph ==> interferenceGraph[n] <= interferenceGraph.Keys
    {
      reach := Scan(g, end, {});
      var keys := interferenceGraph.Keys;
      ghost var inter := InterferingPairs(g, keys);
      var todo := keys;
      while todo != {}
        invariant todo <= keys && keys <= g.Keys
        invariant EdgesAfter(interferenceGraph, keys, inter, keys - todo, -1, {})
        decreases todo
      {
        NonEmptyHasMember(todo);
        var node :| node in todo;
        AddEdgesOf(g, keys, inter, keys - todo, node);
        assert keys - (todo - {node}) == (keys - todo) + {node};
        todo := todo - {node};
      }
      forall a, b | a in interferenceGraph && b in g
        ensures b in interferenceGraph[a] <==> b in interferenceGraph && a != b && Interferes(g, a, b)
      {
        InterferesSymmetric(g, a, b);
        if b in keys {
          assert (a, b) in inter <==> Interferes(g, a, b);
          assert (b, a) in inter <==> Interferes(g, b, a);
        }
      }
    }

    /** The inner loop of `buildInterferenceGraph`: the pairs (node, other) for every key `other`. */
    method AddEdgesOf(g: Graph, keys: set<NodeId>, ghost inter: set<(NodeId, NodeId)>, ghost done: set<NodeId>, node: NodeId)
      requires WellFormed(g) && keys <= g.Keys && node in keys
      requires inter == InterferingPairs(g, keys)
      requires EdgesAfter(interferenceGraph, keys, inter, done, -1, {})
      modifies this`interferenceGraph
      ensures EdgesAfter(interferenceGraph, keys, inter, done + {node}, -1, {})
    {
      var others := keys;
      while others != {}
        invariant others <= keys
        invariant EdgesAfter(interferenceGraph, keys, inter, done, node, keys - others)
        decreases others
      {
        NonEmptyHasMember(others);
        var other :| other in others;
        assert (node, other) in inter <==> Interferes(g, node, other);
        ghost var before := interferenceGraph;
        if node != other && Interferes(g, node, other) {
          interferenceGraph := interferenceGraph[node := interferenceGraph[node] + {other}];
          interferenceGraph := interferenceGraph[other := interferenceGraph[other] + {node}];
        }
        EdgeStep(before, interferenceGraph, keys, inter, done, node, other, keys - others);
        assert keys - (others - {other}) == (keys - others) + {other};
        others := others - {other};
      }
    }

    /** `buildMoveRelated`: the move relation of the nodes reachable from the end block. */
    method BuildMoveRelated(g: Graph, end: NodeId) returns (ghost reach: set<NodeId>)
      requires WellFormed(g) && end in g
      requires moveRelated == map[]
      modifies this`moveRelated
      ensures MovesWellFormed(g, moveRelated)
      ensures IsReach(g, end, reach)
      ensures forall a, b :: Related(moveRelated, a, b) <==> MovePairIn(g, reach, a, b)
    {
      reach := ScanForMoves(g, end, {});
    }

    /**
     * `maximumCardinalitySearch`: pushes every key exactly once, each time one
     * of maximal weight among the keys not yet pushed.
     */
    method MaximumCardinalitySearch() returns (ghost order: seq<NodeId>)
      modifies this`stack
      ensures stack == old(stack) + order
      ensures NoDup(order) && Elems(order) == interferenceGraph.Keys
      ensures MaximalAtEachStep(interferenceGraph, order)
    {
      var unprocessed := interferenceGraph.Keys;
      var weights: map<NodeId, int> := map[];
      order := [];
      while unprocessed != {}
        invariant Elems(order) <= interferenceGraph.Keys && unprocessed == interferenceGraph.Keys - Elems(order)
        invariant NoDup(order)
        invariant stack == old(stack) + order
        invariant forall n :: n in unprocessed ==> GetOr(weights, n) == Weight(interferenceGraph, order, n)
        invariant MaximalAtEachStep(interferenceGraph, order)
        decreases unprocessed
      {
        var m := MaxWeightNode(unprocessed, weights);
        stack := stack + [m];
        unprocessed := unprocessed - {m};
        weights := AddWeights(weights, interferenceGraph[m], unprocessed);
        forall n | n in unprocessed
          ensures GetOr(weights, n) == Weight(interferenceGraph, order + [m], n)
        {
          WeightSnoc(interferenceGraph, order, m, n);
        }
        MaximalSnoc(interferenceGraph, order, m);
        ElemsSnoc(order, m);
        SnocAssoc(old(stack), order, m);
        order := order + [m];
      }
      forall n | n in interferenceGraph.Keys ensures n in Elems(order) {
        if n !in Elems(order) {
          assert false;
        }
      }
    }

    /** The inner search of `maximumCardinalitySearch`: the first node of maximal weight found. */
    method MaxWeightNode(unprocessed: set<NodeId>, weights: map<NodeId, int>) returns (m: NodeId)
      requires unprocessed != {}
      requires forall n :: n in unprocessed ==> GetOr(weights, n) >= 0
      ensures m in unprocessed
      ensures forall n :: n in unprocessed ==> GetOr(weights, n) <= GetOr(weights, m)
    {
      var maxNode: Option<NodeId> := None;
      var maxWeight := -1;
      var rest := unprocessed;
      while rest != {}
        invariant rest <= unprocessed
        invariant maxNode.None? ==> rest == unprocessed && maxWeight == -1
        invariant maxNode.Some? ==> maxNode.value in unprocessed && maxWeight == GetOr(weights, maxNode.value)
        invariant forall n :: n in unprocessed - rest ==> GetOr(weights, n) <= maxWeight
        decreases rest
      {
        NonEmptyHasMember(rest);
        var node :| node in rest;
        var weight := GetOr(weights, node);
        if weight > maxWeight {
          maxWeight := weight;
          maxNode := Some(node);
        }
        rest := rest - {node};
      }
      m := maxNode.value;
    }

    /** The weight update of `maximumCardinalitySearch`: +1 for every unprocessed neighbour. */
    method AddWeights(weights: map<NodeId, int>, neighbours: set<NodeId>, unprocessed: set<NodeId>)
      returns (weights': map<NodeId, int>)
      ensures forall n :: GetOr(weights', n) == GetOr(weights, n) + (if n in neighbours && n in unprocessed then 1 else 0)
    {
      weights' := weights;
      var rest := neighbours;
      while rest != {}
        invariant rest <= neighbours
        invariant forall n :: GetOr(weights', n) == GetOr(weights, n) + (if n in neighbours - rest && n in unprocessed then 1 else 0)
        decreases rest
      {
        NonEmptyHasMember(rest);
        var nb :| nb in rest;
        if nb in unprocessed {
          weights' := weights'[nb := GetOr(weights', nb) + 1];
        }
        rest := rest - {nb};
      }
    }

    /**
     * `coalesce`: for every key and every node move-related to it that it does
     * not interfere with, merge the partner's edge set into the key's and drop
     * the partner; repeat while something changed.  Looking up a node that is
     * not (or no longer) a key yields null and the merge dereferences it: that
     * is the failure `ok == false`.  On the graphs `allocateRegisters` builds no
     * merge ever happens: every partner is a projection, which is never a key
     * (`MovePartnerNotKey`), so the first non-interfering pair fails at once.
     */
    method Coalesce(g: Graph) returns (ok: bool)
      requires WellFormed(g) && interferenceGraph.Keys <= g.Keys
      requires MovesWellFormed(g, moveRelated)
      modifies this`interferenceGraph
      ensures ok <==> NoCoalescable(g, old(interferenceGraph), moveRelated)
      ensures ok ==> interferenceGraph == old(interferenceGraph)
    {
      ghost var ig0 := interferenceGraph;
      ghost var lastN: NodeId, lastR: NodeId := 0, 0;
      var changed := true;
      while changed
        invariant interferenceGraph.Keys <= ig0.Keys
        invariant interferenceGraph == ig0 || Pending(g, interferenceGraph, moveRelated, lastN, lastR)
        invariant !changed ==> NoCoalescable(g, interferenceGraph, moveRelated)
        decreases interferenceGraph.Keys, changed
      {
        changed := false;
        ghost var igStart := interferenceGraph;
        var todo := interferenceGraph.Keys;
        while todo != {}
          invariant todo <= igStart.Keys <= ig0.Keys
          invariant interferenceGraph.Keys <= igStart.Keys
          invariant changed ==> interferenceGraph.Keys < igStart.Keys
          invariant !changed ==> interferenceGraph == igStart
          invariant !changed ==> forall n, r :: Pending(g, interferenceGraph, moveRelated, n, r) ==> n in todo
          invariant interferenceGraph == ig0 || Pending(g, interferenceGraph, moveRelated, lastN, lastR)
          decreases todo
        {
          NonEmptyHasMember(todo);
          var node :| node in todo;
          var related := if node in moveRelated then moveRelated[node] else {};
          var rest := related;
          while rest != {}
            invariant rest <= related
            invariant interferenceGraph.Keys <= igStart.Keys
            invariant changed ==> interferenceGraph.Keys < igStart.Keys
            invariant !changed ==> interferenceGraph == igStart
            invariant !changed ==> forall n, r :: Pending(g, interferenceGraph, moveRelated, n, r) ==>
                                     n in todo - {node} || (n == node && r in rest)
            invariant interferenceGraph == ig0 || Pending(g, interferenceGraph, moveRelated, lastN, lastR)
            decreases rest
          {
            NonEmptyHasMember(rest);
            var relatedNode :| relatedNode in rest;
            if !Interferes(g, node, relatedNode) {
              if node !in interferenceGraph || relatedNode !in interferenceGraph {
                assert Pending(g, ig0, moveRelated, node, relatedNode);
                return false;
              }
              interferenceGraph := interferenceGraph[node := interferenceGraph[node] + interferenceGraph[relatedNode]] - {relatedNode};
              changed := true;
              lastN, lastR := node, relatedNode;
            }
            rest := rest - {relatedNode};
          }
          todo := todo - {node};
        }
      }
      ok := true;
    }

    /**
     * `simplify`: repeatedly remove and push every key of degree below three,
     * deleting it from the remaining edge sets; the keys left over become the
     * spill candidates.
     */
    method Simplify() returns (ghost removed: seq<NodeId>)
      modifies this`interferenceGraph, this`stack, this`spillCandidates
      ensures stack == old(stack) + removed
      ensures NoDup(removed) && Pruned(old(interferenceGraph), interferenceGraph, Elems(removed))
      ensures forall n :: n in interferenceGraph ==> |interferenceGraph[n]| >= NUM_PHYSICAL_REGS
      ensures spillCandidates == old(spillCandidates) + interferenceGraph.Keys
    {
      ghost var ig0 := interferenceGraph;
      removed := [];
      var changed := true;
      while changed
        invariant stack == old(stack) + removed
        invariant spillCandidates == old(spillCandidates)
        invariant NoDup(removed) && Pruned(ig0, interferenceGraph, Elems(removed))
        invariant !changed ==> forall n :: n in interferenceGraph ==> |interferenceGraph[n]| >= NUM_PHYSICAL_REGS
        decreases interferenceGraph.Keys, changed
      {
        ghost var pushed;
        ghost var ig1 := interferenceGraph;
        changed, pushed := SimplifyPass();
        ElemsAppend(removed, pushed);
        AppendAssoc(old(stack), removed, pushed);
        PrunedTrans(ig0, ig1, interferenceGraph, Elems(removed), Elems(pushed));
        removed := removed + pushed;
      }
      spillCandidates := spillCandidates + interferenceGraph.Keys;
    }

    /** One pass of the `simplify` loop over a snapshot of the keys. */
    method SimplifyPass() returns (changed: bool, ghost pushed: seq<NodeId>)
      modifies this`interferenceGraph, this`stack
      ensures stack == old(stack) + pushed
      ensures NoDup(pushed) && Pruned(old(interferenceGraph), interferenceGraph, Elems(pushed))
      ensures changed <==> pushed != []
      ensures changed ==> interferenceGraph.Keys < old(interferenceGraph).Keys
      ensures !changed ==> forall n :: n in interferenceGraph ==> |interferenceGraph[n]| >= NUM_PHYSICAL_REGS
    {
      ghost var ig0 := interferenceGraph;
      ghost var gone: set<NodeId> := {};
      pushed := [];
      changed := false;
      var todo := interferenceGraph.Keys;
      while todo != {}
        invariant todo <= interferenceGraph.Keys
        invariant stack == old(stack) + pushed
        invariant NoDup(pushed) && Elems(pushed) == gone
        invariant Pruned(ig0, interferenceGraph, gone)
        invariant changed == (gone != {}) == (pushed != [])
        invariant !changed ==> forall n :: n in interferenceGraph && n !in todo ==> |interferenceGraph[n]| >= NUM_PHYSICAL_REGS
        decreases todo
      {
        NonEmptyHasMember(todo);
        var node :| node in todo;
        if |interferenceGraph[node]| < NUM_PHYSICAL_REGS {
          ghost var ig1 := interferenceGraph;
          PushAndRemove(node);
          PrunedStep(ig0, ig1, interferenceGraph, gone, node);
          ElemsSnoc(pushed, node);
          SnocAssoc(old(stack), pushed, node);
          pushed := pushed + [node];
          gone := gone + {node};
          changed := true;
        }
        todo := todo - {node};
      }
    }

    /** The body of the `simplify` pass for a low-degree key: push it and delete it everywhere. */
    method PushAndRemove(node: NodeId)
      requires node in interferenceGraph
      modifies this`interferenceGraph, this`stack
      ensures stack == old(stack) + [node]
      ensures interferenceGraph.Keys == old(interferenceGraph).Keys - {node}
      ensures forall n :: n in interferenceGraph ==> interferenceGraph[n] == old(interferenceGraph)[n] - {node}
    {
      stack := stack + [node];
      interferenceGraph := interferenceGraph - {node};
      RemoveFromEdgeSets(node);
    }

    /** The loop over `interferenceGraph.values()` that deletes `node` from every edge set. */
    method RemoveFromEdgeSets(node: NodeId)
      modifies this`interferenceGraph
      ensures interferenceGraph.Keys == old(interferenceGraph).Keys
      ensures forall n :: n in interferenceGraph ==> interferenceGraph[n] == old(interferenceGraph)[n] - {node}
    {
      var rest := interferenceGraph.Keys;
      while rest != {}
        invariant rest <= interferenceGraph.Keys == old(interferenceGraph).Keys
        invariant forall n :: n in interferenceGraph ==>
                    interferenceGraph[n] == if n in rest then old(interferenceGraph)[n] else old(interferenceGraph)[n] - {node}
        decreases rest
      {
        NonEmptyHasMember(rest);
        var n :| n in rest;
        interferenceGraph := interferenceGraph[n := interferenceGraph[n] - {node}];
        rest := rest - {n};
      }
    }

    /**
     * One iteration of `select` for the popped `node`.  The free registers are
     * {0, 1, 2} minus those of its currently listed, assigned neighbours.  A
     * divisor of one of its own inputs is first put in %rcx, but that entry is
     * always overwritten: a constant takes the round-robin register, any other
     * node a free register, or, when none is free, the spill index, which is the
     * size of the map at that moment.
     */
    method SelectNode(g: Graph, node: NodeId)
      requires WellFormed(g) && node in g
      modifies this`registers, this`nextConstReg
      ensures registers.Keys == old(registers).Keys + {node}
      ensures forall m :: m in old(registers) && m != node ==> registers[m] == old(registers)[m]
      ensures g[node].kind.ConstInt? ==>
                registers[node] == old(nextConstReg) % NUM_PHYSICAL_REGS && nextConstReg == old(nextConstReg) + 1
      ensures !g[node].kind.ConstInt? ==> nextConstReg == old(nextConstReg)
      ensures !g[node].kind.ConstInt? && Avail(interferenceGraph, old(registers), node) != {} ==>
                && registers[node] < NUM_PHYSICAL_REGS
                && forall m :: m in Neighbours(interferenceGraph, node) && m in old(registers) ==>
                     registers[node] != old(registers)[m]
      ensures !g[node].kind.ConstInt? && Avail(interferenceGraph, old(registers), node) == {} ==>
                && registers[node] >= NUM_PHYSICAL_REGS
                && registers[node] == if node in old(registers) || IsDivisorOfInput(g, node) then |registers| else |registers| - 1
    {
      var availableRegs := FreeRegisters(node);
      if HasDivPred(g, node) {
        PutDivisorInRcx(g, node);
      }
      ghost var divisor := IsDivisorOfInput(g, node);
      ghost var regs1 := registers;
      assert regs1 == if divisor then old(registers)[node := 1] else old(registers);
      if g[node].kind.ConstInt? {
        var reg := nextConstReg % NUM_PHYSICAL_REGS;
        OverwriteRcx(old(registers), regs1, divisor, node, reg);
        registers := registers[node := reg];
        nextConstReg := nextConstReg + 1;
        return;
      }
      if availableRegs != {} {
        var reg :| reg in availableRegs;
        OverwriteRcx(old(registers), regs1, divisor, node, reg);
        registers := registers[node := reg];
      } else {
        assert Avail(interferenceGraph, old(registers), node) == {};
        NoFreeRegisterMeansThreeEntries(interferenceGraph, old(registers), node);
        SpillAfterRcx(old(registers), regs1, divisor, node);
        OverwriteRcx(old(registers), regs1, divisor, node, |regs1|);
        PutAtSpillIndex(node);
      }
    }

    /**
     * The loop at the start of a `select` iteration: {0, 1, 2} minus the
     * registers of the neighbours of `node` that already have an entry.
     */
    method FreeRegisters(node: NodeId) returns (availableRegs: set<nat>)
      ensures availableRegs <= {0, 1, 2}
      ensures forall r :: r in availableRegs <==>
                0 <= r < NUM_PHYSICAL_REGS && forall m :: m in Neighbours(interferenceGraph, node) && m in registers ==> registers[m] != r
    {
      var nbrs := Neighbours(interferenceGraph, node);
      availableRegs := {0, 1, 2};
      var rest := nbrs;
      while rest != {}
        invariant rest <= nbrs
        invariant availableRegs == {0, 1, 2} - HeldBy(nbrs - rest, registers)
        decreases rest
      {
        NonEmptyHasMember(rest);
        var interfering :| interfering in rest;
        if interfering in registers {
          availableRegs := availableRegs - {registers[interfering]};
        }
        assert HeldBy(nbrs - (rest - {interfering}), registers) ==
               HeldBy(nbrs - rest, registers) + (if interfering in registers then {registers[interfering]} else {});
        rest := rest - {interfering};
      }
      forall r ensures r in availableRegs <==>
                0 <= r < NUM_PHYSICAL_REGS && forall m :: m in nbrs && m in registers ==> registers[m] != r
      {
        if r in HeldBy(nbrs, registers) {
          var m :| m in nbrs && m in registers && registers[m] == r;
        }
      }
    }

    /** The loop over the inputs of `node` that puts a divisor of a division or modulo in %rcx. */
    method PutDivisorInRcx(g: Graph, node: NodeId)
      requires WellFormed(g) && node in g
      modifies this`registers
      ensures registers == if IsDivisorOfInput(g, node) then old(registers)[node := 1] else old(registers)
    {
      var preds := g[node].preds;
      for i := 0 to |preds|
        invariant registers == if exists k :: 0 <= k < i && IsDivisorOf(g, preds[k], node)
                               then old(registers)[node := 1] else old(registers)
      {
        var pred := preds[i];
        if IsDivOrMod(g[pred].kind) {
          var divisor := PredSkipProj(g, pred, RIGHT);
          if divisor == node {
            registers := registers[node := 1];
          }
        }
      }
    }

    /** The loop of `select`: pops every node off the stack and gives it a map entry. */
    method SelectFromStack(g: Graph)
      requires WellFormed(g) && forall i :: 0 <= i < |stack| ==> stack[i] in g
      modifies this`stack, this`registers, this`nextConstReg
      ensures stack == []
      ensures registers.Keys == old(registers).Keys + Elems(old(stack))
      ensures forall m :: m in old(registers) && m !in Elems(old(stack)) ==> registers[m] == old(registers)[m]
      ensures nextConstReg == old(nextConstReg) + CountConst(g, old(stack))
      ensures ConstsPhysical(g, old(registers)) ==> ConstsPhysical(g, registers)
    {
      while stack != []
        invariant |stack| <= |old(stack)| && stack == old(stack)[..|stack|]
        invariant forall i :: 0 <= i < |stack| ==> stack[i] in g
        invariant registers.Keys == old(registers).Keys + Elems(old(stack)[|stack|..])
        invariant forall m :: m in old(registers) && m !in Elems(old(stack)[|stack|..]) ==> registers[m] == old(registers)[m]
        invariant nextConstReg == old(nextConstReg) + CountConst(g, old(stack)[|stack|..])
        invariant ConstsPhysical(g, old(registers)) ==> ConstsPhysical(g, registers)
        decreases |stack|
      {
        var node := stack[|stack| - 1];
        stack := stack[..|stack| - 1];
        SelectNode(g, node);
        assert old(stack)[|stack|..] == [node] + old(stack)[|stack| + 1..];
        ElemsCons(node, old(stack)[|stack| + 1..]);
      }
    }

    /**
     * The final loop of `select`: every spill candidate is put at the spill
     * index of the current map size.  Candidates that already have an entry do
     * not grow the map, so they all receive the same index.
     */
    method SelectSpillCandidates()
      modifies this`registers
      ensures registers.Keys == old(registers).Keys + spillCandidates
      ensures forall m :: m in old(registers) && m !in spillCandidates ==> registers[m] == old(registers)[m]
      ensures forall m :: m in spillCandidates ==> registers[m] >= |old(registers)|
      ensures spillCandidates <= old(registers).Keys ==>
                registers.Keys == old(registers).Keys && forall m :: m in spillCandidates ==> registers[m] == |registers|
    {
      ghost var regs0 := registers;
      ghost var exact := spillCandidates <= regs0.Keys;
      ghost var done: set<NodeId> := {};
      var rest := spillCandidates;
      while rest != {}
        invariant rest <= spillCandidates && done == spillCandidates - rest
        invariant SpilledAt(regs0, registers, done, exact)
        decreases rest
      {
        NonEmptyHasMember(rest);
        var node :| node in rest;
        SpillStep(regs0, registers, done, node, exact);
        PutAtSpillIndex(node);
        TakeStep(spillCandidates, rest, done, node);
        rest := rest - {node};
        done := done + {node};
      }
      SpilledAll(regs0, registers, spillCandidates, exact);
    }

    /** `node` is put at the spill index of the current map size, which is that size. */
    method PutAtSpillIndex(node: NodeId)
      modifies this`registers
      ensures registers == old(registers)[node := |old(registers)|]
    {
      var size := |registers|;
      SpillIndexIsSize(size);
      registers := registers[node := SpillIndex(size)];
    }

    /**
     * `select`: every node on the stack and every spill candidate ends with an
     * entry; constants count the round-robin counter up; spill candidates that
     * were on the stack all share the index of the final map size.
     */
    method Select(g: Graph)
      requires WellFormed(g) && forall i :: 0 <= i < |stack| ==> stack[i] in g
      modifies this`stack, this`registers, this`nextConstReg
      ensures stack == []
      ensures registers.Keys == old(registers).Keys + Elems(old(stack)) + spillCandidates
      ensures nextConstReg == old(nextConstReg) + CountConst(g, old(stack))
      ensures spillCandidates <= old(registers).Keys + Elems(old(stack)) ==>
                forall m :: m in spillCandidates ==> registers[m] == |registers|
      ensures ConstsPhysical(g, old(registers)) ==> ConstsPhysical(g, registers - spillCandidates)
    {
      SelectFromStack(g);
      SelectSpillCandidates();
    }

    /**
     * `allocateRegisters`: the six phases on a fresh allocator.  The only way it
     * fails is the null dereference in `coalesce`, which happens exactly when
     * some reachable projection of a constant does not interfere with that
     * constant.  Otherwise every reachable value, and nothing else, gets an entry.
     */
    method AllocateRegisters(g: Graph, end: NodeId) returns (result: Option<map<NodeId, nat>>, ghost reach: set<NodeId>)
      requires WellFormed(g) && end in g
      requires Initial()
      modifies this
      ensures IsReach(g, end, reach)
      ensures result.None? <==> !CoalesceSucceeds(g, reach)
      ensures result.None? <==> exists p, c :: p in reach && IsMove(g, p, c) && !Interferes(g, c, p)
      ensures result.Some? ==> result.value.Keys == Values(g, reach)
      ensures result.Some? ==> spillCandidates <= result.value.Keys
      ensures result.Some? ==> forall m :: m in spillCandidates ==> result.value[m] == |result.value|
      ensures result.Some? ==> ConstsPhysical(g, result.value - spillCandidates)
    {
      reach := BuildGraphs(g, end);
      ghost var keys := interferenceGraph.Keys;
      ghost var order := MaximumCardinalitySearch();
      assert stack == order && Elems(order) == keys;
      CoalesceIff(g, reach, interferenceGraph, moveRelated);
      CoalesceSucceedsByMoves(g, reach);
      var ok := Coalesce(g);
      if !ok {
        return None, reach;
      }
      assert Elems(stack) == interferenceGraph.Keys == keys;
      SimplifyAndSelect(g);
      result := Some(registers);
    }

    /** The first two phases: the interference graph and the move relation of the reachable nodes. */
    method BuildGraphs(g: Graph, end: NodeId) returns (ghost reach: set<NodeId>)
      requires WellFormed(g) && end in g
      requires interferenceGraph == map[] && moveRelated == map[]
      modifies this`interferenceGraph, this`moveRelated
      ensures IsReach(g, end, reach)
      ensures interferenceGraph.Keys == Values(g, reach)
      ensures IsInterferenceGraph(g, interferenceGraph)
      ensures MovesWellFormed(g, moveRelated)
      ensures forall a, b :: Related(moveRelated, a, b) <==> MovePairIn(g, reach, a, b)
    {
      reach := BuildInterferenceGraph(g, end);
      ghost var reach' := BuildMoveRelated(g, end);
      ReachUnique(g, end, reach, reach');
    }

    /** The last two phases, on a stack that holds every key: afterwards every key has an entry. */
    method SimplifyAndSelect(g: Graph)
      requires WellFormed(g) && interferenceGraph.Keys <= g.Keys
      requires Elems(stack) == interferenceGraph.Keys
      requires registers == map[] && spillCandidates == {}
      modifies this`interferenceGraph, this`stack, this`spillCandidates, this`registers, this`nextConstReg
      ensures registers.Keys == old(interferenceGraph).Keys
      ensures spillCandidates <= registers.Keys
      ensures forall m :: m in spillCandidates ==> registers[m] == |registers|
      ensures ConstsPhysical(g, registers - spillCandidates)
    {
      ghost var keys := interferenceGraph.Keys;
      ghost var before := stack;
      ghost var removed := Simplify();
      ElemsAppend(before, removed);
      assert forall i :: 0 <= i < |stack| ==> stack[i] in Elems(stack);
      Select(g);
    }
  }
}
