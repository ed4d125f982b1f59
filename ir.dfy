/**
 * The sea-of-nodes IR as the x86-64 back end sees it: every node is an integer id
 * with a kind and an ordered list of predecessor ids.  Node identity is the id.
 */
module Ir {

  type NodeId = int

  /** The node kinds the back end distinguishes; `ConstInt` carries its value. */
  datatype Kind = Start | Block | Proj | ConstInt(value: int) | Add | Sub | Mul | Div | Mod | Return | Phi

  datatype Node = Node(kind: Kind, preds: seq<NodeId>)

  /** An IR graph: the node table, keyed by id. */
  type Graph = map<NodeId, Node>

  datatype Option<T> = None | Some(value: T)

  /** Predecessor indices of the IR node classes. */
  const LEFT: nat := 0
  const RIGHT: nat := 1
  const IN: nat := 0
  const RESULT: nat := 0

  predicate IsBinary(k: Kind)
  {
    k.Add? || k.Sub? || k.Mul? || k.Div? || k.Mod?
  }

  predicate IsDivOrMod(k: Kind)
  {
    k.Div? || k.Mod?
  }

  /** How many predecessors a node of kind `k` has at least. */
  function MinArity(k: Kind): nat
  {
    if IsBinary(k) then 2 else if k.Proj? || k.Return? then 1 else 0
  }

  /**
   * The shape every IR graph has: predecessors are nodes of the graph, binary
   * operations have LEFT and RIGHT, projections have IN, returns have RESULT.
   */
  predicate WellFormed(g: Graph)
  {
    && (forall n :: n in g ==> |g[n].preds| >= MinArity(g[n].kind))
    && (forall n, k :: n in g && 0 <= k < |g[n].preds| ==> g[n].preds[k] in g)
  }

  /**
   * `needsRegister`: every node except the administrative ones holds a value,
   * so exactly the constants, the arithmetic nodes and the phis need a register.
   */
  predicate NeedsRegister(k: Kind): (r: bool)
    ensures r <==> k.ConstInt? || IsBinary(k) || k.Phi?
  {
    !(k.Proj? || k.Start? || k.Block? || k.Return?)
  }

  /**
   * `NodeSupport.predecessorSkipProj`: the i-th predecessor, looked through once
   * when it is a projection.
   */
  function PredSkipProj(g: Graph, n: NodeId, i: nat): (r: NodeId)
    requires WellFormed(g) && n in g && i < |g[n].preds|
    ensures r in g
  {
    var p := g[n].preds[i];
    if g[p].kind.Proj? then g[p].preds[IN] else p
  }

  /** All predecessors of `n` lie in `s`. */
  ghost predicate PredsIn(g: Graph, n: NodeId, s: set<NodeId>)
    requires n in g
  {
    forall k :: 0 <= k < |g[n].preds| ==> g[n].preds[k] in s
  }

  /** Growing the set keeps every predecessor in it. */
  lemma {:induction false} PredsInMono(g: Graph, n: NodeId, s: set<NodeId>, t: set<NodeId>)
    requires n in g && PredsIn(g, n, s) && s <= t
    ensures PredsIn(g, n, t)
  {
  }

  /** `s` is a set of nodes closed under taking predecessors. */
  ghost predicate Closed(g: Graph, s: set<NodeId>)
  {
    s <= g.Keys && forall n :: n in s ==> PredsIn(g, n, s)
  }

  /**
   * `s` is the set of nodes reachable from `root` by following predecessors:
   * the least predecessor-closed set that contains `root`.
   */
  ghost predicate IsReach(g: Graph, root: NodeId, s: set<NodeId>)
  {
    && root in s
    && Closed(g, s)
    && forall c :: Closed(g, c) && root in c ==> s <= c
  }

  /** `rank` strictly decreases along every predecessor edge. */
  ghost predicate Ranked(g: Graph, rank: map<NodeId, nat>)
  {
    && g.Keys <= rank.Keys
    && forall n, k :: n in g && 0 <= k < |g[n].preds| && g[n].preds[k] in rank ==> rank[g[n].preds[k]] < rank[n]
  }

  /** Along an edge of a well-formed graph the rank drops. */
  lemma {:induction false} RankedEdge(g: Graph, rank: map<NodeId, nat>, n: NodeId, k: nat)
    requires WellFormed(g) && Ranked(g, rank) && n in g && k < |g[n].preds|
    ensures g[n].preds[k] in g && g[n].preds[k] in rank && n in rank
    ensures rank[g[n].preds[k]] < rank[n]
  {
  }

  ghost predicate Acyclic(g: Graph)
  {
    exists rank :: Ranked(g, rank)
  }

  /** The elements of a sequence, as a set. */
  ghost function Elems(s: seq<NodeId>): set<NodeId>
  {
    set i | 0 <= i < |s| :: s[i]
  }

  ghost predicate NoDup(s: seq<NodeId>)
  {
    forall i, j :: 0 <= i < j < |s| ==> s[i] != s[j]
  }

  lemma {:induction false} ElemsSnoc(s: seq<NodeId>, x: NodeId)
    ensures Elems(s + [x]) == Elems(s) + {x}
    ensures NoDup(s) && x !in Elems(s) ==> NoDup(s + [x])
  {
    assert forall i :: 0 <= i < |s| ==> (s + [x])[i] == s[i];
    assert (s + [x])[|s|] == x;
  }

  lemma {:induction false} ElemsCons(x: NodeId, s: seq<NodeId>)
    ensures Elems([x] + s) == {x} + Elems(s)
  {
    assert forall i :: 0 <= i < |s| ==> ([x] + s)[i + 1] == s[i];
    assert ([x] + s)[0] == x;
  }

  lemma {:induction false} ElemsAppend(s: seq<NodeId>, t: seq<NodeId>)
    ensures Elems(s + t) == Elems(s) + Elems(t)
    ensures NoDup(s) && NoDup(t) && Elems(s) !! Elems(t) ==> NoDup(s + t)
  {
    assert forall i :: 0 <= i < |s| ==> (s + t)[i] == s[i];
    assert forall i :: 0 <= i < |t| ==> (s + t)[|s| + i] == t[i];
    if NoDup(s) && NoDup(t) && Elems(s) !! Elems(t) {
      forall i, j | 0 <= i < j < |s + t| ensures (s + t)[i] != (s + t)[j] {
        if j < |s| {
        } else if i >= |s| {
          assert (s + t)[i] == t[i - |s|] && (s + t)[j] == t[j - |s|];
        } else {
          assert (s + t)[i] in Elems(s) && (s + t)[j] == t[j - |s|] && t[j - |s|] in Elems(t);
        }
      }
    }
  }

  /** Appending to a concatenation appends to its second part. */
  lemma {:induction false} SnocAssoc<T>(a: seq<T>, b: seq<T>, x: T)
    ensures (a + b) + [x] == a + (b + [x])
  {
  }

  /** Concatenation is associative. */
  lemma {:induction false} AppendAssoc<T>(a: seq<T>, b: seq<T>, c: seq<T>)
    ensures (a + b) + c == a + (b + c)
  {
  }

  /** A non-empty set has a member (the witness for picking from a hash set). */
  lemma {:induction false} NonEmptyHasMember(s: set<NodeId>)
    requires s != {}
    ensures exists x :: x in s
  {
    if forall x :: x !in s {
      assert false;
    }
  }
}
