/** The part of the DOM the boundary filter observes: element identities and
    their `parentNode` links. */
module Dom {
  import opened Wrappers

  /** An element, by identity. */
  type Elem = nat

  /** A document tree. `parent` maps an element to its `parentNode`; an
      element that is not a key has a `null` parent. `depth` is the node's
      distance from its root, a witness that following `parentNode` always
      ends: every parent is strictly shallower than its child. */
  datatype Tree = Tree(parent: map<Elem, Elem>, depth: map<Elem, nat>)

  /** The parent links are acyclic, as the ranking by depth shows. */
  ghost predicate WellFormed(t: Tree)
  {
    forall e :: e in t.parent ==>
      e in t.depth && t.parent[e] in t.depth && t.depth[t.parent[e]] < t.depth[e]
  }

  /** `node.parentNode`. */
  function ParentNode(t: Tree, e: Elem): Option<Elem>
  {
    if e in t.parent then Some(t.parent[e]) else None
  }

  /** How far a node can still be walked up; decreases along `parentNode`. */
  function Rank(t: Tree, n: Option<Elem>): nat
  {
    match n
    case None => 0
    case Some(e) => (if e in t.depth then t.depth[e] else 0) + 1
  }

  /** The nodes met by following `parentNode` from `n` up to `null`:
      `n` itself, its parent, its grandparent, ... */
  function Chain(t: Tree, n: Option<Elem>): seq<Elem>
    requires WellFormed(t)
    decreases Rank(t, n)
  {
    match n
    case None => []
    case Some(e) => [e] + Chain(t, ParentNode(t, e))
  }

  /** The `k`-th ancestor of `n` (`n.parentNode.parentNode...`, `k` times),
      `null` once the root has been passed. An independent reference for
      what the chain contains. */
  function Up(t: Tree, n: Option<Elem>, k: nat): Option<Elem>
    decreases k
  {
    if k == 0 then n
    else match n
      case None => None
      case Some(e) => Up(t, ParentNode(t, e), k - 1)
  }

  /** The chain starts at `n`, each next node is the previous one's parent,
      and it ends at a node whose parent is `null`. */
  lemma {:induction false} ChainFollowsParents(t: Tree, n: Option<Elem>)
    requires WellFormed(t)
    ensures Chain(t, n) == [] <==> n.None?
    ensures Chain(t, n) != [] ==> Chain(t, n)[0] == n.value
    ensures Chain(t, n) != [] ==> Chain(t, n)[|Chain(t, n)| - 1] !in t.parent
    ensures forall k :: 0 <= k < |Chain(t, n)| - 1 ==>
      Chain(t, n)[k] in t.parent && Chain(t, n)[k + 1] == t.parent[Chain(t, n)[k]]
    decreases Rank(t, n)
  {
    match n
    case None =>
    case Some(e) =>
      var rest := ParentNode(t, e);
      ChainFollowsParents(t, rest);
      if rest.Some? {
        assert e in t.parent;
      }
  }

  /** The `k`-th node of the chain is the `k`-th ancestor; past the end of
      the chain every ancestor is `null`. */
  lemma {:induction false} ChainIsAncestry(t: Tree, n: Option<Elem>, k: nat)
    requires WellFormed(t)
    ensures k < |Chain(t, n)| ==> Up(t, n, k) == Some(Chain(t, n)[k])
    ensures k >= |Chain(t, n)| ==> Up(t, n, k) == None
    decreases Rank(t, n)
  {
    match n
    case None =>
      if k > 0 {
        assert Up(t, n, k) == None;
      }
    case Some(e) =>
      if k > 0 {
        ChainIsAncestry(t, ParentNode(t, e), k - 1);
      }
  }

  /** `a` is met by the walk from `n` exactly when `a` is `n` or one of its
      ancestors. */
  lemma AncestorIffInChain(t: Tree, n: Option<Elem>, a: Elem)
    requires WellFormed(t)
    ensures a in Chain(t, n) <==> exists k: nat :: Up(t, n, k) == Some(a)
  {
    var c := Chain(t, n);
    if a in c {
      var k :| 0 <= k < |c| && c[k] == a;
      ChainIsAncestry(t, n, k);
    }
    if exists k: nat :: Up(t, n, k) == Some(a) {
      var k: nat :| Up(t, n, k) == Some(a);
      ChainIsAncestry(t, n, k);
    }
  }

  /** How deep a node is, for the ranking along the chain. */
  function RankOf(t: Tree, e: Elem): nat
  {
    Rank(t, Some(e))
  }

  /** Ranks strictly decrease along the chain, so the walk never meets a
      node twice and takes at most `Rank(t, n)` steps. */
  lemma {:induction false} ChainDecreases(t: Tree, n: Option<Elem>)
    requires WellFormed(t)
    ensures forall i, j :: 0 <= i < j < |Chain(t, n)| ==>
      RankOf(t, Chain(t, n)[j]) < RankOf(t, Chain(t, n)[i])
    ensures forall i, j :: 0 <= i < j < |Chain(t, n)| ==> Chain(t, n)[i] != Chain(t, n)[j]
    ensures |Chain(t, n)| <= Rank(t, n)
    decreases Rank(t, n)
  {
    match n
    case None =>
    case Some(e) =>
      var rest := ParentNode(t, e);
      ChainDecreases(t, rest);
      var c, c' := Chain(t, n), Chain(t, rest);
      assert c == [e] + c';
      if rest.Some? {
        assert c'[0] == rest.value;
        assert RankOf(t, rest.value) < RankOf(t, e);
        forall j | 1 <= j < |c|
          ensures RankOf(t, c[j]) < RankOf(t, c[0])
        {
          if j > 1 {
            assert c[j] == c'[j - 1] && c'[0] == c[1];
          }
        }
      }
  }
}
