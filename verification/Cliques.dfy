/**
  `find_cliques`: all maximal cliques of the follower graph, as networkx's
  `find_cliques` reports them. The enumerator is Bron–Kerbosch; self-loops
  are ignored, as networkx ignores them when it builds the adjacency it
  searches.
*/
module Cliques {
  import opened FollowerGraph

  /** Two distinct users joined by an edge. */
  predicate Adjacent(g: Graph, a: string, b: string) {
    a != b && {a, b} in g.edges
  }

  /** Adjacency is symmetric: the graph is undirected. */
  lemma AdjacentSymmetric(g: Graph, a: string, b: string)
    ensures Adjacent(g, a, b) <==> Adjacent(g, b, a)
  {
    assert {a, b} == {b, a};
  }

  /** A set of nodes every two distinct members of which are adjacent. */
  ghost predicate IsClique(g: Graph, c: set<string>) {
    && (forall v :: v in c ==> v in g.nodes)
    && (forall a, b :: a in c && b in c && a != b ==> Adjacent(g, a, b))
  }

  /** Node `v` lies outside `c` and is adjacent to every member of `c`. */
  ghost predicate Extends(g: Graph, c: set<string>, v: string) {
    v in g.nodes && v !in c && forall a :: a in c ==> Adjacent(g, v, a)
  }

  /** A non-empty clique that no node extends. */
  ghost predicate IsMaximalClique(g: Graph, c: set<string>) {
    c != {} && IsClique(g, c) && forall v :: !Extends(g, c, v)
  }

  /** The maximal cliques that contain all of `r` and none of `x`. */
  ghost function MaximalCliquesThrough(g: Graph, r: set<string>, x: set<string>): set<set<string>> {
    set c | c <= Members(g.nodes) && IsMaximalClique(g, c) && r <= c && c !! x
  }

  /**
    The state of a Bron–Kerbosch call: `r` is a clique, the candidates `p`
    (each once) and the excluded nodes `x` are disjoint, and together they are
    exactly the nodes that extend `r`.
  */
  ghost predicate SearchState(g: Graph, r: set<string>, p: seq<string>, x: set<string>) {
    && IsClique(g, r)
    && Distinct(p)
    && (forall w :: w in p ==> w !in x)
    && (forall w :: Extends(g, r, w) <==> w in p || w in x)
  }

  /** The members of `p` adjacent to `v`, in order. */
  function AdjacentIn(g: Graph, v: string, p: seq<string>): (q: seq<string>)
    ensures forall w :: w in q <==> w in p && Adjacent(g, v, w)
    ensures Distinct(p) ==> Distinct(q)
    ensures |q| <= |p|
    decreases |p|
  {
    if p == [] then []
    else
      var rest := AdjacentIn(g, v, p[1..]);
      assert forall w :: w in p <==> w == p[0] || w in p[1..];
      assert Distinct(p) ==> p[0] !in p[1..];
      if Adjacent(g, v, p[0]) then [p[0]] + rest else rest
  }

  /** The members of `x` adjacent to `v`. */
  function AdjacentAmong(g: Graph, v: string, x: set<string>): set<string> {
    set w | w in x && Adjacent(g, v, w)
  }

  /**
    Bron–Kerbosch without pivoting. Its first candidate `v` is either in the
    clique (recurse with `r + {v}`, keeping only neighbours of `v`) or not
    (move `v` from the candidates to the excluded nodes); with no candidates
    left, `r` is maximal exactly when nothing is excluded.
  */
  function BronKerbosch(g: Graph, r: set<string>, p: seq<string>, x: set<string>): (cliques: set<set<string>>)
    requires SearchState(g, r, p, x)
    ensures cliques == MaximalCliquesThrough(g, r, x)
    decreases |p|
  {
    if p == [] then
      NoCandidates(g, r, x);
      if x == {} && r != {} then {r} else {}
    else
      var v := p[0];
      SplitOnFirstCandidate(g, r, p, x);
      BronKerbosch(g, r + {v}, AdjacentIn(g, v, p[1..]), AdjacentAmong(g, v, x))
      + BronKerbosch(g, r, p[1..], x + {v})
  }

  /** A maximal clique through `r` that avoids `x` adds nothing to `r` but candidates. */
  lemma OnlyCandidatesAdded(g: Graph, r: set<string>, p: seq<string>, x: set<string>, c: set<string>, w: string)
    requires SearchState(g, r, p, x)
    requires IsClique(g, c) && r <= c && c !! x
    requires w in c && w !in r
    ensures w in p
  {
    assert Extends(g, r, w);
  }

  lemma NoCandidates(g: Graph, r: set<string>, x: set<string>)
    requires SearchState(g, r, [], x)
    ensures MaximalCliquesThrough(g, r, x) == if x == {} && r != {} then {r} else {}
  {
    forall c | c in MaximalCliquesThrough(g, r, x)
      ensures c == r
    {
      if w :| w in c && w !in r {
        OnlyCandidatesAdded(g, r, [], x, c, w);
      }
    }
    if x == {} && r != {} {
      assert IsMaximalClique(g, r);
      assert r <= Members(g.nodes);
      assert r in MaximalCliquesThrough(g, r, x);
    } else if x != {} {
      var w :| w in x;
      assert Extends(g, r, w);
    }
  }

  lemma SplitOnFirstCandidate(g: Graph, r: set<string>, p: seq<string>, x: set<string>)
    requires SearchState(g, r, p, x) && p != []
    ensures SearchState(g, r + {p[0]}, AdjacentIn(g, p[0], p[1..]), AdjacentAmong(g, p[0], x))
    ensures SearchState(g, r, p[1..], x + {p[0]})
    ensures MaximalCliquesThrough(g, r, x) ==
      MaximalCliquesThrough(g, r + {p[0]}, AdjacentAmong(g, p[0], x)) + MaximalCliquesThrough(g, r, x + {p[0]})
  {
    var v := p[0];
    var rest := p[1..];
    assert forall w :: w in p <==> w == v || w in rest;
    assert v !in rest;
    assert Extends(g, r, v);
    var q := AdjacentIn(g, v, rest);
    var xv := AdjacentAmong(g, v, x);
    // The state with v in the clique.
    forall a, b | a in r + {v} && b in r + {v} && a != b
      ensures Adjacent(g, a, b)
    {
      if a == v {
        assert Adjacent(g, v, b);
      } else if b == v {
        AdjacentSymmetric(g, v, a);
      }
    }
    forall w
      ensures Extends(g, r + {v}, w) <==> w in q || w in xv
    {
      AdjacentSymmetric(g, v, w);
      if Extends(g, r + {v}, w) {
        assert Extends(g, r, w);
      }
    }
    // The split of the maximal cliques on whether they contain v.
    var whole := MaximalCliquesThrough(g, r, x);
    var withV := MaximalCliquesThrough(g, r + {v}, xv);
    var withoutV := MaximalCliquesThrough(g, r, x + {v});
    forall c | c in whole
      ensures c in withV || c in withoutV
    {
      if v in c {
        assert c !! xv;
      }
    }
    forall c | c in withV
      ensures c in whole
    {
      assert c !! x;
    }
  }

  // ---------------------------------------------------------------------------
  // find_cliques
  // ---------------------------------------------------------------------------

  /**
    `find_cliques(G)`: exactly the maximal cliques of `g`; there are none
    exactly when the graph has no nodes.
  */
  function FindCliques(g: Graph): (cliques: set<set<string>>)
    requires Distinct(g.nodes)
    ensures forall c :: c in cliques <==> IsMaximalClique(g, c)
    ensures cliques == {} <==> g.nodes == []
  {
    assert forall w :: Extends(g, {}, w) <==> w in g.nodes;
    var cliques := BronKerbosch(g, {}, g.nodes, {});
    assert forall c :: IsMaximalClique(g, c) ==> c <= Members(g.nodes);
    if g.nodes != [] then
      MaximalCliqueThrough(g, g.nodes[0]);
      cliques
    else
      cliques
  }

  /** Every clique can be grown into a maximal one. */
  lemma {:induction false} GrowToMaximal(g: Graph, c: set<string>) returns (m: set<string>)
    requires IsClique(g, c) && c != {}
    ensures IsMaximalClique(g, m) && c <= m
    decreases |Members(g.nodes) - c|
  {
    if w :| Extends(g, c, w) {
      assert IsClique(g, c + {w}) by {
        forall a, b | a in c + {w} && b in c + {w} && a != b
          ensures Adjacent(g, a, b)
        {
          if a == w {
            assert Adjacent(g, w, b);
          } else if b == w {
            AdjacentSymmetric(g, w, a);
          }
        }
      }
      assert Members(g.nodes) - (c + {w}) < Members(g.nodes) - c by {
        assert w in Members(g.nodes) - c;
      }
      m := GrowToMaximal(g, c + {w});
    } else {
      m := c;
    }
  }

  /** Every node lies in some maximal clique. */
  lemma MaximalCliqueThrough(g: Graph, v: string)
    requires v in g.nodes
    ensures exists c :: IsMaximalClique(g, c) && v in c
  {
    var m := GrowToMaximal(g, {v});
  }

  /** Every node lies in at least one reported clique. */
  lemma EveryNodeCovered(g: Graph, v: string)
    requires Distinct(g.nodes) && v in g.nodes
    ensures exists c :: c in FindCliques(g) && v in c
  {
    MaximalCliqueThrough(g, v);
  }

  /** A node with no neighbour comes back as a clique of its own. */
  lemma IsolatedNode(g: Graph, v: string)
    requires Distinct(g.nodes) && v in g.nodes
    requires forall w :: !Adjacent(g, v, w)
    ensures {v} in FindCliques(g)
  {
    forall w
      ensures !Extends(g, {v}, w)
    {
      AdjacentSymmetric(g, v, w);
    }
    assert IsMaximalClique(g, {v});
  }

  /** No reported clique lies inside another one. */
  lemma CliquesIncomparable(g: Graph, c1: set<string>, c2: set<string>)
    requires Distinct(g.nodes)
    requires c1 in FindCliques(g) && c2 in FindCliques(g)
    requires c1 <= c2
    ensures c1 == c2
  {
    if w :| w in c2 && w !in c1 {
      assert Extends(g, c1, w);
    }
  }
}
