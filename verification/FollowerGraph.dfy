/**
  The follower graph built by `create_follower_graph`: every requested username
  becomes a node, and an undirected edge joins a user and each of its
  followers that was also requested. Only the followers relation is consulted.
  The fetch of a user's followers is the parameter `followers`; a failed fetch
  is that function returning the empty sequence.
*/
module FollowerGraph {

  /**
    An undirected graph as the script uses networkx's `Graph`: the nodes in
    insertion order, each once, and the edges as unordered pairs, so that
    `{u, f}` and `{f, u}` are one edge. `add_edge(u, u)` stores the one-element
    set `{u}` (a self-loop).
  */
  datatype Graph = Graph(nodes: seq<string>, edges: set<set<string>>)

  predicate Distinct<T(==)>(s: seq<T>) {
    forall i, j :: 0 <= i < j < |s| ==> s[i] != s[j]
  }

  function Members(s: seq<string>): set<string> {
    set v | v in s
  }

  /** The graph invariant: every node once, and every edge between nodes. */
  ghost predicate WellFormed(g: Graph) {
    && Distinct(g.nodes)
    && forall e, v :: e in g.edges && v in e ==> v in g.nodes
  }

  /** The edges added while scanning follower list `fs` of user `u` (inner loop). */
  function EdgesFrom(u: string, fs: seq<string>, members: seq<string>): set<set<string>>
    decreases |fs|
  {
    if fs == [] then {}
    else
      var f := fs[|fs| - 1];
      EdgesFrom(u, fs[..|fs| - 1], members) + (if f in members then {{u, f}} else {})
  }

  /** The edges added while scanning the follower lists of the users `src` (outer loop). */
  function FollowerEdges(src: seq<string>, members: seq<string>, followers: string -> seq<string>): set<set<string>>
    decreases |src|
  {
    if src == [] then {}
    else
      var u := src[|src| - 1];
      FollowerEdges(src[..|src| - 1], members, followers) + EdgesFrom(u, followers(u), members)
  }

  /** `{u, f}` and `{a, b}` are one edge exactly when they join the same two users. */
  lemma SamePair(u: string, f: string, a: string, b: string)
    ensures {u, f} == {a, b} <==> (u == a && f == b) || (u == b && f == a)
  {
    if {u, f} == {a, b} {
      assert u in {a, b} && f in {a, b} && a in {u, f} && b in {u, f};
    }
  }

  lemma {:induction false} EdgesFromMembership(u: string, fs: seq<string>, members: seq<string>, a: string, b: string)
    ensures {a, b} in EdgesFrom(u, fs, members) <==>
      (u == a && b in fs && b in members) || (u == b && a in fs && a in members)
    decreases |fs|
  {
    if fs != [] {
      var f := fs[|fs| - 1];
      var init := fs[..|fs| - 1];
      EdgesFromMembership(u, init, members, a, b);
      SamePair(u, f, a, b);
      assert forall x :: x in fs <==> x in init || x == f by {
        assert fs == init + [f];
      }
    }
  }

  lemma {:induction false} EdgesFromShape(u: string, fs: seq<string>, members: seq<string>, e: set<string>)
    requires e in EdgesFrom(u, fs, members)
    ensures exists f :: f in fs && f in members && e == {u, f}
    decreases |fs|
  {
    var f := fs[|fs| - 1];
    var init := fs[..|fs| - 1];
    assert fs == init + [f];
    if e in EdgesFrom(u, init, members) {
      EdgesFromShape(u, init, members, e);
      var f' :| f' in init && f' in members && e == {u, f'};
      assert f' in fs;
    } else {
      assert f in fs;
    }
  }

  lemma {:induction false} FollowerEdgesMembership(src: seq<string>, members: seq<string>, followers: string -> seq<string>, a: string, b: string)
    ensures {a, b} in FollowerEdges(src, members, followers) <==>
      (a in src && b in followers(a) && b in members) || (b in src && a in followers(b) && a in members)
    decreases |src|
  {
    if src != [] {
      var u := src[|src| - 1];
      var init := src[..|src| - 1];
      FollowerEdgesMembership(init, members, followers, a, b);
      EdgesFromMembership(u, followers(u), members, a, b);
      assert forall x :: x in src <==> x in init || x == u by {
        assert src == init + [u];
      }
    }
  }

  lemma {:induction false} FollowerEdgesShape(src: seq<string>, members: seq<string>, followers: string -> seq<string>, e: set<string>)
    requires e in FollowerEdges(src, members, followers)
    ensures exists a, b :: a in src && b in followers(a) && b in members && e == {a, b}
    decreases |src|
  {
    var u := src[|src| - 1];
    var init := src[..|src| - 1];
    assert src == init + [u];
    if e in FollowerEdges(init, members, followers) {
      FollowerEdgesShape(init, members, followers, e);
      var a, b :| a in init && b in followers(a) && b in members && e == {a, b};
      assert a in src;
    } else {
      EdgesFromShape(u, followers(u), members, e);
      var f :| f in followers(u) && f in members && e == {u, f};
      assert u in src;
    }
  }

  // ---------------------------------------------------------------------------
  // create_follower_graph
  // ---------------------------------------------------------------------------

  /**
    `create_follower_graph(usernames)`: `add_node(u)` for every requested `u`,
    then `add_edge(u, f)` for every follower `f` of `u` that was requested.
    `add_node` and `add_edge` leave a node that is already present where it
    is and append one that is not.
  */
  method CreateFollowerGraph(usernames: seq<string>, followers: string -> seq<string>) returns (g: Graph)
    ensures Distinct(g.nodes) && Members(g.nodes) == Members(usernames)
    ensures g.edges == FollowerEdges(usernames, usernames, followers)
    ensures WellFormed(g)
  {
    var nodes: seq<string> := [];
    var edges: set<set<string>> := {};
    for i := 0 to |usernames|
      invariant Distinct(nodes)
      invariant forall v :: v in usernames[..i] ==> v in nodes
      invariant forall v :: v in nodes ==> v in usernames
      invariant edges == FollowerEdges(usernames[..i], usernames, followers)
    {
      var username := usernames[i];
      if username !in nodes {
        AppendDistinct(nodes, username);
        nodes := nodes + [username];
      }
      var fs := followers(username);
      for j := 0 to |fs|
        invariant Distinct(nodes)
        invariant username in nodes
        invariant forall v :: v in usernames[..i] ==> v in nodes
        invariant forall v :: v in nodes ==> v in usernames
        invariant edges == FollowerEdges(usernames[..i], usernames, followers) + EdgesFrom(username, fs[..j], usernames)
      {
        var follower := fs[j];
        EdgesFromStep(username, fs, usernames, j);
        if follower in usernames {
          if follower !in nodes {
            AppendDistinct(nodes, follower);
            nodes := nodes + [follower];
          }
          edges := edges + {{username, follower}};
        }
      }
      assert fs[..|fs|] == fs;
      FollowerEdgesStep(usernames, usernames, followers, i);
      assert forall v :: v in usernames[..i + 1] ==> v in usernames[..i] || v == username by {
        assert usernames[..i + 1] == usernames[..i] + [username];
      }
    }
    assert usernames[..|usernames|] == usernames;
    g := Graph(nodes, edges);
    forall e, v | e in g.edges && v in e
      ensures v in g.nodes
    {
      FollowerEdgesShape(usernames, usernames, followers, e);
    }
  }

  lemma AppendDistinct(s: seq<string>, x: string)
    requires Distinct(s) && x !in s
    ensures Distinct(s + [x])
  {
  }

  lemma EdgesFromStep(u: string, fs: seq<string>, members: seq<string>, j: nat)
    requires j < |fs|
    ensures EdgesFrom(u, fs[..j + 1], members) ==
      EdgesFrom(u, fs[..j], members) + (if fs[j] in members then {{u, fs[j]}} else {})
  {
    assert fs[..j + 1][..j] == fs[..j];
  }

  lemma FollowerEdgesStep(src: seq<string>, members: seq<string>, followers: string -> seq<string>, i: nat)
    requires i < |src|
    ensures FollowerEdges(src[..i + 1], members, followers) ==
      FollowerEdges(src[..i], members, followers) + EdgesFrom(src[i], followers(src[i]), members)
  {
    assert src[..i + 1][..i] == src[..i];
  }

  // ---------------------------------------------------------------------------
  // What the built graph promises
  // ---------------------------------------------------------------------------

  /**
    Users `a` and `b` are joined exactly when both were requested and one of
    them lists the other as a follower; evidence from either side gives the
    same single edge.
  */
  lemma FollowerEdge(usernames: seq<string>, followers: string -> seq<string>, a: string, b: string)
    ensures {a, b} in FollowerEdges(usernames, usernames, followers) <==>
      a in usernames && b in usernames && (b in followers(a) || a in followers(b))
  {
    FollowerEdgesMembership(usernames, usernames, followers, a, b);
  }

  /** Every edge joins two requested users: there are no edges to users outside the list. */
  lemma EdgesBetweenRequested(usernames: seq<string>, followers: string -> seq<string>, e: set<string>)
    requires e in FollowerEdges(usernames, usernames, followers)
    ensures exists a, b :: a in usernames && b in usernames && e == {a, b}
  {
    FollowerEdgesShape(usernames, usernames, followers, e);
  }

  /**
    A user whose fetch failed adds no edge of its own, yet is still joined to
    every requested user that lists it as a follower.
  */
  lemma FailedFetch(usernames: seq<string>, followers: string -> seq<string>, a: string, b: string)
    requires followers(b) == []
    ensures {a, b} in FollowerEdges(usernames, usernames, followers) <==>
      a in usernames && b in usernames && b in followers(a)
  {
    FollowerEdge(usernames, followers, a, b);
  }

  /**
    The edges depend only on which users were requested, not on their order
    or on repetitions: edge accumulation is a commutative union.
  */
  lemma OrderIndependent(u1: seq<string>, u2: seq<string>, followers: string -> seq<string>)
    requires Members(u1) == Members(u2)
    ensures FollowerEdges(u1, u1, followers) == FollowerEdges(u2, u2, followers)
  {
    assert forall v :: v in u1 <==> v in u2 by {
      assert forall v :: v in u1 <==> v in Members(u1);
      assert forall v :: v in u2 <==> v in Members(u2);
    }
    forall e | e in FollowerEdges(u1, u1, followers)
      ensures e in FollowerEdges(u2, u2, followers)
    {
      FollowerEdgesShape(u1, u1, followers, e);
      var a, b :| a in u1 && b in followers(a) && b in u1 && e == {a, b};
      FollowerEdge(u2, followers, a, b);
    }
    forall e | e in FollowerEdges(u2, u2, followers)
      ensures e in FollowerEdges(u1, u1, followers)
    {
      FollowerEdgesShape(u2, u2, followers, e);
      var a, b :| a in u2 && b in followers(a) && b in u2 && e == {a, b};
      FollowerEdge(u1, followers, a, b);
    }
  }
}
