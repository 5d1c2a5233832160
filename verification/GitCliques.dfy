/**
  What happens when "Find Cliques" is pressed: the usernames are parsed from
  the text field; an empty list is reported as an error before anything is
  fetched; otherwise the follower graph is built and its maximal cliques are
  found.
*/
module GitCliques {
  import opened Usernames
  import opened FollowerGraph
  import opened Cliques

  datatype InputError = NoUsernames

  datatype Result<T> = Ok(value: T) | Err(error: InputError)

  /** What the page shows on success: the graph that is drawn and the cliques that are listed. */
  datatype Report = Report(graph: Graph, cliques: set<set<string>>)

  /**
    The button's handler. On success there is always at least one clique:
    every requested user lies in some maximal clique, so the page's
    "No cliques found." branch is never reached.
  */
  method FindCliquesForInput(text: string, followers: string -> seq<string>) returns (r: Result<Report>)
    ensures r.Err? <==> Parse(text) == []
    ensures r.Ok? ==>
      var g := r.value.graph;
      && WellFormed(g)
      && Members(g.nodes) == Members(Parse(text))
      && (forall a, b :: Adjacent(g, a, b) <==>
            a != b && a in Parse(text) && b in Parse(text) && (b in followers(a) || a in followers(b)))
      && (forall c :: c in r.value.cliques <==> IsMaximalClique(g, c))
      && r.value.cliques != {}
  {
    var usernames := Parse(text);
    if usernames == [] {
      return Err(NoUsernames);
    }
    var g := CreateFollowerGraph(usernames, followers);
    forall a, b
      ensures Adjacent(g, a, b) <==>
        a != b && a in usernames && b in usernames && (b in followers(a) || a in followers(b))
    {
      FollowerEdge(usernames, followers, a, b);
    }
    assert usernames[0] in Members(g.nodes);
    r := Ok(Report(g, FindCliques(g)));
  }

  /**
    Two users who each follow the other and a third whose fetch failed: the
    report lists the pair and the third user on their own.
  */
  lemma PairAndLoner(followers: string -> seq<string>)
    requires followers("A") == ["B"] && followers("B") == ["A"] && followers("C") == []
    ensures var g := Graph(["A", "B", "C"], FollowerEdges(["A", "B", "C"], ["A", "B", "C"], followers));
      FindCliques(g) == {{"A", "B"}, {"C"}}
  {
    var users := ["A", "B", "C"];
    var g := Graph(users, FollowerEdges(users, users, followers));
    PairAndLonerAdjacency(followers);
    PairAndLonerCliques(g);
  }

  lemma PairAndLonerAdjacency(followers: string -> seq<string>)
    requires followers("A") == ["B"] && followers("B") == ["A"] && followers("C") == []
    ensures var users := ["A", "B", "C"]; var g := Graph(users, FollowerEdges(users, users, followers));
      && Adjacent(g, "A", "B") && !Adjacent(g, "A", "C") && !Adjacent(g, "B", "C")
  {
    var users := ["A", "B", "C"];
    FollowerEdge(users, followers, "A", "B");
    FollowerEdge(users, followers, "A", "C");
    FollowerEdge(users, followers, "B", "C");
  }

  lemma PairAndLonerCliques(g: Graph)
    requires g.nodes == ["A", "B", "C"]
    requires Adjacent(g, "A", "B") && !Adjacent(g, "A", "C") && !Adjacent(g, "B", "C")
    ensures FindCliques(g) == {{"A", "B"}, {"C"}}
  {
    assert Distinct(g.nodes);
    AdjacentSymmetric(g, "A", "B");
    AdjacentSymmetric(g, "A", "C");
    AdjacentSymmetric(g, "B", "C");
    assert IsMaximalClique(g, {"A", "B"}) by {
      assert !Extends(g, {"A", "B"}, "C");
    }
    assert IsMaximalClique(g, {"C"}) by {
      assert !Extends(g, {"C"}, "A") && !Extends(g, {"C"}, "B");
    }
    forall c | IsMaximalClique(g, c)
      ensures c == {"A", "B"} || c == {"C"}
    {
      PairAndLonerOnly(g, c);
    }
  }

  lemma PairAndLonerOnly(g: Graph, c: set<string>)
    requires g.nodes == ["A", "B", "C"]
    requires Adjacent(g, "A", "B") && !Adjacent(g, "A", "C") && !Adjacent(g, "B", "C")
    requires Adjacent(g, "B", "A") && !Adjacent(g, "C", "A") && !Adjacent(g, "C", "B")
    requires IsMaximalClique(g, c)
    ensures c == {"A", "B"} || c == {"C"}
  {
    if "C" in c {
      assert forall v :: v in c ==> v == "C";
    } else {
      assert forall v :: v in c ==> v == "A" || v == "B";
      assert !Extends(g, c, "A") && !Extends(g, c, "B");
      assert "A" in c && "B" in c;
    }
  }
}
