# GitHub follower clique finder — a Dafny model

`gitcliques.py` is a small Streamlit page. It reads a comma-separated list of
GitHub usernames and fetches each user's followers from the GitHub API. It
builds an undirected networkx graph in which two requested users are joined
when one of them lists the other as a follower. It then lists the graph's
maximal cliques and draws the graph.

This project models the logic under the page, in four modules:

- `Usernames` (`Usernames.dfy`): the parsing comprehension
  `[u.strip() for u in usernames.split(",") if u.strip()]`. Python's
  `str.split(",")` becomes `Split`, `str.strip()` becomes `Strip` (Python's
  whitespace set, character by character), and the comprehension becomes
  `DropEmpty(MapAll(Strip, Split(text)))`, named `Parse`.
- `FollowerGraph` (`FollowerGraph.dfy`): `create_follower_graph` as a method
  with the source's two nested loops. The network fetch `get_followers` is
  the parameter `followers: string -> seq<string>`, and a failed fetch is
  that function returning `[]`. The graph holds its nodes in insertion
  order, each once, and its edges as a set of unordered pairs
  (`set<set<string>>`), as networkx's `Graph` does. The method is proved
  against the recursive specification functions `EdgesFrom` (inner loop) and
  `FollowerEdges` (outer loop). Lemmas then characterise those functions
  declaratively.
- `Cliques` (`Cliques.dfy`): `find_cliques`. The source delegates to
  `networkx.find_cliques`. Here the model defines clique and maximal clique,
  and gives a Bron–Kerbosch enumerator (`BronKerbosch`, a recursive function
  over the clique `r`, the candidates `p` and the excluded nodes `x`). It is
  proved to return exactly the maximal cliques.
- `GitCliques` (`GitCliques.dfy`): what the "Find Cliques" button does. An
  empty username list is an error, reported before anything is fetched.
  Otherwise the page builds the graph and finds its cliques. A worked
  example proves the result for a pair of mutual followers plus a third user
  whose fetch failed.

Self-loops: if a user lists itself as a follower, `add_edge(u, u)` stores a
self-loop. The model keeps it as the one-element edge `{u}`. `Adjacent`
requires two distinct users, so self-loops never affect cliques, just as
networkx leaves them out of the adjacency that `find_cliques` searches.

Duplicate usernames stay in the parsed list, in input order (`ParseConcat`).
They collapse into one graph node only when the graph is built
(`CreateFollowerGraph`).

A user whose fetch failed adds no edge of its own. It is still joined to
every requested user that lists it as a follower (`FailedFetch`).

The worked example `PairAndLoner` builds its graph directly from the node
list and `FollowerEdges` rather than through `CreateFollowerGraph`. That
gives the same cliques: `FindCliques` depends only on which nodes are present
and which pairs are adjacent, and `CreateFollowerGraph` is proved to produce
exactly those nodes and exactly the `FollowerEdges` edges.

## Model

| member | source | states |
|---|---|---|
| `Usernames.Strip` | gitcliques.py:40 | `u.strip()` neither starts nor ends with whitespace (Python's `str.isspace` set), and it is empty exactly when `u` is all whitespace |
| `Usernames.StripInfix` | gitcliques.py:40 | stripping removes only a whitespace prefix and a whitespace suffix: the result is a contiguous slice of the input |
| `Usernames.StripIdempotent` | gitcliques.py:40 | stripping twice is stripping once |
| `Usernames.Split` | gitcliques.py:40 | `split(",")` yields at least one piece (`""` gives `[""]`), and no piece contains a comma |
| `Usernames.JoinSplit` | gitcliques.py:40 | joining the pieces with `,` gives back the original text, so splitting loses nothing |
| `Usernames.SplitJoin` | gitcliques.py:40 | comma-free pieces joined with `,` split back into the same pieces |
| `Usernames.SplitConcat` | gitcliques.py:40 | the pieces of `x + "," + y` are the pieces of `x` followed by those of `y` |
| `Usernames.Parse` | gitcliques.py:40 | the comprehension as `DropEmpty(MapAll(Strip, Split(text)))`: at most one name per comma-separated field and no empty name; `ParseEntries`, `ParseMembership`, `ParseField`, `ParseConcat` and `ParseEmpty` characterise it fully |
| `Usernames.ParseEntries` | gitcliques.py:40 | every parsed username is non-empty, has no surrounding whitespace and contains no comma |
| `Usernames.ParseMembership` | gitcliques.py:40 | a name is parsed exactly when it is non-empty and some comma-separated field strips to it |
| `Usernames.ParseField` | gitcliques.py:40 | a comma-free field gives its stripped self, or nothing when it is blank |
| `Usernames.ParseConcat` | gitcliques.py:40 | the names of `x + "," + y` are the names of `x` followed by those of `y`: input order is kept and duplicates are not removed |
| `Usernames.ParseEmpty` | gitcliques.py:40 | the parsed list is empty exactly when the text holds only commas and whitespace |
| `FollowerGraph.EdgesFromMembership` | gitcliques.py:26-28 | scanning `u`'s followers `fs` adds edge `{a, b}` exactly when one end is `u` and the other is in `fs` and was requested |
| `FollowerGraph.FollowerEdgesMembership` | gitcliques.py:23-28 | scanning the users `src` adds `{a, b}` exactly when `a` is scanned and `b` is a requested follower of `a`, or the other way round |
| `FollowerGraph.FollowerEdgesShape` | gitcliques.py:23-28 | every edge added is `{u, f}` for a scanned user `u` and a requested follower `f` of `u` |
| `FollowerGraph.CreateFollowerGraph` | gitcliques.py:21-29 | the nodes are exactly the requested usernames, each once; the edges are exactly those the loops add; every edge joins two nodes |
| `FollowerGraph.FollowerEdge` | gitcliques.py:25-28 | `{a, b}` is an edge exactly when both users were requested and one lists the other as a follower; evidence from either side gives one edge |
| `FollowerGraph.EdgesBetweenRequested` | gitcliques.py:27-28 | every edge joins two requested users, so there is no edge to a user outside the list |
| `FollowerGraph.FailedFetch` | gitcliques.py:25-28 | a user whose follower list is empty (a failed fetch) adds no edge of its own, yet is joined to each requested user that lists it as a follower |
| `FollowerGraph.OrderIndependent` | gitcliques.py:23-28 | the edge set depends only on which users were requested, not on their order or repetitions |
| `Cliques.BronKerbosch` | gitcliques.py:32-33 | from a search state, the enumerator returns exactly the maximal cliques that contain `r` and avoid `x` |
| `Cliques.FindCliques` | gitcliques.py:32-33 | a set is returned exactly when it is a non-empty clique (every two distinct members adjacent) that no node extends; there are no cliques exactly when the graph has no nodes |
| `Cliques.MaximalCliqueThrough` | gitcliques.py:32-33 | every node lies in some maximal clique |
| `Cliques.GrowToMaximal` | gitcliques.py:32-33 | every non-empty clique lies inside some maximal clique |
| `Cliques.EveryNodeCovered` | gitcliques.py:32-33 | every node lies in at least one returned clique |
| `Cliques.IsolatedNode` | gitcliques.py:32-33 | a node with no neighbour is returned as a singleton clique |
| `Cliques.CliquesIncomparable` | gitcliques.py:32-33 | no returned clique is a subset of another returned clique |
| `GitCliques.FindCliquesForInput` | gitcliques.py:45-53 | an error exactly when the parsed list is empty; otherwise the graph's nodes are the parsed names, two users are adjacent exactly when both were requested and one follows the other, and the cliques are exactly the maximal cliques, of which there is at least one, so the "No cliques found." branch (gitcliques.py:59-60) is never reached |
| `GitCliques.PairAndLoner` | gitcliques.py:21-33 | with A and B each listing the other and C's fetch failing, the cliques are `{A, B}` and `{C}` |

## Left out

- `get_followers` (gitcliques.py:8-18) is not modelled. It covers the HTTP request, the token header and JSON decoding. It is network I/O, so it is the parameter `followers`, and a failed request is that parameter returning `[]`.
- `get_followers` can also fail by raising, and that is not modelled: a connection error or timeout in `requests.get` (gitcliques.py:13), a body that is not JSON, or an entry without `login` (gitcliques.py:15). Any of these ends `create_follower_graph` with no graph and no cliques. The total parameter `followers` cannot express that, so the model covers only runs in which every fetch returns.
- `followers` is a fixed function of the username, but the code fetches again for every occurrence of a user in the list. A repeated or reordered list can therefore see different answers, for example once the API rate limit is reached. `OrderIndependent` holds only for a fetch that gives the same answer each time.
- The `st.error` warning shown when a fetch fails is not modelled. It is presentation only.
- The API token is not modelled. It only affects the fetch.
- The Streamlit calls are not modelled: title, inputs, button, info/success/warning/error messages, and the numbered clique list (gitcliques.py:36-60). They are presentation only.
- Plotting is not modelled (gitcliques.py:63-66). It uses a floating-point layout and global matplotlib state.
- `FindCliques` returns a set. networkx yields a list whose order depends on its traversal and is unspecified, so that order is not modelled.
- `BronKerbosch` does not pivot. networkx uses the pivoting (Tomita) variant of Bron–Kerbosch. Pivoting only skips branches that report nothing, and the set of maximal cliques is the same.
- `CreateFollowerGraph` models insertion order but does not state it. The method appends nodes in networkx's insertion order: a follower added by `add_edge` before its own `add_node` comes first. Its contract states only the node set and that each node appears once. Cliques do not depend on that order.
- `Strip` works on Dafny's `char` (Unicode scalar values). A Python `str` that holds lone surrogate code points has no counterpart.
