/**
  Finite directed graphs over program points, and the cycle test the recovery
  engine runs on the graph of visited search states (Kahn's algorithm).
 */
module Graphs {

  /** A search state: a block id and an instruction boundary inside that block. */
  type State = (int, int)

  type Edges = map<State, set<State>>

  /** Picks any element, as iterating over a set or a dictionary does. */
  method Pick<T>(s: set<T>) returns (x: T)
    requires s != {}
    ensures x in s
  {
    x :| x in s;
  }

  lemma Member<T>(s: set<T>) returns (x: T)
    requires s != {}
    ensures x in s
  {
    x :| x in s;
  }

  ghost predicate Edge(edges: Edges, a: State, b: State)
  {
    a in edges && b in edges[a]
  }

  function Nodes(edges: Edges): (nodes: set<State>)
    ensures edges.Keys <= nodes
    ensures forall a, b :: Edge(edges, a, b) ==> b in nodes
  {
    edges.Keys + set a, b | a in edges && b in edges[a] :: b
  }

  ghost predicate Walk(edges: Edges, p: seq<State>)
  {
    && |p| > 0
    && forall i :: 0 <= i < |p| - 1 ==> Edge(edges, p[i], p[i + 1])
  }

  /** A closed walk with at least one edge; a self-loop counts. */
  ghost predicate Cycle(edges: Edges, p: seq<State>)
  {
    Walk(edges, p) && |p| > 1 && p[0] == p[|p| - 1]
  }

  ghost predicate Cyclic(edges: Edges)
  {
    exists p :: Cycle(edges, p)
  }

  /** The nodes of `live` that have an edge to `n`. */
  ghost function Sources(edges: Edges, live: set<State>, n: State): set<State>
  {
    set m | m in live && Edge(edges, m, n)
  }

  /** Ranks of removed nodes: every edge into a ranked node starts at a lower ranked node. */
  ghost predicate Topological(edges: Edges, rank: map<State, nat>)
  {
    forall a, b :: Edge(edges, a, b) && b in rank ==> a in rank && rank[a] < rank[b]
  }

  lemma {:induction false} RankAscends(edges: Edges, rank: map<State, nat>, p: seq<State>)
    requires Topological(edges, rank) && Walk(edges, p)
    requires p[|p| - 1] in rank
    ensures p[0] in rank && (|p| > 1 ==> rank[p[0]] < rank[p[|p| - 1]])
    decreases |p|
  {
    if |p| > 1 {
      assert Edge(edges, p[|p| - 2], p[|p| - 1]);
      RankAscends(edges, rank, p[..|p| - 1]);
    }
  }

  /** A full ranking is a topological order, so no walk closes. */
  lemma RankedGraphIsAcyclic(edges: Edges, rank: map<State, nat>)
    requires Topological(edges, rank) && Nodes(edges) <= rank.Keys
    ensures !Cyclic(edges)
  {
    forall p | Cycle(edges, p)
      ensures false
    {
      assert Edge(edges, p[0], p[1]);
      RankAscends(edges, rank, p);
    }
  }

  /** A set in which every node has a source inside the set contains walks of every length. */
  lemma {:induction false} LongWalk(edges: Edges, residue: set<State>, n: State, k: nat) returns (p: seq<State>)
    requires n in residue
    requires forall m {:trigger Sources(edges, residue, m)} :: m in residue ==> Sources(edges, residue, m) != {}
    ensures Walk(edges, p) && |p| == k + 1 && p[|p| - 1] == n
    ensures forall i :: 0 <= i < |p| ==> p[i] in residue
    decreases k
  {
    if k == 0 {
      p := [n];
    } else {
      assert Sources(edges, residue, n) != {};
      var m :| m in Sources(edges, residue, n);
      var q := LongWalk(edges, residue, m, k - 1);
      p := q + [n];
    }
  }

  /** Pigeonhole: more positions than values means two positions agree. */
  lemma {:induction false} Pigeonhole<T>(p: seq<T>, universe: set<T>) returns (i: int, j: int)
    requires forall k :: 0 <= k < |p| ==> p[k] in universe
    requires |p| > |universe|
    ensures 0 <= i < j < |p| && p[i] == p[j]
    decreases |p|
  {
    var last := p[|p| - 1];
    if k :| 0 <= k < |p| - 1 && p[k] == last {
      i, j := k, |p| - 1;
    } else {
      i, j := Pigeonhole(p[..|p| - 1], universe - {last});
    }
  }

  lemma ResidueHasCycle(edges: Edges, residue: set<State>)
    requires residue != {}
    requires forall m {:trigger Sources(edges, residue, m)} :: m in residue ==> Sources(edges, residue, m) != {}
    ensures Cyclic(edges)
  {
    var n :| n in residue;
    var p := LongWalk(edges, residue, n, |residue|);
    var i, j := Pigeonhole(p, residue);
    assert Cycle(edges, p[i..j + 1]);
  }

  /** Removing `node` from the live set lowers the in-degree of its targets by one and of no other node. */
  lemma SourcesWithout(edges: Edges, live: set<State>, node: State, n: State)
    requires node in live
    ensures |Sources(edges, live - {node}, n)| == |Sources(edges, live, n)| - (if Edge(edges, node, n) then 1 else 0)
  {
    if Edge(edges, node, n) {
      assert Sources(edges, live, n) == Sources(edges, live - {node}, n) + {node};
    } else {
      assert Sources(edges, live, n) == Sources(edges, live - {node}, n);
    }
  }

  /** The in-degrees count exactly the sources that are still live. */
  ghost predicate Counts(edges: Edges, indegree: map<State, nat>, live: set<State>)
  {
    forall n {:trigger indegree[n]} :: n in indegree ==> indegree[n] == |Sources(edges, live, n)|
  }

  /** The ready list holds, once each, the live nodes without a live source. */
  ghost predicate Ready(indegree: map<State, nat>, live: set<State>, ready: seq<State>)
  {
    && (forall i, j :: 0 <= i < j < |ready| ==> ready[i] != ready[j])
    && (forall n :: n in ready ==> n in live && n in indegree && indegree[n] == 0)
    && forall n {:trigger indegree[n]} :: n in live && n in indegree && indegree[n] == 0 ==> n in ready
  }

  /** Adds one arriving edge to every target. */
  method AddArrivals(indegree: map<State, nat>, targets: set<State>) returns (indegree': map<State, nat>)
    requires targets <= indegree.Keys
    ensures indegree'.Keys == indegree.Keys
    ensures forall n :: n in indegree ==> indegree'[n] == indegree[n] + (if n in targets then 1 else 0)
  {
    indegree' := indegree;
    var todo := targets;
    while todo != {}
      invariant indegree'.Keys == indegree.Keys && todo <= targets
      invariant forall n :: n in indegree ==> indegree'[n] == indegree[n] + (if n in targets - todo then 1 else 0)
      decreases todo
    {
      var destination :| destination in todo;
      todo := todo - {destination};
      indegree' := indegree'[destination := indegree'[destination] + 1];
    }
  }

  /** Counts, for every node, the edges that arrive at it. */
  method CountIndegrees(edges: Edges) returns (indegree: map<State, nat>)
    ensures indegree.Keys == Nodes(edges)
    ensures Counts(edges, indegree, Nodes(edges))
  {
    var nodes := Nodes(edges);
    indegree := map n | n in nodes :: 0;
    var todo := edges.Keys;
    while todo != {}
      invariant indegree.Keys == nodes && todo <= edges.Keys
      invariant Counts(edges, indegree, edges.Keys - todo)
      decreases todo
    {
      var source :| source in todo;
      ghost var done := edges.Keys - todo;
      indegree := AddArrivals(indegree, edges[source]);
      todo := todo - {source};
      assert edges.Keys - todo == done + {source} && done + {source} - {source} == done;
      forall n | n in nodes
        ensures indegree[n] == |Sources(edges, edges.Keys - todo, n)|
      {
        SourcesWithout(edges, done + {source}, source, n);
      }
    }
    forall n | n in nodes
      ensures Sources(edges, edges.Keys - todo, n) == Sources(edges, nodes, n)
    {
    }
  }

  method CollectZero(indegree: map<State, nat>) returns (ready: seq<State>)
    ensures Ready(indegree, indegree.Keys, ready)
  {
    ready := [];
    var todo := indegree.Keys;
    while todo != {}
      invariant todo <= indegree.Keys
      invariant forall i, j :: 0 <= i < j < |ready| ==> ready[i] != ready[j]
      invariant forall n :: n in ready <==> n in indegree.Keys - todo && indegree[n] == 0
      decreases todo
    {
      var n :| n in todo;
      todo := todo - {n};
      if indegree[n] == 0 {
        ready := ready + [n];
      }
    }
  }

  /** Lowers the in-degree of every target and queues the targets that reach zero. */
  method LowerTargets(indegree: map<State, nat>, targets: set<State>, ready: seq<State>, ghost live: set<State>)
    returns (indegree': map<State, nat>, ready': seq<State>)
    requires Ready(indegree, live, ready) && targets <= live && targets <= indegree.Keys
    requires forall n :: n in targets ==> indegree[n] > 0
    ensures indegree'.Keys == indegree.Keys && Ready(indegree', live, ready')
    ensures forall n :: n in indegree ==> indegree'[n] + (if n in targets then 1 else 0) == indegree[n]
  {
    indegree', ready' := indegree, ready;
    var todo := targets;
    while todo != {}
      invariant todo <= targets && indegree'.Keys == indegree.Keys
      invariant forall n :: n in indegree ==> indegree'[n] + (if n in targets - todo then 1 else 0) == indegree[n]
      invariant Ready(indegree', live, ready')
      decreases todo
    {
      var destination :| destination in todo;
      todo := todo - {destination};
      indegree' := indegree'[destination := indegree'[destination] - 1];
      if indegree'[destination] == 0 {
        ready' := ready' + [destination];
      }
    }
  }

  /** The targets of a live node are counted and live, and none is the node itself when nothing leads to it. */
  lemma TargetsAreLive(edges: Edges, indegree: map<State, nat>, live: set<State>, node: State)
    requires indegree.Keys == Nodes(edges) && live <= indegree.Keys && Counts(edges, indegree, live)
    requires node in live && Sources(edges, live, node) == {}
    requires forall a, b :: a in live && Edge(edges, a, b) ==> b in live
    ensures node in edges ==> forall n :: n in edges[node] ==> n in live - {node} && indegree[n] > 0
  {
    if node in edges {
      forall n | n in edges[node]
        ensures n in live - {node} && indegree[n] > 0
      {
        assert Edge(edges, node, n);
        assert node in Sources(edges, live, n);
      }
    }
  }

  /** Pops the last ready node: it has no live source, and the counts follow its removal. */
  method RemoveNode(edges: Edges, indegree: map<State, nat>, ready: seq<State>, ghost live: set<State>)
    returns (node: State, indegree': map<State, nat>, ready': seq<State>)
    requires indegree.Keys == Nodes(edges) && live <= indegree.Keys
    requires Counts(edges, indegree, live) && Ready(indegree, live, ready) && ready != []
    requires forall a, b :: a in live && Edge(edges, a, b) ==> b in live
    ensures indegree'.Keys == indegree.Keys && node in live && Sources(edges, live, node) == {}
    ensures Counts(edges, indegree', live - {node}) && Ready(indegree', live - {node}, ready')
  {
    node := ready[|ready| - 1];
    LastReady(edges, indegree, live, ready);
    var targets := if node in edges then edges[node] else {};
    TargetsAreLive(edges, indegree, live, node);
    indegree', ready' := LowerTargets(indegree, targets, ready[..|ready| - 1], live - {node});
    CountsWithout(edges, indegree, live, node, indegree');
  }

  /** The last ready node has no live source, and the others are ready without it. */
  lemma LastReady(edges: Edges, indegree: map<State, nat>, live: set<State>, ready: seq<State>)
    requires Counts(edges, indegree, live) && Ready(indegree, live, ready) && ready != []
    ensures var node := ready[|ready| - 1];
            node in live && Sources(edges, live, node) == {} && Ready(indegree, live - {node}, ready[..|ready| - 1])
  {
    var node := ready[|ready| - 1];
    assert node in ready && ready == ready[..|ready| - 1] + [node];
  }

  /** In-degrees that are lowered for the targets of `node` count the sources without it. */
  lemma CountsWithout(edges: Edges, indegree: map<State, nat>, live: set<State>, node: State, lowered: map<State, nat>)
    requires node in live && Counts(edges, indegree, live) && lowered.Keys == indegree.Keys
    requires forall n :: n in indegree ==> lowered[n] + (if Edge(edges, node, n) then 1 else 0) == indegree[n]
    ensures Counts(edges, lowered, live - {node})
  {
    forall n | n in lowered
      ensures lowered[n] == |Sources(edges, live - {node}, n)|
    {
      SourcesWithout(edges, live, node, n);
    }
  }

  /** `removed` nodes are ranked in removal order and `live` are the others. */
  ghost predicate Ranked(edges: Edges, live: set<State>, rank: map<State, nat>, removed: nat)
  {
    && rank.Keys <= Nodes(edges) && live == Nodes(edges) - rank.Keys
    && removed == |rank.Keys|
    && (forall n :: n in rank ==> rank[n] < removed)
    && Topological(edges, rank)
  }

  /** The live nodes are closed under edges when the removed ones are ranked. */
  lemma LiveIsClosed(edges: Edges, live: set<State>, rank: map<State, nat>)
    requires live == Nodes(edges) - rank.Keys && Topological(edges, rank)
    ensures forall a, b :: a in live && Edge(edges, a, b) ==> b in live
  {
  }

  /** A node without live sources may take the next rank. */
  lemma RankNext(edges: Edges, live: set<State>, rank: map<State, nat>, node: State, removed: nat)
    requires Ranked(edges, live, rank, removed) && node in live
    requires Sources(edges, live, node) == {}
    ensures Ranked(edges, live - {node}, rank[node := removed], removed + 1)
  {
    forall a | Edge(edges, a, node)
      ensures a in rank
    {
      assert a !in Sources(edges, live, node);
    }
    assert rank[node := removed].Keys == rank.Keys + {node};
  }

  /** Kahn's algorithm answers exactly whether the graph has a cycle. */
  method GraphHasCycle(edges: Edges) returns (cyclic: bool)
    ensures cyclic <==> Cyclic(edges)
  {
    var nodes := Nodes(edges);
    var indegree := CountIndegrees(edges);
    var ready := CollectZero(indegree);
    var removed := 0;
    ghost var live := nodes;
    ghost var rank: map<State, nat> := map[];
    while ready != []
      invariant indegree.Keys == nodes && live <= nodes
      invariant Counts(edges, indegree, live)
      invariant Ready(indegree, live, ready)
      invariant Ranked(edges, live, rank, removed)
      decreases live
    {
      LiveIsClosed(edges, live, rank);
      var node: State;
      node, indegree, ready := RemoveNode(edges, indegree, ready, live);
      RankNext(edges, live, rank, node, removed);
      rank := rank[node := removed];
      live := live - {node};
      removed := removed + 1;
    }
    cyclic := removed != |nodes|;
    KahnVerdict(edges, indegree, live, ready, rank, removed);
  }

  /** With nothing ready, a full ranking means acyclic; otherwise a cycle remains among the live nodes. */
  lemma KahnVerdict(edges: Edges, indegree: map<State, nat>, live: set<State>, ready: seq<State>, rank: map<State, nat>,
                    removed: nat)
    requires Ranked(edges, live, rank, removed)
    requires live <= indegree.Keys && Counts(edges, indegree, live) && Ready(indegree, live, ready) && ready == []
    ensures removed != |Nodes(edges)| <==> Cyclic(edges)
  {
    assert Nodes(edges) == rank.Keys + live;
    if live == {} {
      RankedGraphIsAcyclic(edges, rank);
    } else {
      forall m | m in live
        ensures Sources(edges, live, m) != {}
      {
        assert indegree[m] != 0;
      }
      ResidueHasCycle(edges, live);
    }
  }
}

/**
  The worklist search shared by the three recovery queries: which states are
  reachable in a finite state graph, and whether a cycle is reachable.
 */
module Worklist {
  import opened Graphs

  ghost predicate WalkFromTo(g: Edges, a: State, b: State, p: seq<State>)
  {
    Walk(g, p) && p[0] == a && p[|p| - 1] == b
  }

  ghost predicate Reaches(g: Edges, a: State, b: State)
  {
    exists p :: WalkFromTo(g, a, b, p)
  }

  /** Some cycle of the graph can be reached from `start`. */
  ghost predicate CyclicFrom(g: Edges, start: State)
  {
    exists p :: Cycle(g, p) && Reaches(g, start, p[0])
  }

  ghost predicate Closed(g: Edges)
  {
    forall a, b :: Edge(g, a, b) ==> b in g
  }

  lemma ReachesSelf(g: Edges, a: State)
    ensures Reaches(g, a, a)
  {
    assert WalkFromTo(g, a, a, [a]);
  }

  lemma ReachesStep(g: Edges, a: State, b: State, c: State)
    requires Reaches(g, a, b) && Edge(g, b, c)
    ensures Reaches(g, a, c)
  {
    var p :| WalkFromTo(g, a, b, p);
    assert WalkFromTo(g, a, c, p + [c]);
  }

  /** A set that holds the first node and is closed under edges holds the whole walk. */
  lemma {:induction false} WalkStaysInside(g: Edges, inside: set<State>, p: seq<State>, k: nat)
    requires Walk(g, p) && p[0] in inside && k < |p|
    requires forall a, b :: a in inside && Edge(g, a, b) ==> b in inside
    ensures p[k] in inside
  {
    if k > 0 {
      WalkStaysInside(g, inside, p, k - 1);
      assert Edge(g, p[k - 1], p[k]);
    }
  }

  /**
    What the search knows between two pops: recorded edges are the graph's, every
    visited or pending state is reachable, and nothing reachable is forgotten.
   */
  ghost predicate Explored(g: Edges, start: State, visited: set<State>, edges: Edges, pending: seq<State>)
  {
    && visited <= edges.Keys && visited <= g.Keys
    && (forall v :: v in visited ==> edges[v] == g[v] && Reaches(g, start, v))
    && (forall v :: v in edges && v !in visited ==> edges[v] == {})
    && (forall v :: v in pending ==> v in g && Reaches(g, start, v))
    && (forall v, u :: v in visited && Edge(g, v, u) ==> u in visited || u in pending)
    && (start in visited || start in pending)
  }

  lemma ExploredSkip(g: Edges, start: State, visited: set<State>, edges: Edges, pending: seq<State>)
    requires Explored(g, start, visited, edges, pending) && pending != []
    requires pending[|pending| - 1] in visited
    ensures Explored(g, start, visited, edges, pending[..|pending| - 1])
  {
    assert pending == pending[..|pending| - 1] + [pending[|pending| - 1]];
  }

  lemma ExploredStep(g: Edges, start: State, visited: set<State>, edges: Edges, pending: seq<State>,
                     edges': Edges, pending': seq<State>)
    requires Explored(g, start, visited, edges, pending) && Closed(g) && pending != []
    requires var s := pending[|pending| - 1];
             && s !in visited && s in edges' && edges'[s] == g[s]
             && (forall v :: v in edges' && v != s ==> if v in edges then edges'[v] == edges[v] else edges'[v] == {})
             && edges.Keys <= edges'.Keys
             && (forall v :: v in pending[..|pending| - 1] ==> v in pending')
             && (forall v :: v in pending' ==> v in pending[..|pending| - 1] || v in g[s])
             && (forall v :: v in g[s] ==> v in visited || v == s || v in pending')
    ensures Explored(g, start, visited + {pending[|pending| - 1]}, edges', pending')
  {
    var s := pending[|pending| - 1];
    assert s in pending;
    assert pending == pending[..|pending| - 1] + [s];
    forall v | v in pending'
      ensures v in g && Reaches(g, start, v)
    {
      if v in g[s] {
        assert Edge(g, s, v);
        ReachesStep(g, start, s, v);
      } else {
        assert v in pending;
      }
    }
  }

  /** An exhausted worklist has visited exactly the reachable states, and sees exactly the reachable cycles. */
  lemma ExploredAll(g: Edges, start: State, visited: set<State>, edges: Edges)
    requires Explored(g, start, visited, edges, [])
    ensures forall s :: s in visited <==> Reaches(g, start, s)
    ensures Cyclic(edges) <==> CyclicFrom(g, start)
  {
    forall s | Reaches(g, start, s)
      ensures s in visited
    {
      var p :| WalkFromTo(g, start, s, p);
      WalkStaysInside(g, visited, p, |p| - 1);
    }
    if p :| Cycle(edges, p) {
      forall i | 0 <= i < |p| - 1
        ensures p[i] in visited && Edge(g, p[i], p[i + 1])
      {
        assert Edge(edges, p[i], p[i + 1]);
      }
      assert Cycle(g, p);
    }
    if p :| Cycle(g, p) && Reaches(g, start, p[0]) {
      forall i | 0 <= i < |p| - 1
        ensures Edge(edges, p[i], p[i + 1])
      {
        WalkStaysInside(g, visited, p, i);
        assert Edge(g, p[i], p[i + 1]);
      }
      assert Cycle(edges, p);
    }
  }
}
