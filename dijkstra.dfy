/** Single-source shortest paths over a weighted directed graph kept as an
    adjacency map, with a priority queue of (vertex, cost) entries that is
    refilled lazily: an improved vertex is enqueued again rather than having
    its entry updated. */
module ShortestPaths {
  import opened Failures
  import PriorityQueue

  /** `Math.floor(Number.MAX_SAFE_INTEGER / 2)`, the cost of a vertex not
      reached yet. */
  const MaxNumber: nat := 4503599627370495

  /** Source vertex to (target vertex to weight). */
  type Graph = map<string, map<string, nat>>

  datatype Entry = Entry(vertex: string, cost: int)

  /** The queue's comparator `(a, b) => b.cost - a.cost` as a priority: the
      cheaper entry comes out first. */
  function EntryPriority(e: Entry): int {
    -e.cost
  }

  // ---------------------------------------------------------------------
  // Walks

  /** Every step of `p` follows an edge of `g`. */
  ghost predicate IsWalk(g: Graph, p: seq<string>)
    decreases |p|
  {
    |p| <= 1 || (IsWalk(g, p[..|p| - 1]) && p[|p| - 2] in g && p[|p| - 1] in g[p[|p| - 2]])
  }

  /** The sum of the weights of the edges `p` follows. */
  ghost function WalkWeight(g: Graph, p: seq<string>): nat
    requires IsWalk(g, p)
    decreases |p|
  {
    if |p| <= 1 then 0
    else
      WalkWeight(g, p[..|p| - 1]) + g[p[|p| - 2]][p[|p| - 1]]
  }

  /** Appending an edge to a walk gives a walk, heavier by that edge. */
  lemma {:induction false} WalkExtend(g: Graph, p: seq<string>, v: string)
    requires IsWalk(g, p) && |p| > 0 && p[|p| - 1] in g && v in g[p[|p| - 1]]
    ensures IsWalk(g, p + [v])
    ensures WalkWeight(g, p + [v]) == WalkWeight(g, p) + g[p[|p| - 1]][v]
  {
    assert (p + [v])[..|p|] == p;
  }

  // ---------------------------------------------------------------------
  // What the search establishes

  /** No edge out of `u` leads to a vertex with a cost above `u`'s cost plus
      the edge's weight. */
  ghost predicate Relaxed(g: Graph, costs: map<string, nat>, u: string)
    requires u in costs
  {
    u in g ==> forall v :: v in g[u] && v in costs ==> costs[v] <= costs[u] + g[u][v]
  }

  /** The edge from `u` to `v`, if there is one and `v` has a cost, leads
      to no more than `u`'s cost plus its weight. */
  ghost predicate EdgeRelaxed(g: Graph, costs: map<string, nat>, u: string, v: string)
    requires u in g && u in costs
  {
    v in g[u] && v in costs ==> costs[v] <= costs[u] + g[u][v]
  }

  /** Every vertex with a cost is relaxed. */
  ghost predicate Fixpoint(g: Graph, costs: map<string, nat>) {
    forall u :: u in costs ==> Relaxed(g, costs, u)
  }

  /** The bookkeeping the search keeps: a cost for every vertex with an
      outgoing edge and for `start`, a path for every vertex with an
      outgoing edge, `start` at cost 0, and for every other vertex either
      the initial cost with an empty path, or a lower cost that is the
      weight of the recorded path from `start` followed by the vertex. */
  ghost predicate Bookkeeping(g: Graph, start: string, costs: map<string, nat>, paths: map<string, seq<string>>) {
    && costs.Keys == g.Keys + {start}
    && paths.Keys == g.Keys
    && costs[start] == 0
    && (start in paths ==> paths[start] == [])
    && (forall v :: v in costs ==> costs[v] <= MaxNumber)
    && (forall v :: v in paths && v != start && costs[v] == MaxNumber ==> paths[v] == [])
    && (forall v {:trigger RecordedWalk(g, start, costs, paths, v)} ::
          v in costs && v != start && costs[v] < MaxNumber ==> RecordedWalk(g, start, costs, paths, v))
  }

  /** `paths[v] + [v]` is a walk from `start` whose weight is `costs[v]`. */
  ghost predicate RecordedWalk(g: Graph, start: string, costs: map<string, nat>, paths: map<string, seq<string>>, v: string)
    requires v in costs
  {
    && v in paths && |paths[v]| > 0 && paths[v][0] == start
    && IsWalk(g, paths[v] + [v]) && WalkWeight(g, paths[v] + [v]) == costs[v]
  }

  /** With `start` at 0 and every vertex relaxed, no walk from `start` is
      cheaper than the cost of the vertex it ends at. */
  lemma {:induction false} CostsBelowWalks(g: Graph, start: string, costs: map<string, nat>, p: seq<string>)
    requires g.Keys <= costs.Keys && start in costs && costs[start] == 0 && Fixpoint(g, costs)
    requires IsWalk(g, p) && |p| > 0 && p[0] == start && p[|p| - 1] in costs
    ensures costs[p[|p| - 1]] <= WalkWeight(g, p)
    decreases |p|
  {
    if |p| > 1 {
      var q := p[..|p| - 1];
      var u, v := p[|p| - 2], p[|p| - 1];
      assert IsWalk(g, q) && q[|q| - 1] == u;
      assert u in g && v in g[u];
      CostsBelowWalks(g, start, costs, q);
      assert Relaxed(g, costs, u);
    }
  }

  // ---------------------------------------------------------------------
  // Steps of the search

  /** Some entry of the queue names `v`. */
  ghost predicate Pending(q: multiset<Entry>, v: string) {
    exists e :: e in q && e.vertex == v
  }

  /** Every entry of the queue names a vertex with a cost, and every vertex
      with a cost, except those in `skip`, is relaxed or still has an entry. */
  ghost predicate QueueCovers(g: Graph, costs: map<string, nat>, q: multiset<Entry>, skip: set<string>) {
    && (forall e :: e in q ==> e.vertex in costs)
    && (forall v {:trigger Covered(g, costs, q, v)} :: v in costs && v !in skip ==> Covered(g, costs, q, v))
  }

  /** `v` is relaxed or still has an entry. */
  ghost predicate Covered(g: Graph, costs: map<string, nat>, q: multiset<Entry>, v: string)
    requires v in costs
  {
    Relaxed(g, costs, v) || Pending(q, v)
  }

  /** After the initial entries, every vertex with a cost has an entry. */
  lemma {:induction false} InitialQueueCovers(g: Graph, costs: map<string, nat>, q: multiset<Entry>)
    requires forall e :: q[e] == if e.vertex in costs && e.cost == costs[e.vertex] then 1 else 0
    ensures QueueCovers(g, costs, q, {})
  {
    forall v | v in costs
      ensures Pending(q, v)
    {
      assert Entry(v, costs[v]) in q;
    }
  }

  /** Once the queue is empty, every vertex with a cost is relaxed. */
  lemma {:induction false} EmptyQueueFixpoint(g: Graph, costs: map<string, nat>, q: multiset<Entry>)
    requires QueueCovers(g, costs, q, {}) && |q| == 0
    ensures Fixpoint(g, costs)
  {
    forall u | u in costs
      ensures Relaxed(g, costs, u)
    {
      assert Covered(g, costs, q, u);
    }
  }

  /** Taking an entry out leaves every other vertex covered; the vertex it
      names is the one that must now be relaxed. */
  lemma {:induction false} DequeueStep(g: Graph, costs: map<string, nat>, q: multiset<Entry>, taken: Entry)
    requires QueueCovers(g, costs, q, {}) && taken in q
    ensures taken.vertex in costs
    ensures QueueCovers(g, costs, q - multiset{taken}, {taken.vertex})
  {
    var q' := q - multiset{taken};
    forall v | v in costs && v != taken.vertex
      ensures Covered(g, costs, q', v)
    {
      assert Covered(g, costs, q, v);
      if !Relaxed(g, costs, v) {
        var e :| e in q && e.vertex == v;
        assert e in q';
      }
    }
  }

  /** Once every edge out of `u` is relaxed, `u` needs no entry. */
  lemma {:induction false} FinishStep(g: Graph, costs: map<string, nat>, q: multiset<Entry>, u: string)
    requires u in costs && QueueCovers(g, costs, q, {u})
    requires u in g ==> forall v :: v in g[u] && v in costs ==> costs[v] <= costs[u] + g[u][v]
    ensures QueueCovers(g, costs, q, {})
  {
  }

  /** The path recorded by a relaxation, followed by the relaxed vertex, is
      a walk from `start` whose weight is the new cost. */
  lemma {:induction false} RelaxRecordsWalk(g: Graph, start: string, costs: map<string, nat>, paths: map<string, seq<string>>,
                         u: string, v: string)
    requires Bookkeeping(g, start, costs, paths)
    requires u in g && v in g[u] && v in costs && costs[u] + g[u][v] < costs[v]
    ensures u != v && v != start && costs[u] + g[u][v] < MaxNumber
    ensures RecordedWalk(g, start, costs[v := costs[u] + g[u][v]], paths[v := paths[u] + [u]], v)
  {
    if u == start {
      assert paths[u] + [u] == [start];
    } else {
      assert RecordedWalk(g, start, costs, paths, u);
    }
    WalkExtend(g, paths[u] + [u], v);
  }

  /** `v` was lowered through the edge from `u`: its cost is `u`'s cost
      plus the edge's weight and below its cost before, its path is the path
      to `u` followed by `u`, and it has an entry at its new cost. */
  ghost predicate LoweredFrom(g: Graph, u: string, costs0: map<string, nat>, paths0: map<string, seq<string>>,
                              costs: map<string, nat>, paths: map<string, seq<string>>, entries: seq<Entry>, v: string)
    requires u in g && u in costs0 && u in paths0 && v in costs0 && v in costs
  {
    && v in g[u] && costs[v] == costs0[u] + g[u][v] < costs0[v]
    && v in paths && paths[v] == paths0[u] + [u]
    && Entry(v, costs[v]) in entries
  }

  /** `v` kept its cost and path, or was lowered through the edge from `u`. */
  ghost predicate KeptOrLowered(g: Graph, u: string, costs0: map<string, nat>, paths0: map<string, seq<string>>,
                                costs: map<string, nat>, paths: map<string, seq<string>>, entries: seq<Entry>, v: string)
    requires u in g && u in costs0 && u in paths0 && v in costs0 && v in costs
  {
    || (costs[v] == costs0[v] && (v in paths0 ==> v in paths && paths[v] == paths0[v]))
    || LoweredFrom(g, u, costs0, paths0, costs, paths, entries, v)
  }

  /** What relaxing some of the edges out of `u` does to the costs, the
      paths and the new entries: the same vertices keep a cost and a path,
      `u` keeps its own, every new entry names a vertex with a cost, and
      every vertex was either left alone or lowered through its edge from
      `u`. */
  ghost predicate LoweredThrough(g: Graph, u: string, costs0: map<string, nat>, paths0: map<string, seq<string>>,
                                 costs: map<string, nat>, paths: map<string, seq<string>>, entries: seq<Entry>)
    requires u in g && u in costs0 && u in paths0
  {
    && costs.Keys == costs0.Keys && paths.Keys == paths0.Keys
    && costs[u] == costs0[u] && paths[u] == paths0[u]
    && (forall e :: e in entries ==> e.vertex in costs && costs[e.vertex] < costs0[e.vertex])
    && (forall v {:trigger KeptOrLowered(g, u, costs0, paths0, costs, paths, entries, v)} ::
          v in costs ==> KeptOrLowered(g, u, costs0, paths0, costs, paths, entries, v))
  }

  /** Lowering `n` through its edge from `u` keeps every vertex left alone
      or lowered through its edge from `u`. */
  lemma {:induction false} LowerStep(g: Graph, u: string, costs0: map<string, nat>, paths0: map<string, seq<string>>,
                                     costs: map<string, nat>, paths: map<string, seq<string>>, entries: seq<Entry>,
                                     n: string, c: nat)
    requires u in g && u in costs0 && u in paths0 && LoweredThrough(g, u, costs0, paths0, costs, paths, entries)
    requires n in g[u] && n in costs && n in paths && c == costs[u] + g[u][n] < costs[n]
    ensures LoweredThrough(g, u, costs0, paths0, costs[n := c], paths[n := paths[u] + [u]], entries + [Entry(n, c)])
  {
    var costs', paths', entries' := costs[n := c], paths[n := paths[u] + [u]], entries + [Entry(n, c)];
    assert KeptOrLowered(g, u, costs0, paths0, costs, paths, entries, n);
    assert Entry(n, c) in entries';
    forall v | v in costs'
      ensures KeptOrLowered(g, u, costs0, paths0, costs', paths', entries', v)
    {
      if v != n {
        assert KeptOrLowered(g, u, costs0, paths0, costs, paths, entries, v);
        if LoweredFrom(g, u, costs0, paths0, costs, paths, entries, v) {
          assert Entry(v, costs[v]) in entries';
        }
      }
    }
  }

  /** One element per unit of cost of each vertex: lowering any cost
      removes elements and adds none, so the search cannot lower costs
      forever. */
  ghost function Units(costs: map<string, nat>): set<(string, int)> {
    set v, k | v in costs && 0 <= k < costs[v] :: (v, k)
  }

  /** Relaxing edges out of `u` only removes units, and removes some when
      it produced an entry. */
  lemma {:induction false} LoweringShrinksUnits(g: Graph, u: string, costs0: map<string, nat>, paths0: map<string, seq<string>>,
                                                costs: map<string, nat>, paths: map<string, seq<string>>, entries: seq<Entry>)
    requires u in g && u in costs0 && u in paths0 && LoweredThrough(g, u, costs0, paths0, costs, paths, entries)
    ensures Units(costs) <= Units(costs0)
    ensures |entries| > 0 ==> Units(costs) < Units(costs0)
    ensures |entries| == 0 ==> Units(costs) == Units(costs0)
  {
    forall p | p in Units(costs)
      ensures p in Units(costs0)
    {
      var v, k :| v in costs && 0 <= k < costs[v] && p == (v, k);
      assert KeptOrLowered(g, u, costs0, paths0, costs, paths, entries, v);
    }
    if |entries| > 0 {
      var w := entries[0].vertex;
      assert entries[0] in entries;
      assert (w, costs[w]) in Units(costs0);
    } else {
      forall p | p in Units(costs0)
        ensures p in Units(costs)
      {
        var v, k :| v in costs0 && 0 <= k < costs0[v] && p == (v, k);
        assert KeptOrLowered(g, u, costs0, paths0, costs, paths, entries, v);
      }
    }
  }

  /** Relaxing edges out of `u` keeps the bookkeeping. */
  lemma {:induction false} LoweringKeepsBookkeeping(g: Graph, start: string, u: string, costs0: map<string, nat>,
                                                    paths0: map<string, seq<string>>,
                                                    costs: map<string, nat>, paths: map<string, seq<string>>, entries: seq<Entry>)
    requires u in g && Bookkeeping(g, start, costs0, paths0)
    requires LoweredThrough(g, u, costs0, paths0, costs, paths, entries)
    ensures Bookkeeping(g, start, costs, paths)
  {
    assert KeptOrLowered(g, u, costs0, paths0, costs, paths, entries, start);
    forall v | v in costs && v != start && costs[v] < MaxNumber
      ensures RecordedWalk(g, start, costs, paths, v)
    {
      assert KeptOrLowered(g, u, costs0, paths0, costs, paths, entries, v);
      if LoweredFrom(g, u, costs0, paths0, costs, paths, entries, v) {
        RelaxRecordsWalk(g, start, costs0, paths0, u, v);
        assert RecordedWalk(g, start, costs0[v := costs[v]], paths0[v := paths[v]], v);
      } else {
        assert RecordedWalk(g, start, costs0, paths0, v);
      }
    }
    forall v | v in costs
      ensures costs[v] <= MaxNumber && (v in paths && v != start && costs[v] == MaxNumber ==> paths[v] == [])
    {
      assert KeptOrLowered(g, u, costs0, paths0, costs, paths, entries, v);
    }
  }

  /** After relaxing edges out of `u`, the queue with the new entries added
      still covers every vertex other than `u`. */
  lemma {:induction false} LoweringKeepsCover(g: Graph, u: string, costs0: map<string, nat>,
                                              paths0: map<string, seq<string>>, queued: multiset<Entry>,
                                              costs: map<string, nat>, paths: map<string, seq<string>>, entries: seq<Entry>)
    requires u in g && u in costs0 && u in paths0 && QueueCovers(g, costs0, queued, {u})
    requires LoweredThrough(g, u, costs0, paths0, costs, paths, entries)
    ensures QueueCovers(g, costs, queued + multiset(entries), {u})
  {
    forall v | v in costs
      ensures costs[v] <= costs0[v]
    {
      assert KeptOrLowered(g, u, costs0, paths0, costs, paths, entries, v);
    }
    var q := queued + multiset(entries);
    forall v | v in costs && v != u
      ensures Covered(g, costs, q, v)
    {
      assert KeptOrLowered(g, u, costs0, paths0, costs, paths, entries, v);
      assert Covered(g, costs0, queued, v);
      if LoweredFrom(g, u, costs0, paths0, costs, paths, entries, v) {
        assert Entry(v, costs[v]) in q;
      } else if Relaxed(g, costs0, v) {
        assert Relaxed(g, costs, v);
      } else {
        var e :| e in queued && e.vertex == v;
        assert e in q;
      }
    }
  }

  /** The edges from `u` to every vertex of `done` are relaxed. */
  ghost predicate EdgesRelaxed(g: Graph, costs: map<string, nat>, u: string, done: set<string>)
    requires u in g && u in costs
  {
    forall v {:trigger EdgeRelaxed(g, costs, u, v)} :: v in done ==> EdgeRelaxed(g, costs, u, v)
  }

  /** Lowering the cost of a neighbour of `u` to the cost through `u` keeps
      the edges out of `u` relaxed. */
  lemma LoweringKeepsEdgesRelaxed(g: Graph, costs: map<string, nat>, u: string, done: set<string>, n: string)
    requires u in g && u in costs && n in g[u] && n in costs && costs[u] + g[u][n] < costs[n]
    requires EdgesRelaxed(g, costs, u, done)
    ensures EdgesRelaxed(g, costs[n := costs[u] + g[u][n]], u, done)
  {
    forall v | v in done
      ensures EdgeRelaxed(g, costs[n := costs[u] + g[u][n]], u, v)
    {
      assert EdgeRelaxed(g, costs, u, v);
    }
  }

  /** Relaxes every edge out of `u`, in any order: a neighbour with a cost
      that is cheaper through `u` gets the lower cost, the path to `u`
      followed by `u`, and a new queue entry, returned in `entries` in the
      order the relaxations happened. A neighbour without a cost is
      skipped. `queued` is what the queue holds beforehand. */
  method RelaxEdgesFrom(g: Graph, start: string, u: string, costs0: map<string, nat>, paths0: map<string, seq<string>>)
    returns (costs: map<string, nat>, paths: map<string, seq<string>>, entries: seq<Entry>)
    requires u in g && Bookkeeping(g, start, costs0, paths0)
    ensures u in paths0 && LoweredThrough(g, u, costs0, paths0, costs, paths, entries)
    ensures Relaxed(g, costs, u)
  {
    costs, paths, entries := costs0, paths0, [];
    ghost var done: set<string> := {};
    assert u in costs0 && u in paths0 && start in costs0 && costs0[start] == 0;
    assert costs0.Keys == g.Keys + {start} && paths0.Keys == g.Keys;
    var todo := g[u].Keys;
    while todo != {}
      invariant done + todo == g[u].Keys
      invariant LoweredThrough(g, u, costs0, paths0, costs, paths, entries)
      invariant costs[start] == 0
      invariant EdgesRelaxed(g, costs, u, done)
      decreases todo
    {
      var neighbor :| neighbor in todo;
      var newCost := costs[u] + g[u][neighbor];
      if neighbor in costs && newCost < costs[neighbor] {
        assert KeptOrLowered(g, u, costs0, paths0, costs, paths, entries, start);
        LowerStep(g, u, costs0, paths0, costs, paths, entries, neighbor, newCost);
        LoweringKeepsEdgesRelaxed(g, costs, u, done, neighbor);
        costs := costs[neighbor := newCost];
        entries := entries + [Entry(neighbor, newCost)];
        paths := paths[neighbor := paths[u] + [u]];
      }
      assert EdgeRelaxed(g, costs, u, neighbor);
      done := done + {neighbor};
      todo := todo - {neighbor};
    }
    forall v | v in g[u] && v in costs
      ensures costs[v] <= costs[u] + g[u][v]
    {
      assert EdgeRelaxed(g, costs, u, v);
    }
  }

  /** Enqueues `entries` one after another. */
  method EnqueueAll(queue: PriorityQueue.Heap<Entry>, entries: seq<Entry>)
    requires queue.Valid()
    modifies queue
    ensures queue.Valid()
    ensures queue.Contents() == old(queue.Contents()) + multiset(entries)
  {
    var i := 0;
    while i < |entries|
      invariant 0 <= i <= |entries|
      invariant queue.Valid()
      invariant queue.Contents() == old(queue.Contents()) + multiset(entries[..i])
    {
      assert entries[..i + 1] == entries[..i] + [entries[i]];
      queue.Enqueue(entries[i]);
      i := i + 1;
    }
    assert entries[..i] == entries;
  }

  /** Adding a vertex that has no cost yet, together with one entry for it
      at its new cost, keeps exactly one entry per vertex at its cost. */
  lemma OneEntryPerCost(q: multiset<Entry>, costs: map<string, nat>, v: string, c: nat)
    requires v !in costs
    requires forall e :: q[e] == if e.vertex in costs && e.cost == costs[e.vertex] then 1 else 0
    ensures var costs' := costs[v := c];
      forall e :: (q + multiset{Entry(v, c)})[e] == if e.vertex in costs' && e.cost == costs'[e.vertex] then 1 else 0
  {
  }

  /** The state before the first entry is taken out: `start` at cost 0,
      every other vertex with an outgoing edge at `MaxNumber` and an empty
      path for each of them, and exactly one entry per vertex with a cost,
      at that cost. */
  method Initialize(g: Graph, start: string)
    returns (costs: map<string, nat>, paths: map<string, seq<string>>, queue: PriorityQueue.Heap<Entry>)
    ensures fresh(queue) && queue.Valid()
    ensures Bookkeeping(g, start, costs, paths)
    ensures forall v :: v in costs && v != start ==> costs[v] == MaxNumber
    ensures forall v :: v in paths ==> paths[v] == []
    ensures forall e :: queue.Contents()[e] == if e.vertex in costs && e.cost == costs[e.vertex] then 1 else 0
  {
    costs := map[start := 0];
    paths := map[];
    queue := new PriorityQueue.Heap<Entry>(EntryPriority);
    queue.Enqueue(Entry(start, 0));

    var remaining := g.Keys;
    while remaining != {}
      invariant remaining <= g.Keys
      invariant forall v :: v in costs <==> v == start || (v in g && v !in remaining)
      invariant forall v :: v in paths <==> v in g && v !in remaining
      invariant costs[start] == 0
      invariant forall v :: v in costs && v != start ==> costs[v] == MaxNumber
      invariant forall v :: v in paths ==> paths[v] == []
      invariant fresh(queue) && queue.Valid()
      invariant forall e :: queue.Contents()[e] == if e.vertex in costs && e.cost == costs[e.vertex] then 1 else 0
      decreases remaining
    {
      var vertex :| vertex in remaining;
      if vertex != start {
        OneEntryPerCost(queue.Contents(), costs, vertex, MaxNumber);
        costs := costs[vertex := MaxNumber];
        queue.Enqueue(Entry(vertex, MaxNumber));
      }
      paths := paths[vertex := []];
      remaining := remaining - {vertex};
    }
  }

  /** Takes entries out until the queue is empty, relaxing the edges out of
      the vertex each names. Ends with every vertex relaxed and the
      bookkeeping kept, whatever order the entries come out in. */
  method Settle(g: Graph, start: string, queue: PriorityQueue.Heap<Entry>,
                costs0: map<string, nat>, paths0: map<string, seq<string>>)
    returns (costs: map<string, nat>, paths: map<string, seq<string>>)
    requires queue.Valid() && Bookkeeping(g, start, costs0, paths0) && QueueCovers(g, costs0, queue.Contents(), {})
    modifies queue
    ensures Bookkeeping(g, start, costs, paths)
    ensures Fixpoint(g, costs)
  {
    costs, paths := costs0, paths0;
    while queue.Size() > 0
      invariant queue.Valid()
      invariant Bookkeeping(g, start, costs, paths)
      invariant QueueCovers(g, costs, queue.Contents(), {})
      decreases Units(costs), queue.Size()
    {
      ghost var before := queue.Contents();
      var current := queue.Dequeue();
      var u := current.value.vertex;
      DequeueStep(g, costs, before, current.value);
      if u in g {
        var entries;
        ghost var costs0, paths0, queued := costs, paths, queue.Contents();
        costs, paths, entries := RelaxEdgesFrom(g, start, u, costs, paths);
        LoweringKeepsBookkeeping(g, start, u, costs0, paths0, costs, paths, entries);
        LoweringKeepsCover(g, u, costs0, paths0, queued, costs, paths, entries);
        LoweringShrinksUnits(g, u, costs0, paths0, costs, paths, entries);
        EnqueueAll(queue, entries);
      }
      FinishStep(g, costs, queue.Contents(), u);
    }
    EmptyQueueFixpoint(g, costs, queue.Contents());
  }

  // ---------------------------------------------------------------------
  // Building the graph

  /** `g` with the edge from `v1` to `v2` set to weight `w`. */
  function WithEdge(g: Graph, v1: string, v2: string, w: nat): Graph {
    g[v1 := (if v1 in g then g[v1] else map[])[v2 := w]]
  }

  /** Setting an edge adds `v1` as a source and `v2` as its target with
      weight `w`, replaces an earlier weight for that pair, and leaves every
      other edge as it was. */
  lemma WithEdgeSets(g: Graph, v1: string, v2: string, w: nat)
    ensures var g' := WithEdge(g, v1, v2, w);
      && g'.Keys == g.Keys + {v1}
      && g'[v1].Keys == (if v1 in g then g[v1].Keys else {}) + {v2}
      && g'[v1][v2] == w
      && (forall v :: v in g && v != v1 ==> g'[v] == g[v])
      && (forall x :: v1 in g && x in g[v1] && x != v2 ==> g'[v1][x] == g[v1][x])
  {
  }

  /** Setting the edge in both directions adds both vertices as sources,
      gives both edges weight `w`, keeps every other edge with its weight,
      and adds no other edge. */
  lemma {:induction false} WithBiEdgeSets(g: Graph, v1: string, v2: string, w: nat)
    ensures var g' := WithEdge(WithEdge(g, v1, v2, w), v2, v1, w);
      && g'.Keys == g.Keys + {v1, v2}
      && v2 in g'[v1] && g'[v1][v2] == w
      && v1 in g'[v2] && g'[v2][v1] == w
      && (forall v :: v in g && v != v1 && v != v2 ==> g'[v] == g[v])
      && (forall v, x :: v in g && x in g[v] && !(v == v1 && x == v2) && !(v == v2 && x == v1) ==>
            x in g'[v] && g'[v][x] == g[v][x])
      && (forall v, x :: v in g' && x in g'[v] ==>
            (v in g && x in g[v]) || (v == v1 && x == v2) || (v == v2 && x == v1))
  {
    var g1 := WithEdge(g, v1, v2, w);
    WithEdgeSets(g, v1, v2, w);
    WithEdgeSets(g1, v2, v1, w);
  }

  // ---------------------------------------------------------------------
  // A worked example

  /** Bi-edges A-B of weight 1, B-C of weight 2 and A-C of weight 5. */
  const ExampleGraph: Graph :=
    map["A" := map["B" := 1, "C" := 5], "B" := map["A" := 1, "C" := 2], "C" := map["B" := 2, "A" := 5]]

  /** Adding the three bi-edges to an empty graph builds the example graph. */
  lemma ExampleGraphBuilt()
    ensures WithEdge(WithEdge(WithEdge(WithEdge(WithEdge(WithEdge(map[], "A", "B", 1), "B", "A", 1),
                                                "B", "C", 2), "C", "B", 2), "A", "C", 5), "C", "A", 5)
            == ExampleGraph
  {
  }

  /** When every edge weighs at least 1, a walk weighs at least its number
      of steps. */
  lemma {:induction false} WalkAtLeastSteps(g: Graph, p: seq<string>)
    requires forall u, v :: u in g && v in g[u] ==> g[u][v] >= 1
    requires IsWalk(g, p) && |p| > 0
    ensures WalkWeight(g, p) >= |p| - 1
    decreases |p|
  {
    if |p| > 1 {
      WalkAtLeastSteps(g, p[..|p| - 1]);
    }
  }

  /** In the example graph, a walk from A to B weighs at least 1, and one
      of weight 1 is the single edge. */
  lemma ExampleWalkToB(p: seq<string>)
    requires IsWalk(ExampleGraph, p) && |p| > 0 && p[0] == "A" && p[|p| - 1] == "B"
    ensures WalkWeight(ExampleGraph, p) >= 1
    ensures WalkWeight(ExampleGraph, p) == 1 ==> p == ["A", "B"]
  {
    WalkAtLeastSteps(ExampleGraph, p);
    if WalkWeight(ExampleGraph, p) == 1 {
      assert |p| == 2;
    }
  }

  /** In the example graph, a walk from A to C weighs at least 3, and one
      of weight 3 goes through B. */
  lemma ExampleWalkToC(p: seq<string>)
    requires IsWalk(ExampleGraph, p) && |p| > 0 && p[0] == "A" && p[|p| - 1] == "C"
    ensures WalkWeight(ExampleGraph, p) >= 3
    ensures WalkWeight(ExampleGraph, p) == 3 ==> p == ["A", "B", "C"]
  {
    var q := p[..|p| - 1];
    assert |p| > 1;
    var u := p[|p| - 2];
    assert IsWalk(ExampleGraph, q) && q[0] == "A" && q[|q| - 1] == u;
    assert u in ExampleGraph && "C" in ExampleGraph[u];
    assert u == "A" || u == "B";
    if u == "B" {
      ExampleWalkToB(q);
      if WalkWeight(ExampleGraph, p) == 3 {
        assert p == q + ["C"];
      }
    } else {
      assert WalkWeight(ExampleGraph, p) >= 5;
    }
  }

  /** A result meeting the search's contract on the example graph from A
      gives A, B and C costs; B costs 1 and C at most 3. */
  lemma ExampleCostBounds(costs: map<string, nat>, paths: map<string, seq<string>>)
    requires Bookkeeping(ExampleGraph, "A", costs, paths) && Fixpoint(ExampleGraph, costs)
    ensures costs.Keys == {"A", "B", "C"} && paths.Keys == {"A", "B", "C"}
    ensures costs["A"] == 0 && costs["B"] == 1 && costs["C"] <= 3 && paths["A"] == []
    ensures RecordedWalk(ExampleGraph, "A", costs, paths, "B")
    ensures RecordedWalk(ExampleGraph, "A", costs, paths, "C")
  {
    var g := ExampleGraph;
    assert costs.Keys == g.Keys + {"A"};
    assert Relaxed(g, costs, "A") && Relaxed(g, costs, "B");
    assert costs["B"] <= 1 && costs["C"] <= 3;
    assert RecordedWalk(g, "A", costs, paths, "B");
    ExampleWalkToB(paths["B"] + ["B"]);
  }

  /** Whatever order the entries come out in, a result meeting the search's
      contract on the example graph from A has costs A = 0, B = 1, C = 3,
      reaches B directly and reaches C through B. */
  lemma ExampleShortestPaths(costs: map<string, nat>, paths: map<string, seq<string>>)
    requires Bookkeeping(ExampleGraph, "A", costs, paths) && Fixpoint(ExampleGraph, costs)
    ensures costs.Keys == {"A", "B", "C"} && costs["A"] == 0 && costs["B"] == 1 && costs["C"] == 3
    ensures paths.Keys == {"A", "B", "C"} && paths["A"] == [] && paths["B"] == ["A"] && paths["C"] == ["A", "B"]
  {
    ExampleCostBounds(costs, paths);
    var pb, pc := paths["B"] + ["B"], paths["C"] + ["C"];
    ExampleWalkToB(pb);
    ExampleWalkToC(pc);
    assert paths["B"] == pb[..|pb| - 1];
    assert paths["C"] == pc[..|pc| - 1];
  }

  class Dijkstra {
    var adjacencyList: Graph

    constructor ()
      ensures adjacencyList == map[]
    {
      adjacencyList := map[];
    }

    /** Sets the weight of the edge from `vertex1` to `vertex2`. */
    method AddEdge(vertex1: string, vertex2: string, weight: nat)
      modifies this
      ensures adjacencyList == WithEdge(old(adjacencyList), vertex1, vertex2, weight)
    {
      var m := if vertex1 in adjacencyList then adjacencyList[vertex1] else map[];
      m := m[vertex2 := weight];
      adjacencyList := adjacencyList[vertex1 := m];
    }

    /** Adds the edges in both directions with the same weight. */
    method AddBiEdge(vertex1: string, vertex2: string, weight: nat)
      modifies this
      ensures adjacencyList == WithEdge(WithEdge(old(adjacencyList), vertex1, vertex2, weight), vertex2, vertex1, weight)
    {
      AddEdge(vertex1, vertex2, weight);
      AddEdge(vertex2, vertex1, weight);
    }

    /** The cheapest cost from `start` to every vertex with an outgoing edge
        (and to `start`), and for each of those vertices the path it was
        reached by, without the vertex itself. A vertex that only receives
        edges gets no cost; a vertex not reached keeps `MaxNumber`. */
    method FindShortestPath(start: string) returns (costs: map<string, nat>, paths: map<string, seq<string>>)
      ensures Bookkeeping(adjacencyList, start, costs, paths)
      ensures Fixpoint(adjacencyList, costs)
    {
      var queue;
      costs, paths, queue := Initialize(adjacencyList, start);
      InitialQueueCovers(adjacencyList, costs, queue.Contents());
      costs, paths := Settle(adjacencyList, start, queue, costs, paths);
    }
  }
}
