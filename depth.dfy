/** The bookkeeping of the breadth-first search in getPageDepth: the depth map,
    the queue of discovered pages whose choices are not yet scanned, and (ghost)
    the set of pages already scanned. The queue holds depths in nondecreasing order
    that differ by at most one, every scanned page is no deeper than a queued one,
    and every choice of a scanned page leads to a key at most one level deeper.
    When the queue runs empty the map is a DepthMap. */
module DepthSearch {
  import opened Pages
  import opened StoryGraph

  /** The page numbers 1..n. */
  function PageSet(n: nat): (s: set<nat>)
    ensures forall v :: v in s <==> 1 <= v <= n
  {
    if n == 0 then {} else PageSet(n - 1) + {n}
  }

  /** Page 1 has depth 0, the keys are pages, and every other key was discovered
      from a key one level up. */
  ghost predicate Rooted(pages: seq<PageRecord>, depth: map<nat, nat>)
  {
    1 in depth && depth[1] == 0 &&
    (forall v :: v in depth ==> 1 <= v <= |pages|) &&
    (forall v :: v in depth && v != 1 ==> HasParent(pages, depth, v))
  }

  /** Key v was discovered from a key u one level up. */
  ghost predicate ParentOf(pages: seq<PageRecord>, depth: map<nat, nat>, u: nat, v: nat)
  {
    u in depth && v in depth && Edge(pages, u, v) && depth[v] == depth[u] + 1
  }

  ghost predicate HasParent(pages: seq<PageRecord>, depth: map<nat, nat>, v: nat)
  {
    exists u :: ParentOf(pages, depth, u, v)
  }

  /** The queue holds distinct keys not yet scanned; every key is scanned or queued. */
  ghost predicate QueueOk(depth: map<nat, nat>, queue: seq<nat>, done: set<nat>)
  {
    (forall i :: 0 <= i < |queue| ==> queue[i] in depth && queue[i] !in done) &&
    (forall i, j :: 0 <= i < j < |queue| ==> queue[i] != queue[j]) &&
    (forall v :: v in depth ==> v in done || v in queue) &&
    (forall v :: v in done ==> v in depth)
  }

  /** The depths along the queue never decrease. */
  ghost predicate Sorted(depth: map<nat, nat>, queue: seq<nat>)
  {
    (forall i :: 0 <= i < |queue| ==> queue[i] in depth) &&
    (forall i, j :: 0 <= i < j < |queue| ==> depth[queue[i]] <= depth[queue[j]])
  }

  /** The facts shared by the outer and the inner loop. */
  ghost predicate Discovered(pages: seq<PageRecord>, depth: map<nat, nat>, queue: seq<nat>, done: set<nat>)
  {
    WellFormed(pages) && Rooted(pages, depth) && QueueOk(depth, queue, done) && Sorted(depth, queue)
  }

  lemma QueuePop(depth: map<nat, nat>, queue: seq<nat>, done: set<nat>)
    requires QueueOk(depth, queue, done) && queue != []
    ensures QueueOk(depth, queue[1..], done + {queue[0]})
  {
    var cur, q := queue[0], queue[1..];
    assert forall i :: 0 <= i < |q| ==> q[i] == queue[i + 1];
    forall v | v in depth ensures v in done + {cur} || v in q {
      if v in queue && v != cur {
        var i :| 0 <= i < |queue| && queue[i] == v;
        assert q[i - 1] == v;
      }
    }
  }

  lemma SortedPop(depth: map<nat, nat>, queue: seq<nat>)
    requires Sorted(depth, queue) && queue != []
    ensures Sorted(depth, queue[1..])
  {
  }

  lemma QueuePush(depth: map<nat, nat>, queue: seq<nat>, done: set<nat>, v: nat, d: nat)
    requires QueueOk(depth, queue, done) && v !in depth
    ensures QueueOk(depth[v := d], queue + [v], done)
  {
  }

  lemma SortedPush(depth: map<nat, nat>, queue: seq<nat>, v: nat, d: nat)
    requires Sorted(depth, queue) && v !in depth
    requires forall i :: 0 <= i < |queue| ==> depth[queue[i]] <= d
    ensures Sorted(depth[v := d], queue + [v])
  {
  }

  lemma RootedPush(pages: seq<PageRecord>, depth: map<nat, nat>, cur: nat, v: nat)
    requires Rooted(pages, depth) && cur in depth && Edge(pages, cur, v) && v !in depth && 1 <= v <= |pages|
    ensures Rooted(pages, depth[v := depth[cur] + 1])
  {
    var depth' := depth[v := depth[cur] + 1];
    forall w | w in depth' && w != 1 ensures HasParent(pages, depth', w) {
      if w != v {
        var u :| ParentOf(pages, depth, u, w);
        assert ParentOf(pages, depth', u, w);
      } else {
        assert ParentOf(pages, depth', cur, w);
      }
    }
  }

  /** The invariant of the outer loop. */
  ghost predicate Frontier(pages: seq<PageRecord>, depth: map<nat, nat>, queue: seq<nat>, done: set<nat>)
  {
    Discovered(pages, depth, queue, done) &&
    (queue != [] ==> depth[queue[|queue| - 1]] <= depth[queue[0]] + 1) &&
    (forall u, i :: u in done && 0 <= i < |queue| ==> depth[u] <= depth[queue[i]]) &&
    (forall u, v :: u in done && Edge(pages, u, v) ==> v in depth && depth[v] <= depth[u] + 1)
  }

  /** The invariant of the inner loop, while the first i choices of page cur are
      scanned. */
  ghost predicate Scan(pages: seq<PageRecord>, depth: map<nat, nat>, queue: seq<nat>, done: set<nat>, cur: nat, i: nat)
  {
    1 <= cur <= |pages| && Discovered(pages, depth, queue, done) &&
    cur in done && i <= |Succ(pages, cur)| &&
    (forall j :: 0 <= j < |queue| ==> depth[cur] <= depth[queue[j]] <= depth[cur] + 1) &&
    (forall u :: u in done ==> depth[u] <= depth[cur]) &&
    (forall u, v :: u in done && u != cur && Edge(pages, u, v) ==> v in depth && depth[v] <= depth[u] + 1) &&
    (forall j :: 0 <= j < i ==> Succ(pages, cur)[j] in depth && depth[Succ(pages, cur)[j]] <= depth[cur] + 1)
  }

  lemma InitialFrontier(pages: seq<PageRecord>)
    requires WellFormed(pages)
    ensures Frontier(pages, map[1 := 0], [1], {})
  {
  }

  lemma PopBounds(depth: map<nat, nat>, queue: seq<nat>, done: set<nat>)
    requires Sorted(depth, queue) && queue != [] && forall u :: u in done ==> u in depth
    requires depth[queue[|queue| - 1]] <= depth[queue[0]] + 1
    requires forall u, i :: u in done && 0 <= i < |queue| ==> depth[u] <= depth[queue[i]]
    ensures forall j :: 0 <= j < |queue[1..]| ==> depth[queue[0]] <= depth[queue[1..][j]] <= depth[queue[0]] + 1
    ensures forall u :: u in done + {queue[0]} ==> depth[u] <= depth[queue[0]]
  {
  }

  /** Taking the front of the queue starts the scan of its choices. */
  lemma PopFront(pages: seq<PageRecord>, depth: map<nat, nat>, queue: seq<nat>, done: set<nat>)
    requires Frontier(pages, depth, queue, done) && queue != []
    ensures Scan(pages, depth, queue[1..], done + {queue[0]}, queue[0], 0)
    ensures queue[0] in PageSet(|pages|) - done
  {
    var cur, q := queue[0], queue[1..];
    QueuePop(depth, queue, done);
    SortedPop(depth, queue);
    PopBounds(depth, queue, done);
    assert 1 <= cur <= |pages| && cur in PageSet(|pages|);
    EdgesBeside(pages, depth, done, cur);
  }

  lemma EdgesBeside(pages: seq<PageRecord>, depth: map<nat, nat>, done: set<nat>, cur: nat)
    requires done <= depth.Keys
    requires forall u, v :: u in done && Edge(pages, u, v) ==> v in depth && depth[v] <= depth[u] + 1
    ensures forall u, v :: u in done + {cur} && u != cur && Edge(pages, u, v) ==> v in depth && depth[v] <= depth[u] + 1
  {
  }

  /** The scanned choice leads to a page already in the map. */
  lemma ScanKnown(pages: seq<PageRecord>, depth: map<nat, nat>, queue: seq<nat>, done: set<nat>, cur: nat, i: nat)
    requires Scan(pages, depth, queue, done, cur, i) && i < |Succ(pages, cur)|
    requires Succ(pages, cur)[i] in depth
    ensures Scan(pages, depth, queue, done, cur, i + 1)
  {
    var v := Succ(pages, cur)[i];
    if v !in done {
      var k :| 0 <= k < |queue| && queue[k] == v;
    }
  }

  lemma NewKeepsEdges(pages: seq<PageRecord>, depth: map<nat, nat>, done: set<nat>, cur: nat, v: nat, d: nat)
    requires v !in depth && forall u :: u in done ==> u in depth
    requires forall u, w :: u in done && u != cur && Edge(pages, u, w) ==> w in depth && depth[w] <= depth[u] + 1
    ensures forall u, w :: u in done && u != cur && Edge(pages, u, w) ==>
      w in depth[v := d] && depth[v := d][w] <= depth[v := d][u] + 1
  {
  }

  lemma NewKeepsLevels(depth: map<nat, nat>, queue: seq<nat>, done: set<nat>, cur: nat, opts: seq<nat>, i: nat)
    requires i < |opts| && opts[i] !in depth && cur in depth
    requires forall u :: u in done ==> u in depth && depth[u] <= depth[cur]
    requires forall j :: 0 <= j < |queue| ==> queue[j] in depth && depth[cur] <= depth[queue[j]] <= depth[cur] + 1
    requires forall j :: 0 <= j < i ==> opts[j] in depth && depth[opts[j]] <= depth[cur] + 1
    ensures var depth', queue' := depth[opts[i] := depth[cur] + 1], queue + [opts[i]];
      depth'[cur] == depth[cur] &&
      (forall u :: u in done ==> depth'[u] <= depth'[cur]) &&
      (forall j :: 0 <= j < |queue'| ==> depth'[cur] <= depth'[queue'[j]] <= depth'[cur] + 1) &&
      (forall j :: 0 <= j < i + 1 ==> opts[j] in depth' && depth'[opts[j]] <= depth'[cur] + 1)
  {
  }

  /** The scanned choice leads to a page not yet in the map. */
  lemma ScanNew(pages: seq<PageRecord>, depth: map<nat, nat>, queue: seq<nat>, done: set<nat>, cur: nat, i: nat,
                depth': map<nat, nat>, queue': seq<nat>)
    requires Scan(pages, depth, queue, done, cur, i) && i < |Succ(pages, cur)|
    requires Succ(pages, cur)[i] !in depth
    requires depth' == depth[Succ(pages, cur)[i] := depth[cur] + 1] && queue' == queue + [Succ(pages, cur)[i]]
    ensures Scan(pages, depth', queue', done, cur, i + 1)
  {
    var opts := Succ(pages, cur);
    var v := opts[i];
    SuccInRange(pages, cur);
    assert v in opts;
    DiscoverNew(pages, depth, queue, done, cur, v);
    NewKeepsEdges(pages, depth, done, cur, v, depth[cur] + 1);
    NewKeepsLevels(depth, queue, done, cur, opts, i);
  }

  /** A page first reached from cur joins the map one level below cur and the
      back of the queue. */
  lemma DiscoverNew(pages: seq<PageRecord>, depth: map<nat, nat>, queue: seq<nat>, done: set<nat>, cur: nat, v: nat)
    requires Discovered(pages, depth, queue, done) && cur in depth && Edge(pages, cur, v) && v !in depth && 1 <= v <= |pages|
    requires forall i :: 0 <= i < |queue| ==> depth[queue[i]] <= depth[cur] + 1
    ensures Discovered(pages, depth[v := depth[cur] + 1], queue + [v], done)
  {
    var d := depth[cur] + 1;
    RootedPush(pages, depth, cur, v);
    QueuePush(depth, queue, done, v, d);
    SortedPush(depth, queue, v, d);
  }

  /** Scan, with d the depth of pages newly discovered from cur. */
  ghost predicate ScanAt(pages: seq<PageRecord>, depth: map<nat, nat>, queue: seq<nat>, done: set<nat>, cur: nat, i: nat, d: nat)
  {
    Scan(pages, depth, queue, done, cur, i) && d == depth[cur] + 1
  }

  lemma ScanStep(pages: seq<PageRecord>, depth: map<nat, nat>, queue: seq<nat>, done: set<nat>, cur: nat, i: nat, d: nat,
                 depth': map<nat, nat>, queue': seq<nat>)
    requires ScanAt(pages, depth, queue, done, cur, i, d) && i < |Succ(pages, cur)|
    requires Succ(pages, cur)[i] in depth ==> depth' == depth && queue' == queue
    requires Succ(pages, cur)[i] !in depth ==>
      depth' == depth[Succ(pages, cur)[i] := d] && queue' == queue + [Succ(pages, cur)[i]]
    ensures ScanAt(pages, depth', queue', done, cur, i + 1, d)
  {
    if Succ(pages, cur)[i] in depth {
      ScanKnown(pages, depth, queue, done, cur, i);
    } else {
      ScanNew(pages, depth, queue, done, cur, i, depth', queue');
    }
  }

  /** When every choice of cur is scanned, the outer invariant holds again. */
  lemma ScanDone(pages: seq<PageRecord>, depth: map<nat, nat>, queue: seq<nat>, done: set<nat>, cur: nat)
    requires 1 <= cur <= |pages| && Scan(pages, depth, queue, done, cur, |Succ(pages, cur)|)
    ensures Frontier(pages, depth, queue, done)
  {
    forall u, v | u in done && Edge(pages, u, v) ensures v in depth && depth[v] <= depth[u] + 1 {
      if u == cur {
        var j :| 0 <= j < |Succ(pages, cur)| && Succ(pages, cur)[j] == v;
      }
    }
  }

  /** An empty queue leaves a depth map. */
  lemma FrontierFinal(pages: seq<PageRecord>, depth: map<nat, nat>, done: set<nat>)
    requires Frontier(pages, depth, [], done)
    ensures DepthMap(pages, depth)
  {
  }
}
