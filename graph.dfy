/** The story as a directed graph over page numbers 1..N (N = number of pages):
    page u has an edge to v for each of its choices whose target is v. This module
    defines walks and reachability from page 1, the reverse-reference table that
    savePages builds, the depth maps that getPageDepth computes, and the routes
    that getWinRoute reports, with the lemmas that relate them. */
module StoryGraph {
  import opened Pages

  /** The choice targets of page u, in choice order. */
  function Succ(pages: seq<PageRecord>, u: nat): seq<nat>
    requires 1 <= u <= |pages|
  {
    Targets(pages[u - 1].choices)
  }

  /** Every choice of every page names a page of the story. */
  predicate TargetsInRange(pages: seq<PageRecord>)
  {
    forall k, i :: 0 <= k < |pages| && 0 <= i < |pages[k].choices| ==> pages[k].choices[i].target <= |pages|
  }

  /** The story a CYOA object works on: page 1 exists and no choice leads outside. */
  predicate WellFormed(pages: seq<PageRecord>)
  {
    |pages| >= 1 && TargetsInRange(pages)
  }

  lemma SuccInRange(pages: seq<PageRecord>, u: nat)
    requires TargetsInRange(pages) && 1 <= u <= |pages|
    ensures forall v :: v in Succ(pages, u) ==> 1 <= v <= |pages|
  {
    forall v | v in Succ(pages, u) ensures 1 <= v <= |pages| {
      var i :| 0 <= i < |Succ(pages, u)| && Succ(pages, u)[i] == v;
      assert pages[u - 1].choices[i].target == v;
    }
  }

  predicate Edge(pages: seq<PageRecord>, u: nat, v: nat)
  {
    1 <= u <= |pages| && v in Succ(pages, u)
  }

  /** A non-empty sequence of pages, each reached from the previous one by a choice. */
  ghost predicate IsWalk(pages: seq<PageRecord>, w: seq<nat>)
  {
    |w| >= 1 &&
    (forall i :: 0 <= i < |w| ==> 1 <= w[i] <= |pages|) &&
    (forall i :: 0 <= i < |w| - 1 ==> w[i + 1] in Succ(pages, w[i]))
  }

  ghost predicate WalkFromTo(pages: seq<PageRecord>, w: seq<nat>, a: nat, b: nat)
  {
    IsWalk(pages, w) && w[0] == a && w[|w| - 1] == b
  }

  /** Page v can be reached from page 1 by some sequence of choices. */
  ghost predicate Reachable(pages: seq<PageRecord>, v: nat)
  {
    exists w :: WalkFromTo(pages, w, 1, v)
  }

  /** No sequence of choices leads from a page back to itself. */
  ghost predicate Acyclic(pages: seq<PageRecord>)
  {
    forall w :: IsWalk(pages, w) && |w| >= 2 ==> w[0] != w[|w| - 1]
  }

  lemma WalkExtend(pages: seq<PageRecord>, w: seq<nat>, v: nat)
    requires IsWalk(pages, w) && v in Succ(pages, w[|w| - 1]) && 1 <= v <= |pages|
    ensures IsWalk(pages, w + [v])
  {
    var w' := w + [v];
    forall i | 0 <= i < |w'| - 1 ensures w'[i + 1] in Succ(pages, w'[i]) {
      if i < |w| - 1 {
        assert w'[i + 1] == w[i + 1] && w'[i] == w[i];
      }
    }
  }

  // ---------------------------------------------------------------------------
  // Depth maps (getPageDepth)

  /** The four facts the breadth-first search of getPageDepth establishes about the
      map it returns: page 1 has depth 0, the keys are pages, every key other than
      page 1 was discovered from a key one level up, and no edge from a key leads
      more than one level down. */
  ghost predicate DepthMap(pages: seq<PageRecord>, d: map<nat, nat>)
  {
    1 in d && d[1] == 0 &&
    (forall v :: v in d ==> 1 <= v <= |pages|) &&
    (forall v :: v in d && v != 1 ==> exists u :: u in d && Edge(pages, u, v) && d[v] == d[u] + 1) &&
    (forall u, v :: u in d && Edge(pages, u, v) ==> v in d && d[v] <= d[u] + 1)
  }

  /** Every key is reached by a walk from page 1 with exactly its depth in choices. */
  lemma {:induction false} DepthAttained(pages: seq<PageRecord>, d: map<nat, nat>, v: nat)
    requires DepthMap(pages, d) && v in d
    ensures exists w :: WalkFromTo(pages, w, 1, v) && |w| == d[v] + 1
    decreases d[v]
  {
    if v == 1 {
      assert WalkFromTo(pages, [1], 1, 1);
    } else {
      var u :| u in d && Edge(pages, u, v) && d[v] == d[u] + 1;
      DepthAttained(pages, d, u);
      var w :| WalkFromTo(pages, w, 1, u) && |w| == d[u] + 1;
      WalkExtend(pages, w, v);
      assert WalkFromTo(pages, w + [v], 1, v);
    }
  }

  /** The end of every walk from page 1 is a key, with a depth no larger than the
      number of choices on the walk. */
  lemma {:induction false} DepthAtMostWalk(pages: seq<PageRecord>, d: map<nat, nat>, w: seq<nat>)
    requires DepthMap(pages, d) && IsWalk(pages, w) && w[0] == 1
    ensures w[|w| - 1] in d && d[w[|w| - 1]] <= |w| - 1
    decreases |w|
  {
    if |w| > 1 {
      var w' := w[..|w| - 1];
      assert IsWalk(pages, w') by {
        forall i | 0 <= i < |w'| - 1 ensures w'[i + 1] in Succ(pages, w'[i]) {
          assert w'[i + 1] == w[i + 1] && w'[i] == w[i];
        }
      }
      DepthAtMostWalk(pages, d, w');
      assert Edge(pages, w'[|w'| - 1], w[|w| - 1]);
    }
  }

  /** A depth map holds exactly the pages reachable from page 1, each with the
      least number of choices needed to reach it. */
  lemma DepthIsDistance(pages: seq<PageRecord>, d: map<nat, nat>, v: nat)
    requires DepthMap(pages, d)
    ensures v in d <==> Reachable(pages, v)
    ensures v in d ==> (exists w :: WalkFromTo(pages, w, 1, v) && |w| == d[v] + 1)
    ensures v in d ==> forall w :: WalkFromTo(pages, w, 1, v) ==> d[v] <= |w| - 1
  {
    if v in d {
      DepthAttained(pages, d, v);
      forall w | WalkFromTo(pages, w, 1, v) ensures d[v] <= |w| - 1 {
        DepthAtMostWalk(pages, d, w);
      }
    }
    if Reachable(pages, v) {
      var w :| WalkFromTo(pages, w, 1, v);
      DepthAtMostWalk(pages, d, w);
    }
  }

  // ---------------------------------------------------------------------------
  // The reverse-reference table (savePages / addReferenced)

  /** pn once for every entry of targets equal to t, in order. */
  function Occ(pn: nat, targets: seq<nat>, t: nat): seq<nat>
    decreases |targets|
  {
    if targets == [] then []
    else Occ(pn, targets[..|targets| - 1], t) + (if targets[|targets| - 1] == t then [pn] else [])
  }

  /** The list referenced[t-1] that savePages builds: for each page in order, that
      page's number once per choice of it that leads to t. */
  function RefsFrom(pages: seq<PageRecord>, t: nat): seq<nat>
    decreases |pages|
  {
    if pages == [] then []
    else RefsFrom(pages[..|pages| - 1], t) + Occ(pages[|pages| - 1].pagination, Targets(pages[|pages| - 1].choices), t)
  }

  /** The whole table referenced, one list per page. */
  function RefTable(pages: seq<PageRecord>): seq<seq<nat>>
  {
    seq(|pages|, j requires 0 <= j < |pages| => RefsFrom(pages, j + 1))
  }

  lemma {:induction false} OccMembers(pn: nat, targets: seq<nat>, t: nat)
    ensures forall p :: p in Occ(pn, targets, t) <==> p == pn && t in targets
    decreases |targets|
  {
    if targets != [] {
      var front := targets[..|targets| - 1];
      OccMembers(pn, front, t);
      assert targets == front + [targets[|targets| - 1]];
    }
  }

  /** A page number is in referenced[t-1] exactly when some page with that number
      has a choice leading to t. */
  lemma {:induction false} RefsFromMembers(pages: seq<PageRecord>, t: nat)
    ensures forall p :: p in RefsFrom(pages, t) <==>
      exists k :: 0 <= k < |pages| && t in Targets(pages[k].choices) && pages[k].pagination == p
    decreases |pages|
  {
    if pages != [] {
      var n := |pages| - 1;
      var front := pages[..n];
      RefsFromMembers(front, t);
      OccMembers(pages[n].pagination, Targets(pages[n].choices), t);
      assert RefsFrom(pages, t) == RefsFrom(front, t) + Occ(pages[n].pagination, Targets(pages[n].choices), t);
      forall p ensures p in RefsFrom(pages, t) <==>
        exists k :: 0 <= k < |pages| && t in Targets(pages[k].choices) && pages[k].pagination == p
      {
        if p in RefsFrom(pages, t) {
          if p in RefsFrom(front, t) {
            var k :| 0 <= k < |front| && t in Targets(front[k].choices) && front[k].pagination == p;
            assert pages[k] == front[k];
          } else {
            assert t in Targets(pages[n].choices) && pages[n].pagination == p;
          }
        }
        if exists k :: 0 <= k < |pages| && t in Targets(pages[k].choices) && pages[k].pagination == p {
          var k :| 0 <= k < |pages| && t in Targets(pages[k].choices) && pages[k].pagination == p;
          if k < n {
            assert front[k] == pages[k];
          }
        }
      }
    }
  }

  /** referenced[t-1] is empty exactly when no page has a choice leading to t. */
  lemma RefsFromEmptyIff(pages: seq<PageRecord>, t: nat)
    ensures RefsFrom(pages, t) == [] <==> forall k :: 0 <= k < |pages| ==> t !in Targets(pages[k].choices)
  {
    RefsFromMembers(pages, t);
    if RefsFrom(pages, t) != [] {
      assert RefsFrom(pages, t)[0] in RefsFrom(pages, t);
    }
    if exists k :: 0 <= k < |pages| && t in Targets(pages[k].choices) {
      var k :| 0 <= k < |pages| && t in Targets(pages[k].choices);
      assert pages[k].pagination in RefsFrom(pages, t);
    }
  }

  /** Page t is the target of some choice of some page. */
  ghost predicate Referenced(pages: seq<PageRecord>, t: nat)
  {
    exists k :: 0 <= k < |pages| && t in Targets(pages[k].choices)
  }

  // ---------------------------------------------------------------------------
  // Page counts (checkPages)

  function CountKind(pages: seq<PageRecord>, k: Kind): nat
    decreases |pages|
  {
    if pages == [] then 0
    else CountKind(pages[..|pages| - 1], k) + (if pages[|pages| - 1].kind == k then 1 else 0)
  }

  /** No page of type k exists exactly when the count of such pages is zero. */
  lemma {:induction false} CountKindZero(pages: seq<PageRecord>, k: Kind)
    ensures CountKind(pages, k) == 0 <==> forall i :: 0 <= i < |pages| ==> pages[i].kind != k
    decreases |pages|
  {
    if pages != [] {
      var front := pages[..|pages| - 1];
      CountKindZero(front, k);
      assert forall i :: 0 <= i < |front| ==> front[i] == pages[i];
    }
  }

  // ---------------------------------------------------------------------------
  // Routes (getWinRoute)

  /** A route: (page, choice number) pairs from page 1. */
  type Route = seq<(nat, nat)>

  /** What getWinRoute promises of every route it reports: it starts at page 1,
      names pages of the story, never names a page twice, and ends at a WIN page
      that has no choices. */
  ghost predicate WinRoute(pages: seq<PageRecord>, route: Route)
  {
    |route| >= 1 && route[0].0 == 1 &&
    (forall i :: 0 <= i < |route| ==> 1 <= route[i].0 <= |pages|) &&
    (forall i, j :: 0 <= i < j < |route| ==> route[i].0 != route[j].0) &&
    Succ(pages, route[|route| - 1].0) == [] && pages[route[|route| - 1].0 - 1].kind == Win
  }

  /** Some WIN page without choices, where getWinRoute closes a route, can be
      reached from page 1. */
  ghost predicate WinLeafReachable(pages: seq<PageRecord>)
  {
    exists v :: 1 <= v <= |pages| && Reachable(pages, v) && pages[v - 1].kind == Win && Succ(pages, v) == []
  }

  /** Each page of the route but the last is followed by the target of its
      route[i].1-th choice (numbered from 1). */
  ghost predicate LinkedRoute(pages: seq<PageRecord>, route: Route)
  {
    (forall i :: 0 <= i < |route| ==> 1 <= route[i].0 <= |pages|) &&
    forall i :: 0 <= i < |route| - 1 ==>
      1 <= route[i].1 <= |Succ(pages, route[i].0)| && Succ(pages, route[i].0)[route[i].1 - 1] == route[i + 1].0
  }

  function RoutePages(route: Route): seq<nat>
  {
    seq(|route|, i requires 0 <= i < |route| => route[i].0)
  }

  /** A linked win route follows the choices of the story from page 1 to a
      reachable WIN page. */
  lemma LinkedRouteReachesWin(pages: seq<PageRecord>, route: Route)
    requires WinRoute(pages, route) && LinkedRoute(pages, route)
    ensures WalkFromTo(pages, RoutePages(route), 1, route[|route| - 1].0)
    ensures Reachable(pages, route[|route| - 1].0) && pages[route[|route| - 1].0 - 1].kind == Win
  {
    var w := RoutePages(route);
    forall i | 0 <= i < |w| - 1 ensures w[i + 1] in Succ(pages, w[i]) {
      assert Succ(pages, route[i].0)[route[i].1 - 1] == route[i + 1].0;
    }
    assert WalkFromTo(pages, w, 1, route[|route| - 1].0);
  }
}
