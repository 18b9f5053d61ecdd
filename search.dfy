/** The bookkeeping of the depth-first search in getWinRoute, stated as
    invariants over its four pieces of state and proved preserved, one lemma per
    transition of the loop.

    The state: the current path of (page, choice number) frames; the work stack
    of frames still to visit (its top is the last element); for every page on the
    path, the counter subroute_num of children not yet finished; and the routes
    found so far. A ghost sequence `levels`, parallel to the stack, records for
    each frame the length of the path when the frame was pushed: a frame of level
    l is a child of the path frame at position l - 1.

    The counters never fall below the number of pending children: a frame on the
    path other than the last has a counter of at least one more than the number of
    stack frames one level deeper, and the last frame at least that number. So a
    frame is never popped off the path while children of it remain on the stack,
    the path never becomes shorter than the level of a pending frame, and the
    search terminates. When a child is skipped because its page is already on the
    path, its parent's counter is not decremented, so in a story with a cycle the
    counters can stay above the number of pending children and the path can keep
    frames that are not the parents of the frames above them. When the story has
    no cycle no child is ever skipped, the counters equal the number of pending
    children, and every route follows the choices it records. */
module RouteSearch {
  import opened Pages
  import opened StoryGraph

  type Frame = (nat, nat)

  /** How many stack frames have level v. */
  function Cnt(levels: seq<nat>, v: nat): nat
  {
    multiset(levels)[v]
  }

  function Rep(v: nat, k: nat): seq<nat>
  {
    seq(k, _ => v)
  }

  /** The frames getWinRoute pushes for a page with the given choice targets:
      (target, choice number), in choice order. */
  function ChildFrames(targets: seq<nat>): seq<Frame>
  {
    seq(|targets|, i requires 0 <= i < |targets| => (targets[i], i + 1))
  }

  /** The path after the last frame's choice number is overwritten with c. */
  function Overwrite(path: seq<Frame>, c: nat): seq<Frame>
  {
    if path == [] then [] else path[|path| - 1 := (path[|path| - 1].0, c)]
  }

  // ---------------------------------------------------------------------------
  // Invariants

  /** The path names distinct pages of the story and starts at page 1. */
  ghost predicate PathOk(pages: seq<PageRecord>, path: seq<Frame>)
  {
    (forall i :: 0 <= i < |path| ==> 1 <= path[i].0 <= |pages|) &&
    (forall i, j :: 0 <= i < j < |path| ==> path[i].0 != path[j].0) &&
    (|path| >= 1 ==> path[0].0 == 1)
  }

  /** Stack frames name pages, their levels never decrease towards the top and
      never exceed the length of the path; level 0 is only the initial frame for
      page 1. */
  ghost predicate StackOk(pages: seq<PageRecord>, path: seq<Frame>, stack: seq<Frame>, levels: seq<nat>)
  {
    |stack| == |levels| &&
    (forall i :: 0 <= i < |stack| ==> 1 <= stack[i].0 <= |pages|) &&
    (forall i, j :: 0 <= i < j < |levels| ==> levels[i] <= levels[j]) &&
    (forall i :: 0 <= i < |levels| ==> levels[i] <= |path|) &&
    (forall i :: 0 <= i < |levels| && levels[i] == 0 ==> stack[i].0 == 1 && |path| == 0)
  }

  /** Every page on the path has a counter; the frames at positions below `top`
      have counters greater than the number of their pending children. */
  ghost predicate CountersBelow(path: seq<Frame>, levels: seq<nat>, sub: map<nat, nat>, top: int)
  {
    (forall i :: 0 <= i < |path| ==> path[i].0 in sub) &&
    (forall p :: 0 <= p < top && p < |path| ==> sub[path[p].0] >= 1 + Cnt(levels, p + 1))
  }

  ghost predicate CountersOk(path: seq<Frame>, levels: seq<nat>, sub: map<nat, nat>)
  {
    CountersBelow(path, levels, sub, |path| - 1) &&
    (|path| >= 1 ==> sub[path[|path| - 1].0] >= Cnt(levels, |path|))
  }

  /** The counters of the frames below `top` are one more than their pending children. */
  ghost predicate ExactBelow(path: seq<Frame>, levels: seq<nat>, sub: map<nat, nat>, top: int)
  {
    (forall i :: 0 <= i < |path| ==> path[i].0 in sub) &&
    (forall p :: 0 <= p < top && p < |path| ==> sub[path[p].0] == 1 + Cnt(levels, p + 1))
  }

  ghost predicate ExactOk(path: seq<Frame>, levels: seq<nat>, sub: map<nat, nat>)
  {
    ExactBelow(path, levels, sub, |path| - 1) &&
    (|path| >= 1 ==> sub[path[|path| - 1].0] == Cnt(levels, |path|))
  }

  /** Frame f is reached by its choice number from the path frame at position l - 1. */
  ghost predicate ChildOf(pages: seq<PageRecord>, path: seq<Frame>, f: Frame, l: nat)
  {
    1 <= l <= |path| && 1 <= path[l - 1].0 <= |pages| &&
    1 <= f.1 <= |Succ(pages, path[l - 1].0)| && Succ(pages, path[l - 1].0)[f.1 - 1] == f.0
  }

  ghost predicate StackLinked(pages: seq<PageRecord>, path: seq<Frame>, stack: seq<Frame>, levels: seq<nat>)
  {
    |stack| == |levels| &&
    forall i :: 0 <= i < |stack| && levels[i] >= 1 ==> ChildOf(pages, path, stack[i], levels[i])
  }

  /** The routes recorded so far, and those a successful getWinRoute returns: each
      satisfies WinRoute, and follows the recorded choices when the story has no
      cycle. */
  ghost predicate RoutesOk(pages: seq<PageRecord>, paths: seq<Route>)
  {
    forall r :: r in paths ==> WinRoute(pages, r) && (Acyclic(pages) ==> LinkedRoute(pages, r))
  }

  /** The invariant between the steps of one turn of the loop. */
  ghost predicate Inv(pages: seq<PageRecord>, path: seq<Frame>, stack: seq<Frame>, levels: seq<nat>,
                      sub: map<nat, nat>, paths: seq<Route>)
  {
    WellFormed(pages) &&
    PathOk(pages, path) && StackOk(pages, path, stack, levels) && CountersOk(path, levels, sub) &&
    (Acyclic(pages) ==> ExactOk(path, levels, sub) && LinkedRoute(pages, path) && StackLinked(pages, path, stack, levels)) &&
    RoutesOk(pages, paths)
  }

  /** The loop invariant: after backtracking, the last frame of a path of two or
      more frames still has children to finish; before the first turn, the stack
      holds only page 1. */
  ghost predicate HeadInv(pages: seq<PageRecord>, path: seq<Frame>, stack: seq<Frame>, levels: seq<nat>,
                          sub: map<nat, nat>, paths: seq<Route>)
  {
    Inv(pages, path, stack, levels, sub, paths) &&
    (|path| >= 2 ==> sub[path[|path| - 1].0] >= 1) &&
    (|path| == 0 ==> stack == [(1, 0)] && levels == [0])
  }

  /** The state after the top frame cp (of level l) is popped and the choice
      number of the last path frame overwritten. */
  ghost predicate Popped(pages: seq<PageRecord>, path: seq<Frame>, stack: seq<Frame>, levels: seq<nat>,
                         sub: map<nat, nat>, paths: seq<Route>, cp: Frame, l: nat)
  {
    WellFormed(pages) &&
    PathOk(pages, path) && StackOk(pages, path, stack, levels) && RoutesOk(pages, paths) &&
    1 <= cp.0 <= |pages| && l <= |path| &&
    (|path| >= 1 ==> path[|path| - 1].1 == cp.1) &&
    (forall i :: 0 <= i < |levels| ==> levels[i] <= l) &&
    (|path| == 0 ==> l == 0 && cp.0 == 1 && stack == [] && levels == []) &&
    CountersBelow(path, levels, sub, |path|) &&
    (Acyclic(pages) ==>
      l == |path| && ExactBelow(path, levels, sub, |path|) && LinkedRoute(pages, path) &&
      StackLinked(pages, path, stack, levels) && (l >= 1 ==> ChildOf(pages, path, cp, l)))
  }

  // ---------------------------------------------------------------------------
  // Counting lemmas

  lemma CntPop(levels: seq<nat>, v: nat)
    requires levels != []
    ensures Cnt(levels[..|levels| - 1], v) == Cnt(levels, v) - (if levels[|levels| - 1] == v then 1 else 0)
  {
    assert levels == levels[..|levels| - 1] + [levels[|levels| - 1]];
    assert multiset(levels) == multiset(levels[..|levels| - 1]) + multiset{levels[|levels| - 1]};
  }

  lemma {:induction false} CntRep(v: nat, k: nat, u: nat)
    ensures Cnt(Rep(v, k), u) == if u == v then k else 0
    decreases k
  {
    if k > 0 {
      CntRep(v, k - 1, u);
      assert Rep(v, k) == Rep(v, k - 1) + [v];
      assert multiset(Rep(v, k)) == multiset(Rep(v, k - 1)) + multiset{v};
    } else {
      assert Rep(v, 0) == [];
    }
  }

  lemma CntAppendRep(levels: seq<nat>, v: nat, k: nat, u: nat)
    ensures Cnt(levels + Rep(v, k), u) == Cnt(levels, u) + (if u == v then k else 0)
  {
    CntRep(v, k, u);
    assert multiset(levels + Rep(v, k)) == multiset(levels) + multiset(Rep(v, k));
  }

  lemma CntAbsent(levels: seq<nat>, v: nat)
    requires forall i :: 0 <= i < |levels| ==> levels[i] != v
    ensures Cnt(levels, v) == 0
  {
  }

  lemma CntPresent(levels: seq<nat>, v: nat)
    requires Cnt(levels, v) >= 1
    ensures exists i :: 0 <= i < |levels| && levels[i] == v
  {
    assert v in multiset(levels);
    assert v in levels;
  }

  lemma CntZero(levels: seq<nat>, v: nat)
    requires Cnt(levels, v) == 0
    ensures forall i :: 0 <= i < |levels| ==> levels[i] != v
  {
    forall i | 0 <= i < |levels| ensures levels[i] != v {
      assert levels[i] in multiset(levels);
    }
  }

  /** A path of distinct pages of the story is no longer than the story. */
  lemma {:induction false} DistinctBound(s: seq<nat>, n: nat)
    requires forall i :: 0 <= i < |s| ==> 1 <= s[i] <= n
    requires forall i, j :: 0 <= i < j < |s| ==> s[i] != s[j]
    ensures |s| <= n
    decreases |s|
  {
    if s != [] {
      var x := s[|s| - 1];
      var t := seq(|s| - 1, i requires 0 <= i < |s| - 1 => if s[i] > x then s[i] - 1 else s[i]);
      forall i, j | 0 <= i < j < |t| ensures t[i] != t[j] {
        assert s[i] != s[j] && s[i] != x && s[j] != x;
      }
      forall i | 0 <= i < |t| ensures 1 <= t[i] <= n - 1 {
        assert s[i] != x;
      }
      DistinctBound(t, n - 1);
    }
  }

  lemma PathBound(pages: seq<PageRecord>, path: seq<Frame>)
    requires PathOk(pages, path)
    ensures |path| <= |pages|
  {
    var s := RoutePages(path);
    DistinctBound(s, |pages|);
  }

  // ---------------------------------------------------------------------------
  // The termination measure: each stack frame of level v weighs b^(n - v), with
  // b one more than the largest number of choices of a page. Popping a frame of
  // level l and pushing at most b - 1 frames of a deeper level lowers the sum.

  /** k * p, by repeated addition. */
  function Times(k: nat, p: nat): nat
    decreases k
  {
    if k == 0 then 0 else Times(k - 1, p) + p
  }

  function Pow(b: nat, e: nat): nat
    decreases e
  {
    if e == 0 then 1 else Times(b, Pow(b, e - 1))
  }

  function Exp(n: nat, v: nat): nat
  {
    if v <= n then n - v else 0
  }

  function Weight(levels: seq<nat>, n: nat, b: nat): nat
    decreases |levels|
  {
    if levels == [] then 0
    else Weight(levels[..|levels| - 1], n, b) + Pow(b, Exp(n, levels[|levels| - 1]))
  }

  /** The largest number of choices of any page. */
  function MaxDegree(pages: seq<PageRecord>): (m: nat)
    ensures forall k :: 0 <= k < |pages| ==> |pages[k].choices| <= m
    decreases |pages|
  {
    if pages == [] then 0
    else
      var m := MaxDegree(pages[..|pages| - 1]);
      var d := |pages[|pages| - 1].choices|;
      if d <= m then m else d
  }

  /** Fewer copies of a positive number sum to less. */
  lemma {:induction false} TimesLess(k: nat, b: nat, p: nat)
    requires k < b && p >= 1
    ensures Times(k, p) < Times(b, p)
    decreases b
  {
    if k < b - 1 {
      TimesLess(k, b - 1, p);
    }
  }

  lemma {:induction false} PowPositive(b: nat, e: nat)
    requires b >= 1
    ensures Pow(b, e) >= 1
    decreases e
  {
    if e > 0 {
      PowPositive(b, e - 1);
      TimesLess(0, b, Pow(b, e - 1));
    }
  }

  lemma {:induction false} PowMono(b: nat, e1: nat, e2: nat)
    requires b >= 1 && e1 <= e2
    ensures Pow(b, e1) <= Pow(b, e2)
    decreases e2 - e1
  {
    if e1 < e2 {
      PowMono(b, e1, e2 - 1);
      PowPositive(b, e2 - 1);
      if b >= 2 {
        TimesLess(1, b, Pow(b, e2 - 1));
      }
      assert Times(1, Pow(b, e2 - 1)) == Pow(b, e2 - 1);
    }
  }

  lemma WeightPush(levels: seq<nat>, v: nat, n: nat, b: nat)
    ensures Weight(levels + [v], n, b) == Weight(levels, n, b) + Pow(b, Exp(n, v))
  {
    assert (levels + [v])[..|levels|] == levels;
  }

  lemma {:induction false} WeightRep(levels: seq<nat>, v: nat, k: nat, n: nat, b: nat)
    ensures Weight(levels + Rep(v, k), n, b) == Weight(levels, n, b) + Times(k, Pow(b, Exp(n, v)))
    decreases k
  {
    if k > 0 {
      assert levels + Rep(v, k) == (levels + Rep(v, k - 1)) + [v];
      WeightRep(levels, v, k - 1, n, b);
      WeightPush(levels + Rep(v, k - 1), v, n, b);
    } else {
      assert levels + Rep(v, 0) == levels;
    }
  }

  /** Replacing a frame of level l by k < b frames of level m > l lowers the weight. */
  lemma WeightDrops(levels: seq<nat>, l: nat, m: nat, k: nat, n: nat, b: nat)
    requires l < m <= n && k < b
    ensures Weight(levels + Rep(m, k), n, b) < Weight(levels, n, b) + Pow(b, Exp(n, l))
  {
    WeightRep(levels, m, k, n, b);
    var p := Pow(b, n - m);
    PowPositive(b, n - m);
    TimesLess(k, b, p);
    assert Pow(b, n - m + 1) == Times(b, p);
    PowMono(b, n - m + 1, n - l);
  }

  // ---------------------------------------------------------------------------
  // One lemma per transition

  lemma InitialState(pages: seq<PageRecord>)
    requires WellFormed(pages)
    ensures HeadInv(pages, [], [(1, 0)], [0], map[], [])
  {
  }

  lemma OverwriteShape(path: seq<Frame>, c: nat)
    ensures |Overwrite(path, c)| == |path|
    ensures forall i :: 0 <= i < |path| ==> Overwrite(path, c)[i].0 == path[i].0
    ensures forall i :: 0 <= i < |path| - 1 ==> Overwrite(path, c)[i] == path[i]
  {
  }

  lemma PopPath(pages: seq<PageRecord>, path: seq<Frame>, c: nat)
    requires PathOk(pages, path)
    ensures PathOk(pages, Overwrite(path, c))
  {
    OverwriteShape(path, c);
  }

  lemma PopStack(pages: seq<PageRecord>, path: seq<Frame>, stack: seq<Frame>, levels: seq<nat>, c: nat)
    requires StackOk(pages, path, stack, levels) && stack != []
    ensures StackOk(pages, Overwrite(path, c), stack[..|stack| - 1], levels[..|levels| - 1])
    ensures forall i :: 0 <= i < |levels| - 1 ==> levels[i] <= levels[|levels| - 1]
  {
    OverwriteShape(path, c);
  }

  lemma PopCounters(pages: seq<PageRecord>, path: seq<Frame>, stack: seq<Frame>, levels: seq<nat>,
                    sub: map<nat, nat>, c: nat)
    requires StackOk(pages, path, stack, levels) && stack != []
    requires CountersOk(path, levels, sub)
    requires |path| >= 2 ==> sub[path[|path| - 1].0] >= 1
    ensures CountersBelow(Overwrite(path, c), levels[..|levels| - 1], sub, |path|)
  {
    OverwriteShape(path, c);
    var P, l, levels' := |path|, levels[|levels| - 1], levels[..|levels| - 1];
    forall p | 0 <= p < P ensures sub[path[p].0] >= 1 + Cnt(levels', p + 1) {
      CntPop(levels, p + 1);
      if p < P - 1 {
        assert sub[path[p].0] >= 1 + Cnt(levels, p + 1);
      } else if l == P {
        assert sub[path[p].0] >= Cnt(levels, P);
      } else {
        assert forall i :: 0 <= i < |levels'| ==> levels'[i] <= l;
        CntAbsent(levels', P);
        assert P >= 2 || l == 0;
      }
    }
  }

  lemma PopExact(pages: seq<PageRecord>, path: seq<Frame>, stack: seq<Frame>, levels: seq<nat>,
                 sub: map<nat, nat>, c: nat)
    requires StackOk(pages, path, stack, levels) && stack != []
    requires ExactOk(path, levels, sub)
    requires |path| >= 2 ==> sub[path[|path| - 1].0] >= 1
    requires |path| == 0 ==> levels == [0]
    ensures levels[|levels| - 1] == |path|
    ensures ExactBelow(Overwrite(path, c), levels[..|levels| - 1], sub, |path|)
  {
    OverwriteShape(path, c);
    var P, l, levels' := |path|, levels[|levels| - 1], levels[..|levels| - 1];
    if P >= 2 {
      CntPresent(levels, P);
    }
    assert l == P;
    forall p | 0 <= p < P ensures sub[path[p].0] == 1 + Cnt(levels', p + 1) {
      CntPop(levels, p + 1);
    }
  }

  lemma PopLinks(pages: seq<PageRecord>, path: seq<Frame>, stack: seq<Frame>, levels: seq<nat>, c: nat)
    requires stack != [] && LinkedRoute(pages, path) && StackLinked(pages, path, stack, levels)
    requires levels[|levels| - 1] == |path| && c == stack[|stack| - 1].1
    ensures LinkedRoute(pages, Overwrite(path, c))
    ensures StackLinked(pages, Overwrite(path, c), stack[..|stack| - 1], levels[..|levels| - 1])
    ensures |path| >= 1 ==> ChildOf(pages, Overwrite(path, c), stack[|stack| - 1], |path|)
  {
    OverwriteShape(path, c);
    var path' := Overwrite(path, c);
    forall i | 0 <= i < |stack| && levels[i] >= 1 ensures ChildOf(pages, path', stack[i], levels[i]) {
      assert ChildOf(pages, path, stack[i], levels[i]);
    }
  }

  /** The popped frame names a page, its level bounds the levels below it and the
      path, and only the initial frame is popped from an empty path. */
  lemma PopShape(pages: seq<PageRecord>, path: seq<Frame>, stack: seq<Frame>, levels: seq<nat>)
    requires StackOk(pages, path, stack, levels) && stack != []
    requires |path| == 0 ==> stack == [(1, 0)] && levels == [0]
    ensures 1 <= stack[|stack| - 1].0 <= |pages| && levels[|levels| - 1] <= |path|
    ensures forall i :: 0 <= i < |levels| - 1 ==> levels[i] <= levels[|levels| - 1]
    ensures |path| >= 1 ==> Overwrite(path, stack[|stack| - 1].1)[|path| - 1].1 == stack[|stack| - 1].1
    ensures |path| == 0 ==> levels[|levels| - 1] == 0 && stack[|stack| - 1].0 == 1 &&
                            stack[..|stack| - 1] == [] && levels[..|levels| - 1] == []
  {
  }

  /** Popping the top frame and overwriting the last path frame's choice number. */
  lemma PopStep(pages: seq<PageRecord>, path: seq<Frame>, stack: seq<Frame>, levels: seq<nat>,
                sub: map<nat, nat>, paths: seq<Route>, b: nat)
    requires HeadInv(pages, path, stack, levels, sub, paths) && stack != []
    ensures Popped(pages, Overwrite(path, stack[|stack| - 1].1), stack[..|stack| - 1], levels[..|levels| - 1],
                   sub, paths, stack[|stack| - 1], levels[|levels| - 1])
    ensures Weight(levels, |pages|, b) ==
            Weight(levels[..|levels| - 1], |pages|, b) + Pow(b, Exp(|pages|, levels[|levels| - 1]))
  {
    var c := stack[|stack| - 1].1;
    PopShape(pages, path, stack, levels);
    PopPath(pages, path, c);
    PopStack(pages, path, stack, levels, c);
    PopCounters(pages, path, stack, levels, sub, c);
    if Acyclic(pages) {
      PopExact(pages, path, stack, levels, sub, c);
      PopLinks(pages, path, stack, levels, c);
    }
  }

  /** One visit of the popped frame c, rest being the stack below it: when c's page is
      already on the path, the path is overwritten down to c's depth and nothing else
      changes; otherwise c is appended, its choices are pushed, its counter is set to
      its number of choices and, at a WIN page without choices, the new path is
      recorded as a route. */
  ghost predicate Visited(pages: seq<PageRecord>, path: seq<Frame>, rest: seq<Frame>, c: Frame,
                          sub: map<nat, nat>, paths: seq<Route>,
                          path2: seq<Frame>, stack2: seq<Frame>, sub2: map<nat, nat>, paths2: seq<Route>)
  {
    && (HasFrame(path, c.0) ==>
          stack2 == rest && path2 == Overwrite(path, c.1) && sub2 == sub && paths2 == paths)
    && (!HasFrame(path, c.0) ==>
          && 1 <= c.0 <= |pages|
          && stack2 == rest + ChildFrames(Succ(pages, c.0)) && path2 == Overwrite(path, c.1) + [c]
          && sub2 == sub[c.0 := |Succ(pages, c.0)|]
          && paths2 == if Succ(pages, c.0) == [] && pages[c.0 - 1].kind == Win then paths + [path2] else paths)
  }

  /** The visit of the top frame, as getWinRoute makes it: the frame is popped and
      the last path frame's choice number overwritten (PopStep), then the page is
      skipped or appended (VisitPopped). The invariant holds after it, the path is
      not empty, and the measure drops; levels2 are the levels of the stack after
      the visit. */
  lemma VisitStep(pages: seq<PageRecord>, path: seq<Frame>, stack: seq<Frame>, levels: seq<nat>,
                  sub: map<nat, nat>, paths: seq<Route>, b: nat,
                  path2: seq<Frame>, stack2: seq<Frame>, sub2: map<nat, nat>, paths2: seq<Route>)
    returns (levels2: seq<nat>)
    requires HeadInv(pages, path, stack, levels, sub, paths) && stack != [] && b == MaxDegree(pages) + 1
    requires Visited(pages, path, stack[..|stack| - 1], stack[|stack| - 1], sub, paths, path2, stack2, sub2, paths2)
    ensures Inv(pages, path2, stack2, levels2, sub2, paths2) && path2 != []
    ensures Weight(levels2, |pages|, b) < Weight(levels, |pages|, b)
  {
    PopStep(pages, path, stack, levels, sub, paths, b);
    levels2 := VisitPopped(pages, path, stack[..|stack| - 1], levels[..|levels| - 1], sub, paths,
                           stack[|stack| - 1], levels[|levels| - 1], b, path2, stack2, sub2, paths2);
  }

  /** VisitStep after the pop, the popped frame c being of level l: c is skipped
      when its page is on the path (SkipStep) and appended otherwise
      (AppendStep). The measure drops by less than c's share of it. */
  lemma VisitPopped(pages: seq<PageRecord>, path: seq<Frame>, stack: seq<Frame>, levels: seq<nat>,
                    sub: map<nat, nat>, paths: seq<Route>, c: Frame, l: nat, b: nat,
                    path2: seq<Frame>, stack2: seq<Frame>, sub2: map<nat, nat>, paths2: seq<Route>)
    returns (levels2: seq<nat>)
    requires Popped(pages, Overwrite(path, c.1), stack, levels, sub, paths, c, l) && b == MaxDegree(pages) + 1
    requires Visited(pages, path, stack, c, sub, paths, path2, stack2, sub2, paths2)
    ensures Inv(pages, path2, stack2, levels2, sub2, paths2) && path2 != []
    ensures Weight(levels2, |pages|, b) < Weight(levels, |pages|, b) + Pow(b, Exp(|pages|, l))
  {
    OverwriteHasFrame(path, c.1, c.0);
    if HasFrame(path, c.0) {
      levels2 := levels;
      SkipStep(pages, path2, stack2, levels2, sub2, paths2, c, l);
      PowPositive(b, Exp(|pages|, l));
    } else {
      levels2 := levels + Rep(|path2|, |Succ(pages, c.0)|);
      AppendStep(pages, Overwrite(path, c.1), stack, levels, sub, paths, c, l, path2, stack2, levels2, sub2, paths2);
      WeightDrops(levels, l, |path2|, |Succ(pages, c.0)|, |pages|, b);
    }
  }

  /** A skipped frame closes a cycle when the search follows the choices. */
  lemma SkipCloses(pages: seq<PageRecord>, path: seq<Frame>, cp: Frame, j: nat)
    requires 0 <= j < |path|
    ensures LinkedRoute(pages, path) && ChildOf(pages, path, cp, |path|) && path[j].0 == cp.0 ==>
      exists w :: IsWalk(pages, w) && |w| >= 2 && w[0] == w[|w| - 1]
  {
    if LinkedRoute(pages, path) && ChildOf(pages, path, cp, |path|) && path[j].0 == cp.0 {
      var w := seq(|path| - j, i requires 0 <= i < |path| - j => path[j + i].0) + [cp.0];
      forall i | 0 <= i < |w| - 1 ensures w[i + 1] in Succ(pages, w[i]) {
        if i < |path| - j - 1 {
          assert Succ(pages, path[j + i].0)[path[j + i].1 - 1] == path[j + i + 1].0;
        } else {
          assert w[i] == path[|path| - 1].0;
        }
      }
      assert IsWalk(pages, w) && |w| >= 2 && w[0] == w[|w| - 1];
    }
  }

  /** The popped page is already on the path: nothing is added. The story then has
      a cycle. */
  lemma SkipStep(pages: seq<PageRecord>, path: seq<Frame>, stack: seq<Frame>, levels: seq<nat>,
                 sub: map<nat, nat>, paths: seq<Route>, cp: Frame, l: nat)
    requires Popped(pages, path, stack, levels, sub, paths, cp, l)
    requires HasFrame(path, cp.0)
    ensures Inv(pages, path, stack, levels, sub, paths) && |path| >= 1
    ensures !Acyclic(pages)
  {
    var j :| 0 <= j < |path| && path[j].0 == cp.0;
    SkipCloses(pages, path, cp, j);
  }

  lemma AppendPath(pages: seq<PageRecord>, path: seq<Frame>, stack: seq<Frame>, levels: seq<nat>,
                   sub: map<nat, nat>, paths: seq<Route>, cp: Frame, l: nat)
    requires Popped(pages, path, stack, levels, sub, paths, cp, l)
    requires forall i :: 0 <= i < |path| ==> path[i].0 != cp.0
    ensures PathOk(pages, path + [cp]) && |path| + 1 <= |pages|
  {
    var path2 := path + [cp];
    assert PathOk(pages, path2);
    PathBound(pages, path2);
  }

  lemma AppendStack(pages: seq<PageRecord>, path: seq<Frame>, stack: seq<Frame>, levels: seq<nat>,
                    sub: map<nat, nat>, paths: seq<Route>, cp: Frame, l: nat)
    requires Popped(pages, path, stack, levels, sub, paths, cp, l)
    ensures var ts := Succ(pages, cp.0);
      StackOk(pages, path + [cp], stack + ChildFrames(ts), levels + Rep(|path| + 1, |ts|))
  {
    var ts := Succ(pages, cp.0);
    SuccInRange(pages, cp.0);
    var stack2, levels2 := stack + ChildFrames(ts), levels + Rep(|path| + 1, |ts|);
    assert forall i :: 0 <= i < |stack2| ==> 1 <= stack2[i].0 <= |pages| by {
      forall i | 0 <= i < |stack2| ensures 1 <= stack2[i].0 <= |pages| {
        if i >= |stack| {
          assert stack2[i].0 == ts[i - |stack|];
        }
      }
    }
    assert forall i, j :: 0 <= i < j < |levels2| ==> levels2[i] <= levels2[j];
  }

  lemma AppendCounters(path: seq<Frame>, levels: seq<nat>, sub: map<nat, nat>, cp: Frame, l: nat, k: nat)
    requires l <= |path| && forall i :: 0 <= i < |levels| ==> levels[i] <= l
    requires CountersBelow(path, levels, sub, |path|)
    requires forall i :: 0 <= i < |path| ==> path[i].0 != cp.0
    ensures CountersOk(path + [cp], levels + Rep(|path| + 1, k), sub[cp.0 := k])
  {
    var P := |path|;
    var path2, levels2, sub2 := path + [cp], levels + Rep(P + 1, k), sub[cp.0 := k];
    CntAbsent(levels, P + 1);
    CntAppendRep(levels, P + 1, k, P + 1);
    forall p | 0 <= p < P ensures sub2[path2[p].0] >= 1 + Cnt(levels2, p + 1) {
      CntAppendRep(levels, P + 1, k, p + 1);
    }
  }

  lemma AppendExact(path: seq<Frame>, levels: seq<nat>, sub: map<nat, nat>, cp: Frame, l: nat, k: nat)
    requires l <= |path| && forall i :: 0 <= i < |levels| ==> levels[i] <= l
    requires ExactBelow(path, levels, sub, |path|)
    requires forall i :: 0 <= i < |path| ==> path[i].0 != cp.0
    ensures ExactOk(path + [cp], levels + Rep(|path| + 1, k), sub[cp.0 := k])
  {
    var P := |path|;
    var path2, levels2, sub2 := path + [cp], levels + Rep(P + 1, k), sub[cp.0 := k];
    CntAbsent(levels, P + 1);
    CntAppendRep(levels, P + 1, k, P + 1);
    forall p | 0 <= p < P ensures sub2[path2[p].0] == 1 + Cnt(levels2, p + 1) {
      CntAppendRep(levels, P + 1, k, p + 1);
    }
  }

  lemma AppendPathLinked(pages: seq<PageRecord>, path: seq<Frame>, cp: Frame)
    requires LinkedRoute(pages, path) && 1 <= cp.0 <= |pages|
    requires |path| >= 1 ==> ChildOf(pages, path, cp, |path|) && path[|path| - 1].1 == cp.1
    ensures LinkedRoute(pages, path + [cp])
  {
    var path2 := path + [cp];
    forall i | 0 <= i < |path2| - 1
      ensures 1 <= path2[i].1 <= |Succ(pages, path2[i].0)| && Succ(pages, path2[i].0)[path2[i].1 - 1] == path2[i + 1].0
    {
      if i < |path| - 1 {
        assert path2[i] == path[i] && path2[i + 1] == path[i + 1];
      } else {
        assert path2[i] == path[i] && path2[i + 1] == cp;
      }
    }
  }

  lemma AppendStackLinked(pages: seq<PageRecord>, path: seq<Frame>, stack: seq<Frame>, levels: seq<nat>, cp: Frame)
    requires StackLinked(pages, path, stack, levels) && 1 <= cp.0 <= |pages|
    ensures var ts := Succ(pages, cp.0);
      StackLinked(pages, path + [cp], stack + ChildFrames(ts), levels + Rep(|path| + 1, |ts|))
  {
    var ts := Succ(pages, cp.0);
    var P := |path|;
    var path2, stack2, levels2 := path + [cp], stack + ChildFrames(ts), levels + Rep(P + 1, |ts|);
    forall i | 0 <= i < |stack2| && levels2[i] >= 1 ensures ChildOf(pages, path2, stack2[i], levels2[i]) {
      if i < |stack| {
        assert stack2[i] == stack[i] && levels2[i] == levels[i];
        assert ChildOf(pages, path, stack[i], levels[i]);
        assert path2[levels[i] - 1] == path[levels[i] - 1];
      } else {
        var j := i - |stack|;
        assert stack2[i] == (ts[j], j + 1) && levels2[i] == P + 1;
      }
    }
  }

  /** The popped page is not on the path: it is appended, given a counter equal to
      its number of choices, its children are pushed one level deeper, and the path
      is recorded as a route when the page is a WIN page without choices. */
  lemma AppendStep(pages: seq<PageRecord>, path: seq<Frame>, stack: seq<Frame>, levels: seq<nat>,
                   sub: map<nat, nat>, paths: seq<Route>, cp: Frame, l: nat,
                   path2: seq<Frame>, stack2: seq<Frame>, levels2: seq<nat>, sub2: map<nat, nat>, paths2: seq<Route>)
    requires Popped(pages, path, stack, levels, sub, paths, cp, l)
    requires forall i :: 0 <= i < |path| ==> path[i].0 != cp.0
    requires path2 == path + [cp] && stack2 == stack + ChildFrames(Succ(pages, cp.0))
    requires levels2 == levels + Rep(|path2|, |Succ(pages, cp.0)|) && sub2 == sub[cp.0 := |Succ(pages, cp.0)|]
    requires paths2 == if Succ(pages, cp.0) == [] && pages[cp.0 - 1].kind == Win then paths + [path2] else paths
    ensures |path2| <= |pages|
    ensures Inv(pages, path2, stack2, levels2, sub2, paths2)
  {
    AppendBase(pages, path, stack, levels, sub, paths, cp, l, path2, stack2, levels2, sub2, paths2);
    if Acyclic(pages) {
      AppendAcyclic(pages, path, stack, levels, sub, paths, cp, l, path2, stack2, levels2, sub2);
    }
  }

  /** The part of AppendStep that holds of every story. */
  lemma AppendBase(pages: seq<PageRecord>, path: seq<Frame>, stack: seq<Frame>, levels: seq<nat>,
                   sub: map<nat, nat>, paths: seq<Route>, cp: Frame, l: nat,
                   path2: seq<Frame>, stack2: seq<Frame>, levels2: seq<nat>, sub2: map<nat, nat>, paths2: seq<Route>)
    requires Popped(pages, path, stack, levels, sub, paths, cp, l)
    requires forall i :: 0 <= i < |path| ==> path[i].0 != cp.0
    requires path2 == path + [cp] && stack2 == stack + ChildFrames(Succ(pages, cp.0))
    requires levels2 == levels + Rep(|path2|, |Succ(pages, cp.0)|) && sub2 == sub[cp.0 := |Succ(pages, cp.0)|]
    requires paths2 == if Succ(pages, cp.0) == [] && pages[cp.0 - 1].kind == Win then paths + [path2] else paths
    ensures |path2| <= |pages| && WellFormed(pages) && RoutesOk(pages, paths2)
    ensures PathOk(pages, path2) && StackOk(pages, path2, stack2, levels2) && CountersOk(path2, levels2, sub2)
  {
    var ts := Succ(pages, cp.0);
    AppendPath(pages, path, stack, levels, sub, paths, cp, l);
    AppendStack(pages, path, stack, levels, sub, paths, cp, l);
    AppendCounters(path, levels, sub, cp, l, |ts|);
    if Acyclic(pages) {
      AppendPathLinked(pages, path, cp);
    }
    AppendRoutes(pages, path2, paths, paths2);
  }

  /** The part of AppendStep that holds of an acyclic story. */
  lemma AppendAcyclic(pages: seq<PageRecord>, path: seq<Frame>, stack: seq<Frame>, levels: seq<nat>,
                      sub: map<nat, nat>, paths: seq<Route>, cp: Frame, l: nat,
                      path2: seq<Frame>, stack2: seq<Frame>, levels2: seq<nat>, sub2: map<nat, nat>)
    requires Popped(pages, path, stack, levels, sub, paths, cp, l) && Acyclic(pages)
    requires forall i :: 0 <= i < |path| ==> path[i].0 != cp.0
    requires path2 == path + [cp] && stack2 == stack + ChildFrames(Succ(pages, cp.0))
    requires levels2 == levels + Rep(|path2|, |Succ(pages, cp.0)|) && sub2 == sub[cp.0 := |Succ(pages, cp.0)|]
    ensures ExactOk(path2, levels2, sub2) && LinkedRoute(pages, path2) && StackLinked(pages, path2, stack2, levels2)
  {
    var ts := Succ(pages, cp.0);
    AppendExact(path, levels, sub, cp, l, |ts|);
    AppendPathLinked(pages, path, cp);
    AppendStackLinked(pages, path, stack, levels, cp);
  }

  /** A path that ends at a WIN page without choices is recorded as a route. */
  lemma AppendRoutes(pages: seq<PageRecord>, path2: seq<Frame>, paths: seq<Route>, paths2: seq<Route>)
    requires RoutesOk(pages, paths) && PathOk(pages, path2) && |path2| >= 1
    requires Acyclic(pages) ==> LinkedRoute(pages, path2)
    requires var last := path2[|path2| - 1].0;
      paths2 == if Succ(pages, last) == [] && pages[last - 1].kind == Win then paths + [path2] else paths
    ensures RoutesOk(pages, paths2)
  {
    var last := path2[|path2| - 1].0;
    if Succ(pages, last) == [] && pages[last - 1].kind == Win {
      assert WinRoute(pages, path2);
    }
  }

  lemma BacktrackShape(pages: seq<PageRecord>, path: seq<Frame>, stack: seq<Frame>, levels: seq<nat>)
    requires PathOk(pages, path) && StackOk(pages, path, stack, levels) && |path| >= 2
    requires forall i :: 0 <= i < |levels| ==> levels[i] != |path|
    ensures PathOk(pages, path[..|path| - 1]) && StackOk(pages, path[..|path| - 1], stack, levels)
  {
  }

  lemma BacktrackCounters(path: seq<Frame>, levels: seq<nat>, sub: map<nat, nat>)
    requires CountersOk(path, levels, sub) && |path| >= 2
    requires forall i, j :: 0 <= i < j < |path| ==> path[i].0 != path[j].0
    ensures var path' := path[..|path| - 1];
      var u := path'[|path'| - 1].0;
      sub[u] >= 1 && CountersOk(path', levels, sub[u := sub[u] - 1])
  {
    var P := |path|;
    var path' := path[..P - 1];
    var u := path'[P - 2].0;
    assert forall p :: 0 <= p < P - 2 ==> path'[p].0 != u;
  }

  lemma BacktrackExact(path: seq<Frame>, levels: seq<nat>, sub: map<nat, nat>)
    requires ExactOk(path, levels, sub) && |path| >= 2
    requires forall i, j :: 0 <= i < j < |path| ==> path[i].0 != path[j].0
    ensures var path' := path[..|path| - 1];
      var u := path'[|path'| - 1].0;
      ExactOk(path', levels, sub[u := sub[u] - 1])
  {
    var P := |path|;
    var path' := path[..P - 1];
    var u := path'[P - 2].0;
    assert forall p :: 0 <= p < P - 2 ==> path'[p].0 != u;
  }

  lemma BacktrackLinks(pages: seq<PageRecord>, path: seq<Frame>, stack: seq<Frame>, levels: seq<nat>)
    requires LinkedRoute(pages, path) && StackLinked(pages, path, stack, levels) && |path| >= 2
    requires forall i :: 0 <= i < |levels| ==> levels[i] != |path|
    ensures LinkedRoute(pages, path[..|path| - 1]) && StackLinked(pages, path[..|path| - 1], stack, levels)
  {
    var path' := path[..|path| - 1];
    forall i | 0 <= i < |stack| && levels[i] >= 1 ensures ChildOf(pages, path', stack[i], levels[i]) {
      assert ChildOf(pages, path, stack[i], levels[i]);
    }
  }

  /** One turn of the backtracking loop: the finished last frame is dropped and its
      parent's counter decremented. */
  lemma BacktrackStep(pages: seq<PageRecord>, path: seq<Frame>, stack: seq<Frame>, levels: seq<nat>,
                      sub: map<nat, nat>, paths: seq<Route>)
    requires Inv(pages, path, stack, levels, sub, paths) && |path| >= 2 && sub[path[|path| - 1].0] == 0
    ensures var path' := path[..|path| - 1];
      var u := path'[|path'| - 1].0;
      u in sub && sub[u] >= 1 && Inv(pages, path', stack, levels, sub[u := sub[u] - 1], paths)
  {
    CntZero(levels, |path|);
    BacktrackShape(pages, path, stack, levels);
    BacktrackCounters(path, levels, sub);
    if Acyclic(pages) {
      BacktrackExact(path, levels, sub);
      BacktrackLinks(pages, path, stack, levels);
    }
  }

  /** The parent of a finished last frame still has a pending choice. */
  lemma ParentPending(pages: seq<PageRecord>, path: seq<Frame>, stack: seq<Frame>, levels: seq<nat>,
                      sub: map<nat, nat>, paths: seq<Route>)
    requires Inv(pages, path, stack, levels, sub, paths) && |path| >= 2 && sub[path[|path| - 1].0] == 0
    ensures path[|path| - 2].0 in sub && sub[path[|path| - 2].0] >= 1
  {
    BacktrackStep(pages, path, stack, levels, sub, paths);
  }

  /** BacktrackStep, stated over the state after the turn: path2 is the shortened
      path, still a prefix of the path the backtracking started from, and sub2 the
      counters with the parent's decremented. */
  lemma BacktrackTurn(pages: seq<PageRecord>, start: seq<Frame>, path: seq<Frame>, stack: seq<Frame>,
                      levels: seq<nat>, sub: map<nat, nat>, paths: seq<Route>, path2: seq<Frame>, sub2: map<nat, nat>)
    requires Inv(pages, path, stack, levels, sub, paths) && |path| >= 2 && sub[path[|path| - 1].0] == 0
    requires |path| <= |start| && path == start[..|path|]
    requires path2 == path[..|path| - 1] && path[|path| - 2].0 in sub
    requires sub2 == sub[path[|path| - 2].0 := sub[path[|path| - 2].0] - 1]
    ensures Inv(pages, path2, stack, levels, sub2, paths)
    ensures 1 <= |path2| && path2 == start[..|path2|] && path2[|path2| - 1].0 == path[|path| - 2].0
  {
    BacktrackStep(pages, path, stack, levels, sub, paths);
  }

  // ---------------------------------------------------------------------------
  // Coverage: every page reachable from page 1 is visited

  /** Some frame of the sequence names page p. */
  predicate HasFrame(frames: seq<Frame>, p: nat)
  {
    exists i :: 0 <= i < |frames| && frames[i].0 == p
  }

  /** Overwriting the last frame's choice number keeps the pages of the path. */
  lemma OverwriteHasFrame(path: seq<Frame>, c: nat, p: nat)
    ensures HasFrame(Overwrite(path, c), p) <==> HasFrame(path, p)
  {
    OverwriteShape(path, c);
    if HasFrame(path, p) {
      var i :| 0 <= i < |path| && path[i].0 == p;
      assert Overwrite(path, c)[i].0 == p;
    }
  }

  /** What the search has covered, visited being the pages appended to the path
      so far: page 1 is visited or waiting on the stack, each choice of a visited
      page leads to a visited page or to one waiting on the stack, the pages of
      the path are visited, and once a WIN page without choices is visited a
      route has been recorded. */
  ghost predicate Covered(pages: seq<PageRecord>, path: seq<Frame>, stack: seq<Frame>, paths: seq<Route>,
                          visited: set<nat>)
  {
    (forall p :: p in visited ==> 1 <= p <= |pages|) &&
    (1 in visited || HasFrame(stack, 1)) &&
    (forall p, t :: p in visited && 1 <= p <= |pages| && t in Succ(pages, p) ==> t in visited || HasFrame(stack, t)) &&
    (forall i :: 0 <= i < |path| ==> path[i].0 in visited) &&
    (forall p :: p in visited && 1 <= p <= |pages| && Succ(pages, p) == [] && pages[p - 1].kind == Win ==> paths != [])
  }

  lemma CoverStart(pages: seq<PageRecord>)
    ensures Covered(pages, [], [(1, 0)], [], {})
  {
    assert [(1, 0)][0].0 == 1;
  }

  /** A frame below the top of the stack is still on the stack after the pop. */
  lemma HasFrameBelow(stack: seq<Frame>, rest: seq<Frame>, t: nat)
    requires HasFrame(stack, t) && stack != [] && stack[|stack| - 1].0 != t
    requires |rest| >= |stack| - 1 && rest[..|stack| - 1] == stack[..|stack| - 1]
    ensures HasFrame(rest, t)
  {
    var i :| 0 <= i < |stack| && stack[i].0 == t;
    assert rest[i] == stack[..|stack| - 1][i];
  }

  /** One turn of getWinRoute keeps the coverage, the popped page c joining the
      visited pages: it was on the path already, or it is appended and its
      choices pushed. */
  lemma {:induction false} CoverTurn(pages: seq<PageRecord>, path: seq<Frame>, stack: seq<Frame>, paths: seq<Route>,
                                     visited: set<nat>, path2: seq<Frame>, stack2: seq<Frame>, paths2: seq<Route>)
    requires Covered(pages, path, stack, paths, visited) && stack != [] && 1 <= stack[|stack| - 1].0 <= |pages|
    requires var c := stack[|stack| - 1];
      HasFrame(path, c.0) ==> stack2 == stack[..|stack| - 1] && path2 <= Overwrite(path, c.1) && paths2 == paths
    requires var c := stack[|stack| - 1];
      !HasFrame(path, c.0) ==>
        stack2 == stack[..|stack| - 1] + ChildFrames(Succ(pages, c.0)) && path2 <= Overwrite(path, c.1) + [c] &&
        paths2 == if Succ(pages, c.0) == [] && pages[c.0 - 1].kind == Win then paths + [Overwrite(path, c.1) + [c]] else paths
    ensures Covered(pages, path2, stack2, paths2, visited + {stack[|stack| - 1].0})
  {
    var c := stack[|stack| - 1];
    var v2 := visited + {c.0};
    var onPath := HasFrame(path, c.0);
    if onPath {
      var i :| 0 <= i < |path| && path[i].0 == c.0;
      assert c.0 in visited;
    }
    forall p, t | p in v2 && 1 <= p <= |pages| && t in Succ(pages, p) ensures t in v2 || HasFrame(stack2, t) {
      if p == c.0 && !onPath {
        var k :| 0 <= k < |Succ(pages, p)| && Succ(pages, p)[k] == t;
        assert stack2[|stack| - 1 + k].0 == t;
      } else if t != c.0 && t !in visited {
        HasFrameBelow(stack, stack2, t);
      }
    }
    if 1 !in visited && c.0 != 1 {
      HasFrameBelow(stack, stack2, 1);
    }
    OverwriteShape(path, c.1);
    forall i | 0 <= i < |path2| ensures path2[i].0 in v2 {
      if i < |path| {
        assert path2[i].0 == Overwrite(path, c.1)[i].0 == path[i].0;
      }
    }
    if paths2 == [] {
      assert paths == [];
    }
  }

  /** With an empty stack, every page on a walk from page 1 has been visited. */
  lemma {:induction false} CoverReaches(pages: seq<PageRecord>, path: seq<Frame>, paths: seq<Route>,
                                        visited: set<nat>, w: seq<nat>)
    requires Covered(pages, path, [], paths, visited) && IsWalk(pages, w) && w[0] == 1
    ensures w[|w| - 1] in visited
    decreases |w|
  {
    if |w| > 1 {
      var w' := w[..|w| - 1];
      assert IsWalk(pages, w');
      CoverReaches(pages, path, paths, visited, w');
      assert w[|w| - 1] in Succ(pages, w'[|w'| - 1]);
    }
  }

  /** When the stack runs empty, a route has been recorded if a WIN page without
      choices is reachable. */
  lemma CoverFinds(pages: seq<PageRecord>, path: seq<Frame>, paths: seq<Route>, visited: set<nat>)
    requires Covered(pages, path, [], paths, visited) && WinLeafReachable(pages)
    ensures paths != []
  {
    var v :| 1 <= v <= |pages| && Reachable(pages, v) && pages[v - 1].kind == Win && Succ(pages, v) == [];
    var w :| WalkFromTo(pages, w, 1, v);
    CoverReaches(pages, path, paths, visited, w);
  }
}
