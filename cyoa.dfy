/** A whole story (CYOA.cpp): its pages, numbered 1..N, the reverse-reference
    table built while they are saved, the format checks, the current page of a
    reading, the depth of every page reachable from page 1, and the enumeration of
    the routes that lead from page 1 to a WIN page.

    The directory is not probed: the files of the story are given as a sequence,
    files[k - 1] holding the lines of the file named FileName(dir, k). A failure
    that makes the program exit is an error result. */
module Story {
  import opened Errors
  import opened Numerals
  import opened Pages
  import opened StoryGraph
  import opened DepthSearch
  import opened RouteSearch
  import PageLaws

  // ---------------------------------------------------------------------------
  // File names

  /** CYOA::getFileName: "<dir>/page<num>.txt". */
  function FileName(dir: string, num: nat): (s: string)
    ensures |s| >= |dir| + 10 && s[..|dir| + 5] == dir + "/page" && s[|s| - 4..] == ".txt"
    ensures PositiveNum(s[|dir| + 5..|s| - 4]) == num
  {
    var d := Decimal(num);
    NumeralOfDecimal(num);
    var s := dir + "/page" + d + ".txt";
    assert s[|dir| + 5..|s| - 4] == d;
    s
  }

  /** "page" does not occur in the directory name. */
  predicate NoPageIn(dir: string)
  {
    forall j :: 0 <= j <= |dir| ==> !MatchAt(dir, "page", j)
  }

  /** A directory name in which neither '.' nor "page" occurs. */
  predicate PlainDir(dir: string)
  {
    '.' !in dir && NoPageIn(dir)
  }

  lemma FileNameShape(dir: string, k: nat)
    ensures var s, d := FileName(dir, k), Decimal(k);
      |s| == |dir| + |d| + 9 &&
      (forall j :: 0 <= j < |dir| ==> s[j] == dir[j]) &&
      s[|dir|] == '/' && s[|dir| + 1..|dir| + 5] == "page" &&
      (forall j :: 0 <= j < |d| ==> s[|dir| + 5 + j] == d[j]) &&
      s[|dir| + 5 + |d|..] == ".txt"
  {
  }

  /** In a file name of a plain directory, "page" is first found right after the '/'. */
  lemma FindPageInFileName(dir: string, k: nat)
    requires NoPageIn(dir)
    ensures FindStr(FileName(dir, k), "page") == |dir| + 1
  {
    var s := FileName(dir, k);
    FileNameShape(dir, k);
    FindStrFromSpec(s, "page", 0);
    assert MatchAt(s, "page", |dir| + 1);
    forall j | 0 <= j < |dir| + 1 ensures !MatchAt(s, "page", j) {
      if j + 4 <= |dir| {
        assert s[j..j + 4] == dir[j..j + 4];
        assert !MatchAt(dir, "page", j);
      } else {
        assert s[j..j + 4][|dir| - j] == '/';
      }
    }
  }

  /** In a file name of a directory without '.', the first '.' is the one of ".txt". */
  lemma FindPeriodInFileName(dir: string, k: nat)
    requires '.' !in dir
    ensures FindChar(FileName(dir, k), '.') == |dir| + 5 + |Decimal(k)|
  {
    var s, d := FileName(dir, k), Decimal(k);
    FileNameShape(dir, k);
    var p := |dir| + 5 + |d|;
    FindCharSpec(s, '.');
    assert s[p] == '.';
    forall j | 0 <= j < p ensures s[j] != '.' {
      if j < |dir| {
        assert s[j] == dir[j];
      } else if j >= |dir| + 5 {
        assert s[j] == d[j - |dir| - 5];
      } else {
        assert s[|dir|..|dir| + 5] == "/page";
      }
    }
  }

  /** getFileName and setPageNum are inverse: the page read from the file named for
      page k gets the number k, as long as the directory holds neither '.' nor "page". */
  lemma FileNameRoundTrip(dir: string, k: nat)
    requires PlainDir(dir) && k >= 1 && |dir| + k + 16 < NPOS
    ensures PageNumberOf(FileName(dir, k)) == Ok(k)
  {
    var s, d := FileName(dir, k), Decimal(k);
    FindPageInFileName(dir, k);
    FindPeriodInFileName(dir, k);
    NumberInFileName(dir, k);
    var beforeNum := |dir| + 5;
    SizeTInRange(beforeNum);
    SizeTInRange(|d|);
    assert Substr(s, beforeNum, |d|) == Ok(d);
    PageNumberOfText(s, beforeNum, |d|, d);
    PositiveNumOfDecimal(k);
  }

  /** The decimal numeral of k sits right after "page" in the file name. */
  lemma NumberInFileName(dir: string, k: nat)
    ensures var s, d := FileName(dir, k), Decimal(k);
      |s| == |dir| + |d| + 9 && s[|dir| + 5..|dir| + 5 + |d|] == d
  {
    FileNameShape(dir, k);
  }

  /** When the directory name holds a '.', setPageNum measures the number's length
      from that '.', the difference wraps around, and the text read is the number
      followed by ".txt": not a numeral, so the page keeps the number 0. */
  lemma DottedDirectoryKeepsZero(dir: string, k: nat)
    requires '.' in dir && NoPageIn(dir)
    requires k >= 1 && |dir| + k + 16 < NPOS
    ensures PageNumberOf(FileName(dir, k)) == Ok(0)
  {
    var s, d := FileName(dir, k), Decimal(k);
    FindPageInFileName(dir, k);
    PeriodInDirectory(dir, k);
    var period := FindChar(s, '.');
    var beforeNum := |dir| + 5;
    SizeTInRange(beforeNum);
    assert SizeT(FindStr(s, "page") + 4) == beforeNum;
    SizeTWraps(period - beforeNum);
    var len := SizeT(period - beforeNum);
    assert |s| - beforeNum <= len;
    SubstrToEnd(s, beforeNum, len);
    var t := s[beforeNum..];
    NonDigitIsZero(t, |d|);
    PageNumberOfText(s, beforeNum, len, t);
  }

  /** A '.' in the directory name is the first '.' of the file name, and the
      number in the file name is followed by a '.'. */
  lemma PeriodInDirectory(dir: string, k: nat)
    requires '.' in dir
    ensures var s, d := FileName(dir, k), Decimal(k);
      |s| == |dir| + |d| + 9 && FindChar(s, '.') < |dir| &&
      |d| < |s[|dir| + 5..]| && s[|dir| + 5..][|d|] == '.'
  {
    var s, d := FileName(dir, k), Decimal(k);
    FileNameShape(dir, k);
    var first := FindChar(dir, '.');
    FindCharSpec(dir, '.');
    FindCharSpec(s, '.');
    assert s[first] == '.';
    assert s[|dir| + 5..][|d|] == s[|dir| + 5 + |d|..][0] == '.';
  }

  // ---------------------------------------------------------------------------
  // Specification of building and checking a story

  /** What loading each file gives: files[k] is read as page k + 1. */
  function Loads(dir: string, files: seq<seq<string>>): (rs: seq<Result<PageRecord>>)
    ensures |rs| == |files|
  {
    seq(|files|, k requires 0 <= k < |files| => LoadPage(FileName(dir, k + 1), files[k]))
  }

  /** The pages of a run of loads, in order; the first failing load decides the
      error. */
  function Collect(rs: seq<Result<PageRecord>>): Result<seq<PageRecord>>
  {
    if rs == [] then Ok([])
    else match Collect(rs[..|rs| - 1])
      case Err(e) => Err(e)
      case Ok(ps) =>
        match rs[|rs| - 1]
        case Err(e) => Err(e)
        case Ok(p) => Ok(ps + [p])
  }

  /** savePages: page 1 must exist, every page file is loaded, and every choice
      must lead to a page of the story. */
  function SaveStory(dir: string, files: seq<seq<string>>): Result<seq<PageRecord>>
  {
    if files == [] then Err(MissingStartPage)
    else match Collect(Loads(dir, files))
      case Err(e) => Err(e)
      case Ok(ps) => if TargetsInRange(ps) then Ok(ps) else Err(TargetOutOfBound)
  }

  /** checkPages over the pages and the reverse-reference table. */
  function CheckVerdict(pages: seq<PageRecord>, referenced: seq<seq<nat>>): Outcome
    requires |referenced| == |pages|
  {
    if CountKind(pages, Win) == 0 || CountKind(pages, Lose) == 0 then Fail(MissingOutcome)
    else if exists j :: 1 <= j < |pages| && referenced[j] == [] then Fail(Unreferenced)
    else Pass
  }

  /** The CYOA(directory_name) constructor: savePages, then checkPages. */
  function OpenStory(dir: string, files: seq<seq<string>>): Result<seq<PageRecord>>
  {
    match SaveStory(dir, files)
    case Err(e) => Err(e)
    case Ok(ps) =>
      match CheckVerdict(ps, RefTable(ps))
      case Fail(e) => Err(e)
      case Pass => Ok(ps)
  }

  /** Some WIN page can be reached from page 1. */
  ghost predicate Winnable(pages: seq<PageRecord>)
  {
    exists v :: 1 <= v <= |pages| && Reachable(pages, v) && pages[v - 1].kind == Win
  }

  // ---------------------------------------------------------------------------
  // Lemmas about the specification

  /** One more load: its failure is the failure of the whole run, and its page is
      appended otherwise. */
  lemma CollectStep(rs: seq<Result<PageRecord>>, n: nat, ps: seq<PageRecord>)
    requires n < |rs| && Collect(rs[..n]) == Ok(ps)
    ensures rs[n].Err? ==> Collect(rs) == Err(rs[n].error)
    ensures rs[n].Ok? ==> Collect(rs[..n + 1]) == Ok(ps + [rs[n].value])
  {
    assert rs[..n + 1][..n] == rs[..n];
    if rs[n].Err? {
      CollectErrorStays(rs, n + 1);
    }
  }

  /** savePages loading file n + 1 after the first n loaded: a failure is the
      failure of the whole story, a page is appended otherwise. */
  lemma LoadStep(dir: string, files: seq<seq<string>>, n: nat, ps: seq<PageRecord>, r: Result<PageRecord>)
    requires n < |files| && Collect(Loads(dir, files)[..n]) == Ok(ps)
    requires r == LoadPage(FileName(dir, n + 1), files[n])
    ensures r.Err? ==> SaveStory(dir, files) == Err(r.error)
    ensures r.Ok? ==> Collect(Loads(dir, files)[..n + 1]) == Ok(ps + [r.value])
  {
    var rs := Loads(dir, files);
    assert rs[n] == r;
    CollectStep(rs, n, ps);
  }

  /** Once every file is loaded, savePages succeeds exactly when no choice leads
      past the last page. */
  lemma LoadDone(dir: string, files: seq<seq<string>>, ps: seq<PageRecord>)
    requires files != [] && Collect(Loads(dir, files)[..|files|]) == Ok(ps)
    ensures |ps| == |files|
    ensures SaveStory(dir, files) == if TargetsInRange(ps) then Ok(ps) else Err(TargetOutOfBound)
  {
    var rs := Loads(dir, files);
    assert rs[..|files|] == rs;
    CollectShape(rs);
  }

  /** Collecting succeeds exactly when every load succeeds. */
  lemma {:induction false} CollectOk(rs: seq<Result<PageRecord>>)
    ensures Collect(rs).Ok? <==> forall k :: 0 <= k < |rs| ==> rs[k].Ok?
    decreases |rs|
  {
    if rs != [] {
      var init := rs[..|rs| - 1];
      CollectOk(init);
      assert forall k :: 0 <= k < |init| ==> init[k] == rs[k];
    }
  }

  /** A successful collection holds one page per load, in the order of the loads. */
  lemma {:induction false} CollectShape(rs: seq<Result<PageRecord>>)
    requires Collect(rs).Ok?
    ensures |Collect(rs).value| == |rs|
    ensures forall k :: 0 <= k < |rs| ==> rs[k] == Ok(Collect(rs).value[k])
    decreases |rs|
  {
    if rs != [] {
      var init := rs[..|rs| - 1];
      CollectShape(init);
      var ps := Collect(rs).value;
      assert ps == Collect(init).value + [rs[|rs| - 1].value];
      forall k | 0 <= k < |rs| ensures rs[k] == Ok(ps[k]) {
        if k < |rs| - 1 {
          assert rs[k] == init[k];
        }
      }
    }
  }

  /** Once a prefix fails, loading more files keeps its error. */
  lemma {:induction false} CollectErrorStays(rs: seq<Result<PageRecord>>, n: nat)
    requires n <= |rs| && Collect(rs[..n]).Err?
    ensures Collect(rs) == Collect(rs[..n])
    decreases |rs| - n
  {
    if n < |rs| {
      assert rs[..|rs| - 1][..n] == rs[..n];
      CollectErrorStays(rs[..|rs| - 1], n);
    } else {
      assert rs[..n] == rs;
    }
  }

  /** A saved story holds the page loaded from each file, in file order. */
  lemma SavedPages(dir: string, files: seq<seq<string>>)
    requires SaveStory(dir, files).Ok?
    ensures var ps := SaveStory(dir, files).value;
      |ps| == |files| && forall k :: 0 <= k < |files| ==> Loads(dir, files)[k] == Ok(ps[k])
  {
    CollectShape(Loads(dir, files));
  }

  /** With a plain directory name, the page read from files[k] carries the number k + 1. */
  lemma LoadsPageNumber(dir: string, files: seq<seq<string>>, k: nat, p: PageRecord)
    requires k < |files| && Loads(dir, files)[k] == Ok(p)
    requires PlainDir(dir) && |dir| + |files| + 16 < NPOS
    ensures p.pagination == k + 1
  {
    LoadedPageNumber(dir, k + 1, files[k]);
  }

  /** With a plain directory name, the page loaded from the file of page k carries
      the number k. */
  lemma LoadedPageNumber(dir: string, k: nat, lines: seq<string>)
    requires LoadPage(FileName(dir, k), lines).Ok?
    requires PlainDir(dir) && k >= 1 && |dir| + k + 16 < NPOS
    ensures LoadPage(FileName(dir, k), lines).value.pagination == k
  {
    LoadPageNumber(FileName(dir, k), lines);
    FileNameRoundTrip(dir, k);
  }

  /** A saved story has a page 1 and no choice leading outside it. */
  lemma SavedWellFormed(dir: string, files: seq<seq<string>>)
    requires SaveStory(dir, files).Ok?
    ensures WellFormed(SaveStory(dir, files).value)
  {
  }

  /** A saved story has a page 1, as many pages as files, and no choice leading
      outside it; with a plain directory name, page k carries the number k. */
  lemma SaveStoryShape(dir: string, files: seq<seq<string>>)
    requires SaveStory(dir, files).Ok?
    ensures var ps := SaveStory(dir, files).value;
      WellFormed(ps) && |ps| == |files| &&
      (PlainDir(dir) && |dir| + |files| + 16 < NPOS ==> forall k :: 0 <= k < |ps| ==> ps[k].pagination == k + 1)
  {
    SavedPages(dir, files);
    if PlainDir(dir) && |dir| + |files| + 16 < NPOS {
      forall k | 0 <= k < |files| ensures SaveStory(dir, files).value[k].pagination == k + 1 {
        LoadsPageNumber(dir, files, k, SaveStory(dir, files).value[k]);
      }
    }
  }

  /** In a saved story a WIN page has no choices, so a story with a reachable WIN
      page has a reachable WIN page where getWinRoute closes a route. */
  lemma SavedWinLeaf(dir: string, files: seq<seq<string>>)
    requires SaveStory(dir, files).Ok?
    ensures Winnable(SaveStory(dir, files).value) ==> WinLeafReachable(SaveStory(dir, files).value)
  {
    var ps := SaveStory(dir, files).value;
    SavedPages(dir, files);
    forall v | 1 <= v <= |ps| && ps[v - 1].kind == Win
      ensures Succ(ps, v) == []
    {
      LoadedWinLeaf(FileName(dir, v), files[v - 1], ps[v - 1]);
    }
    WinnableLeaf(ps);
  }

  /** A loaded WIN page has no choices. */
  lemma LoadedWinLeaf(fileName: string, lines: seq<string>, p: PageRecord)
    requires LoadPage(fileName, lines) == Ok(p) && p.kind == Win
    ensures p.choices == []
  {
    PageLaws.LoadedPageShape(fileName, lines);
  }

  /** When no WIN page has choices, a reachable WIN page is one without choices. */
  lemma WinnableLeaf(pages: seq<PageRecord>)
    requires forall v :: 1 <= v <= |pages| && pages[v - 1].kind == Win ==> Succ(pages, v) == []
    ensures Winnable(pages) ==> WinLeafReachable(pages)
  {
  }

  /** checkPages fails for a missing outcome exactly when the story has no WIN
      page or no LOSE page. */
  lemma VerdictOutcomes(pages: seq<PageRecord>, referenced: seq<seq<nat>>)
    requires |referenced| == |pages|
    ensures CheckVerdict(pages, referenced) == Fail(MissingOutcome) <==>
      (forall i :: 0 <= i < |pages| ==> pages[i].kind != Win) || (forall i :: 0 <= i < |pages| ==> pages[i].kind != Lose)
  {
    CountKindZero(pages, Win);
    CountKindZero(pages, Lose);
  }

  /** With the table savePages builds, and both outcomes present, checkPages fails
      exactly when some page other than page 1 is the target of no choice. */
  lemma VerdictOrphans(pages: seq<PageRecord>)
    requires CountKind(pages, Win) > 0 && CountKind(pages, Lose) > 0
    ensures CheckVerdict(pages, RefTable(pages)) == Fail(Unreferenced) <==>
      exists t :: 2 <= t <= |pages| && !Referenced(pages, t)
    ensures CheckVerdict(pages, RefTable(pages)) == Pass <==>
      forall t :: 2 <= t <= |pages| ==> Referenced(pages, t)
  {
    OrphanIff(pages);
  }

  /** The list of page t is empty exactly when no choice leads to t. */
  lemma OrphanAt(pages: seq<PageRecord>, t: nat)
    requires 1 <= t <= |pages|
    ensures RefTable(pages)[t - 1] == [] <==> !Referenced(pages, t)
  {
    assert RefTable(pages)[t - 1] == RefsFrom(pages, t);
    RefsFromEmptyIff(pages, t);
  }

  /** An empty list in the table, past page 1, is exactly a page that no choice
      leads to. */
  lemma OrphanIff(pages: seq<PageRecord>)
    ensures (exists j :: 1 <= j < |pages| && RefTable(pages)[j] == []) <==>
      exists t :: 2 <= t <= |pages| && !Referenced(pages, t)
  {
    var table := RefTable(pages);
    if exists j :: 1 <= j < |pages| && table[j] == [] {
      var j :| 1 <= j < |pages| && table[j] == [];
      OrphanAt(pages, j + 1);
    }
    if exists t :: 2 <= t <= |pages| && !Referenced(pages, t) {
      var t :| 2 <= t <= |pages| && !Referenced(pages, t);
      OrphanAt(pages, t);
    }
  }

  /** A choice of a page leading to the page itself keeps it out of the orphan
      check: self-references count. */
  lemma SelfReferenceCounts(pages: seq<PageRecord>, t: nat)
    requires 1 <= t <= |pages| && t in Succ(pages, t)
    ensures RefTable(pages)[t - 1] != []
  {
    RefsFromEmptyIff(pages, t);
  }

  /** A story that opens is well formed, has a WIN page and a LOSE page, and every
      page but page 1 is the target of some choice. */
  lemma OpenStoryValid(dir: string, files: seq<seq<string>>)
    requires OpenStory(dir, files).Ok?
    ensures var ps := OpenStory(dir, files).value;
      WellFormed(ps) && |ps| == |files| &&
      (exists i :: 0 <= i < |ps| && ps[i].kind == Win) &&
      (exists i :: 0 <= i < |ps| && ps[i].kind == Lose) &&
      forall t :: 2 <= t <= |ps| ==> Referenced(ps, t)
  {
    var ps := SaveStory(dir, files).value;
    SaveStoryShape(dir, files);
    VerdictOutcomes(ps, RefTable(ps));
    VerdictOrphans(ps);
  }

  /** Some WIN page among pages 1..n has a depth. */
  ghost predicate WinAmong(pages: seq<PageRecord>, depth: map<nat, nat>, n: nat)
    requires n <= |pages|
  {
    exists v :: 1 <= v <= n && v in depth && pages[v - 1].kind == Win
  }

  lemma WinAmongStep(pages: seq<PageRecord>, depth: map<nat, nat>, n: nat)
    requires n < |pages| && !(n + 1 in depth && pages[n].kind == Win)
    ensures WinAmong(pages, depth, n + 1) <==> WinAmong(pages, depth, n)
  {
    if WinAmong(pages, depth, n + 1) {
      var v :| 1 <= v <= n + 1 && v in depth && pages[v - 1].kind == Win;
      assert v <= n;
    }
  }

  /** With a depth map, the story is winnable exactly when some WIN page has a
      depth. */
  lemma WinnableIffDepth(pages: seq<PageRecord>, depth: map<nat, nat>)
    requires DepthMap(pages, depth)
    ensures Winnable(pages) <==> WinAmong(pages, depth, |pages|)
  {
    if Winnable(pages) {
      var v :| 1 <= v <= |pages| && Reachable(pages, v) && pages[v - 1].kind == Win;
      DepthIsDistance(pages, depth, v);
    }
    if WinAmong(pages, depth, |pages|) {
      var v :| 1 <= v <= |pages| && v in depth && pages[v - 1].kind == Win;
      DepthIsDistance(pages, depth, v);
    }
  }

  // ---------------------------------------------------------------------------
  // The CYOA class

  class Cyoa {
    var storyName: string
    var pageNum: nat
    var pages: seq<PageRecord>
    /** The number of the current page; 0 before setCurrent. */
    var current: nat
    var currentChoices: seq<nat>
    var referenced: seq<seq<nat>>

    /** The member initialisers of CYOA(directory_name), before savePages runs. */
    constructor (dir: string)
      ensures storyName == dir && pageNum == 0 && pages == [] && current == 0
      ensures currentChoices == [] && referenced == []
    {
      storyName, pageNum, pages, current, currentChoices, referenced := dir, 0, [], 0, [], [];
    }

    /** CYOA::addReferenced: for each choice of the page, in order, the page's own
        number is appended to the list of the page the choice leads to; a choice
        past the last page is an error. */
    method AddReferenced(page: PageRecord) returns (o: Outcome)
      requires |referenced| == pageNum
      modifies this`referenced
      ensures |referenced| == pageNum
      ensures o.Pass? <==> forall i :: 0 <= i < |page.choices| ==> page.choices[i].target <= pageNum
      ensures o.Fail? ==> o.error == TargetOutOfBound
      ensures o.Pass? ==> forall j :: 0 <= j < pageNum ==>
        referenced[j] == old(referenced)[j] + Occ(page.pagination, Targets(page.choices), j + 1)
    {
      var choice := Targets(page.choices);
      assert forall m :: 0 <= m < |choice| ==> choice[m] == page.choices[m].target as nat;
      var i := 0;
      while i < |choice|
        invariant 0 <= i <= |choice|
        invariant |referenced| == pageNum
        invariant forall m :: 0 <= m < i ==> choice[m] <= pageNum
        invariant forall j :: 0 <= j < pageNum ==>
          referenced[j] == old(referenced)[j] + Occ(page.pagination, choice[..i], j + 1)
      {
        var pn := choice[i];
        if pn > pageNum {
          assert page.choices[i].target as nat == pn;
          return Fail(TargetOutOfBound);
        }
        assert choice[..i + 1][..i] == choice[..i];
        referenced := referenced[pn - 1 := referenced[pn - 1] + [page.pagination]];
        i := i + 1;
      }
      assert choice[..i] == choice;
      o := Pass;
    }

    /** CYOA::savePages over the given files: page 1 must exist, all pages are
        loaded, the table is sized to the number of pages, and every page adds its
        references. */
    method SavePages(dir: string, files: seq<seq<string>>) returns (o: Outcome)
      requires pageNum == 0 && pages == [] && referenced == []
      modifies this`pages, this`pageNum, this`referenced
      ensures var r := SaveStory(dir, files);
        (o.Pass? <==> r.Ok?) && (o.Fail? ==> o.error == r.error) &&
        (o.Pass? ==> pages == r.value && pageNum == |pages| && referenced == RefTable(pages))
    {
      if |files| == 0 {
        return Fail(MissingStartPage);
      }
      o := LoadPages(dir, files);
      if o.Fail? {
        return;
      }
      o := BuildReferenced();
    }

    /** The loading part of savePages: page 1, then every following file in turn;
        the first page that fails to load is the failure of the whole story. */
    method LoadPages(dir: string, files: seq<seq<string>>) returns (o: Outcome)
      requires pageNum == 0 && pages == [] && files != []
      modifies this`pages, this`pageNum
      ensures o.Fail? ==> SaveStory(dir, files) == Err(o.error)
      ensures o.Pass? ==> pageNum == |pages| == |files|
      ensures o.Pass? ==> SaveStory(dir, files) == if TargetsInRange(pages) then Ok(pages) else Err(TargetOutOfBound)
    {
      var first := OpenPage(FileName(dir, pageNum + 1), files[pageNum]);
      LoadStep(dir, files, pageNum, pages, first);
      if first.Err? {
        return Fail(first.error);
      }
      pages := pages + [first.value];
      pageNum := pageNum + 1;
      while pageNum < |files|
        invariant 1 <= pageNum <= |files|
        invariant Collect(Loads(dir, files)[..pageNum]) == Ok(pages)
      {
        var p := OpenPage(FileName(dir, pageNum + 1), files[pageNum]);
        LoadStep(dir, files, pageNum, pages, p);
        if p.Err? {
          return Fail(p.error);
        }
        pages := pages + [p.value];
        pageNum := pageNum + 1;
      }
      LoadDone(dir, files, pages);
      o := Pass;
    }

    /** The end of savePages: the table is sized to the number of pages and every
        page, in order, adds its references; this fails exactly when some choice
        leads past the last page. */
    method BuildReferenced() returns (o: Outcome)
      requires pageNum == |pages|
      modifies this`referenced
      ensures |referenced| == pageNum
      ensures o.Pass? <==> TargetsInRange(pages)
      ensures o.Fail? ==> o.error == TargetOutOfBound
      ensures o.Pass? ==> referenced == RefTable(pages)
    {
      referenced := seq(pageNum, _ => []);
      var i := 0;
      while i < |pages|
        invariant 0 <= i <= |pages| && pageNum == |pages| && |referenced| == pageNum
        invariant forall k, c :: 0 <= k < i && 0 <= c < |pages[k].choices| ==> pages[k].choices[c].target <= pageNum
        invariant forall j :: 0 <= j < pageNum ==> referenced[j] == RefsFrom(pages[..i], j + 1)
      {
        o := AddReferenced(pages[i]);
        if o.Fail? {
          return;
        }
        assert pages[..i + 1][..i] == pages[..i];
        i := i + 1;
      }
      assert pages[..i] == pages;
      o := Pass;
    }

    /** CYOA::checkPages: at least one WIN page and one LOSE page, then every page
        after page 1 must be referenced. */
    method CheckPages() returns (o: Outcome)
      requires pageNum == |pages| && |referenced| == pageNum
      ensures o == CheckVerdict(pages, referenced)
    {
      var winNum, loseNum := 0, 0;
      var i := 0;
      while i < pageNum
        invariant 0 <= i <= pageNum
        invariant winNum == CountKind(pages[..i], Win) && loseNum == CountKind(pages[..i], Lose)
      {
        assert pages[..i + 1][..i] == pages[..i];
        if pages[i].kind == Win {
          winNum := winNum + 1;
        } else if pages[i].kind == Lose {
          loseNum := loseNum + 1;
        }
        i := i + 1;
      }
      assert pages[..i] == pages;
      if winNum == 0 || loseNum == 0 {
        return Fail(MissingOutcome);
      }
      var j := 1;
      while j < pageNum
        invariant 1 <= j <= pageNum
        invariant forall m :: 1 <= m < j ==> referenced[m] != []
      {
        if |referenced[j]| == 0 {
          return Fail(Unreferenced);
        }
        j := j + 1;
      }
      o := Pass;
    }

    /** CYOA::setCurrent. */
    method SetCurrent(pn: nat)
      requires 1 <= pn <= |pages|
      modifies this`current, this`currentChoices
      ensures current == pn && currentChoices == Succ(pages, pn)
    {
      current := pn;
      currentChoices := Targets(pages[pn - 1].choices);
    }

    /** CYOA::isValidChoice: the page that the typed choice leads to, or 0 when the
        input is not the number of a choice or the choice leads past the last page. */
    function IsValidChoice(choice: string): (r: nat)
      reads this
      ensures r != 0 ==> r <= pageNum && 1 <= PositiveNum(choice) <= |currentChoices| && currentChoices[PositiveNum(choice) - 1] == r
    {
      var choiceNum := PositiveNum(choice);
      if 0 < choiceNum <= |currentChoices| then
        var nextPage := currentChoices[choiceNum - 1];
        if nextPage <= pageNum then nextPage else 0
      else 0
    }

    /** CYOA::getPageDepth: breadth-first search from page 1. */
    method GetPageDepth() returns (depth: map<nat, nat>)
      requires WellFormed(pages)
      ensures DepthMap(pages, depth)
    {
      var waiting: seq<nat> := [1];
      var currentIndex := 1;
      depth := map[currentIndex := 0];
      ghost var done: set<nat> := {};
      InitialFrontier(pages);
      while waiting != []
        invariant Frontier(pages, depth, waiting, done)
        decreases PageSet(|pages|) - done
      {
        currentIndex := waiting[0];
        PopFront(pages, depth, waiting, done);
        waiting := waiting[1..];
        done := done + {currentIndex};
        depth, waiting := VisitChoices(depth, waiting, currentIndex, done);
        ScanDone(pages, depth, waiting, done, currentIndex);
      }
      FrontierFinal(pages, depth, done);
    }

    /** The loop of getPageDepth over the choices of the page just taken from the
        queue: every target not yet in the map gets the next depth and joins the
        queue. */
    method VisitChoices(depth: map<nat, nat>, waiting: seq<nat>, currentIndex: nat, ghost done: set<nat>)
      returns (depth': map<nat, nat>, waiting': seq<nat>)
      requires Scan(pages, depth, waiting, done, currentIndex, 0)
      ensures Scan(pages, depth', waiting', done, currentIndex, |Succ(pages, currentIndex)|)
    {
      depth', waiting' := depth, waiting;
      var options := Targets(pages[currentIndex - 1].choices);
      var currentDepth := depth[currentIndex] + 1;
      var i := 0;
      while i < |options|
        invariant options == Succ(pages, currentIndex)
        invariant ScanAt(pages, depth', waiting', done, currentIndex, i, currentDepth)
      {
        ghost var before, queued := depth', waiting';
        if options[i] !in depth' {
          depth' := depth'[options[i] := currentDepth];
          waiting' := waiting' + [options[i]];
        }
        ScanStep(pages, before, queued, done, currentIndex, i, currentDepth, depth', waiting');
        i := i + 1;
      }
    }

    /** CYOA::hasWin: whether some WIN page has a depth, that is, is reachable. */
    method HasWin() returns (b: bool)
      requires WellFormed(pages) && pageNum == |pages|
      ensures b <==> Winnable(pages)
    {
      var pageDepth := GetPageDepth();
      var winReachable := 0;
      var i := 0;
      while i < pageNum
        invariant 0 <= i <= pageNum
        invariant winReachable > 0 <==> WinAmong(pages, pageDepth, i)
      {
        if i + 1 in pageDepth && pages[i].kind == Win {
          winReachable := winReachable + 1;
          assert WinAmong(pages, pageDepth, i + 1) by {
            assert 1 <= i + 1 <= i + 1 && i + 1 in pageDepth && pages[i].kind == Win;
          }
        } else {
          WinAmongStep(pages, pageDepth, i);
        }
        i := i + 1;
      }
      WinnableIffDepth(pages, pageDepth);
      b := winReachable != 0;
    }

    /** One turn of the loop of getWinRoute: the top frame is visited (Visit), then
        the finished pages leave the path (Retreat). */
    method Turn(path: seq<Frame>, waiting: seq<Frame>, sub: map<nat, nat>, paths: seq<Route>,
                ghost levels: seq<nat>, ghost b: nat)
      returns (path': seq<Frame>, waiting': seq<Frame>, sub': map<nat, nat>, paths': seq<Route>,
               ghost levels': seq<nat>)
      requires HeadInv(pages, path, waiting, levels, sub, paths) && waiting != [] && b == MaxDegree(pages) + 1
      ensures HeadInv(pages, path', waiting', levels', sub', paths')
      ensures Weight(levels', |pages|, b) < Weight(levels, |pages|, b)
      ensures paths <= paths'
      ensures var c := waiting[|waiting| - 1];
        HasFrame(path, c.0) ==> waiting' == waiting[..|waiting| - 1] && path' <= Overwrite(path, c.1) && paths' == paths
      ensures var c := waiting[|waiting| - 1];
        !HasFrame(path, c.0) ==>
          waiting' == waiting[..|waiting| - 1] + ChildFrames(Succ(pages, c.0)) && path' <= Overwrite(path, c.1) + [c] &&
          paths' == if Succ(pages, c.0) == [] && pages[c.0 - 1].kind == Win then paths + [Overwrite(path, c.1) + [c]] else paths
    {
      path', waiting', sub', paths' := Visit(path, waiting, sub, paths);
      assert Visited(pages, path, waiting[..|waiting| - 1], waiting[|waiting| - 1], sub, paths, path', waiting', sub', paths');
      levels' := VisitStep(pages, path, waiting, levels, sub, paths, b, path', waiting', sub', paths');
      // The path is not empty after the visit (VisitStep), so the source's test
      // for an empty path here never breaks out of the loop.
      ghost var visited := path';
      path', sub' := Retreat(path', sub', waiting', levels', paths');
      assert path' <= visited;
    }

    /** The visit of the top frame: it is popped and its choice number written into
        the last frame of the path; a page not yet on the path is then appended
        (Descend), a page already on it is skipped. */
    method Visit(path: seq<Frame>, waiting: seq<Frame>, sub: map<nat, nat>, paths: seq<Route>)
      returns (path': seq<Frame>, waiting': seq<Frame>, sub': map<nat, nat>, paths': seq<Route>)
      requires waiting != [] && 1 <= waiting[|waiting| - 1].0 <= |pages|
      ensures var c := waiting[|waiting| - 1];
        HasFrame(path, c.0) ==>
          waiting' == waiting[..|waiting| - 1] && path' == Overwrite(path, c.1) && sub' == sub && paths' == paths
      ensures var c := waiting[|waiting| - 1];
        !HasFrame(path, c.0) ==>
          waiting' == waiting[..|waiting| - 1] + ChildFrames(Succ(pages, c.0)) && path' == Overwrite(path, c.1) + [c] &&
          sub' == sub[c.0 := |Succ(pages, c.0)|] &&
          paths' == if Succ(pages, c.0) == [] && pages[c.0 - 1].kind == Win then paths + [path'] else paths
    {
      var currentP, onPath;
      currentP, path', waiting', onPath := Pop(path, waiting);
      sub', paths' := sub, paths;
      if !onPath {
        path', waiting', sub', paths' := Descend(path', waiting', sub', paths', currentP);
      }
    }

    /** The start of a turn: the top frame is popped and its choice number written
        into the last frame of the path; onPath tells whether its page is already
        on the path. */
    static method Pop(path: seq<Frame>, waiting: seq<Frame>)
      returns (currentP: Frame, path': seq<Frame>, waiting': seq<Frame>, onPath: bool)
      requires waiting != []
      ensures currentP == waiting[|waiting| - 1] && waiting' == waiting[..|waiting| - 1]
      ensures path' == Overwrite(path, currentP.1) && (onPath <==> HasFrame(path, currentP.0))
    {
      currentP := waiting[|waiting| - 1];
      var currentIndex := currentP.0;
      waiting' := waiting[..|waiting| - 1];
      path' := path;
      if path' != [] {
        path' := path'[|path'| - 1 := (path'[|path'| - 1].0, currentP.1)];
      }
      onPath := HasPage(path', currentIndex);
      OverwriteHasFrame(path, currentP.1, currentIndex);
    }

    /** The visit of a page not yet on the path: it is appended to the path, its
        number of choices becomes its count of pending choices, a WIN page without
        choices closes a route, and otherwise its choices are pushed. */
    method Descend(path: seq<Frame>, waiting: seq<Frame>, sub: map<nat, nat>, paths: seq<Route>, currentP: Frame)
      returns (path': seq<Frame>, waiting': seq<Frame>, sub': map<nat, nat>, paths': seq<Route>)
      requires 1 <= currentP.0 <= |pages|
      ensures path' == path + [currentP]
      ensures waiting' == waiting + ChildFrames(Succ(pages, currentP.0))
      ensures sub' == sub[currentP.0 := |Succ(pages, currentP.0)|]
      ensures paths' == if Succ(pages, currentP.0) == [] && pages[currentP.0 - 1].kind == Win then paths + [path'] else paths
    {
      var currentIndex := currentP.0;
      path' := path + [currentP];
      var options := Targets(pages[currentIndex - 1].choices);
      var optionsNum := |options|;
      sub' := sub[currentIndex := optionsNum];
      paths', waiting' := paths, waiting;
      if optionsNum == 0 {
        if pages[currentIndex - 1].kind == Win {
          paths' := paths' + [path'];
        }
        assert ChildFrames(options) == [];
      } else {
        waiting' := PushChoices(waiting', options);
      }
    }

    /** The loop of getWinRoute pushing one frame per choice of the page just
        added to the path: (target, choice number), in choice order. */
    static method PushChoices(waiting: seq<Frame>, options: seq<nat>) returns (w: seq<Frame>)
      ensures |w| == |waiting| + |options| && w[..|waiting|] == waiting
      ensures forall i :: 0 <= i < |options| ==> w[|waiting| + i] == (options[i], i + 1)
      ensures w == waiting + ChildFrames(options)
    {
      w := waiting;
      var i := 0;
      while i < |options|
        invariant 0 <= i <= |options|
        invariant |w| == |waiting| + i && w[..|waiting|] == waiting
        invariant forall m :: 0 <= m < i ==> w[|waiting| + m] == (options[m], m + 1)
      {
        w := w + [(options[i], i + 1)];
        i := i + 1;
      }
    }

    /** The backtracking loop that ends a turn of getWinRoute: while the last page
        of a path of two or more pages has no choice left to explore, it leaves the
        path and its parent's count of pending choices goes down by one. */
    method Retreat(path: seq<Frame>, sub: map<nat, nat>, ghost stack: seq<Frame>, ghost levels: seq<nat>,
                   ghost paths: seq<Route>) returns (path': seq<Frame>, sub': map<nat, nat>)
      requires Inv(pages, path, stack, levels, sub, paths) && |path| >= 1
      ensures HeadInv(pages, path', stack, levels, sub', paths) && 1 <= |path'| <= |path|
      ensures path' == path[..|path'|]
    {
      path', sub' := path, sub;
      var lastPage := path'[|path'| - 1].0;
      while sub'[lastPage] == 0 && |path'| > 1
        invariant Inv(pages, path', stack, levels, sub', paths) && 1 <= |path'| <= |path|
        invariant path' == path[..|path'|]
        invariant lastPage == path'[|path'| - 1].0
        decreases |path'|
      {
        // The path has at least two frames here, so the source's emptiness test
        // after the pop always succeeds.
        var parent := path'[|path'| - 2].0;
        ghost var path1, sub1 := path', sub';
        ParentPending(pages, path', stack, levels, sub', paths);
        path' := path'[..|path'| - 1];
        lastPage := parent;
        sub' := sub'[parent := sub'[parent] - 1];
        BacktrackTurn(pages, path, path1, stack, levels, sub1, paths, path', sub');
      }
    }

    /** CYOA::hasPage: whether a page occurs on the path. */
    static method HasPage(currentPath: seq<Frame>, page: nat) returns (b: bool)
      ensures b <==> exists i :: 0 <= i < |currentPath| && currentPath[i].0 == page
    {
      var i := 0;
      while i < |currentPath|
        invariant 0 <= i <= |currentPath|
        invariant forall m :: 0 <= m < i ==> currentPath[m].0 != page
      {
        if page == currentPath[i].0 {
          return true;
        }
        i := i + 1;
      }
      return false;
    }

    /** CYOA::getWinRoute: an error when no WIN page is reachable; otherwise a
        depth-first search from page 1 that never revisits a page on the current
        path and records the path each time it reaches a WIN page without choices. */
    method GetWinRoute() returns (r: Result<seq<Route>>)
      requires WellFormed(pages) && pageNum == |pages|
      ensures r.Err? <==> !Winnable(pages)
      ensures r.Err? ==> r.error == Unwinnable
      ensures r.Ok? ==> RoutesOk(pages, r.value)
      ensures WinLeafReachable(pages) ==> r.Ok? && r.value != []
    {
      var win := HasWin();
      if !win {
        return Err(Unwinnable);
      }
      var currentPath: seq<Frame> := [];
      var paths: seq<Route> := [];
      var waiting: seq<Frame> := [(1, 0)];
      var subrouteNum: map<nat, nat> := map[];
      ghost var levels: seq<nat> := [0];
      ghost var b := MaxDegree(pages) + 1;
      ghost var visited: set<nat> := {};
      InitialState(pages);
      CoverStart(pages);
      while waiting != []
        invariant HeadInv(pages, currentPath, waiting, levels, subrouteNum, paths)
        invariant Covered(pages, currentPath, waiting, paths, visited)
        decreases Weight(levels, |pages|, b)
      {
        ghost var path0, waiting0, paths0 := currentPath, waiting, paths;
        currentPath, waiting, subrouteNum, paths, levels := Turn(currentPath, waiting, subrouteNum, paths, levels, b);
        CoverTurn(pages, path0, waiting0, paths0, visited, currentPath, waiting, paths);
        visited := visited + {waiting0[|waiting0| - 1].0};
      }
      if WinLeafReachable(pages) {
        CoverFinds(pages, currentPath, paths, visited);
      }
      r := Ok(paths);
    }
  }

  /** With the current page set, isValidChoice accepts exactly the numbers of the
      current page's choices, and what it returns is the page that choice leads to. */
  lemma ValidChoiceIff(c: Cyoa, s: string)
    requires WellFormed(c.pages) && c.pageNum == |c.pages|
    requires 1 <= c.current <= |c.pages| && c.currentChoices == Succ(c.pages, c.current)
    ensures c.IsValidChoice(s) != 0 <==> 1 <= PositiveNum(s) <= |c.currentChoices|
    ensures c.IsValidChoice(s) != 0 ==> Edge(c.pages, c.current, c.IsValidChoice(s))
  {
    var n := PositiveNum(s);
    if 1 <= n <= |c.currentChoices| {
      var t := c.pages[c.current - 1].choices[n - 1].target;
      assert c.currentChoices[n - 1] == t;
      assert c.currentChoices[n - 1] in c.currentChoices;
    }
  }

  /** Typing the decimal number k of a choice of the current page selects that
      choice's target. */
  lemma ValidChoiceOfDecimal(c: Cyoa, k: nat)
    requires WellFormed(c.pages) && c.pageNum == |c.pages|
    requires 1 <= c.current <= |c.pages| && c.currentChoices == Succ(c.pages, c.current)
    requires 1 <= k <= |c.currentChoices|
    ensures c.IsValidChoice(Decimal(k)) == c.currentChoices[k - 1]
    ensures c.currentChoices[k - 1] >= 1
  {
    PositiveNumOfDecimal(k);
    assert c.currentChoices[k - 1] == c.pages[c.current - 1].choices[k - 1].target;
  }

  /** The CYOA(directory_name) constructor over the given files: savePages,
      checkPages, then page 1 becomes the current page. */
  method Open(dir: string, files: seq<seq<string>>) returns (r: Result<Cyoa>)
    ensures var s := OpenStory(dir, files);
      (r.Ok? <==> s.Ok?) && (r.Err? ==> r.error == s.error) &&
      (r.Ok? ==> r.value.storyName == dir && r.value.pages == s.value && r.value.pageNum == |s.value| &&
                 r.value.referenced == RefTable(s.value) &&
                 r.value.current == 1 && r.value.currentChoices == Succ(s.value, 1))
  {
    var c := new Cyoa(dir);
    var o := c.SavePages(dir, files);
    if o.Fail? {
      return Err(o.error);
    }
    SavedWellFormed(dir, files);
    o := c.CheckPages();
    if o.Fail? {
      return Err(o.error);
    }
    c.SetCurrent(1);
    r := Ok(c);
  }
}
