# CYOA story engine — a Dafny model

This project models the core of a "choose your own adventure" engine. A story is
a directory of page files `page1.txt`, `page2.txt`, … Each page file has two
sections. The navigation section comes first:

- a `WIN` line or a `LOSE` line gives the page its type;
- every other line is a choice `<page number>:<text>`, and the first choice
  makes the page a CHOICE page.

A line starting with `#` ends the navigation section. Every line after it is the
page's text, kept verbatim.

The engine does the following:

- it loads the pages in number order, from page 1 up to the first missing file;
- it builds a reverse-reference table, `referenced[t-1]`, which lists the number
  of every page with a choice leading to page t, once per such choice;
- it checks the story: at least one WIN page, at least one LOSE page, and every
  page other than page 1 the target of some choice;
- during a reading, it keeps a current page and checks what the reader types;
- it computes the depth of every page reachable from page 1, by breadth-first search;
- it decides whether a WIN page is reachable;
- it enumerates the routes from page 1 to a WIN page, by a depth-first search
  that never revisits a page on the current path.

The modules follow the two source files:

| module | file | what it holds |
|---|---|---|
| `Errors` | errors.dfy | the error kinds; `Outcome` and `Result` |
| `Numerals` | numerals.dfy | decimal numerals, `isPositiveNum`'s value, `std::to_string`, and `std::string::find`/`substr` with their 64-bit `size_t` arithmetic |
| `Pages` | pages.dfy | class `Page` (Page.cpp), with the pure specification of its line parser |
| `PageLaws` | page_laws.dfy | lemmas about the page parser |
| `StoryGraph` | graph.dfy | the story as a graph: edges, walks, reachability, cycles, the reverse index, page counts, depth maps, win routes |
| `DepthSearch` | depth.dfy | the invariant of the breadth-first search of `getPageDepth` and the lemmas that keep it |
| `RouteSearch` | search.dfy | the invariant and the termination measure of the depth-first search of `getWinRoute` |
| `Story` | cyoa.dfy | class `Cyoa` (CYOA.cpp), with the pure specification of loading and checking a story |

`Page::getPageNum` and `Page::getType` are `Pages.Page.GetPageNum` and
`Pages.Page.GetType`, plain reads of the `pagination` and `kind` fields.

Each fatal error of the program (`findError`, or the `exit` in `getWinRoute`)
becomes a `Fail`/`Err` result carrying a distinct error kind. The directory is
not probed on disk. Instead, the story's files are given as a sequence of
line lists: `files[k-1]` holds the lines of the file for page k.

Points where the model follows the code rather than the prose description of the
program:

- **Self-references count.** The orphan check tests only whether
  `referenced[j]` is empty (CYOA.cpp:123-127). `addReferenced` records a
  page's choice that leads to the page itself. So a page whose only reference is
  from itself passes the check, although the error message speaks of
  "*other* pages" (`Story.SelfReferenceCounts`).
- **An empty navigation line is an error.** `line[0] == '#'` on an empty line
  reads the terminating NUL. The line is then parsed as a choice and fails for
  lack of a colon (Page.cpp:189-193, `PageLaws.EmptyNavigationLineFails`).
- **A WIN or LOSE line must end the navigation section.** Any navigation line
  after it fails (`PageLaws.OutcomeLineEndsNavigation`). A following choice
  makes a mixed page. A repeated outcome line is "redundant content". An empty
  line has no colon.
- **Page numbers are read from the file name.** They come from the text between
  the first `page` and the first `.` of the path. Positions are `size_t`, so the
  difference wraps around. When the directory name holds a `.` but no `page`
  (and its length plus the page number stays below 2^64 - 17, so that no
  position wraps), the text read is the number
  followed by `.txt`. That text is not a numeral, so every page keeps the
  number 0 (`Story.DottedDirectoryKeepsZero`). A directory name holding `page`
  is read from its own `page` onwards instead. The round trip from the file
  name to the page number holds for directory names holding neither `.` nor
  `page` (`Story.FileNameRoundTrip`).
- **Some routes of a cyclic story may not follow the choices.** When
  `getWinRoute` pops a page that is already on the path, it does not count down
  the parent's pending choices. The parent then stays on the path while other
  pages' choices are explored. `RouteSearch.SkipStep` shows that this case
  arises only in a story with a cycle. Every reported route is a `WinRoute` in
  every story. A route is proved to follow the recorded choice numbers
  (`LinkedRoute`) only in a story without cycles.
- **The empty-path break never fires.** After a page is visited the path is not
  empty (`RouteSearch.VisitStep`), so the test for an empty path at
  CYOA.cpp:300-302 never leaves the loop early. The model has no such exit.

## Model

| member | source | states |
|---|---|---|
| `Numerals.SizeTWraps` | Page.cpp:97 | a negative difference of positions becomes that difference plus 2^64, as a `size_t` |
| `Numerals.Decimal` | CYOA.cpp:37 | `std::to_string` of a positive number is a non-empty digit string without a leading zero |
| `Numerals.NumeralOfDecimal` | CYOA.cpp:37 | the digits `std::to_string` writes for n read back as n |
| `Numerals.PositiveNumOfDecimal` | Page.cpp:75-87 | isPositiveNum of the decimal numeral of a positive k is k |
| `Numerals.PositiveNumZeroIff` | Page.cpp:75-87 | isPositiveNum returns 0 exactly for the empty string, a string with a non-digit, or a numeral of value 0 |
| `Numerals.NumeralZeroIff` | Page.cpp:85-86 | a digit string has value 0 exactly when all its digits are '0' |
| `Numerals.FindCharSpec` | Page.cpp:95 | find(c) is the first index holding c, or npos when c does not occur |
| `Numerals.FindStrFromSpec` | Page.cpp:96 | find(str) is the first index where str occurs, or npos when it does not occur |
| `Numerals.Substr` | Page.cpp:97 | substr fails when the start lies past the end; otherwise it is the text from the start, at most len characters long |
| `Numerals.SubstrToEnd` | Page.cpp:97 | a length reaching past the end takes the rest of the string |
| `Pages.Page.constructor` | Page.cpp:44 | a new page has number 0, no choices, no text and no type |
| `Pages.Page.WithNumber` | Page.cpp:51 | a new page has the given number, no choices, no text and no type |
| `Pages.Page.IsPositiveNum` | Page.cpp:75-87 | the digit-scanning loop returns the value of a positive numeral and 0 for anything else |
| `Pages.Page.SetPageNum` | Page.cpp:94-102 | fails exactly when substr's start is out of range; otherwise sets the number read from the file name, and keeps the old number when that value is 0 |
| `Pages.Page.IsOption` | Page.cpp:111-123 | a line passes exactly when it has a ':' and a positive numeral before the first ':'; otherwise it fails with NoColon or BadChoiceNumber |
| `Pages.Page.AddChoice` | Page.cpp:130-137 | a valid line appends exactly one choice (text after the first ':', target before it); a failure leaves the choices unchanged |
| `Pages.Page.SetPageType` | Page.cpp:144-151 | an untyped page takes the type; the same type is accepted; a different type is a mixed-type error and keeps the old type |
| `Pages.Page.SetText` | Page.cpp:158-160 | the line is appended to the text |
| `Pages.Page.SetPage` | Page.cpp:167-209 | the line loop leaves choices, text and type as the parser specification gives them, and fails with the same error; an empty file is an error |
| `Pages.Page.GetChoices` | Page.cpp:216-223 | the target numbers of the choices, one per choice, in order |
| `Pages.OpenPage` | Page.cpp:58-67 | the file-name constructor: a fresh page, then setPageNum, then setPage, each failure being the result |
| `PageLaws.ParseChoiceSplit` | Page.cpp:130-136 | a line splits at its first ':'; the text may hold further ':' |
| `PageLaws.ParseChoiceOfDecimal` | Page.cpp:111-136 | a line "k:text" with k positive reads back as the choice (text, k) |
| `PageLaws.StepKeepsConsistent` | Page.cpp:175-197 | one line keeps the agreement between the choices and the CHOICE type |
| `PageLaws.RunKeepsConsistent` | Page.cpp:172-202 | the whole loop keeps that agreement |
| `PageLaws.ChoicesIffChoiceType` | Page.cpp:167-209 | a parsed page has choices exactly when its type is CHOICE |
| `PageLaws.LoadedPageShape` | Page.cpp:58-67 | a loaded page has choices exactly when its type is CHOICE |
| `PageLaws.FirstPound` | Page.cpp:189-191 | the index of the first '#' line: no earlier line starts with '#' |
| `PageLaws.RunInText` | Page.cpp:199-201 | after the '#' line every line, whatever it holds, is appended to the text |
| `PageLaws.NavigationStepKeepsText` | Page.cpp:175-197 | a navigation line leaves the text alone |
| `PageLaws.RunText` | Page.cpp:172-202 | the text collected is exactly the lines after the first '#' line |
| `PageLaws.TextAfterPound` | Page.cpp:167-209 | the text of a parsed page is exactly the lines after its first '#' line |
| `PageLaws.RunChoices` | Page.cpp:172-202 | the choices collected are the navigation lines other than WIN and LOSE, parsed in order |
| `PageLaws.ChoiceLineStep` | Page.cpp:176-197 | a WIN or LOSE line adds no choice; any other navigation line adds exactly its parsed choice |
| `PageLaws.ChoicesOfNavigation` | Page.cpp:167-209 | the choices of a parsed page are its navigation lines other than WIN and LOSE, each parsed, in order |
| `PageLaws.RunSplit` | Page.cpp:172-202 | the line loop can be cut at any point and resumed from the state reached |
| `PageLaws.RunNavigationStaysNavigation` | Page.cpp:175-197 | without a '#' line the loop never leaves the navigation section |
| `PageLaws.NavigationStateAt` | Page.cpp:172-197 | the state in which a navigation line is read is still in the navigation section |
| `PageLaws.EmptyNavigationLineFails` | Page.cpp:189-193 | an empty line before the '#' line makes setPage fail |
| `PageLaws.OutcomeLineEndsNavigation` | Page.cpp:176-197 | any navigation line after a WIN or LOSE line makes setPage fail |
| `PageLaws.RepeatedOutcomeFails` | Page.cpp:176-186 | a second WIN, or a second LOSE, in the navigation section makes setPage fail |
| `StoryGraph.SuccInRange` | CYOA.cpp:62-64 | in a story that passed the bound check, every choice leads to a page 1..N |
| `StoryGraph.DepthAttained` | CYOA.cpp:168-191 | every page with a depth is reached from page 1 by a walk of exactly that many choices |
| `StoryGraph.DepthAtMostWalk` | CYOA.cpp:168-191 | the end of every walk from page 1 has a depth no larger than the walk's number of choices |
| `StoryGraph.DepthIsDistance` | CYOA.cpp:168-191 | a depth map holds exactly the reachable pages, each with the least number of choices that reaches it |
| `StoryGraph.OccMembers` | CYOA.cpp:60-66 | one page's contribution to referenced[t-1] holds its own number exactly when it has a choice leading to t |
| `StoryGraph.RefsFromMembers` | CYOA.cpp:86-88 | p is in referenced[t-1] exactly when some page numbered p has a choice leading to t |
| `StoryGraph.RefsFromEmptyIff` | CYOA.cpp:123-127 | referenced[t-1] is empty exactly when no choice of any page leads to t |
| `StoryGraph.CountKindZero` | CYOA.cpp:111-121 | the count of pages of a type is zero exactly when no page has that type |
| `StoryGraph.LinkedRouteReachesWin` | CYOA.cpp:262-313 | a win route that follows the choices is a walk from page 1 to a reachable WIN page |
| `DepthSearch.InitialFrontier` | CYOA.cpp:172-175 | page 1 at depth 0 alone in the queue satisfies the search invariant |
| `DepthSearch.PopFront` | CYOA.cpp:177-182 | taking the front of the queue starts the scan of a page not yet finished |
| `DepthSearch.ScanStep` | CYOA.cpp:183-187 | one choice: a new target gets the current depth plus one and joins the queue; a known target changes nothing |
| `DepthSearch.ScanDone` | CYOA.cpp:181-188 | after all choices of the page, the queue invariant holds again, with the page finished |
| `DepthSearch.FrontierFinal` | CYOA.cpp:177-190 | when the queue is empty the map is a depth map of the story |
| `RouteSearch.InitialState` | CYOA.cpp:267-273 | the empty path with page 1 on the stack satisfies the search invariant |
| `RouteSearch.WeightDrops` | CYOA.cpp:274-311 | visiting a page lowers the termination measure of the search |
| `RouteSearch.PopStep` | CYOA.cpp:275-280 | popping the top frame and writing its choice number into the last path frame keeps the invariant |
| `RouteSearch.SkipStep` | CYOA.cpp:282 | a popped page already on the path keeps the invariant and shows that the story has a cycle |
| `RouteSearch.AppendStep` | CYOA.cpp:282-298 | appending a new page, its pending-choice counter and its children keeps the invariant; a WIN page without choices adds a win route |
| `RouteSearch.BacktrackStep` | CYOA.cpp:304-309 | dropping a finished last page and counting down its parent keeps the invariant |
| `RouteSearch.BacktrackTurn` | CYOA.cpp:304-309 | each backtracking turn leaves a prefix of the path the loop started from |
| `RouteSearch.VisitStep` | CYOA.cpp:275-298 | one visit of the top frame, as `Visited` describes it, keeps the invariant, leaves a non-empty path and lowers the termination measure |
| `RouteSearch.VisitPopped` | CYOA.cpp:282-298 | after the pop, skipping a page on the path or appending a new one keeps the invariant and lowers the measure by less than the popped frame's share |
| `RouteSearch.OverwriteHasFrame` | CYOA.cpp:278-282 | writing the choice number into the last path frame does not change which pages are on the path |
| `RouteSearch.CoverStart` | CYOA.cpp:271-273 | at the start, page 1 waits on the stack and nothing is visited |
| `RouteSearch.CoverTurn` | CYOA.cpp:274-311 | after one turn, every choice of a visited page leads to a visited page or one waiting on the stack, and a visited WIN page without choices has produced a route |
| `RouteSearch.CoverReaches` | CYOA.cpp:274-311 | once the stack is empty, every page on a walk from page 1 has been visited |
| `RouteSearch.CoverFinds` | CYOA.cpp:274-312 | once the stack is empty, at least one route was recorded if a WIN page without choices is reachable |
| `Story.FileName` | CYOA.cpp:36-39 | the name starts with the directory and "/page" and ends with ".txt", and isPositiveNum reads the text between them back as the page number |
| `Story.FileNameRoundTrip` | CYOA.cpp:36-39 | for a directory with neither '.' nor "page", setPageNum reads k back from the file name of page k |
| `Story.DottedDirectoryKeepsZero` | Page.cpp:94-102 | for a directory name holding '.' but not "page" (and short enough that no position wraps), setPageNum reads a non-numeral and the page number stays 0 |
| `Story.CollectOk` | CYOA.cpp:79-84 | loading succeeds exactly when every page file loads |
| `Story.CollectShape` | CYOA.cpp:79-84 | the loaded pages are the pages of the files, one per file, in order |
| `Story.SaveStoryShape` | CYOA.cpp:74-89 | a saved story has page 1, one page per file, every choice inside the story, and page k numbered k for a plain directory name |
| `Story.SavedWinLeaf` | CYOA.cpp:74-89 | in a saved story a WIN page has no choices, so a reachable WIN page is one where getWinRoute records a route |
| `Story.VerdictOutcomes` | CYOA.cpp:110-122 | checkPages reports a missing outcome exactly when no page is WIN or no page is LOSE |
| `Story.VerdictOrphans` | CYOA.cpp:123-127 | with both outcomes present, checkPages fails exactly when some page 2..N is the target of no choice, and passes otherwise |
| `Story.OrphanIff` | CYOA.cpp:123-127 | an empty list past page 1 in the table is exactly a page 2..N that no choice leads to |
| `Story.SelfReferenceCounts` | CYOA.cpp:58-66 | a page with a choice leading to itself has a non-empty list |
| `Story.OpenStoryValid` | CYOA.cpp:18-22 | an opened story is well formed, has a WIN page and a LOSE page, and every page 2..N is referenced |
| `Story.WinnableIffDepth` | CYOA.cpp:219-237 | a WIN page is reachable exactly when some WIN page has a depth |
| `Story.ValidChoiceIff` | CYOA.cpp:97-104 | in a checked story, the typed text is accepted exactly when it is the number of a choice of the current page, and the page returned is that choice's target |
| `Story.ValidChoiceOfDecimal` | CYOA.cpp:97-104 | typing the decimal number k selects the target of the current page's k-th choice |
| `Story.Open` | CYOA.cpp:18-22 | the constructor fails exactly when loading or checking the story fails, with that error; otherwise it holds the pages, their reverse index, and page 1 as the current page |
| `Story.Cyoa.constructor` | CYOA.cpp:18 | the members start empty, with the story name set |
| `Story.Cyoa.AddReferenced` | CYOA.cpp:58-67 | fails exactly when a choice leads past the last page; otherwise appends the page's number to referenced[t-1] once per choice leading to t |
| `Story.Cyoa.SavePages` | CYOA.cpp:74-89 | loading fails exactly when the story specification fails, with its error; otherwise the pages, their count and the reverse index are those of the files |
| `Story.Cyoa.LoadPages` | CYOA.cpp:79-84 | the first file that fails to load is the failure of the whole story; otherwise one page per file, in order, and the story is saved exactly when every choice stays inside it |
| `Story.Cyoa.BuildReferenced` | CYOA.cpp:85-88 | the table has one list per page; it is built exactly when every choice stays in the story, and is then the reverse index of the pages |
| `Story.Cyoa.CheckPages` | CYOA.cpp:110-128 | the counting and scanning loops give the verdict: a missing outcome first, then an unreferenced page |
| `Story.Cyoa.SetCurrent` | CYOA.cpp:135-138 | the current page becomes pn and the current choices its targets |
| `Story.Cyoa.IsValidChoice` | CYOA.cpp:97-104 | a non-zero answer is a page of the story that is the target of the typed choice number |
| `Story.Cyoa.GetPageDepth` | CYOA.cpp:168-191 | the breadth-first search returns a depth map: exactly the reachable pages, each with its least number of choices from page 1 |
| `Story.Cyoa.VisitChoices` | CYOA.cpp:181-188 | the inner loop scans every choice of the popped page and keeps the search invariant |
| `Story.Cyoa.HasWin` | CYOA.cpp:219-237 | true exactly when a WIN page is reachable from page 1 |
| `Story.Cyoa.Turn` | CYOA.cpp:275-311 | one turn keeps the invariant and lowers the termination measure; the stack loses its top frame and gains that page's choices exactly when the page was not on the path; the new path is a prefix of the visited one; the routes only grow, by the visited path exactly when it ends at a WIN page without choices |
| `Story.Cyoa.Visit` | CYOA.cpp:275-298 | a page already on the path changes only the last frame's choice number; a new page is appended, its choices pushed, its counter set to its number of choices, and the path recorded when it is a WIN page without choices |
| `Story.Cyoa.Pop` | CYOA.cpp:275-282 | the top frame is taken off the stack, its choice number written into the last path frame, and whether its page is on the path is reported |
| `Story.Cyoa.Descend` | CYOA.cpp:282-298 | the page is appended to the path, one frame per choice is pushed in choice order, its counter is its number of choices, and the path becomes a route exactly at a WIN page without choices |
| `Story.Cyoa.PushChoices` | CYOA.cpp:294-296 | one frame (target, choice number) per choice, in choice order, on top of the stack |
| `Story.Cyoa.Retreat` | CYOA.cpp:303-310 | the backtracking loop shortens the path to a prefix whose last page still has a choice to explore |
| `Story.Cyoa.HasPage` | CYOA.cpp:247-255 | true exactly when the page occurs on the path |
| `Story.Cyoa.GetWinRoute` | CYOA.cpp:262-313 | an Unwinnable error exactly when no WIN page is reachable; otherwise every route returned is a win route (from page 1, no page twice, ending at a WIN page without choices), and follows the recorded choices when the story has no cycle; when a WIN page without choices is reachable, at least one route is returned |

## Left out

- Probing and opening files (`hasFile`, `openFile`, the `eof` check of setPage): the files are given as sequences of lines. A read error cannot be expressed.
- `readCYOA`, `printPage`, `printDepth` and `printStrategy`: they are the interactive reading loop and the printing around the modelled operations.
- `argumentCheck` and the printing part of `findError`: they concern the command line and the error message, which becomes an error kind here.
- `atoi` overflow and the conversion of its `size_t` result to `int` in isPositiveNum: numerals are unbounded naturals here.
- The default `CYOA()` constructor (CYOA.cpp:12), which passes NULL to `std::string` and sets `current_page` to NULL, and the pointer itself: the current page is kept as its number, `current`, next to `currentChoices`.
- Bytes: `std::string` holds bytes, while `string` here holds characters, so positions and the 2^64 - 17 bound of `Story.DottedDirectoryKeepsZero` count characters rather than bytes. Every separator the code looks for (`/`, `page`, `.`, `:`, `#`, digits) is ASCII, so nothing the code observes changes.
- The state left behind by a fatal error: the program exits, so the model returns the error and leaves that state unspecified.
- `Story.Cyoa.GetWinRoute`: completeness is stated only as a non-empty result when a WIN page without choices is reachable (`Story.SavedWinLeaf` gives one in a saved winnable story), not as every win route being found. On a cyclic story the code itself can miss routes. A page skipped because it is already on the path does not count down its parent, so the parent stays on the path, and a later visit to it through another branch is skipped too. For example, take page 1 choosing 3 then 2, page 2 choosing 1 then WIN page 4, and page 3 choosing 2 then LOSE page 5: the route 1, 3, 2, 4 is not returned. A route is proved to follow the recorded choice numbers only for a story without cycles, for the same reason.
- `Story.Cyoa.IsValidChoice`: its own contract gives one direction only; `Story.ValidChoiceIff` states the equivalence for a checked story with the current page set.
- `Story.FileNameRoundTrip`: proved only for directory names holding neither '.' nor "page" and short enough that no `size_t` position wraps.
- `Story.Cyoa.SavePages`: the files are the pages 1..N, so the story ends at the first missing file by construction. A gap in the numbering is not modelled.
