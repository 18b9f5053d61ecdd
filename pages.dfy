/** One page of a story (Page.cpp): its number, taken from the file name, its
    ordered choices, its narrative text and its type.

    A page file is a list of lines. The lines before the first line that starts
    with '#' are the navigation section: a line "WIN" or "LOSE" gives the page
    that type, and every other line is a choice "<number>:<text>"; the first
    choice makes the page a CHOICE page. The '#' line itself is dropped and every
    later line is narrative text, kept verbatim. */
module Pages {
  import opened Errors
  import opened Numerals

  /** The page type; NoType is the type of a page before any line set it. */
  datatype Kind = NoType | Choice | Win | Lose

  /** Page numbers named by choices are positive numerals. */
  type PageNumber = n: nat | n >= 1 witness 1

  /** One choice: its display text and the number of the page it leads to. */
  datatype ChoiceItem = ChoiceItem(text: string, target: PageNumber)

  /** The value of a Page object. */
  datatype PageRecord = PageRecord(pagination: nat, choices: seq<ChoiceItem>, text: seq<string>, kind: Kind)

  /** The target page numbers of a list of choices, in order. */
  function Targets(choices: seq<ChoiceItem>): seq<nat>
  {
    seq(|choices|, i requires 0 <= i < |choices| => choices[i].target as nat)
  }

  // ---------------------------------------------------------------------------
  // Specification of the page operations, as functions of the inputs

  /** What setPageNum computes from a file name: the characters between the end of
      the first "page" and the first '.', read by isPositiveNum (0 means that the
      number is left as it was). Positions and the length are size_t values, so a
      missing "page" or a '.' before it wraps around; substr fails when its start
      lies past the end of the name. */
  function PageNumberOf(fileName: string): Result<nat>
  {
    var period := FindChar(fileName, '.');
    var beforeNum := SizeT(FindStr(fileName, "page") + 4);
    match Substr(fileName, beforeNum, SizeT(period - beforeNum))
    case Err(e) => Err(e)
    case Ok(digits) => Ok(PositiveNum(digits))
  }

  /** The page number is the value of the text between "page" and the first '.'. */
  lemma PageNumberOfText(fileName: string, beforeNum: nat, len: nat, digits: string)
    requires beforeNum == SizeT(FindStr(fileName, "page") + 4)
    requires len == SizeT(FindChar(fileName, '.') - beforeNum)
    requires Substr(fileName, beforeNum, len) == Ok(digits)
    ensures PageNumberOf(fileName) == Ok(PositiveNum(digits))
  {
  }

  /** What isOption and addChoice make of a navigation line: it needs a ':', the
      text before the first ':' must be a positive numeral, and the choice text is
      everything after that ':'. */
  function ParseChoice(line: string): Result<ChoiceItem>
  {
    var colon := FindChar(line, ':');
    if colon == NPOS then Err(NoColon)
    else
      var number := PositiveNum(line[..colon]);
      if number == 0 then Err(BadChoiceNumber)
      else Ok(ChoiceItem(line[colon + 1..], number))
  }

  /** What setPageType does to the current type: an untyped page takes the new
      type, the same type again is accepted, any other type is a mixed page. */
  function SetType(current: Kind, k: Kind): Result<Kind>
  {
    if current == NoType then Ok(k)
    else if current != k then Err(MixedType)
    else Ok(current)
  }

  predicate IsPoundLine(line: string) { |line| > 0 && line[0] == '#' }

  /** The state of the line loop of setPage: whether the '#' line was seen, and
      the three fields it fills. */
  datatype ParseState = ParseState(inText: bool, choices: seq<ChoiceItem>, text: seq<string>, kind: Kind)

  const Fresh := ParseState(false, [], [], NoType)

  /** One turn of the line loop of setPage. */
  function Step(st: ParseState, line: string): Result<ParseState>
  {
    if st.inText then Ok(st.(text := st.text + [line]))
    else if line == "WIN" then
      if st.kind == Win then Err(RedundantWin)
      else match SetType(st.kind, Win)
        case Err(e) => Err(e)
        case Ok(k) => Ok(st.(kind := k))
    else if line == "LOSE" then
      if st.kind == Lose then Err(RedundantLose)
      else match SetType(st.kind, Lose)
        case Err(e) => Err(e)
        case Ok(k) => Ok(st.(kind := k))
    else if IsPoundLine(line) then Ok(st.(inText := true))
    else match ParseChoice(line)
      case Err(e) => Err(e)
      case Ok(c) =>
        var cs := st.choices + [c];
        if |cs| == 1 then
          match SetType(st.kind, Choice)
          case Err(e) => Err(e)
          case Ok(k) => Ok(st.(choices := cs, kind := k))
        else Ok(st.(choices := cs))
  }

  /** The line loop of setPage over all lines; the first error ends it. */
  function Run(st: ParseState, lines: seq<string>): Result<ParseState>
    decreases |lines|
  {
    if lines == [] then Ok(st)
    else match Step(st, lines[0])
      case Err(e) => Err(e)
      case Ok(next) => Run(next, lines[1..])
  }

  /** setPage: the line loop, then the empty-file check. */
  function ParseLines(start: ParseState, lines: seq<string>): Result<ParseState>
  {
    if lines == [] then Err(EmptyPage) else Run(start, lines)
  }

  /** The Page(file_name) constructor: a fresh page, setPageNum, then setPage. */
  function LoadPage(fileName: string, lines: seq<string>): Result<PageRecord>
  {
    match PageNumberOf(fileName)
    case Err(e) => Err(e)
    case Ok(pn) =>
      match ParseLines(Fresh, lines)
      case Err(e) => Err(e)
      case Ok(st) => Ok(PageRecord(pn, st.choices, st.text, st.kind))
  }

  /** A loaded page carries the number read from its file name. */
  lemma LoadPageNumber(fileName: string, lines: seq<string>)
    requires LoadPage(fileName, lines).Ok?
    ensures PageNumberOf(fileName).Ok? && LoadPage(fileName, lines).value.pagination == PageNumberOf(fileName).value
  {
  }

  // ---------------------------------------------------------------------------
  // The Page class

  class Page {
    var pagination: nat
    var choices: seq<ChoiceItem>
    var text: seq<string>
    var kind: Kind

    function Record(): PageRecord
      reads this
    {
      PageRecord(pagination, choices, text, kind)
    }

    constructor ()
      ensures Record() == PageRecord(0, [], [], NoType)
    {
      pagination, choices, text, kind := 0, [], [], NoType;
    }

    constructor WithNumber(pn: nat)
      ensures Record() == PageRecord(pn, [], [], NoType)
    {
      pagination, choices, text, kind := pn, [], [], NoType;
    }

    /** Page::isPositiveNum. */
    static method IsPositiveNum(content: string) returns (n: nat)
      ensures n == PositiveNum(content)
    {
      if |content| == 0 {
        return 0;
      }
      var i := 0;
      while i < |content|
        invariant 0 <= i <= |content|
        invariant AllDigits(content[..i])
      {
        if !IsDigit(content[i]) {
          return 0;
        }
        i := i + 1;
      }
      assert content[..i] == content;
      var number := NumeralValue(content);
      n := if number >= 1 then number else 0;
    }

    /** Page::setPageNum. */
    method SetPageNum(fileName: string) returns (o: Outcome)
      modifies this`pagination
      ensures o.Pass? <==> PageNumberOf(fileName).Ok?
      ensures o.Fail? ==> o.error == SubstrOutOfRange
      ensures pagination ==
        if o.Pass? && PageNumberOf(fileName).value != 0 then PageNumberOf(fileName).value else old(pagination)
    {
      var period := FindChar(fileName, '.');
      var beforeNum := SizeT(FindStr(fileName, "page") + 4);
      var len := SizeT(period as int - beforeNum as int);
      var pnStr := Substr(fileName, beforeNum, len);
      if pnStr.Err? {
        return Fail(pnStr.error);
      }
      PageNumberOfText(fileName, beforeNum, len, pnStr.value);
      var pn := IsPositiveNum(pnStr.value);
      if pn != 0 {
        pagination := pn;
      }
      o := Pass;
    }

    /** Page::isOption. */
    static method IsOption(str: string) returns (o: Outcome)
      ensures o.Pass? <==> ParseChoice(str).Ok?
      ensures o.Fail? ==> o.error == ParseChoice(str).error
    {
      var findColon := FindChar(str, ':');
      if findColon == NPOS {
        return Fail(NoColon);
      }
      var pn := IsPositiveNum(str[..findColon]);
      if pn == 0 {
        return Fail(BadChoiceNumber);
      }
      o := Pass;
    }

    /** Page::addChoice. */
    method AddChoice(str: string) returns (o: Outcome)
      modifies this`choices
      ensures o.Pass? <==> ParseChoice(str).Ok?
      ensures o.Pass? ==> choices == old(choices) + [ParseChoice(str).value]
      ensures o.Fail? ==> o.error == ParseChoice(str).error && choices == old(choices)
    {
      o := IsOption(str);
      if o.Fail? {
        return;
      }
      var colon := FindChar(str, ':');
      var pn := NumeralValue(str[..colon]);
      var choiceText := str[colon + 1..];
      choices := choices + [ChoiceItem(choiceText, pn)];
    }

    /** Page::setPageType. */
    method SetPageType(k: Kind) returns (o: Outcome)
      modifies this`kind
      ensures old(kind) == NoType ==> o.Pass? && kind == k
      ensures old(kind) == k ==> o.Pass? && kind == k
      ensures old(kind) != NoType && old(kind) != k ==> o == Fail(MixedType) && kind == old(kind)
      ensures o.Pass? <==> SetType(old(kind), k) == Ok(kind)
    {
      if kind == NoType {
        kind := k;
      } else if kind != k {
        return Fail(MixedType);
      }
      o := Pass;
    }

    /** Page::setText. */
    method SetText(line: string)
      modifies this`text
      ensures text == old(text) + [line]
    {
      text := text + [line];
    }

    /** Page::setPage, over the lines of the page file. */
    method SetPage(lines: seq<string>) returns (o: Outcome)
      modifies this`choices, this`text, this`kind
      ensures var r := ParseLines(ParseState(false, old(choices), old(text), old(kind)), lines);
        (o.Pass? <==> r.Ok?) &&
        (o.Pass? ==> choices == r.value.choices && text == r.value.text && kind == r.value.kind) &&
        (o.Fail? ==> o.error == r.error)
    {
      ghost var start := ParseState(false, choices, text, kind);
      var poundSign := false;
      var emptyFile := true;
      var i := 0;
      while i < |lines|
        invariant 0 <= i <= |lines|
        invariant emptyFile <==> i == 0
        invariant Run(start, lines) == Run(ParseState(poundSign, choices, text, kind), lines[i..])
      {
        var line := lines[i];
        assert lines[i..][1..] == lines[i + 1..];
        emptyFile := false;
        if !poundSign {
          if line == "WIN" {
            if kind == Win {
              return Fail(RedundantWin);
            }
            o := SetPageType(Win);
            if o.Fail? {
              return;
            }
          } else if line == "LOSE" {
            if kind == Lose {
              return Fail(RedundantLose);
            }
            o := SetPageType(Lose);
            if o.Fail? {
              return;
            }
          } else {
            if IsPoundLine(line) {
              poundSign := true;
              i := i + 1;
              continue;
            }
            o := AddChoice(line);
            if o.Fail? {
              return;
            }
            if |choices| == 1 {
              o := SetPageType(Choice);
              if o.Fail? {
                return;
              }
            }
          }
        } else {
          SetText(line);
        }
        i := i + 1;
      }
      if emptyFile {
        return Fail(EmptyPage);
      }
      o := Pass;
    }

    /** Page::getChoices: the target numbers of the choices, text left out. */
    method GetChoices() returns (res: seq<nat>)
      ensures |res| == |choices|
      ensures forall i :: 0 <= i < |choices| ==> res[i] == choices[i].target
    {
      res := [];
      var i := 0;
      while i < |choices|
        invariant 0 <= i <= |choices|
        invariant |res| == i
        invariant forall j :: 0 <= j < i ==> res[j] == choices[j].target
      {
        res := res + [choices[i].target];
        i := i + 1;
      }
    }

    /** Page::getPageNum. */
    function GetPageNum(): nat
      reads this
    {
      pagination
    }

    /** Page::getType. */
    function GetType(): Kind
      reads this
    {
      kind
    }
  }

  /** The Page(file_name) constructor over the name and the lines of the file. */
  method OpenPage(fileName: string, lines: seq<string>) returns (r: Result<PageRecord>)
    ensures r == LoadPage(fileName, lines)
  {
    var page := new Page();
    var o := page.SetPageNum(fileName);
    if o.Fail? {
      return Err(o.error);
    }
    o := page.SetPage(lines);
    if o.Fail? {
      return Err(o.error);
    }
    r := Ok(page.Record());
  }
}
