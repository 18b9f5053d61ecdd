/** What the line parser of Page.cpp guarantees: how a choice line is split, that a
    parsed page has choices exactly when it is a CHOICE page, which lines become
    choices and which become text, and which navigation sections are rejected. */
module PageLaws {
  import opened Errors
  import opened Numerals
  import opened Pages

  // ---------------------------------------------------------------------------
  // Choice lines

  /** A line with a ':' splits at its first ':'; the text part may hold more ':'. */
  lemma ParseChoiceSplit(prefix: string, text: string)
    requires ':' !in prefix
    requires |prefix| < NPOS  // every std::string is shorter than npos
    ensures ParseChoice(prefix + [':'] + text) ==
      if PositiveNum(prefix) == 0 then Err(BadChoiceNumber) else Ok(ChoiceItem(text, PositiveNum(prefix)))
  {
    var line := prefix + [':'] + text;
    assert line[|prefix|] == ':';
    var colon := FindChar(line, ':');
    FindCharSpec(line, ':');
    assert line[..|prefix|] == prefix;
    assert colon == |prefix|;
    assert line[..colon] == prefix;
    assert line[colon + 1..] == text;
  }

  /** A choice line written as "<k>:<text>" for a positive k reads back as (text, k). */
  lemma ParseChoiceOfDecimal(k: nat, text: string)
    requires 1 <= k < NPOS
    ensures ParseChoice(Decimal(k) + [':'] + text) == Ok(ChoiceItem(text, k))
  {
    var d := Decimal(k);
    assert ':' !in d;
    PositiveNumOfDecimal(k);
    ParseChoiceSplit(d, text);
  }

  // ---------------------------------------------------------------------------
  // Choices and type agree

  /** A page has choices exactly when its type is CHOICE. */
  ghost predicate Consistent(st: ParseState)
  {
    st.choices != [] <==> st.kind == Choice
  }

  lemma StepKeepsConsistent(st: ParseState, line: string)
    requires Consistent(st)
    ensures Step(st, line).Ok? ==> Consistent(Step(st, line).value)
  {
  }

  lemma {:induction false} RunKeepsConsistent(st: ParseState, lines: seq<string>)
    requires Consistent(st)
    ensures Run(st, lines).Ok? ==> Consistent(Run(st, lines).value)
    decreases |lines|
  {
    if lines != [] {
      StepKeepsConsistent(st, lines[0]);
      if Step(st, lines[0]).Ok? {
        RunKeepsConsistent(Step(st, lines[0]).value, lines[1..]);
      }
    }
  }

  /** After a successful setPage on a fresh page, the page has choices exactly when
      it is a CHOICE page; WIN and LOSE pages have none. */
  lemma ChoicesIffChoiceType(lines: seq<string>)
    ensures ParseLines(Fresh, lines).Ok? ==>
      (ParseLines(Fresh, lines).value.choices != [] <==> ParseLines(Fresh, lines).value.kind == Choice)
  {
    if lines != [] {
      RunKeepsConsistent(Fresh, lines);
    }
  }

  /** A page built by the Page(file_name) constructor has choices exactly when it
      is a CHOICE page. */
  lemma LoadedPageShape(fileName: string, lines: seq<string>)
    ensures LoadPage(fileName, lines).Ok? ==>
      (LoadPage(fileName, lines).value.choices != [] <==> LoadPage(fileName, lines).value.kind == Choice)
  {
    ChoicesIffChoiceType(lines);
  }

  // ---------------------------------------------------------------------------
  // Navigation section and text

  /** The index of the first line starting with '#', or the number of lines. */
  function FirstPound(lines: seq<string>): (h: nat)
    ensures h <= |lines|
    ensures h < |lines| ==> IsPoundLine(lines[h])
    ensures forall j :: 0 <= j < h ==> !IsPoundLine(lines[j])
    decreases |lines|
  {
    if lines == [] then 0
    else if IsPoundLine(lines[0]) then 0
    else 1 + FirstPound(lines[1..])
  }

  /** The lines before the first '#' line. */
  function Navigation(lines: seq<string>): seq<string>
  {
    lines[..FirstPound(lines)]
  }

  /** The lines after the first '#' line; none when there is no such line. */
  function TextPart(lines: seq<string>): seq<string>
  {
    if FirstPound(lines) < |lines| then lines[FirstPound(lines) + 1..] else []
  }

  /** The navigation lines that are neither WIN nor LOSE, in order. */
  function ChoiceLines(nav: seq<string>): seq<string>
    decreases |nav|
  {
    if nav == [] then []
    else (if nav[0] == "WIN" || nav[0] == "LOSE" then [] else [nav[0]]) + ChoiceLines(nav[1..])
  }

  /** The choices the given lines parse to, in order (lines that do not parse are
      dropped; the lemmas below only use this when all of them parse). */
  function ParsedChoices(ls: seq<string>): seq<ChoiceItem>
    decreases |ls|
  {
    if ls == [] then []
    else (if ParseChoice(ls[0]).Ok? then [ParseChoice(ls[0]).value] else []) + ParsedChoices(ls[1..])
  }

  lemma {:induction false} RunInText(st: ParseState, lines: seq<string>)
    requires st.inText
    ensures Run(st, lines) == Ok(st.(text := st.text + lines))
    decreases |lines|
  {
    if lines != [] {
      var next := st.(text := st.text + [lines[0]]);
      assert Run(st, lines) == Run(next, lines[1..]);
      RunInText(next, lines[1..]);
      assert next.text + lines[1..] == st.text + lines;
    } else {
      assert st.text + lines == st.text;
    }
  }

  /** Before the '#' line, a line that is not '#' keeps the text and stays in the
      navigation section. */
  lemma NavigationStepKeepsText(st: ParseState, line: string)
    requires !st.inText && !IsPoundLine(line)
    ensures Step(st, line).Ok? ==> !Step(st, line).value.inText && Step(st, line).value.text == st.text
  {
  }

  lemma {:induction false} RunText(st: ParseState, lines: seq<string>)
    requires !st.inText
    ensures Run(st, lines).Ok? ==> Run(st, lines).value.text == st.text + TextPart(lines)
    decreases |lines|
  {
    if lines != [] && Run(st, lines).Ok? {
      if IsPoundLine(lines[0]) {
        RunInText(st.(inText := true), lines[1..]);
      } else {
        NavigationStepKeepsText(st, lines[0]);
        var next := Step(st, lines[0]).value;
        RunText(next, lines[1..]);
        assert FirstPound(lines) == 1 + FirstPound(lines[1..]);
        if FirstPound(lines) < |lines| {
          assert lines[FirstPound(lines) + 1..] == lines[1..][FirstPound(lines[1..]) + 1..];
        }
      }
    }
  }

  /** Every line after the first '#' line, even "WIN" or another '#' line, is
      appended to the text verbatim and in order; the '#' line itself is dropped. */
  lemma TextAfterPound(lines: seq<string>)
    ensures ParseLines(Fresh, lines).Ok? ==> ParseLines(Fresh, lines).value.text == TextPart(lines)
  {
    if lines != [] {
      RunText(Fresh, lines);
    }
  }

  lemma {:induction false} RunChoices(st: ParseState, lines: seq<string>)
    requires !st.inText
    ensures Run(st, lines).Ok? ==>
      (forall l :: l in ChoiceLines(Navigation(lines)) ==> ParseChoice(l).Ok?) &&
      Run(st, lines).value.choices == st.choices + ParsedChoices(ChoiceLines(Navigation(lines)))
    decreases |lines|
  {
    if lines != [] && Run(st, lines).Ok? {
      if IsPoundLine(lines[0]) {
        RunInText(st.(inText := true), lines[1..]);
        assert Navigation(lines) == [];
      } else {
        NavigationStepKeepsText(st, lines[0]);
        var next := Step(st, lines[0]).value;
        RunChoices(next, lines[1..]);
        ChoiceLineStep(st, lines);
        var rest := ChoiceLines(Navigation(lines[1..]));
        if lines[0] != "WIN" && lines[0] != "LOSE" {
          assert ([lines[0]] + rest)[1..] == rest;
        }
      }
    }
  }

  /** A navigation line before the '#' line: WIN and LOSE leave the choices alone,
      any other line is a choice line and appends its parsed choice. */
  lemma ChoiceLineStep(st: ParseState, lines: seq<string>)
    requires lines != [] && !IsPoundLine(lines[0]) && !st.inText && Step(st, lines[0]).Ok?
    ensures var next, rest := Step(st, lines[0]).value, ChoiceLines(Navigation(lines[1..]));
      if lines[0] == "WIN" || lines[0] == "LOSE" then
        ChoiceLines(Navigation(lines)) == rest && next.choices == st.choices
      else
        ChoiceLines(Navigation(lines)) == [lines[0]] + rest && ParseChoice(lines[0]).Ok? &&
        next.choices == st.choices + [ParseChoice(lines[0]).value]
  {
    var nav := Navigation(lines);
    assert nav == [lines[0]] + Navigation(lines[1..]);
    assert nav[0] == lines[0] && nav[1..] == Navigation(lines[1..]);
  }

  /** Each navigation line other than WIN and LOSE becomes exactly one choice, in
      order: the choices of a parsed page are those lines, each split at its first ':'. */
  lemma ChoicesOfNavigation(lines: seq<string>)
    ensures ParseLines(Fresh, lines).Ok? ==>
      (forall l :: l in ChoiceLines(Navigation(lines)) ==> ParseChoice(l).Ok?) &&
      ParseLines(Fresh, lines).value.choices == ParsedChoices(ChoiceLines(Navigation(lines)))
  {
    if lines != [] {
      RunChoices(Fresh, lines);
    }
  }

  // ---------------------------------------------------------------------------
  // Rejected navigation sections

  function Then(r: Result<ParseState>, lines: seq<string>): Result<ParseState>
  {
    match r
    case Err(e) => Err(e)
    case Ok(m) => Run(m, lines)
  }

  /** The line loop over lines can be cut at any point i. */
  lemma {:induction false} RunSplit(st: ParseState, lines: seq<string>, i: nat)
    requires i <= |lines|
    ensures Run(st, lines) == Then(Run(st, lines[..i]), lines[i..])
    decreases i
  {
    if i > 0 {
      assert lines[..i][0] == lines[0];
      assert lines[..i][1..] == lines[1..][..i - 1];
      assert lines[i..] == lines[1..][i - 1..];
      match Step(st, lines[0])
      case Err(e) =>
      case Ok(next) => RunSplit(next, lines[1..], i - 1);
    }
  }

  lemma {:induction false} RunNavigationStaysNavigation(st: ParseState, lines: seq<string>)
    requires !st.inText
    requires forall j :: 0 <= j < |lines| ==> !IsPoundLine(lines[j])
    ensures Run(st, lines).Ok? ==> !Run(st, lines).value.inText
    decreases |lines|
  {
    if lines != [] {
      NavigationStepKeepsText(st, lines[0]);
      if Step(st, lines[0]).Ok? {
        RunNavigationStaysNavigation(Step(st, lines[0]).value, lines[1..]);
      }
    }
  }

  /** The state in which the navigation line lines[i] is read, when the loop gets
      that far: still in the navigation section, and consistent. */
  lemma NavigationStateAt(lines: seq<string>, i: nat)
    requires i < FirstPound(lines)
    ensures Run(Fresh, lines) == Then(Run(Fresh, lines[..i]), lines[i..])
    ensures Run(Fresh, lines[..i]).Ok? ==>
      !Run(Fresh, lines[..i]).value.inText && Consistent(Run(Fresh, lines[..i]).value)
  {
    RunSplit(Fresh, lines, i);
    RunNavigationStaysNavigation(Fresh, lines[..i]);
    RunKeepsConsistent(Fresh, lines[..i]);
  }

  /** An empty line in the navigation section is an error: it is read as a choice
      without a colon. */
  lemma EmptyNavigationLineFails(lines: seq<string>, i: nat)
    requires i < FirstPound(lines) && lines[i] == ""
    ensures ParseLines(Fresh, lines).Err?
  {
    NavigationStateAt(lines, i);
    assert lines[i..][0] == "";
    assert FindChar("", ':') == NPOS;
  }

  /** A WIN or LOSE line must be the last line of the navigation section: any
      further navigation line (a second WIN or LOSE, the other of the two, or a
      choice) is an error. */
  lemma OutcomeLineEndsNavigation(lines: seq<string>, i: nat)
    requires i + 1 < FirstPound(lines)
    requires lines[i] == "WIN" || lines[i] == "LOSE"
    ensures ParseLines(Fresh, lines).Err?
  {
    NavigationStateAt(lines, i);
    NavigationStateAt(lines, i + 1);
    assert lines[..i + 1] == lines[..i] + [lines[i]];
    RunSplit(Fresh, lines[..i + 1], i);
    assert lines[..i + 1][..i] == lines[..i];
    assert lines[..i + 1][i..] == [lines[i]];
    var r := Run(Fresh, lines[..i + 1]);
    if r.Ok? {
      var m0 := Run(Fresh, lines[..i]).value;
      var m := r.value;
      assert Run(m0, [lines[i]]) == Then(Step(m0, lines[i]), []);
      assert m == Step(m0, lines[i]).value;
      assert m.kind == Win || m.kind == Lose;
      assert lines[i + 1..][0] == lines[i + 1];
      assert !IsPoundLine(lines[i + 1]);
      assert Step(m, lines[i + 1]).Err?;
    }
  }

  /** In particular, a second WIN (or a second LOSE) in the navigation section is an error. */
  lemma RepeatedOutcomeFails(lines: seq<string>, i: nat, j: nat)
    requires i < j < FirstPound(lines)
    requires (lines[i] == "WIN" && lines[j] == "WIN") || (lines[i] == "LOSE" && lines[j] == "LOSE")
    ensures ParseLines(Fresh, lines).Err?
  {
    OutcomeLineEndsNavigation(lines, i);
  }
}
