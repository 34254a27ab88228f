/** The interactive "process steps" accordion of the solutions page: each
    step is expanded or collapsed, its header carries an aria-expanded flag,
    and an optional "Expand All / Collapse All" button keeps an
    `allExpanded` flag and a caption. */
module ProcessSteps {
  import opened Wrappers

  datatype Step = Step(expanded: bool, ariaExpanded: bool)

  /** The text the expand-all button shows. */
  datatype ButtonLabel = ExpandAllSteps | CollapseAllSteps

  datatype Process = Process(steps: seq<Step>, hasButton: bool, allExpanded: bool, caption: ButtonLabel)

  predicate AllExpanded(steps: seq<Step>)
  {
    forall i :: 0 <= i < |steps| ==> steps[i].expanded
  }

  predicate NoneExpanded(steps: seq<Step>)
  {
    forall i :: 0 <= i < |steps| ==> !steps[i].expanded
  }

  /** Every header's aria-expanded agrees with its step. */
  predicate AriaSynced(steps: seq<Step>)
  {
    forall i :: 0 <= i < |steps| ==> steps[i].ariaExpanded == steps[i].expanded
  }

  /** The accordion shape: no two steps are expanded together. */
  predicate AtMostOneExpanded(steps: seq<Step>)
  {
    forall i, j :: 0 <= i < |steps| && 0 <= j < |steps| && steps[i].expanded && steps[j].expanded ==> i == j
  }

  /** The button, when present, agrees with the steps. */
  predicate ButtonAgrees(pr: Process)
  {
    pr.hasButton ==>
      (pr.allExpanded <==> AllExpanded(pr.steps)) &&
      (pr.caption == CollapseAllSteps <==> AllExpanded(pr.steps))
  }

  /** The number of expanded steps (the `.process-step.expanded` query). */
  function ExpandedCount(steps: seq<Step>): (n: nat)
    ensures n <= |steps|
  {
    if |steps| == 0 then 0
    else (if steps[0].expanded then 1 else 0) + ExpandedCount(steps[1..])
  }

  /** Counting expanded steps up to the total is the same as every step
      being expanded. */
  lemma {:induction false} ExpandedCountFull(steps: seq<Step>)
    ensures ExpandedCount(steps) == |steps| <==> AllExpanded(steps)
    decreases |steps|
  {
    if |steps| > 0 {
      ExpandedCountFull(steps[1..]);
      if AllExpanded(steps) {
        assert AllExpanded(steps[1..]) by {
          forall i | 0 <= i < |steps[1..]| ensures steps[1..][i].expanded {
            assert steps[1..][i] == steps[i + 1];
          }
        }
      }
      if ExpandedCount(steps) == |steps| {
        assert steps[0].expanded && ExpandedCount(steps[1..]) == |steps[1..]|;
        forall i | 0 <= i < |steps| ensures steps[i].expanded {
          if i > 0 {
            assert steps[i] == steps[1..][i - 1];
          }
        }
      }
    }
  }

  /** `updateExpandAllButton`: with a button, `allExpanded` and the caption
      follow whether every step is expanded; without one nothing happens. */
  function UpdateExpandAllButton(pr: Process): (r: Process)
    ensures r.steps == pr.steps && r.hasButton == pr.hasButton
    ensures !pr.hasButton ==> r == pr
    ensures ButtonAgrees(r)
  {
    if !pr.hasButton then pr
    else
      ExpandedCountFull(pr.steps);
      if ExpandedCount(pr.steps) == |pr.steps| then pr.(caption := CollapseAllSteps, allExpanded := true)
      else pr.(caption := ExpandAllSteps, allExpanded := false)
  }

  /** Page start-up. With no steps nothing is set up. Otherwise the first
      step is expanded, the other steps keep the state the markup gave them,
      and every header's aria-expanded is copied from its step. The button
      caption stays as the markup wrote it and `allExpanded` starts false. */
  function Init(markup: seq<Step>, hasButton: bool, caption: ButtonLabel): (r: Process)
    ensures |r.steps| == |markup|
    ensures r.hasButton == hasButton && !r.allExpanded && r.caption == caption
    ensures |markup| == 0 ==> r.steps == markup
    ensures |markup| > 0 ==> r.steps[0].expanded && AriaSynced(r.steps)
    ensures forall i :: 0 < i < |markup| ==> r.steps[i].expanded == markup[i].expanded
  {
    if |markup| == 0 then Process(markup, hasButton, false, caption)
    else
      var first := markup[0 := Step(true, markup[0].ariaExpanded)];
      Process(seq(|first|, i requires 0 <= i < |first| => Step(first[i].expanded, first[i].expanded)),
              hasButton, false, caption)
  }

  /** With the usual markup (nothing expanded yet) the first step is the
      only one open after start-up. */
  lemma InitFromCollapsed(markup: seq<Step>, hasButton: bool, caption: ButtonLabel)
    requires |markup| > 0 && NoneExpanded(markup)
    ensures AtMostOneExpanded(Init(markup, hasButton, caption).steps)
    ensures forall i :: 0 <= i < |markup| ==> (Init(markup, hasButton, caption).steps[i].expanded <==> i == 0)
  {
  }

  /** A click on step `i`'s header: toggle the step, set its aria-expanded
      to the new state, and, when it opened, collapse every other expanded
      step (writing aria-expanded false on those); then refresh the button. */
  function ClickHeader(pr: Process, i: nat): (r: Process)
    requires i < |pr.steps|
    ensures |r.steps| == |pr.steps| && r.hasButton == pr.hasButton
    ensures r.steps[i] == Step(!pr.steps[i].expanded, !pr.steps[i].expanded)
    ensures pr.steps[i].expanded ==> forall j :: 0 <= j < |pr.steps| && j != i ==> r.steps[j] == pr.steps[j]
    ensures !pr.steps[i].expanded ==> forall j :: 0 <= j < |pr.steps| ==> (r.steps[j].expanded <==> j == i)
    ensures !pr.steps[i].expanded ==> forall j :: 0 <= j < |pr.steps| && j != i && !pr.steps[j].expanded ==> r.steps[j] == pr.steps[j]
    ensures !pr.steps[i].expanded ==> forall j :: 0 <= j < |pr.steps| && pr.steps[j].expanded ==> !r.steps[j].ariaExpanded
    ensures ButtonAgrees(r)
    ensures !pr.hasButton ==> r.allExpanded == pr.allExpanded && r.caption == pr.caption
  {
    var wasExpanded := pr.steps[i].expanded;
    var toggled := pr.steps[i := Step(!wasExpanded, !wasExpanded)];
    var closed :=
      if wasExpanded then toggled
      else seq(|toggled|, j requires 0 <= j < |toggled| =>
                 if j != i && toggled[j].expanded then Step(false, false) else toggled[j]);
    UpdateExpandAllButton(pr.(steps := closed))
  }

  /** A click keeps headers in step with their steps. */
  lemma ClickKeepsAriaSynced(pr: Process, i: nat)
    requires i < |pr.steps| && AriaSynced(pr.steps)
    ensures AriaSynced(ClickHeader(pr, i).steps)
  {
  }

  /** A click keeps the accordion shape. */
  lemma ClickKeepsAtMostOne(pr: Process, i: nat)
    requires i < |pr.steps| && AtMostOneExpanded(pr.steps)
    ensures AtMostOneExpanded(ClickHeader(pr, i).steps)
  {
  }

  /** Clicking a collapsed step twice leaves every step collapsed. */
  lemma ClickTwiceClosesAll(pr: Process, i: nat)
    requires i < |pr.steps| && !pr.steps[i].expanded
    ensures NoneExpanded(ClickHeader(ClickHeader(pr, i), i).steps)
  {
    var once := ClickHeader(pr, i);
    var twice := ClickHeader(once, i);
    forall j | 0 <= j < |twice.steps| ensures !twice.steps[j].expanded {
      if j != i {
        assert twice.steps[j] == once.steps[j];
      }
    }
  }

  /** The expand-all button. It is wired up only when the button and at
      least one step exist. A click flips `allExpanded`, opens or closes
      every step (aria-expanded along with it) and refreshes the button. */
  function ExpandAll(pr: Process): (r: Process)
    ensures |r.steps| == |pr.steps| && r.hasButton == pr.hasButton
    ensures !pr.hasButton || |pr.steps| == 0 ==> r == pr
    ensures pr.hasButton && |pr.steps| > 0 ==>
      r.allExpanded == !pr.allExpanded &&
      (r.caption == CollapseAllSteps <==> r.allExpanded) &&
      forall j :: 0 <= j < |r.steps| ==> r.steps[j] == Step(r.allExpanded, r.allExpanded)
    ensures ButtonAgrees(pr) ==> ButtonAgrees(r)
  {
    if !pr.hasButton || |pr.steps| == 0 then pr
    else
      var flag := !pr.allExpanded;
      var steps := seq(|pr.steps|, j => Step(flag, flag));
      assert !flag ==> !AllExpanded(steps) by {
        if !flag { assert !steps[0].expanded; }
      }
      UpdateExpandAllButton(pr.(allExpanded := flag, steps := steps))
  }

  /** Two expand-all clicks return `allExpanded` to where it was and leave
      every step in that state. */
  lemma ExpandAllTwice(pr: Process)
    requires pr.hasButton && |pr.steps| > 0
    ensures ExpandAll(ExpandAll(pr)).allExpanded == pr.allExpanded
    ensures AllExpanded(ExpandAll(ExpandAll(pr)).steps) <==> pr.allExpanded
    ensures NoneExpanded(ExpandAll(ExpandAll(pr)).steps) <==> !pr.allExpanded
  {
    var twice := ExpandAll(ExpandAll(pr));
    assert twice.steps[0] == Step(pr.allExpanded, pr.allExpanded);
  }

  /** The first expanded step (`.process-step.expanded` in document order). */
  function FirstExpanded(steps: seq<Step>): (r: Option<nat>)
    ensures r.None? <==> NoneExpanded(steps)
    ensures r.Some? ==> r.value < |steps| && steps[r.value].expanded &&
                        forall j :: 0 <= j < r.value ==> !steps[j].expanded
  {
    if |steps| == 0 then None
    else if steps[0].expanded then Some(0)
    else
      match FirstExpanded(steps[1..])
      case None =>
        assert forall j :: 1 <= j < |steps| ==> steps[j] == steps[1..][j - 1];
        None
      case Some(k) =>
        assert forall j :: 1 <= j <= k + 1 ==> steps[j] == steps[1..][j - 1];
        Some(k + 1)
  }

  /** The step whose header the key handler clicks, if any: the neighbour
      of the first expanded step for the arrow keys (when there is one), the
      first step for Home and the last for End. Nothing is clicked when no
      step is expanded, when the key went elsewhere than a step header, or
      for any other key. */
  function KeyTarget(steps: seq<Step>, key: string, inHeader: bool): (t: Option<nat>)
    ensures t.Some? ==> t.value < |steps|
    ensures NoneExpanded(steps) || !inHeader ==> t.None?
    ensures key !in {"ArrowDown", "ArrowRight", "ArrowUp", "ArrowLeft", "Home", "End"} ==> t.None?
    ensures FirstExpanded(steps).Some? && inHeader && (key == "ArrowDown" || key == "ArrowRight") ==>
      t == (if FirstExpanded(steps).value + 1 < |steps| then Some(FirstExpanded(steps).value + 1) else None)
    ensures FirstExpanded(steps).Some? && inHeader && (key == "ArrowUp" || key == "ArrowLeft") ==>
      t == (if FirstExpanded(steps).value > 0 then Some(FirstExpanded(steps).value - 1) else None)
    ensures FirstExpanded(steps).Some? && inHeader && key == "Home" ==> t == Some(0)
    ensures FirstExpanded(steps).Some? && inHeader && key == "End" ==> t == Some(|steps| - 1)
  {
    match FirstExpanded(steps)
    case None => None
    case Some(active) =>
      if !inHeader then None
      else if key == "ArrowDown" || key == "ArrowRight" then
        if active + 1 < |steps| then Some(active + 1) else None
      else if key == "ArrowUp" || key == "ArrowLeft" then
        if active > 0 then Some(active - 1) else None
      else if key == "Home" then Some(0)
      else if key == "End" then Some(|steps| - 1)
      else None
  }

  /** The document-level key handler: a click on the header `KeyTarget`
      picks, or nothing. */
  function KeyDown(pr: Process, key: string, inHeader: bool): (r: Process)
    ensures |r.steps| == |pr.steps| && r.hasButton == pr.hasButton
    ensures NoneExpanded(pr.steps) || !inHeader ==> r == pr
    ensures key !in {"ArrowDown", "ArrowRight", "ArrowUp", "ArrowLeft", "Home", "End"} ==> r == pr
    ensures inHeader && key == "Home" && !NoneExpanded(pr.steps) ==> r == ClickHeader(pr, 0)
    ensures inHeader && key == "End" && !NoneExpanded(pr.steps) ==> r == ClickHeader(pr, |pr.steps| - 1)
    ensures forall a :: FirstExpanded(pr.steps) == Some(a) && inHeader && (key == "ArrowDown" || key == "ArrowRight") ==>
      r == (if a + 1 < |pr.steps| then ClickHeader(pr, a + 1) else pr)
    ensures forall a :: FirstExpanded(pr.steps) == Some(a) && inHeader && (key == "ArrowUp" || key == "ArrowLeft") ==>
      r == (if a > 0 then ClickHeader(pr, a - 1) else pr)
  {
    match KeyTarget(pr.steps, key, inHeader)
    case None => pr
    case Some(t) => ClickHeader(pr, t)
  }

  /** In an accordion, Down/Right moves the open step one place on; on the
      last step it does nothing. */
  lemma ArrowDownMovesOn(pr: Process, a: nat, key: string)
    requires a < |pr.steps| && pr.steps[a].expanded && AtMostOneExpanded(pr.steps)
    requires key == "ArrowDown" || key == "ArrowRight"
    ensures a + 1 < |pr.steps| ==>
      forall j :: 0 <= j < |pr.steps| ==> (KeyDown(pr, key, true).steps[j].expanded <==> j == a + 1)
    ensures a + 1 == |pr.steps| ==> KeyDown(pr, key, true) == pr
  {
    assert FirstExpanded(pr.steps) == Some(a);
  }

  /** In an accordion, Up/Left moves the open step one place back; on the
      first step it does nothing. */
  lemma ArrowUpMovesBack(pr: Process, a: nat, key: string)
    requires a < |pr.steps| && pr.steps[a].expanded && AtMostOneExpanded(pr.steps)
    requires key == "ArrowUp" || key == "ArrowLeft"
    ensures a > 0 ==>
      forall j :: 0 <= j < |pr.steps| ==> (KeyDown(pr, key, true).steps[j].expanded <==> j == a - 1)
    ensures a == 0 ==> KeyDown(pr, key, true) == pr
  {
    assert FirstExpanded(pr.steps) == Some(a);
  }

  /** The handler looks only at the first expanded step. When the step
      after it is open too (say after "Expand All"), Down/Right clicks that
      open neighbour, which collapses it and leaves every other step as it
      was: focus does not move on, the neighbour just closes. */
  lemma ArrowDownWithSeveralOpen(pr: Process, a: nat, key: string)
    requires FirstExpanded(pr.steps) == Some(a) && a + 1 < |pr.steps| && pr.steps[a + 1].expanded
    requires key == "ArrowDown" || key == "ArrowRight"
    ensures KeyDown(pr, key, true).steps[a + 1] == Step(false, false)
    ensures forall j :: 0 <= j < |pr.steps| && j != a + 1 ==> KeyDown(pr, key, true).steps[j] == pr.steps[j]
    ensures KeyDown(pr, key, true).steps[a].expanded
  {
  }

  /** With every step of three open, Down/Right on a header collapses the
      second step only. */
  lemma ArrowDownOnThreeOpen(pr: Process)
    requires |pr.steps| == 3 && AllExpanded(pr.steps)
    ensures KeyDown(pr, "ArrowDown", true).steps ==
      [pr.steps[0], Step(false, false), pr.steps[2]]
  {
    assert pr.steps[0].expanded;
    ArrowDownWithSeveralOpen(pr, 0, "ArrowDown");
  }

  /** Home clicks the first header even when the first step is the open
      one, which collapses it: the accordion ends with nothing open. */
  lemma HomeOnFirstStepCloses(pr: Process)
    requires |pr.steps| > 0 && pr.steps[0].expanded && AtMostOneExpanded(pr.steps)
    ensures NoneExpanded(KeyDown(pr, "Home", true).steps)
  {
    var r := KeyDown(pr, "Home", true);
    forall j | 0 <= j < |r.steps| ensures !r.steps[j].expanded {
      if j != 0 {
        assert !pr.steps[j].expanded;
      }
    }
  }

  /** Everything a visitor can do on the process section. */
  datatype Event = HeaderClicked(index: nat) | ExpandAllClicked | KeyPressed(key: string, inHeader: bool)

  function Apply(pr: Process, e: Event): Process
  {
    match e
    case HeaderClicked(i) => if i < |pr.steps| then ClickHeader(pr, i) else pr
    case ExpandAllClicked => ExpandAll(pr)
    case KeyPressed(key, inHeader) => KeyDown(pr, key, inHeader)
  }

  function ApplyAll(pr: Process, es: seq<Event>): Process
    decreases |es|
  {
    if |es| == 0 then pr else ApplyAll(Apply(pr, es[0]), es[1..])
  }

  lemma EventKeepsAriaSynced(pr: Process, e: Event)
    requires AriaSynced(pr.steps)
    ensures AriaSynced(Apply(pr, e).steps)
    ensures |Apply(pr, e).steps| == |pr.steps|
    ensures ButtonAgrees(pr) ==> ButtonAgrees(Apply(pr, e))
  {
    match e
    case HeaderClicked(i) =>
      if i < |pr.steps| {
        ClickKeepsAriaSynced(pr, i);
      }
    case ExpandAllClicked =>
    case KeyPressed(key, inHeader) =>
      KeyKeepsAriaSynced(pr, key, inHeader);
  }

  lemma KeyKeepsAriaSynced(pr: Process, key: string, inHeader: bool)
    requires AriaSynced(pr.steps)
    ensures AriaSynced(KeyDown(pr, key, inHeader).steps)
    ensures ButtonAgrees(pr) ==> ButtonAgrees(KeyDown(pr, key, inHeader))
  {
    var t := KeyTarget(pr.steps, key, inHeader);
    if t.Some? {
      ClickKeepsAriaSynced(pr, t.value);
    }
  }

  /** After start-up, any sequence of events keeps every header's
      aria-expanded in step with its step, and once the button agrees with
      the steps it keeps agreeing. */
  lemma {:induction false} RunKeepsAriaSynced(pr: Process, es: seq<Event>)
    requires AriaSynced(pr.steps)
    ensures AriaSynced(ApplyAll(pr, es).steps)
    ensures ButtonAgrees(pr) ==> ButtonAgrees(ApplyAll(pr, es))
    decreases |es|
  {
    if |es| > 0 {
      EventKeepsAriaSynced(pr, es[0]);
      RunKeepsAriaSynced(Apply(pr, es[0]), es[1..]);
    }
  }

  /** Any event that reaches a step header or the button leaves the button
      agreeing with the steps, whatever the caption said before. */
  lemma ClickAlignsButton(pr: Process, i: nat)
    requires i < |pr.steps|
    ensures ButtonAgrees(Apply(pr, HeaderClicked(i)))
  {
  }
}
