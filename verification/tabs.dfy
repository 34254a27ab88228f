/** The tab strip of the solutions page: buttons name a pane through their
    `data-tab` value, and a click activates that button and the pane whose
    id matches. */
module Tabs {
  import opened Wrappers

  datatype TabButton = TabButton(tab: string, active: bool)

  datatype TabPane = TabPane(id: string, active: bool)

  datatype TabStrip = TabStrip(buttons: seq<TabButton>, panes: seq<TabPane>)

  /** `getElementById`: the first pane, in document order, with the id. */
  function PaneWithId(panes: seq<TabPane>, id: string): (r: Option<nat>)
    ensures r.None? <==> forall j :: 0 <= j < |panes| ==> panes[j].id != id
    ensures r.Some? ==> r.value < |panes| && panes[r.value].id == id &&
                        forall j :: 0 <= j < r.value ==> panes[j].id != id
  {
    if |panes| == 0 then None
    else if panes[0].id == id then Some(0)
    else
      match PaneWithId(panes[1..], id)
      case None =>
        assert forall j :: 1 <= j < |panes| ==> panes[j] == panes[1..][j - 1];
        None
      case Some(k) =>
        assert forall j :: 1 <= j <= k + 1 ==> panes[j] == panes[1..][j - 1];
        Some(k + 1)
  }

  /** A click on button `b`: every button and pane loses `active`, then the
      clicked button and the pane its `data-tab` names (if any) gain it. */
  function ClickTab(strip: TabStrip, b: nat): (r: TabStrip)
    requires b < |strip.buttons|
    ensures |r.buttons| == |strip.buttons| && |r.panes| == |strip.panes|
    ensures forall j :: 0 <= j < |r.buttons| ==> r.buttons[j].tab == strip.buttons[j].tab
    ensures forall j :: 0 <= j < |r.panes| ==> r.panes[j].id == strip.panes[j].id
    ensures forall j :: 0 <= j < |r.buttons| ==> (r.buttons[j].active <==> j == b)
    ensures forall j :: 0 <= j < |r.panes| ==> (r.panes[j].active <==> PaneWithId(strip.panes, strip.buttons[b].tab) == Some(j))
  {
    var target := PaneWithId(strip.panes, strip.buttons[b].tab);
    TabStrip(
      seq(|strip.buttons|, j requires 0 <= j < |strip.buttons| => TabButton(strip.buttons[j].tab, j == b)),
      seq(|strip.panes|, j requires 0 <= j < |strip.panes| => TabPane(strip.panes[j].id, target == Some(j))))
  }

  /** At most one pane is active after a click, it carries the clicked
      button's `data-tab` as its id, and none is active exactly when no pane
      has that id. */
  lemma ClickShowsMatchingPane(strip: TabStrip, b: nat)
    requires b < |strip.buttons|
    ensures forall i, j ::
      (0 <= i < |strip.panes| && 0 <= j < |strip.panes| &&
       ClickTab(strip, b).panes[i].active && ClickTab(strip, b).panes[j].active) ==> i == j
    ensures forall j ::
      (0 <= j < |strip.panes| && ClickTab(strip, b).panes[j].active) ==> strip.panes[j].id == strip.buttons[b].tab
    ensures (forall j :: 0 <= j < |strip.panes| ==> !ClickTab(strip, b).panes[j].active) <==>
      (forall j :: 0 <= j < |strip.panes| ==> strip.panes[j].id != strip.buttons[b].tab)
  {
    var target := PaneWithId(strip.panes, strip.buttons[b].tab);
    if target.Some? {
      assert ClickTab(strip, b).panes[target.value].active;
    }
  }

  /** Clicking the same button again changes nothing. */
  lemma ClickTabIdempotent(strip: TabStrip, b: nat)
    requires b < |strip.buttons|
    ensures ClickTab(ClickTab(strip, b), b) == ClickTab(strip, b)
  {
    var once := ClickTab(strip, b);
    assert forall j :: 0 <= j < |once.panes| ==> once.panes[j].id == strip.panes[j].id;
    PaneWithIdSameIds(strip.panes, once.panes, strip.buttons[b].tab);
  }

  /** The pane lookup depends on the ids alone, not on which pane is active. */
  lemma {:induction false} PaneWithIdSameIds(a: seq<TabPane>, c: seq<TabPane>, id: string)
    requires |a| == |c| && forall j :: 0 <= j < |a| ==> a[j].id == c[j].id
    ensures PaneWithId(a, id) == PaneWithId(c, id)
    decreases |a|
  {
    if |a| > 0 && a[0].id != id {
      PaneWithIdSameIds(a[1..], c[1..], id);
    }
  }

  /** The last click wins: after clicking `b1` and then `b2` the strip is as
      if only `b2` had been clicked. */
  lemma LastClickWins(strip: TabStrip, b1: nat, b2: nat)
    requires b1 < |strip.buttons| && b2 < |strip.buttons|
    ensures ClickTab(ClickTab(strip, b1), b2) == ClickTab(strip, b2)
  {
    var once := ClickTab(strip, b1);
    PaneWithIdSameIds(strip.panes, once.panes, strip.buttons[b2].tab);
  }
}
