/** The plan tab switch (script.js:133-157). The page holds the tab buttons
    (`.tab-btn`, `.btn-gamer`, `.emp`) and the `.plans-content` panels, in
    document order; only their attributes and their `active` class are
    modelled. A missing attribute is `None`. */
module Tabs {
  import opened Wrappers

  datatype Button = Button(tab: Option<string>, active: bool)
  datatype Panel = Panel(category: Option<string>, active: bool)
  datatype Plans = Plans(buttons: seq<Button>, panels: seq<Panel>)

  /** The key a button's click acts on: its `data-tab`, when truthy. */
  function KeyOf(b: Button): Option<string> {
    if b.tab.Some? && b.tab.value != "" then b.tab else None
  }

  /** The attributes of `p'` are those of `p`; only `active` flags may differ. */
  predicate SameAttributes(p: Plans, p': Plans) {
    && |p'.buttons| == |p.buttons| && |p'.panels| == |p.panels|
    && (forall j :: 0 <= j < |p.buttons| ==> p'.buttons[j].tab == p.buttons[j].tab)
    && (forall j :: 0 <= j < |p.panels| ==> p'.panels[j].category == p.panels[j].category)
  }

  /** A click on button `i`. The handlers exist only when the page has both
      buttons and panels; a button without a truthy `data-tab` does nothing.
      Otherwise the clicked button becomes the only active button, and a
      panel is active exactly when its `data-category` equals the key. */
  function Click(p: Plans, i: nat): (p': Plans)
    requires i < |p.buttons|
    ensures SameAttributes(p, p')
    ensures |p.panels| == 0 || KeyOf(p.buttons[i]).None? ==> p' == p
    ensures |p.panels| > 0 && KeyOf(p.buttons[i]).Some? ==>
      && (forall j :: 0 <= j < |p'.buttons| ==> (p'.buttons[j].active <==> j == i))
      && (forall j :: 0 <= j < |p'.panels| ==>
            (p'.panels[j].active <==> p.panels[j].category == KeyOf(p.buttons[i])))
  {
    if |p.panels| == 0 then p
    else match KeyOf(p.buttons[i])
      case None => p
      case Some(key) =>
        Plans(seq(|p.buttons|, j requires 0 <= j < |p.buttons| => p.buttons[j].(active := j == i)),
              seq(|p.panels|, j requires 0 <= j < |p.panels| =>
                p.panels[j].(active := p.panels[j].category == Some(key))))
  }

  /** Indices of the active buttons and panels. */
  function ActiveButtons(p: Plans): set<nat> {
    set j | 0 <= j < |p.buttons| && p.buttons[j].active
  }

  function ActivePanels(p: Plans): set<nat> {
    set j | 0 <= j < |p.panels| && p.panels[j].active
  }

  /** After an effective click exactly one button is active, the clicked one,
      and the active panels are exactly those whose category is the key. */
  lemma ClickSelects(p: Plans, i: nat)
    requires i < |p.buttons| && |p.panels| > 0 && KeyOf(p.buttons[i]).Some?
    ensures ActiveButtons(Click(p, i)) == {i}
    ensures ActivePanels(Click(p, i)) ==
      set j | 0 <= j < |p.panels| && p.panels[j].category == KeyOf(p.buttons[i])
  {
    var p' := Click(p, i);
    assert i in ActiveButtons(p');
  }

  /** The outcome of a click does not depend on which tab was active before:
      two pages that differ only in `active` flags end up identical. */
  lemma ClickForgetsHistory(p: Plans, q: Plans, i: nat)
    requires i < |p.buttons| && |p.panels| > 0 && KeyOf(p.buttons[i]).Some?
    requires SameAttributes(p, q)
    ensures Click(p, i) == Click(q, i)
  {
    var a := Click(p, i);
    var b := Click(q, i);
    assert a.buttons == b.buttons;
    assert a.panels == b.panels;
  }

  /** Clicking the same button twice is the same as clicking it once. */
  lemma ClickIdempotent(p: Plans, i: nat)
    requires i < |p.buttons|
    ensures Click(Click(p, i), i) == Click(p, i)
  {
    var p' := Click(p, i);
    if |p.panels| > 0 && KeyOf(p.buttons[i]).Some? {
      ClickForgetsHistory(p', p, i);
    }
  }

  /** Clicking a `gamer` button on a page with a `residencial` and a
      `gamer` panel shows the `gamer` panel only. */
  lemma GamerScenario()
    ensures var p := Plans([Button(Some("residencial"), true), Button(Some("gamer"), false)],
                           [Panel(Some("residencial"), true), Panel(Some("gamer"), false)]);
      var p' := Click(p, 1);
      && !p'.buttons[0].active && p'.buttons[1].active
      && !p'.panels[0].active && p'.panels[1].active
  {
    var p := Plans([Button(Some("residencial"), true), Button(Some("gamer"), false)],
                   [Panel(Some("residencial"), true), Panel(Some("gamer"), false)]);
    assert KeyOf(p.buttons[1]) == Some("gamer");
    assert p.panels[0].category != Some("gamer");
  }
}
