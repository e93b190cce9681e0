/** The promotional modal and its one-per-session reveal (script.js:196-249).
    On `load`, if the page has a `.loading-screen`, a 7000 ms timer hides it
    and, unless `sessionStorage` already holds `gamerModalSeen`, calls
    `showGamerModal` when that name is a function and then sets the flag.
    The session flag is a boolean; the timer is one step. */
module Modal {

  /** What the page provides: the loading screen, the overlay element, and
      whether `showGamerModal` is a function when the timer fires. */
  datatype Setup = Setup(hasLoadingScreen: bool, hasOverlay: bool, showDefined: bool)

  /** The page's visible state: the loading screen's `hidden` class and the
      overlay's `active` class. */
  datatype Page = Page(loadingHidden: bool, modalActive: bool)

  /** The page together with the session's `gamerModalSeen` flag. */
  datatype World = World(page: Page, seen: bool)

  /** A page as it first renders: loading screen up, modal closed. */
  const Fresh := Page(false, false)

  /** `showGamerModal`: activates the overlay when it exists. */
  function Show(p: Page, s: Setup): (p': Page)
    ensures p'.loadingHidden == p.loadingHidden
    ensures p'.modalActive <==> p.modalActive || s.hasOverlay
  {
    if s.hasOverlay then p.(modalActive := true) else p
  }

  /** `hideGamerModal`: deactivates the overlay when it exists. */
  function Hide(p: Page, s: Setup): (p': Page)
    ensures p'.loadingHidden == p.loadingHidden
    ensures p'.modalActive <==> p.modalActive && !s.hasOverlay
  {
    if s.hasOverlay then p.(modalActive := false) else p
  }

  /** The `load` handler followed by its 7000 ms timer. */
  function AfterLoad(w: World, s: Setup): (w': World)
    ensures !s.hasLoadingScreen ==> w' == w
    ensures s.hasLoadingScreen ==> w'.seen && w'.page.loadingHidden
    ensures s.hasLoadingScreen && !w.seen ==>
      (w'.page.modalActive <==> w.page.modalActive || (s.showDefined && s.hasOverlay))
    ensures w.seen ==> w'.seen && w'.page.modalActive == w.page.modalActive
  {
    if !s.hasLoadingScreen then w
    else
      var p := w.page.(loadingHidden := true);
      if w.seen then World(p, w.seen)
      else World(if s.showDefined then Show(p, s) else p, true)
  }

  /** The clicks that close the modal: its close button, its "Conhecer"
      button, and the overlay, on the backdrop itself or on its content. */
  datatype Click = CloseButton | KnowPlansButton | OverlayClick(onBackdrop: bool)

  /** The click listeners of script.js:235-249: each closes the modal, except
      a click inside the dialog, which bubbles to the overlay with another
      target and is ignored. */
  function HandleClick(p: Page, s: Setup, c: Click): (p': Page)
    ensures p'.loadingHidden == p.loadingHidden
    ensures c == OverlayClick(false) ==> p' == p
    ensures c != OverlayClick(false) && s.hasOverlay ==> !p'.modalActive
  {
    match c
    case CloseButton => Hide(p, s)
    case KnowPlansButton => Hide(p, s)
    case OverlayClick(onBackdrop) => if onBackdrop then Hide(p, s) else p
  }

  /** One page load in the session: whether it ends with the modal showing,
      and the session flag it leaves behind. */
  function Visit(seen: bool, s: Setup): (r: (bool, bool))
    ensures r.0 ==> !seen && r.1
    ensures seen ==> r.1 && !r.0
  {
    var w := AfterLoad(World(Fresh, seen), s);
    (w.page.modalActive, w.seen)
  }

  /** How many loads of a session showed the modal. */
  function ShownCount(seen: bool, loads: seq<Setup>): nat
    decreases |loads|
  {
    if |loads| == 0 then 0
    else
      var v := Visit(seen, loads[0]);
      (if v.0 then 1 else 0) + ShownCount(v.1, loads[1..])
  }

  /** Once the flag is set, no later load of the session shows the modal. */
  lemma {:induction false} SeenSuppresses(loads: seq<Setup>)
    ensures ShownCount(true, loads) == 0
    decreases |loads|
  {
    if |loads| > 0 {
      SeenSuppresses(loads[1..]);
    }
  }

  /** The modal is shown at most once per session, whatever each load's
      page provides. */
  lemma {:induction false} AtMostOncePerSession(seen: bool, loads: seq<Setup>)
    ensures ShownCount(seen, loads) <= 1
    decreases |loads|
  {
    if |loads| > 0 {
      var v := Visit(seen, loads[0]);
      if v.0 {
        SeenSuppresses(loads[1..]);
      } else {
        AtMostOncePerSession(v.1, loads[1..]);
      }
    }
  }

  /** The first load of a session with a loading screen and an overlay
      shows the modal; a reload in the same session does not. */
  lemma ReloadScenario(s: Setup)
    requires s.hasLoadingScreen && s.hasOverlay && s.showDefined
    ensures Visit(false, s) == (true, true)
    ensures !Visit(Visit(false, s).1, s).0
  {
  }

  /** The flag is set even when the reveal was skipped, so a load whose
      timer fires without a usable overlay or show function suppresses the
      modal for the rest of the session. */
  lemma SkippedRevealSuppresses(s: Setup, later: seq<Setup>)
    requires s.hasLoadingScreen && !(s.hasOverlay && s.showDefined)
    ensures ShownCount(false, [s] + later) == 0
  {
    assert ([s] + later)[1..] == later;
    SeenSuppresses(later);
  }
}
