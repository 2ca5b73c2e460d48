/** The decisions the navigation service takes before it changes anything:
    which page an operation acts on, or which exception it raises instead.
    Each plan is a function of the window, the location of the page the
    service belongs to and the set of active pages; the service in
    `navigation_service.dfy` carries the plans out. */
module NavigationPlans {
  import opened Wrappers
  import opened Pages
  import opened Locations
  import VisualTree
  import Construction

  /* ---------------------------------------------------------------- */
  /* Moving between pages                                              */
  /* ---------------------------------------------------------------- */

  /** The callbacks of moving from one page to another: the old page is
      navigated from, then the new page is navigated to. */
  function Switch(from: Page, to: Page, useRegions: bool): seq<Event> {
    NavigatedTrace(from, false, useRegions) + NavigatedTrace(to, true, useRegions)
  }

  /** After a switch (and any destruction that follows it), the old page's
      current-child chain is inactive and the new page's is active. */
  lemma SwitchActive(active: set<PageId>, from: Page, to: Page, useRegions: bool, rest: seq<Event>)
    requires Quiet(rest)
    ensures ApplyActive(active, Switch(from, to, useRegions) + rest)
         == (active - SetOf(Chain(from))) + SetOf(Chain(to))
  {
    var a := NavigatedTrace(from, false, useRegions);
    var b := NavigatedTrace(to, true, useRegions);
    ApplyActiveConcat(active, a + b, rest);
    ApplyActiveConcat(active, a, b);
    NavigatedActiveSet(active, from, false, useRegions);
    NavigatedActiveSet(active - SetOf(Chain(from)), to, true, useRegions);
    ApplyActiveQuiet((active - SetOf(Chain(from))) + SetOf(Chain(to)), rest);
  }

  ghost predicate Undisposing(t: seq<Event>) {
    forall k :: 0 <= k < |t| ==> !t[k].ScopeDisposed?
  }

  lemma UndisposingParts(own: seq<Event>, regions: seq<Event>, child: seq<Event>)
    requires Undisposing(own) && Undisposing(regions) && Undisposing(child)
    ensures Undisposing(own + regions + child) && Undisposing(child + regions + own)
  {
  }

  /** A navigation walk disposes no scope. */
  lemma {:induction false} NavigatedNoDisposal(p: Page, to: bool, useRegions: bool)
    ensures Undisposing(NavigatedTrace(p, to, useRegions))
    decreases p
  {
    ChildSmaller(p);
    NavigatedTraceShape(p, to, useRegions);
    if CurrentChild(p).Some? {
      NavigatedNoDisposal(CurrentChild(p).value, to, useRegions);
    }
    var regions := if useRegions then RegionsNavigated(p.info.regions, to) else [];
    assert Undisposing(Navigated(p.info, to));
    assert Undisposing(regions);
    UndisposingParts(Navigated(p.info, to), regions, ChildNavigatedTrace(p, to, useRegions));
  }

  /** A switch disposes nothing. */
  lemma SwitchDisposesNothing(from: Page, to: Page, useRegions: bool)
    ensures Project(Switch(from, to, useRegions), DisposalOf) == []
  {
    NavigatedNoDisposal(from, false, useRegions);
    NavigatedNoDisposal(to, true, useRegions);
    ProjectDisposalNone(Switch(from, to, useRegions));
  }

  /** What a switch followed by the trace `t` disposes is what `t` disposes. */
  lemma SwitchDisposal(from: Page, to: Page, useRegions: bool, t: seq<Event>)
    ensures Project(Switch(from, to, useRegions) + t, DisposalOf) == Project(t, DisposalOf)
  {
    SwitchDisposesNothing(from, to, useRegions);
    ProjectConcat(Switch(from, to, useRegions), t, DisposalOf);
  }

  /** What a navigation does: the window it leaves, the page navigated
      from, the page navigated to, and the pages it destroys, in the order
      they were stacked (they are destroyed last first). */
  datatype Transition = Transition(window: Window, from: Page, to: Page, doomed: seq<Page>)

  /** The callbacks of a transition: leave one page, arrive at the other,
      destroy the pages left behind. */
  function TransitionTrace(t: Transition, useRegions: bool): seq<Event> {
    Switch(t.from, t.to, useRegions) + DestroyReversed(t.doomed)
  }

  /** A transition makes the arrived-at chain active instead of the left
      one, and disposes exactly the pages left behind, each tree in reverse
      pre-order, the last stacked first. */
  lemma TransitionOutcome(t: Transition, active: set<PageId>, useRegions: bool)
    ensures ApplyActive(active, TransitionTrace(t, useRegions)) == (active - SetOf(Chain(t.from))) + SetOf(Chain(t.to))
    ensures Project(TransitionTrace(t, useRegions), DisposalOf) == Reverse(Ids(PreOrderAll(t.doomed)))
  {
    DestroyReversedQuiet(t.doomed);
    SwitchActive(active, t.from, t.to, useRegions, DestroyReversed(t.doomed));
    SwitchDisposal(t.from, t.to, useRegions, DestroyReversed(t.doomed));
    DestroyReversedOrder(t.doomed);
  }

  /** The page a window shows on top at its root level: the top modal page,
      or the main page. */
  function TopRoot(w: Window): (p: Page)
    ensures p == w.page || p in w.modal
  {
    if |w.modal| > 0 then w.modal[|w.modal| - 1] else w.page
  }

  /* ---------------------------------------------------------------- */
  /* Enclosing pages                                                   */
  /* ---------------------------------------------------------------- */

  predicate PageIs(p: Page, wanted: VisualTree.Wanted) {
    VisualTree.Is(ElementOf(p), wanted)
  }

  lemma PageIsKinds(p: Page)
    ensures PageIs(p, VisualTree.ATabbedPage) <==> p.TabbedPage?
    ensures PageIs(p, VisualTree.AFlyoutPage) <==> p.FlyoutPage?
    ensures PageIs(p, VisualTree.AnyPage)
  {
  }

  /** `GetParentOfTypeOrSelf` from the page at `loc`: the nearest of the
      page and its enclosing pages that has the wanted type. */
  function HostOfType(w: Window, loc: Location, wanted: VisualTree.Wanted): (r: Option<Location>)
    requires PageAt(w, loc).Some?
    ensures r.Some? ==> r.value.root == loc.root && |r.value.steps| <= |loc.steps|
                        && r.value.steps == loc.steps[..|r.value.steps|]
                        && PageAt(w, r.value).Some? && PageIs(PageAt(w, r.value).value, wanted)
    ensures r.Some? ==> forall j :: 0 <= j < |loc.steps| - |r.value.steps| ==>
              PageAt(w, Up(loc, j)).Some? && !PageIs(PageAt(w, Up(loc, j)).value, wanted)
    ensures r.None? ==> forall j :: 0 <= j <= |loc.steps| ==>
              PageAt(w, Up(loc, j)).Some? && !PageIs(PageAt(w, Up(loc, j)).value, wanted)
  {
    ElementChainShape(w, loc);
    var chain := ElementChain(w, loc);
    match VisualTree.FirstOfType(chain, wanted)
    case None => None
    case Some(j) =>
      Some(Up(loc, j))
  }

  /** The page at `loc` is held, at `f.index`, in the stack of the
      navigation page `f.nav` one level up. */
  datatype StackFrame = StackFrame(host: Location, nav: Page, index: nat)

  predicate HeldIn(w: Window, loc: Location, f: StackFrame) {
    |loc.steps| > 0 && f.host == Up(loc, 1) && PageAt(w, f.host) == Some(f.nav)
    && f.nav.NavigationPage? && loc.steps[|loc.steps| - 1] == StackAt(f.index)
    && f.index < |f.nav.stack| && PageAt(w, loc) == Some(f.nav.stack[f.index])
  }

  /** The navigation page the page at `loc` is pushed on, when its parent is
      a navigation page. */
  function ParentStack(w: Window, loc: Location): (r: Option<StackFrame>)
    requires PageAt(w, loc).Some?
    ensures r.Some? ==> HeldIn(w, loc, r.value)
    ensures r.None? <==> |loc.steps| == 0 || PageAt(w, Up(loc, 1)).None?
                         || !PageAt(w, Up(loc, 1)).value.NavigationPage?
  {
    if |loc.steps| == 0 then None
    else
      UpChild(w, loc, 0);
      var host := Up(loc, 1);
      var nav := PageAt(w, host).value;
      if !nav.NavigationPage? then None
      else
        match loc.steps[|loc.steps| - 1]
        case StackAt(i) => Some(StackFrame(host, nav, i))
        case TabAt(_) => assert false; None
        case FlyoutPart => assert false; None
        case DetailPart => assert false; None
  }

  /* ---------------------------------------------------------------- */
  /* SelectTab and ToggleFlyout                                        */
  /* ---------------------------------------------------------------- */

  /** Select, on the tabbed page at `host`, the tab at `to`. */
  datatype TabSwitch = TabSwitch(host: Location, tab: Page, to: nat)

  /** `SelectTab`: the nearest enclosing tabbed page, its first tab whose
      segment (or whose navigation root's segment) is `name`, which must be
      a different tab from the selected one. */
  function PlanSelectTab(w: Window, loc: Location, name: string): (r: Result<TabSwitch>)
    requires PageAt(w, loc).Some?
    ensures r == Failure(NoParentTabbedPage) <==> HostOfType(w, loc, VisualTree.ATabbedPage).None?
    ensures r.Success? ==>
      var s := r.value;
      HostOfType(w, loc, VisualTree.ATabbedPage) == Some(s.host)
      && PageAt(w, s.host) == Some(s.tab) && s.tab.TabbedPage?
      && s.tab.current < |s.tab.children| && s.to < |s.tab.children| && s.to != s.tab.current
      && Construction.TabMatches(s.tab.children[s.to], name)
      && forall k :: 0 <= k < s.to ==> !Construction.TabMatches(s.tab.children[k], name)
    ensures HostOfType(w, loc, VisualTree.ATabbedPage).Some? ==>
      var tab := PageAt(w, HostOfType(w, loc, VisualTree.ATabbedPage).value).value;
      tab.TabbedPage?
      && (r == Failure(UnknownTab) <==> forall k :: 0 <= k < |tab.children| ==> !Construction.TabMatches(tab.children[k], name))
      && (r == Failure(TabAlreadySelected) ==> tab.current < |tab.children| && Construction.TabMatches(tab.children[tab.current], name))
  {
    match HostOfType(w, loc, VisualTree.ATabbedPage)
    case None => Failure(NoParentTabbedPage)
    case Some(host) =>
      var tab := PageAt(w, host).value;
      PageIsKinds(tab);
      var i := Construction.FindTab(tab.children, name);
      if i == |tab.children| then Failure(UnknownTab)
      else if tab.current >= |tab.children| then Failure(NullReference)
      else if tab.current == i then Failure(TabAlreadySelected)
      else Success(TabSwitch(host, tab, i))
  }

  /** `ToggleFlyout`: the nearest enclosing flyout page. */
  function PlanToggleFlyout(w: Window, loc: Location): (r: Result<Location>)
    requires PageAt(w, loc).Some?
    ensures r.Success? ==> HostOfType(w, loc, VisualTree.AFlyoutPage) == Some(r.value)
                           && PageAt(w, r.value).Some? && PageAt(w, r.value).value.FlyoutPage?
    ensures r.Failure? <==> HostOfType(w, loc, VisualTree.AFlyoutPage).None?
    ensures r.Failure? ==> r.error == NoParentFlyoutPage
  {
    match HostOfType(w, loc, VisualTree.AFlyoutPage)
    case None => Failure(NoParentFlyoutPage)
    case Some(host) => PageIsKinds(PageAt(w, host).value); Success(host)
  }

  /* ---------------------------------------------------------------- */
  /* Going back                                                        */
  /* ---------------------------------------------------------------- */

  /** `GoBackToRootAsync`: only from an active page pushed on a navigation
      page above its root. */
  function PlanGoBackToRoot(w: Window, loc: Location, active: set<PageId>): (r: Result<StackFrame>)
    requires PageAt(w, loc).Some?
    ensures r.Success? ==> PageAt(w, loc).value.info.id in active
                           && ParentStack(w, loc) == Some(r.value) && r.value.index > 0
    ensures r.Failure? ==> r.error in {InactivePage, AlreadyAtRoot}
    ensures r == Failure(AlreadyAtRoot) <==>
      PageAt(w, loc).value.info.id in active && (ParentStack(w, loc).None? || ParentStack(w, loc).value.index == 0)
  {
    if PageAt(w, loc).value.info.id !in active then Failure(InactivePage)
    else
      match ParentStack(w, loc)
      case None => Failure(AlreadyAtRoot)
      case Some(f) => if f.index == 0 then Failure(AlreadyAtRoot) else Success(f)
  }

  /** The navigation stack a frame names is where the window says. */
  predicate FrameFits(w: Window, f: StackFrame) {
    PageAt(w, f.host) == Some(f.nav) && f.nav.NavigationPage? && 0 < f.index < |f.nav.stack|
  }

  /** `GoBackToRootAsync` as the transition it means: the stack's top is
      left for its root, the stack is cut down to its root, and every page
      above the root is destroyed, the old top first. */
  function BackToRoot(w: Window, f: StackFrame): (t: Transition)
    requires FrameFits(w, f)
    ensures var s := f.nav.stack;
      PageAt(t.window, f.host) == Some(f.nav.(stack := [s[0]]))
      && t.from == s[|s| - 1] && t.to == s[0] && t.doomed == s[1..]
  {
    var s := f.nav.stack;
    Transition(ReplaceAt(w, f.host, f.nav.(stack := [s[0]])), s[|s| - 1], s[0], s[1..])
  }

  /** `GoBackToRootAsync` as written: its destruction loop runs, after the
      pop, over the stack reversed without its last element, that is over
      the popped stack without its root: over nothing. */
  function BackToRootAsWritten(w: Window, f: StackFrame): (t: Transition)
    requires FrameFits(w, f)
    ensures t == BackToRoot(w, f).(doomed := [])
  {
    var s := f.nav.stack;
    var after := [s[0]];
    var loop := Reverse(after)[..|after| - 1];
    Transition(ReplaceAt(w, f.host, f.nav.(stack := after)), s[|s| - 1], s[0], Reverse(loop))
  }

  /** The finding: as written, going back to the root disposes of no page,
      although every page it pops (at least one) should be disposed. */
  lemma BackToRootAsWrittenLeaks(w: Window, f: StackFrame, useRegions: bool)
    requires FrameFits(w, f)
    ensures Project(TransitionTrace(BackToRootAsWritten(w, f), useRegions), DisposalOf) == []
    ensures Project(TransitionTrace(BackToRoot(w, f), useRegions), DisposalOf) != []
    ensures f.nav.stack[|f.nav.stack| - 1].info.id in Project(TransitionTrace(BackToRoot(w, f), useRegions), DisposalOf)
  {
    var s := f.nav.stack;
    TransitionOutcome(BackToRootAsWritten(w, f), {}, useRegions);
    TransitionOutcome(BackToRoot(w, f), {}, useRegions);
    var ps := s[1..];
    var top := ps[|ps| - 1];
    var below := Ids(PreOrderAll(ps[..|ps| - 1]));
    IdsConcat(PreOrderAll(ps[..|ps| - 1]), PreOrder(top));
    var all := Ids(PreOrderAll(ps));
    assert all[|below|] == top.info.id;
    assert Reverse(all)[|all| - 1 - |below|] == top.info.id;
  }

  /** `GetFarthestDirectParentPageOrSelf` from the page at `loc`: climb while
      the parent is a page that holds the page directly (a navigation page
      holds only its root directly). */
  function Farthest(w: Window, loc: Location): (r: Location)
    requires PageAt(w, loc).Some?
    ensures r.root == loc.root && |r.steps| <= |loc.steps| && r.steps == loc.steps[..|r.steps|]
    ensures PageAt(w, r).Some?
    ensures |r.steps| == 0 || (ParentStack(w, r).Some?
              && ParentStack(w, r).value.nav.stack[0].info.id != PageAt(w, r).value.info.id)
  {
    FarthestInTree(w, loc);
    ElementChainShape(w, loc);
    var chain := ElementChain(w, loc);
    var j := VisualTree.FarthestDirectParent(chain);
    var r := Up(loc, j);
    UpPage(w, loc, j);
    if j < |loc.steps| then
      UpChild(w, loc, j);
      UpOfUp(loc, j);
      assert !VisualTree.HoldsDirectly(chain[j], chain[j + 1]);
      r
    else
      r
  }

  /** Where `GoBackAsync` goes back from. */
  datatype Retreat =
    | Modally                    // pop the top modal page
    | PopFrom(frame: StackFrame) // pop the navigation page's top page

  /** `GoBackAsync`, once the window is known to exist: an active page only;
      with `modal` pop the modal stack; otherwise go back from the farthest
      direct parent: modally when that is a modal root, never from the main
      page, and otherwise within the navigation page holding it. */
  function PlanGoBack(w: Window, loc: Location, active: set<PageId>, modal: bool): (r: Result<Retreat>)
    requires PageAt(w, loc).Some?
    ensures r.Success? ==> PageAt(w, loc).value.info.id in active
    ensures r == Failure(InactivePage) <==> PageAt(w, loc).value.info.id !in active
    ensures r.Success? && r.value.Modally? ==> |w.modal| > 0
    ensures r.Success? && r.value.Modally? && !modal ==> Farthest(w, loc) == Location(loc.root, []) && loc.root.ModalRoot?
    ensures r.Success? && r.value.PopFrom? ==>
      (!modal && ParentStack(w, Farthest(w, loc)) == Some(r.value.frame)
       && 0 < r.value.frame.index < |r.value.frame.nav.stack|)
    ensures PageAt(w, loc).value.info.id in active && !modal && Farthest(w, loc) == Location(MainRoot, []) ==>
              r == Failure(if |w.modal| <= 1 then BackFromMainPage else EmptyNavigationStack)
    ensures modal && PageAt(w, loc).value.info.id in active ==> (r == Failure(EmptyModalStack) <==> |w.modal| == 0)
  {
    if PageAt(w, loc).value.info.id !in active then Failure(InactivePage)
    else if modal then
      if |w.modal| == 0 then Failure(EmptyModalStack) else Success(Modally)
    else
      var f := Farthest(w, loc);
      if |f.steps| == 0 then
        match f.root
        case ModalRoot(_) => Success(Modally)
        case MainRoot => if |w.modal| <= 1 then Failure(BackFromMainPage) else Failure(EmptyNavigationStack)
      else
        var frame := ParentStack(w, f).value;
        Success(PopFrom(frame))
  }

  /** The transition of going back from the page `cur`. Modally: the
      current page is left for the page below the top modal page, and the
      top modal page is popped and destroyed. Otherwise: the farthest
      direct parent is left for the page below it on its navigation stack,
      and the stack's top is popped and destroyed. */
  function Retreated(w: Window, cur: Page, rt: Retreat): (t: Transition)
    requires rt.Modally? ==> |w.modal| > 0
    requires rt.PopFrom? ==> FrameFits(w, rt.frame)
    ensures rt.Modally? ==> t.window == w.(modal := w.modal[..|w.modal| - 1]) && t.from == cur
                            && t.to == PreviousRootPage(w) && t.doomed == [w.modal[|w.modal| - 1]]
    ensures rt.PopFrom? ==> var f := rt.frame; var s := f.nav.stack;
      PageAt(t.window, f.host) == Some(f.nav.(stack := s[..|s| - 1]))
      && t.from == s[f.index] && t.to == s[f.index - 1] && t.doomed == [s[|s| - 1]]
  {
    match rt
    case Modally => Transition(w.(modal := w.modal[..|w.modal| - 1]), cur, PreviousRootPage(w), [w.modal[|w.modal| - 1]])
    case PopFrom(f) =>
      var s := f.nav.stack;
      Transition(ReplaceAt(w, f.host, f.nav.(stack := s[..|s| - 1])), s[f.index], s[f.index - 1], [s[|s| - 1]])
  }

  /* ---------------------------------------------------------------- */
  /* Relative navigation                                               */
  /* ---------------------------------------------------------------- */

  /** The number of back operators among the constructed pages. */
  function NullCount(ps: seq<Option<Page>>): (k: nat)
    ensures k <= |ps|
  {
    if |ps| == 0 then 0 else (if ps[0].None? then 1 else 0) + NullCount(ps[1..])
  }

  /** The constructed pages with the back operators removed, in order. */
  function NonNull(ps: seq<Option<Page>>): (r: seq<Page>)
    ensures |r| + NullCount(ps) == |ps|
    ensures forall p :: p in r <==> Some(p) in ps
  {
    if |ps| == 0 then []
    else
      assert forall x :: x in ps <==> x == ps[0] || x in ps[1..];
      (if ps[0].Some? then [ps[0].value] else []) + NonNull(ps[1..])
  }

  /** What relative navigation changes: the stack of the navigation page the
      page is pushed on, or the slot (main page, selected tab or Detail) that
      holds the page. */
  datatype RelativePlan =
    | InStack(frame: StackFrame, removed: nat, pages: seq<Page>)
    | InSlot(slot: Location, from: Page, page: Page)

  /** `DoRelativeNavigation`, once the window is known to exist. */
  function PlanRelative(w: Window, loc: Location, active: set<PageId>, built: seq<Option<Page>>): (r: Result<RelativePlan>)
    requires PageAt(w, loc).Some? && |built| > 0
    ensures r.Success? ==> PageAt(w, loc).value.info.id in active && RelativeFits(w, r.value)
    ensures r == Failure(InactivePage) <==> PageAt(w, loc).value.info.id !in active
    ensures r.Success? && r.value.InStack? ==>
      var p := r.value;
      ParentStack(w, loc) == Some(p.frame) && p.removed == NullCount(built) && p.pages == NonNull(built)
      && p.removed <= |p.frame.nav.stack| && (|p.pages| > 0 || 0 < p.removed < |p.frame.nav.stack|)
    ensures r.Success? && r.value.InSlot? ==>
      var p := r.value;
      ParentStack(w, loc).None? && NullCount(built) == 1 && NonNull(built) == [p.page]
      && PageAt(w, p.slot) == Some(p.from) && p.slot.root == loc.root
      && (|loc.steps| == 0 ==> p.slot == loc && loc.root == MainRoot)
      && (|loc.steps| > 0 ==> |p.slot.steps| == |loc.steps| && p.slot.steps[..|loc.steps| - 1] == loc.steps[..|loc.steps| - 1])
    ensures PageAt(w, loc).value.info.id in active && |loc.steps| == 0 && loc.root.ModalRoot? ==>
      r == Failure(RelativeFromModalRoot)
    ensures PageAt(w, loc).value.info.id in active && ParentStack(w, loc).Some? ==>
      var m := |ParentStack(w, loc).value.nav.stack|;
      (r == Failure(TooManyBackOperators) <==> m < NullCount(built) || (m == NullCount(built) && |NonNull(built)| == 0))
  {
    var cur := PageAt(w, loc).value;
    var k := NullCount(built);
    var ps := NonNull(built);
    if cur.info.id !in active then Failure(InactivePage)
    else if |loc.steps| == 0 && loc.root.ModalRoot? then Failure(RelativeFromModalRoot)
    else
      match ParentStack(w, loc)
      case Some(frame) =>
        var m := |frame.nav.stack|;
        if m < k || (m == k && |ps| == 0) then Failure(TooManyBackOperators)
        else Success(InStack(frame, k, ps))
      case None => PlanInSlot(w, loc, k, ps)
  }

  /** `DoRelativeNavigation` from a page no navigation page holds: only one
      back operator followed by one page, which replaces the page in its
      slot (the window's page, the selected tab or the Detail). */
  function PlanInSlot(w: Window, loc: Location, k: nat, ps: seq<Page>): (r: Result<RelativePlan>)
    requires PageAt(w, loc).Some? && ParentStack(w, loc).None? && !(|loc.steps| == 0 && loc.root.ModalRoot?)
    ensures r.Success? ==>
      var p := r.value;
      p.InSlot? && k == 1 && ps == [p.page] && PageAt(w, p.slot) == Some(p.from) && p.slot.root == loc.root
      && (|loc.steps| == 0 ==> p.slot == loc && loc.root == MainRoot)
      && (|loc.steps| > 0 ==> |p.slot.steps| == |loc.steps| && p.slot.steps[..|loc.steps| - 1] == loc.steps[..|loc.steps| - 1])
  {
    if k == 0 then Failure(RelativeFromRootPage)
    else if |ps| == 0 then Failure(BackFromTabbedCurrentPage)
    else if k > 1 then Failure(TooManyBackOperators)
    else if |ps| > 1 then Failure(ReplaceTabbedCurrentWithMany)
    else if |loc.steps| == 0 then
      Success(InSlot(loc, w.page, ps[0]))
    else
      UpChild(w, loc, 0);
      var up := Up(loc, 1);
      var parent := PageAt(w, up).value;
      match parent
      case TabbedPage(_, c, i) =>
        PageAtBelow(w, up, TabAt(i));
        if i < |c| then Success(InSlot(Below(up, TabAt(i)), c[i], ps[0])) else Failure(NullReference)
      case FlyoutPage(_, _, d, _) =>
        PageAtBelow(w, up, DetailPart);
        Success(InSlot(Below(up, DetailPart), d, ps[0]))
      case ContentPage(_) => assert false; Failure(NullReference)
      case NavigationPage(_, _) => assert false; Failure(NullReference)
  }

  /** A relative plan fits the window: the stack it edits or the slot it
      fills is where the plan says, and the stack keeps at least one page. */
  predicate RelativeFits(w: Window, p: RelativePlan) {
    match p
    case InStack(f, k, ps) =>
      PageAt(w, f.host) == Some(f.nav) && f.nav.NavigationPage?
      && 0 < |f.nav.stack| && k <= |f.nav.stack| && (|ps| > 0 || 0 < k < |f.nav.stack|)
    case InSlot(slot, from, _) =>
      PageAt(w, slot) == Some(from) && (|slot.steps| == 0 ==> slot.root == MainRoot)
  }

  /** The navigation stack after an edit: the `k` top pages are replaced by
      the new pages. */
  function Kept(p: RelativePlan): (r: seq<Page>)
    requires p.InStack? && p.frame.nav.NavigationPage? && p.removed <= |p.frame.nav.stack| && (|p.pages| > 0 || p.removed < |p.frame.nav.stack|)
    ensures |r| > 0
  {
    p.frame.nav.stack[..|p.frame.nav.stack| - p.removed] + p.pages
  }

  /** Relative navigation: within a navigation stack the old top is left,
      the new top reached, and the `k` removed pages destroyed; in a slot
      the old page is left for the new one and destroyed. Setting the
      window's page replaces the window's whole content. */
  function RelativeTransition(w: Window, p: RelativePlan): (t: Transition)
    requires RelativeFits(w, p)
    ensures p.InStack? ==>
      var s := p.frame.nav.stack;
      PageAt(t.window, p.frame.host) == Some(p.frame.nav.(stack := Kept(p)))
      && t.from == s[|s| - 1] && t.to == Kept(p)[|Kept(p)| - 1] && t.doomed == s[|s| - p.removed..]
    ensures p.InSlot? ==> PageAt(t.window, p.slot) == Some(p.page) && t.from == p.from && t.to == p.page && t.doomed == [p.from]
  {
    match p
    case InStack(f, k, _) =>
      var kept := Kept(p);
      Transition(ReplaceAt(w, f.host, f.nav.(stack := kept)), f.nav.stack[|f.nav.stack| - 1], kept[|kept| - 1],
                 f.nav.stack[|f.nav.stack| - k..])
    case InSlot(slot, from, page) =>
      Transition(if |slot.steps| == 0 then Window(page, []) else ReplaceAt(w, slot, page), from, page, [from])
  }

  /** `ProcessRelativeNavigationWhenParentIsNotNavigationPage` as written:
      the page navigated to is the current page `cur` rather than the new
      one, so the slot is given back the page it has (the window's page is
      set to the page it already shows), and the page navigated from is
      then destroyed. Within a navigation stack it is `RelativeTransition`. */
  function RelativeTransitionAsWritten(w: Window, p: RelativePlan, cur: Page): (t: Transition)
    requires RelativeFits(w, p)
    requires p.InSlot? && |p.slot.steps| == 0 ==> cur == w.page
    ensures p.InStack? ==> t == RelativeTransition(w, p)
    ensures p.InSlot? ==> t.from == p.from && t.to == cur && t.doomed == [p.from]
  {
    match p
    case InStack(_, _, _) => RelativeTransition(w, p)
    case InSlot(slot, from, _) => Transition(if |slot.steps| == 0 then w else ReplaceAt(w, slot, cur), from, cur, [from])
  }

  /** The finding: replacing the current page in its slot, as written, keeps
      the current page on show and disposes of it, and the new page is
      never shown; the intended transition shows the new page and disposes
      of the old one only. */
  lemma SlotAsWrittenDisposesShownPage(w: Window, p: RelativePlan, useRegions: bool)
    requires RelativeFits(w, p) && p.InSlot? && (|p.slot.steps| == 0 ==> p.from == w.page)
    ensures var t := RelativeTransitionAsWritten(w, p, p.from);
      PageAt(t.window, p.slot) == Some(p.from)
      && p.from.info.id in Project(TransitionTrace(t, useRegions), DisposalOf)
    ensures var t := RelativeTransition(w, p);
      PageAt(t.window, p.slot) == Some(p.page)
      && Project(TransitionTrace(t, useRegions), DisposalOf) == Reverse(Ids(PreOrder(p.from)))
  {
    var t := RelativeTransitionAsWritten(w, p, p.from);
    TransitionOutcome(t, {}, useRegions);
    TransitionOutcome(RelativeTransition(w, p), {}, useRegions);
    assert [p.from][..0] == [];
    assert PreOrderAll([p.from]) == PreOrder(p.from);
    var all := Ids(PreOrder(p.from));
    assert all[0] == p.from.info.id;
    assert Reverse(all)[|all| - 1] == p.from.info.id;
  }

  /* ---------------------------------------------------------------- */
  /* Pushing a root page                                               */
  /* ---------------------------------------------------------------- */

  /** `DoAbsolutePush` into an existing window: the top page at the root
      level is left for the new page, which becomes the window's only
      content, and the page left is destroyed with `DestroyAllPages`. A page
      taken out of its window has no modal stack, so that destroys the left
      page only. */
  function AbsolutePush(w: Window, root: Page): (t: Transition)
    ensures t.window == Window(root, []) && t.to == root
    ensures t.from == (if |w.modal| > 0 then w.modal[|w.modal| - 1] else w.page)
  {
    Transition(Window(root, []), TopRoot(w), root, [TopRoot(w)])
  }

  /** An absolute push's callbacks are the switch followed by
      `DestroyAllPages` of the page left. */
  lemma AbsolutePushTrace(w: Window, root: Page, useRegions: bool)
    ensures TransitionTrace(AbsolutePush(w, root), useRegions)
         == Switch(TopRoot(w), root, useRegions) + DestroyAllPages(TopRoot(w), [])
  {
    assert [TopRoot(w)][..0] == [];
  }

  /** `DoModalPush` from the page at `loc`: the root-level page above it is
      left for the new page, which is pushed on the modal stack; nothing is
      destroyed. */
  function ModalPush(w: Window, loc: Location, root: Page): (t: Transition)
    requires PageAt(w, loc).Some?
    ensures t.window == Window(w.page, w.modal + [root]) && t.to == root && t.doomed == []
    ensures Some(t.from) == RootPage(w, loc.root)
  {
    Transition(w.(modal := w.modal + [root]), RootPage(w, loc.root).value, root, [])
  }

  /** `DoFlyoutPush` on the flyout page at `host`: its Detail is left for the
      new page, which becomes the Detail, and the old Detail is destroyed
      with `DestroyAllPages`. */
  function FlyoutPush(w: Window, host: Location, root: Page): (t: Transition)
    requires PageAt(w, host).Some? && PageAt(w, host).value.FlyoutPage?
    ensures var fp := PageAt(w, host).value;
      PageAt(t.window, host) == Some(fp.(detail := root)) && t.from == fp.detail && t.to == root
      && t.doomed == [fp.detail]
  {
    var fp := PageAt(w, host).value;
    Transition(ReplaceAt(w, host, fp.(detail := root)), fp.detail, root, [fp.detail])
  }

  /** The direction `ProcessRelativeNavigationWhenParentIsNavigationPage`
      picks from the stack size `m`, the back operators `k` and the pages
      `n`: forward (`Some(true)`), backward (`Some(false)`) or both (`None`). */
  function Direction(m: nat, k: nat, n: nat): Option<bool> {
    if k == 0 then Some(true)
    else if m > k && n == 0 then Some(false)
    else None
  }

  /** Under the guard `DoRelativeNavigation` checks, going backward means
      popping without pushing, going forward means pushing without
      removing, both means replacing `k` pages by `n`. */
  lemma DirectionCases(m: nat, k: nat, n: nat)
    requires k <= m && (n > 0 || 0 < k < m)
    ensures Direction(m, k, n) == Some(false) <==> n == 0
    ensures Direction(m, k, n) == Some(true) <==> k == 0
    ensures Direction(m, k, n).None? <==> k > 0 && n > 0
  {
  }

  function InsertAt(s: seq<Page>, i: nat, x: Page): (r: seq<Page>)
    requires i <= |s|
    ensures |r| == |s| + 1 && r[i] == x && r[..i] == s[..i] && r[i + 1..] == s[i..]
  {
    s[..i] + [x] + s[i..]
  }

  function RemoveAt(s: seq<Page>, i: nat): (r: seq<Page>)
    requires i < |s|
    ensures |r| == |s| - 1 && r == s[..i] + s[i + 1..]
  {
    s[..i] + s[i + 1..]
  }

  /** `ProcessNavigationForNavigationPage` on a navigation stack: with `k`
      back operators and `pages` to show, push the last page, insert the
      others before it, remove the `k` pages of the old top (the old top
      itself by popping when going backward). The new stack is the old one
      without its `k` top pages, followed by `pages`; the page navigated
      from is the old top, and the one navigated to is the new top. */
  method EditNavigationStack(stack: seq<Page>, pages: seq<Page>, k: nat) returns (r: seq<Page>, from: Page, to: Page)
    requires 0 < |stack| && k <= |stack| && (|pages| > 0 || 0 < k < |stack|)
    ensures r == stack[..|stack| - k] + pages
    ensures |r| > 0 && from == stack[|stack| - 1] && to == r[|r| - 1]
  {
    var m := |stack|;
    var forward := Direction(m, k, |pages|);
    DirectionCases(m, k, |pages|);
    from := stack[m - 1];
    to := if forward == Some(false) then stack[m - 1 - k] else pages[|pages| - 1];
    r := stack;
    if forward != Some(false) {
      r := r + [to];
      var i := 0;
      while i < |pages| - 1
        invariant 0 <= i <= |pages| - 1
        invariant r == stack + pages[..i] + [to]
      {
        r := InsertAt(r, |r| - 1, pages[i]);
        assert pages[..i + 1] == pages[..i] + [pages[i]];
        i := i + 1;
      }
      assert pages[..|pages| - 1] + [to] == pages;
    }
    if forward != Some(true) {
      var tail := if forward == Some(false) then [stack[m - 1]] else pages;
      var j := if forward == Some(false) then 1 else 0;
      assert r == stack[..m - j] + tail;
      while j < k
        invariant j <= k
        invariant r == stack[..m - j] + tail
      {
        r := RemoveAt(r, m - j - 1);
        assert stack[..m - j] == stack[..m - j - 1] + [stack[m - j - 1]];
        j := j + 1;
      }
      if forward == Some(false) {
        r := r[..|r| - 1];
      }
    }
  }
}
