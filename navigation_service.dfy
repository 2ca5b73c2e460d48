/** The navigation service of one page scope. It knows the page it belongs
    to (its page accessor), the window that page lives in, which pages are
    active, and the callbacks it has caused so far. Each public operation
    takes its decision with a plan function of `NavigationPlans`, answers a
    `NavigationResult`, and on success changes the window as the plan says. */
module Navigation {
  import opened Wrappers
  import opened UriParsing
  import opened Pages
  import opened Locations
  import opened NavigationPlans
  import Construction
  import VisualTree

  /** The transition `NavigateAsync` performs once its pages exist and a
      window does: an absolute push, a modal push of the first page (a path
      starting with a back operator gives no page to push), or relative
      navigation from the current page, which in a slot is carried out as
      written (see `RelativeTransitionAsWritten`). */
  function RouteOf(w: Window, cur: Result<Location>, active: set<PageId>, abs: bool, modal: bool, b: Construction.Built): Result<Transition>
    requires |b.pages| > 0 && (abs ==> b.pages[0].Some?)
    requires cur.Success? ==> PageAt(w, cur.value).Some?
  {
    if abs then Success(AbsolutePush(w, b.pages[0].value))
    else if modal then
      match b.pages[0]
      case None => Failure(NullReference)
      case Some(root) =>
        match cur
        case Failure(e) => Failure(e)
        case Success(loc) => Success(ModalPush(w, loc, root))
    else
      match cur
      case Failure(e) => Failure(e)
      case Success(loc) =>
        match PlanRelative(w, loc, active, b.pages)
        case Failure(e) => Failure(e)
        case Success(p) => Success(RelativeTransitionAsWritten(w, p, PageAt(w, loc).value))
  }

  /** The page a failing route has already navigated away from: a modal
      push of a path that starts with a back operator walks away from the
      current page's root before it dereferences the missing page. */
  function Abandoned(w: Window, cur: Result<Location>, abs: bool, modal: bool, b: Construction.Built): Option<Page>
    requires |b.pages| > 0
  {
    if !abs && modal && b.pages[0].None? && cur.Success? then RootPage(w, cur.value.root) else None
  }

  /** The callbacks of that walk. */
  function AbandonTrace(gone: Option<Page>, useRegions: bool): seq<Event> {
    match gone
    case None => []
    case Some(p) => NavigatedTrace(p, false, useRegions)
  }

  /** The active flags after that walk. */
  function AbandonActive(active: set<PageId>, gone: Option<Page>): set<PageId> {
    match gone
    case None => active
    case Some(p) => active - SetOf(Chain(p))
  }

  class NavigationService {
    /** The registered pages. */
    const registry: Construction.Registry
    /** `MvvmHelpers.UsePageEventsInRegions`. */
    const useRegions: bool
    /** The page of the service's scope (`PageAccessor.Page`), if any. */
    const accessor: Option<PageId>
    /** The window the service navigates in, once it has one. */
    var window: Option<Window>
    /** The pages whose `IsActiveView` flag is set. */
    var active: set<PageId>
    /** The callbacks and hooks caused so far, in order. */
    var log: seq<Event>
    /** The next fresh page identity. */
    var next: nat

    constructor (registry: Construction.Registry, useRegions: bool, accessor: Option<PageId>,
                 window: Option<Window>, active: set<PageId>, next: nat)
      ensures this.registry == registry && this.useRegions == useRegions && this.accessor == accessor
      ensures this.window == window && this.active == active && this.log == [] && this.next == next
    {
      this.registry := registry;
      this.useRegions := useRegions;
      this.accessor := accessor;
      this.window := window;
      this.active := active;
      this.log := [];
      this.next := next;
    }

    /** `GetCurrentPage`: the accessor's page, found in the window, or the
        window's page when the scope has no page. Without any page the
        result is null (`NullReference`); a scope page that is not in the
        window belongs to a page navigated away from (`InactivePage`). */
    function CurrentLocation(): (r: Result<Location>)
      reads this`window
      ensures r.Success? ==> window.Some? && PageAt(window.value, r.value).Some?
      ensures r.Success? && accessor.Some? ==> PageAt(window.value, r.value).value.info.id == accessor.value
      ensures accessor.None? ==> (r.Success? <==> window.Some?) && (r.Success? ==> r.value == Location(MainRoot, []))
      ensures r.Failure? ==> r.error in {NullReference, InactivePage}
    {
      match accessor
      case None => if window.Some? then Success(Location(MainRoot, [])) else Failure(NullReference)
      case Some(id) =>
        if window.None? then Failure(InactivePage)
        else
          match Locate(window.value, id)
          case None => Failure(InactivePage)
          case Some(loc) => Success(loc)
    }

    /** Record callbacks: the log grows by `t` and the activation flags
        follow it. */
    method Emit(t: seq<Event>)
      modifies this`log, this`active
      ensures log == old(log) + t && active == ApplyActive(old(active), t)
    {
      log := log + t;
      active := ApplyActive(active, t);
    }

    /** `PageNavigatedRecursively(from, false)`, then `(to, true)`. */
    method Move(from: Page, to: Page)
      modifies this`log, this`active
      ensures log == old(log) + Switch(from, to, useRegions)
      ensures active == (old(active) - SetOf(Chain(from))) + SetOf(Chain(to))
    {
      SwitchActive(active, from, to, useRegions, []);
      assert Switch(from, to, useRegions) + [] == Switch(from, to, useRegions);
      Emit(Switch(from, to, useRegions));
    }

    /** `PageNavigatedRecursively(p, false)` alone. */
    method WalkFrom(p: Page)
      modifies this`log, this`active
      ensures log == old(log) + NavigatedTrace(p, false, useRegions)
      ensures active == old(active) - SetOf(Chain(p))
    {
      NavigatedActiveSet(active, p, false, useRegions);
      Emit(NavigatedTrace(p, false, useRegions));
    }

    /** `DestroyPageRecursively`: destruction leaves the activation flags
        alone. */
    method DestroyPageRecursively(p: Page)
      modifies this`log, this`active
      ensures log == old(log) + DestroyTrace(p) && active == old(active)
    {
      DestroyQuiet(p);
      ApplyActiveQuiet(active, DestroyTrace(p));
      Emit(DestroyTrace(p));
    }

    /** A `foreach` loop destroying pages in the given order. */
    method DestroyEach(ps: seq<Page>)
      modifies this`log, this`active
      ensures log == old(log) + DestroyInOrder(ps) && active == old(active)
    {
      var i := 0;
      while i < |ps|
        invariant 0 <= i <= |ps|
        invariant log == old(log) + DestroyInOrder(ps[..i]) && active == old(active)
      {
        DestroyInOrderPrefix(ps, i);
        AppendAssoc(old(log), DestroyInOrder(ps[..i]), DestroyTrace(ps[i]));
        DestroyPageRecursively(ps[i]);
        i := i + 1;
      }
      assert ps[..i] == ps;
    }

    /* -------------------------------------------------------------- */
    /* SelectTab and ToggleFlyout                                      */
    /* -------------------------------------------------------------- */

    /** `SelectTab`'s decision; a null current page has no parent tabbed
        page. */
    function SelectTabPlan(name: string): (r: Result<TabSwitch>)
      reads this`window
      ensures r.Success? ==> window.Some? && PageAt(window.value, r.value.host) == Some(r.value.tab)
                             && r.value.tab.TabbedPage? && r.value.tab.current < |r.value.tab.children|
                             && r.value.to < |r.value.tab.children| && r.value.to != r.value.tab.current
                             && Construction.TabMatches(r.value.tab.children[r.value.to], name)
    {
      match CurrentLocation()
      case Failure(e) => if e == NullReference then Failure(NoParentTabbedPage) else Failure(e)
      case Success(loc) => PlanSelectTab(window.value, loc, name)
    }

    /** `SelectTab`: the selected tab is navigated from, the named tab is
        navigated to and becomes `CurrentPage`. */
    method SelectTab(name: string) returns (r: NavigationResult)
      modifies this
      ensures r == ToNavigationResult(old(SelectTabPlan(name)))
      ensures r.Failed? ==> unchanged(this)
      ensures r.Succeeded? ==>
        var s := old(SelectTabPlan(name)).value;
        var from := s.tab.children[s.tab.current];
        var to := s.tab.children[s.to];
        window == Some(ReplaceAt(old(window).value, s.host, s.tab.(current := s.to)))
        && log == old(log) + Switch(from, to, useRegions)
        && active == (old(active) - SetOf(Chain(from))) + SetOf(Chain(to))
        && next == old(next)
    {
      var plan := SelectTabPlan(name);
      if plan.Failure? {
        return Failed(plan.error);
      }
      var s := plan.value;
      var w := window.value;
      Move(s.tab.children[s.tab.current], s.tab.children[s.to]);
      window := Some(ReplaceAt(w, s.host, s.tab.(current := s.to)));
      r := Succeeded;
    }

    /** `ToggleFlyout`'s decision; a null current page has no parent flyout
        page. */
    function ToggleFlyoutPlan(): (r: Result<Location>)
      reads this`window
      ensures r.Success? ==> window.Some? && PageAt(window.value, r.value).Some? && PageAt(window.value, r.value).value.FlyoutPage?
    {
      match CurrentLocation()
      case Failure(e) => if e == NullReference then Failure(NoParentFlyoutPage) else Failure(e)
      case Success(loc) => PlanToggleFlyout(window.value, loc)
    }

    /** `ToggleFlyout`: set `IsPresented` of the nearest flyout page. */
    method ToggleFlyout(isPresented: bool) returns (r: NavigationResult)
      modifies this
      ensures r == ToNavigationResult(old(ToggleFlyoutPlan()))
      ensures r.Failed? ==> unchanged(this)
      ensures r.Succeeded? ==>
        var host := old(ToggleFlyoutPlan()).value;
        var fp := PageAt(old(window).value, host).value;
        window == Some(ReplaceAt(old(window).value, host, fp.(presented := isPresented)))
        && log == old(log) && active == old(active) && next == old(next)
    {
      var plan := ToggleFlyoutPlan();
      if plan.Failure? {
        return Failed(plan.error);
      }
      var w := window.value;
      var fp := PageAt(w, plan.value).value;
      window := Some(ReplaceAt(w, plan.value, fp.(presented := isPresented)));
      r := Succeeded;
    }

    /** Carry out a transition: the left page's chain is navigated from and
        the new page's navigated to, the window takes its new content, and
        the pages left behind are destroyed, the last stacked first. */
    method Carry(t: Transition)
      modifies this`window, this`log, this`active
      ensures window == Some(t.window) && log == old(log) + TransitionTrace(t, useRegions)
      ensures active == (old(active) - SetOf(Chain(t.from))) + SetOf(Chain(t.to))
      ensures Project(log[|old(log)|..], DisposalOf) == Reverse(Ids(PreOrderAll(t.doomed)))
    {
      Move(t.from, t.to);
      window := Some(t.window);
      DestroyEach(Reverse(t.doomed));
      DestroyInOrderReverse(t.doomed);
      TransitionOutcome(t, old(active), useRegions);
      AppendAssoc(old(log), Switch(t.from, t.to, useRegions), DestroyReversed(t.doomed));
      AppendDrop(old(log), TransitionTrace(t, useRegions));
    }

    /* -------------------------------------------------------------- */
    /* Going back                                                      */
    /* -------------------------------------------------------------- */

    function GoBackToRootPlan(): (r: Result<StackFrame>)
      reads this`window, this`active
      ensures r.Success? ==> window.Some? && FrameFits(window.value, r.value)
    {
      match CurrentLocation()
      case Failure(e) => Failure(e)
      case Success(loc) => PlanGoBackToRoot(window.value, loc, active)
    }

    /** `GoBackToRootAsync` as written: the popped pages are never
        destroyed (see `BackToRootAsWritten`). */
    method GoBackToRootAsWritten() returns (r: NavigationResult)
      modifies this
      ensures r == ToNavigationResult(old(GoBackToRootPlan()))
      ensures r.Failed? ==> unchanged(this)
      ensures r.Succeeded? ==>
        var t := BackToRootAsWritten(old(window).value, old(GoBackToRootPlan()).value);
        window == Some(t.window) && log == old(log) + TransitionTrace(t, useRegions)
        && active == (old(active) - SetOf(Chain(t.from))) + SetOf(Chain(t.to))
        && Project(log[|old(log)|..], DisposalOf) == [] && next == old(next)
    {
      var plan := GoBackToRootPlan();
      if plan.Failure? {
        return Failed(plan.error);
      }
      Carry(BackToRootAsWritten(window.value, plan.value));
      r := Succeeded;
    }

    /** `GoBackToRootAsync` with the popped pages taken before the pop: the
        stack's top is navigated from, its root navigated to, the stack cut
        down to the root, and each page above the root destroyed, the old
        top first. */
    method GoBackToRoot() returns (r: NavigationResult)
      modifies this
      ensures r == ToNavigationResult(old(GoBackToRootPlan()))
      ensures r.Failed? ==> unchanged(this)
      ensures r.Succeeded? ==>
        var t := BackToRoot(old(window).value, old(GoBackToRootPlan()).value);
        window == Some(t.window) && log == old(log) + TransitionTrace(t, useRegions)
        && active == (old(active) - SetOf(Chain(t.from))) + SetOf(Chain(t.to))
        && Project(log[|old(log)|..], DisposalOf) == Reverse(Ids(PreOrderAll(t.doomed)))
        && next == old(next)
    {
      var plan := GoBackToRootPlan();
      if plan.Failure? {
        return Failed(plan.error);
      }
      Carry(BackToRoot(window.value, plan.value));
      r := Succeeded;
    }

    function GoBackPlan(modal: bool): (r: Result<Retreat>)
      reads this`window, this`active
      ensures r.Success? ==> window.Some? && CurrentLocation().Success?
      ensures r.Success? && r.value.Modally? ==> |window.value.modal| > 0
      ensures r.Success? && r.value.PopFrom? ==> FrameFits(window.value, r.value.frame)
    {
      if window.None? then Failure(NoWindow)
      else
        match CurrentLocation()
        case Failure(e) => Failure(e)
        case Success(loc) => PlanGoBack(window.value, loc, active, modal)
    }

    /** `GoBackAsync`: the transition `Retreated` names, from the current
        page. */
    method GoBack(modal: bool) returns (r: NavigationResult)
      modifies this
      ensures r == ToNavigationResult(old(GoBackPlan(modal)))
      ensures r.Failed? ==> unchanged(this)
      ensures r.Succeeded? ==>
        var w := old(window).value;
        var t := Retreated(w, PageAt(w, old(CurrentLocation()).value).value, old(GoBackPlan(modal)).value);
        window == Some(t.window) && log == old(log) + TransitionTrace(t, useRegions)
        && active == (old(active) - SetOf(Chain(t.from))) + SetOf(Chain(t.to))
        && Project(log[|old(log)|..], DisposalOf) == Reverse(Ids(PreOrderAll(t.doomed)))
        && next == old(next)
    {
      var plan := GoBackPlan(modal);
      if plan.Failure? {
        return Failed(plan.error);
      }
      var w := window.value;
      Carry(Retreated(w, PageAt(w, CurrentLocation().value).value, plan.value));
      r := Succeeded;
    }

    /* -------------------------------------------------------------- */
    /* Pushing root pages                                              */
    /* -------------------------------------------------------------- */

    /** `DoAbsolutePush`. Without a window, the new page is navigated to
        and a window is opened with it. Otherwise the window's top
        root-level page is left for the new page, which becomes the
        window's whole content, and the page left is destroyed. */
    method DoAbsolutePush(root: Page)
      modifies this`window, this`log, this`active
      ensures old(window).None? ==>
        window == Some(Window(root, [])) && log == old(log) + NavigatedTrace(root, true, useRegions)
        && active == old(active) + SetOf(Chain(root))
      ensures old(window).Some? ==>
        var t := AbsolutePush(old(window).value, root);
        window == Some(t.window) && log == old(log) + TransitionTrace(t, useRegions)
        && active == (old(active) - SetOf(Chain(t.from))) + SetOf(Chain(t.to))
        && Project(log[|old(log)|..], DisposalOf) == Reverse(Ids(PreOrderAll(t.doomed)))
    {
      if window.None? {
        NavigatedActiveSet(active, root, true, useRegions);
        Emit(NavigatedTrace(root, true, useRegions));
        window := Some(Window(root, []));
        return;
      }
      Carry(AbsolutePush(window.value, root));
    }

    /** `DoModalPush`: from the current page, the root-level page holding
        it (found by `GetRootPageBeforeWindowForPage`) is left for the new
        page, which is pushed on the modal stack. */
    method DoModalPush(root: Page) returns (r: NavigationResult)
      modifies this`window, this`log, this`active
      ensures old(window).None? ==> r == Failed(NoWindow)
      ensures old(window).Some? ==> r == ToNavigationResult(old(CurrentLocation()))
      ensures r.Failed? ==> unchanged(this)
      ensures r.Succeeded? ==>
        var t := ModalPush(old(window).value, old(CurrentLocation()).value, root);
        window == Some(t.window) && log == old(log) + TransitionTrace(t, useRegions)
        && active == (old(active) - SetOf(Chain(t.from))) + SetOf(Chain(t.to))
        && Project(log[|old(log)|..], DisposalOf) == []
    {
      if window.None? {
        return Failed(NoWindow);
      }
      var current := CurrentLocation();
      if current.Failure? {
        return Failed(current.error);
      }
      var w := window.value;
      var loc := current.value;
      ElementChainShape(w, loc);
      var top := VisualTree.RootPageBeforeWindow(ElementChain(w, loc));
      RootBeforeWindow(w, loc);
      var from := PageAt(w, Up(loc, top)).value;
      var t := Transition(w.(modal := w.modal + [root]), from, root, []);
      assert t == ModalPush(w, loc, root);
      Carry(t);
      r := Succeeded;
    }

    /** `DoFlyoutPush` on the flyout page at `host`: its Detail is left for
        the new page, which becomes the Detail, and the old Detail is
        destroyed. */
    method DoFlyoutPush(host: Location, root: Page)
      requires window.Some? && PageAt(window.value, host).Some? && PageAt(window.value, host).value.FlyoutPage?
      modifies this`window, this`log, this`active
      ensures var t := FlyoutPush(old(window).value, host, root);
        window == Some(t.window) && log == old(log) + TransitionTrace(t, useRegions)
        && active == (old(active) - SetOf(Chain(t.from))) + SetOf(Chain(t.to))
        && Project(log[|old(log)|..], DisposalOf) == Reverse(Ids(PreOrderAll(t.doomed)))
    {
      Carry(FlyoutPush(window.value, host, root));
    }

    /* -------------------------------------------------------------- */
    /* Relative navigation                                             */
    /* -------------------------------------------------------------- */

    /** `DoRelativeNavigation`'s decision over the constructed pages. */
    function RelativePlanFor(built: seq<Option<Page>>): (r: Result<RelativePlan>)
      requires |built| > 0
      reads this`window, this`active
      ensures r.Success? ==> window.Some? && RelativeFits(window.value, r.value)
      ensures r.Success? ==> CurrentLocation().Success?
      ensures r.Success? && r.value.InSlot? && |r.value.slot.steps| == 0
              ==> PageAt(window.value, CurrentLocation().value) == Some(window.value.page)
      ensures window.None? ==> r == Failure(NoWindow)
    {
      if window.None? then Failure(NoWindow)
      else
        match CurrentLocation()
        case Failure(e) => Failure(e)
        case Success(loc) => PlanRelative(window.value, loc, active, built)
    }

    /** `DoRelativeNavigation`: within the navigation page holding the
        current page, the stack is edited as `EditNavigationStack` does it;
        otherwise the slot holding the current page receives the new
        page. The transition is the one `RelativeTransition` names. */
    method DoRelativeNavigation(built: seq<Option<Page>>) returns (r: NavigationResult)
      requires |built| > 0
      modifies this`window, this`log, this`active
      ensures r == ToNavigationResult(old(RelativePlanFor(built)))
      ensures r.Failed? ==> unchanged(this)
      ensures r.Succeeded? ==>
        var t := RelativeTransition(old(window).value, old(RelativePlanFor(built)).value);
        window == Some(t.window) && log == old(log) + TransitionTrace(t, useRegions)
        && active == (old(active) - SetOf(Chain(t.from))) + SetOf(Chain(t.to))
        && Project(log[|old(log)|..], DisposalOf) == Reverse(Ids(PreOrderAll(t.doomed)))
    {
      var plan := RelativePlanFor(built);
      if plan.Failure? {
        return Failed(plan.error);
      }
      CarryRelative(window.value, plan.value);
      r := Succeeded;
    }

    /** `DoRelativeNavigation` as written: in a navigation page as
        above; in a slot the current page is navigated from and to, stays
        in place and is destroyed (`RelativeTransitionAsWritten`). */
    method DoRelativeNavigationAsWritten(built: seq<Option<Page>>) returns (r: NavigationResult)
      requires |built| > 0
      modifies this`window, this`log, this`active
      ensures r == ToNavigationResult(old(RelativePlanFor(built)))
      ensures r.Failed? ==> unchanged(this)
      ensures r.Succeeded? ==>
        var w := old(window).value;
        var t := RelativeTransitionAsWritten(w, old(RelativePlanFor(built)).value, PageAt(w, old(CurrentLocation()).value).value);
        window == Some(t.window) && log == old(log) + TransitionTrace(t, useRegions)
        && active == (old(active) - SetOf(Chain(t.from))) + SetOf(Chain(t.to))
        && Project(log[|old(log)|..], DisposalOf) == Reverse(Ids(PreOrderAll(t.doomed)))
    {
      var plan := RelativePlanFor(built);
      if plan.Failure? {
        return Failed(plan.error);
      }
      var w := window.value;
      if plan.value.InStack? {
        CarryRelative(w, plan.value);
      } else {
        Carry(RelativeTransitionAsWritten(w, plan.value, PageAt(w, CurrentLocation().value).value));
      }
      r := Succeeded;
    }

    /** The transition of a relative plan, carried out; in a navigation
        page the new stack is the one `EditNavigationStack` computes. */
    method CarryRelative(w: Window, p: RelativePlan)
      requires window == Some(w) && RelativeFits(w, p)
      modifies this`window, this`log, this`active
      ensures var t := RelativeTransition(w, p);
        window == Some(t.window) && log == old(log) + TransitionTrace(t, useRegions)
        && active == (old(active) - SetOf(Chain(t.from))) + SetOf(Chain(t.to))
        && Project(log[|old(log)|..], DisposalOf) == Reverse(Ids(PreOrderAll(t.doomed)))
    {
      match p {
        case InStack(f, k, pages) =>
          var s := f.nav.stack;
          var edited, from, to := EditNavigationStack(s, pages, k);
          var t := Transition(ReplaceAt(w, f.host, f.nav.(stack := edited)), from, to, s[|s| - k..]);
          assert t == RelativeTransition(w, p);
          Carry(t);
        case InSlot(_, _, _) =>
          Carry(RelativeTransition(w, p));
      }
    }

    /* -------------------------------------------------------------- */
    /* NavigateAsync                                                   */
    /* -------------------------------------------------------------- */

    /** `NavigateAsync`'s first steps: parse the path, take it as absolute
        when it is an absolute URI or there is no window yet, and construct
        its pages. */
    function Constructed(uri: string): (r: Result<(bool, Construction.Built)>)
      reads this`window, this`next
      ensures r.Success? ==> |r.value.1.pages| > 0 && r.value.1.next >= next && Construction.InitOnly(r.value.1.trace)
      ensures r.Success? ==> ReplaceDotsAndParse(uri).Success?
                             && (r.value.0 <==> window.None? || IsAbsolute(ReplaceDotsAndParse(uri).value))
      ensures r.Success? && r.value.0 ==> |r.value.1.pages| == 1 && r.value.1.pages[0].Some?
    {
      match ReplaceDotsAndParse(uri)
      case Failure(e) => Failure(e)
      case Success(u) =>
        var abs := IsAbsolute(u) || window.None?;
        Construction.ConstructInitOnly(registry, u, abs, next);
        match Construction.ConstructPages(registry, u, abs, next)
        case Failure(e) => Failure(e)
        case Success(b) => Success((abs, b))
    }

    /** `OnPageLoadedRecursively` runs on the first page of the list, which
        relative navigation has emptied of back operators; it does not run
        when the list has become empty. */
    function LoadedHook(rooted: bool, pages: seq<Option<Page>>): (t: seq<Event>)
      requires |pages| > 0
      ensures Quiet(t) && |t| <= 1
      ensures rooted && pages[0].Some? ==> t == [Loaded(pages[0].value.info.id)]
      ensures !rooted ==> (|t| == 1 <==> exists p :: Some(p) in pages)
    {
      if rooted then (if pages[0].Some? then [Loaded(pages[0].value.info.id)] else [])
      else
        var shown := NonNull(pages);
        if |shown| > 0 then assert shown[0] in shown; [Loaded(shown[0].info.id)] else []
    }

    /** The rest of `NavigateAsync` once the pages exist and a window
        does: the route's transition, then the hook on the first shown
        page. */
    method FollowRoute(abs: bool, modal: bool, b: Construction.Built) returns (r: NavigationResult)
      requires window.Some? && |b.pages| > 0 && (abs ==> b.pages[0].Some?)
      modifies this`window, this`log, this`active
      ensures var route := RouteOf(old(window).value, old(CurrentLocation()), old(active), abs, modal, b);
        r == ToNavigationResult(route)
        && (route.Failure? ==>
              var gone := Abandoned(old(window).value, old(CurrentLocation()), abs, modal, b);
              window == old(window) && log == old(log) + AbandonTrace(gone, useRegions)
              && active == AbandonActive(old(active), gone))
        && (route.Success? ==>
              window == Some(route.value.window)
              && log == old(log) + TransitionTrace(route.value, useRegions)
              && active == (old(active) - SetOf(Chain(route.value.from))) + SetOf(Chain(route.value.to)))
    {
      if abs {
        DoAbsolutePush(b.pages[0].value);
        r := Succeeded;
      } else if modal && b.pages[0].None? {
        r := AbandonModalPush(b);
      } else if modal {
        r := DoModalPush(b.pages[0].value);
      } else {
        r := DoRelativeNavigationAsWritten(b.pages);
      }
    }

    /** `DoModalPush` of the missing page of a path that starts with a
        back operator: the current page's root is navigated from, then the
        null page is dereferenced. */
    method AbandonModalPush(b: Construction.Built) returns (r: NavigationResult)
      requires window.Some? && |b.pages| > 0 && b.pages[0].None?
      modifies this`log, this`active
      ensures var gone := Abandoned(window.value, old(CurrentLocation()), false, true, b);
        r == Failed(NullReference) && log == old(log) + AbandonTrace(gone, useRegions)
        && active == AbandonActive(old(active), gone)
    {
      var cur := CurrentLocation();
      if cur.Success? {
        WalkFrom(RootPage(window.value, cur.value.root).value);
      }
      r := Failed(NullReference);
    }

    /** `OnPageLoadedRecursively` on the first shown page. */
    method Load(rooted: bool, pages: seq<Option<Page>>)
      requires |pages| > 0
      modifies this`log, this`active
      ensures log == old(log) + LoadedHook(rooted, pages) && active == old(active)
    {
      var hook := LoadedHook(rooted, pages);
      ApplyActiveQuiet(active, hook);
      Emit(hook);
    }

    /** `NavigateAsync` once its pages exist: open the first window with
        the first page, or carry out the route's transition; then load the
        first shown page. */
    method Proceed(abs: bool, modal: bool, b: Construction.Built) returns (r: NavigationResult)
      requires |b.pages| > 0 && (abs ==> b.pages[0].Some?) && (window.None? ==> abs)
      modifies this`window, this`log, this`active
      ensures old(window).None? ==>
        var root := b.pages[0].value;
        r == Succeeded && window == Some(Window(root, []))
        && log == old(log) + NavigatedTrace(root, true, useRegions) + [Loaded(root.info.id)]
        && active == old(active) + SetOf(Chain(root))
      ensures old(window).Some? ==>
        var route := RouteOf(old(window).value, old(CurrentLocation()), old(active), abs, modal, b);
        r == ToNavigationResult(route)
        && (route.Failure? ==>
              var gone := Abandoned(old(window).value, old(CurrentLocation()), abs, modal, b);
              window == old(window) && log == old(log) + AbandonTrace(gone, useRegions)
              && active == AbandonActive(old(active), gone))
        && (route.Success? ==>
              window == Some(route.value.window)
              && log == old(log) + TransitionTrace(route.value, useRegions) + LoadedHook(abs || modal, b.pages)
              && active == (old(active) - SetOf(Chain(route.value.from))) + SetOf(Chain(route.value.to)))
    {
      if window.None? {
        var root := b.pages[0].value;
        DoAbsolutePush(root);
        Load(true, b.pages);
        return Succeeded;
      }
      r := FollowRoute(abs, modal, b);
      if r.Succeeded? {
        Load(abs || modal, b.pages);
      }
    }

    /** `NavigateAsync`. The constructed pages' initialisation is recorded
        whatever follows; then the first window is opened, or the route's
        transition is carried out, and the first shown page is loaded. */
    method Navigate(uri: string, modal: bool) returns (r: NavigationResult)
      modifies this
      ensures old(Constructed(uri)).Failure? ==> r == Failed(old(Constructed(uri)).error) && unchanged(this)
      ensures old(Constructed(uri)).Success? ==>
        var abs := old(Constructed(uri)).value.0;
        var b := old(Constructed(uri)).value.1;
        next == b.next
        && (old(window).None? ==>
              var root := b.pages[0].value;
              r == Succeeded && window == Some(Window(root, []))
              && log == old(log) + b.trace + NavigatedTrace(root, true, useRegions) + [Loaded(root.info.id)]
              && active == old(active) + SetOf(Chain(root)))
        && (old(window).Some? ==>
              var route := RouteOf(old(window).value, old(CurrentLocation()), old(active), abs, modal, b);
              r == ToNavigationResult(route)
              && (route.Failure? ==>
                    var gone := Abandoned(old(window).value, old(CurrentLocation()), abs, modal, b);
                    window == old(window) && log == old(log) + b.trace + AbandonTrace(gone, useRegions)
                    && active == AbandonActive(old(active), gone))
              && (route.Success? ==>
                    window == Some(route.value.window)
                    && log == old(log) + b.trace + TransitionTrace(route.value, useRegions) + LoadedHook(abs || modal, b.pages)
                    && active == (old(active) - SetOf(Chain(route.value.from))) + SetOf(Chain(route.value.to))))
    {
      var c := Constructed(uri);
      if c.Failure? {
        return Failed(c.error);
      }
      r := Built(c.value.0, modal, c.value.1);
    }

    /** `NavigateAsync` once its pages are built: their initialisation
        callbacks, then the rest of the navigation. */
    method Built(abs: bool, modal: bool, b: Construction.Built) returns (r: NavigationResult)
      requires |b.pages| > 0 && (abs ==> b.pages[0].Some?) && (window.None? ==> abs)
      requires Construction.InitOnly(b.trace)
      modifies this`window, this`log, this`active, this`next
      ensures next == b.next
      ensures old(window).None? ==>
        var root := b.pages[0].value;
        r == Succeeded && window == Some(Window(root, []))
        && log == old(log) + b.trace + NavigatedTrace(root, true, useRegions) + [Loaded(root.info.id)]
        && active == old(active) + SetOf(Chain(root))
      ensures old(window).Some? ==>
        var route := RouteOf(old(window).value, old(CurrentLocation()), old(active), abs, modal, b);
        r == ToNavigationResult(route)
        && (route.Failure? ==>
                    var gone := Abandoned(old(window).value, old(CurrentLocation()), abs, modal, b);
                    window == old(window) && log == old(log) + b.trace + AbandonTrace(gone, useRegions)
                    && active == AbandonActive(old(active), gone))
        && (route.Success? ==>
              window == Some(route.value.window)
              && log == old(log) + b.trace + TransitionTrace(route.value, useRegions) + LoadedHook(abs || modal, b.pages)
              && active == (old(active) - SetOf(Chain(route.value.from))) + SetOf(Chain(route.value.to)))
    {
      Construction.InitOnlyQuiet(b.trace);
      ApplyActiveQuiet(active, b.trace);
      Emit(b.trace);
      next := b.next;
      r := Proceed(abs, modal, b);
    }

    /* -------------------------------------------------------------- */
    /* NavigateThrougFlyoutPageAsync                                   */
    /* -------------------------------------------------------------- */

    /** The flyout page of the service's scope: without a scope page, or
        with one that is not a flyout page, the operation raises before it
        starts. A scope page not in the window is `InactivePage`. */
    function FlyoutHost(): (r: Result<Location>)
      reads this`window
      ensures r.Success? ==> window.Some? && PageAt(window.value, r.value).Some? && PageAt(window.value, r.value).value.FlyoutPage?
      ensures r.Success? ==> accessor.Some? && PageAt(window.value, r.value).value.info.id == accessor.value
      ensures accessor.None? ==> r == Failure(NotFromFlyoutPage)
      ensures r.Failure? ==> r.error in {NotFromFlyoutPage, InactivePage}
    {
      if accessor.None? then Failure(NotFromFlyoutPage)
      else
        match CurrentLocation()
        case Failure(e) => Failure(e)
        case Success(loc) =>
          if PageAt(window.value, loc).value.FlyoutPage? then Success(loc) else Failure(NotFromFlyoutPage)
    }

    /** The pages of a navigation through the flyout page: the path must
        be relative, and it is built as a root path. */
    function FlyoutConstructed(uri: string): (r: Result<Construction.Built>)
      reads this`next
      ensures r.Success? ==> |r.value.pages| == 1 && r.value.pages[0].Some?
                             && r.value.next >= next && Construction.InitOnly(r.value.trace)
      ensures r.Success? ==> ReplaceDotsAndParse(uri).Success? && !IsAbsolute(ReplaceDotsAndParse(uri).value)
      ensures ReplaceDotsAndParse(uri).Success? && IsAbsolute(ReplaceDotsAndParse(uri).value)
              ==> r == Failure(AbsoluteInsideFlyoutPage)
    {
      match ReplaceDotsAndParse(uri)
      case Failure(e) => Failure(e)
      case Success(u) =>
        if IsAbsolute(u) then Failure(AbsoluteInsideFlyoutPage)
        else
          Construction.ConstructInitOnly(registry, u, true, next);
          Construction.ConstructPages(registry, u, true, next)
    }

    /** `NavigateThrougFlyoutPageAsync`: the new root page replaces the
        Detail of the scope's flyout page and is then loaded. The outer
        `Failure` is the exception raised outside the `try`. */
    method NavigateThroughFlyout(uri: string) returns (r: Result<NavigationResult>)
      modifies this
      ensures old(FlyoutHost()) == Failure(NotFromFlyoutPage) ==> r == Failure(NotFromFlyoutPage) && unchanged(this)
      ensures r.Failure? ==> r.error == NotFromFlyoutPage
      ensures old(FlyoutHost()).Failure? && old(FlyoutHost()).error != NotFromFlyoutPage
              ==> r == Success(Failed(old(FlyoutHost()).error)) && unchanged(this)
      ensures old(FlyoutHost()).Success? && old(FlyoutConstructed(uri)).Failure?
              ==> r == Success(Failed(old(FlyoutConstructed(uri)).error)) && unchanged(this)
      ensures old(FlyoutHost()).Success? && old(FlyoutConstructed(uri)).Success? ==>
        var b := old(FlyoutConstructed(uri));
        var root := b.value.pages[0].value;
        var t := FlyoutPush(old(window).value, old(FlyoutHost()).value, root);
        r == Success(Succeeded) && next == b.value.next && window == Some(t.window)
        && log == old(log) + b.value.trace + TransitionTrace(t, useRegions) + [Loaded(root.info.id)]
        && active == (old(active) - SetOf(Chain(t.from))) + SetOf(Chain(t.to))
    {
      var host := FlyoutHost();
      if host.Failure? {
        if host.error == NotFromFlyoutPage {
          return Failure(NotFromFlyoutPage);
        }
        return Success(Failed(host.error));
      }
      var c := FlyoutConstructed(uri);
      if c.Failure? {
        return Success(Failed(c.error));
      }
      PushIntoFlyout(host.value, c.value);
      r := Success(Succeeded);
    }

    /** The constructed pages' callbacks, then `DoFlyoutPush` of the first
        page, then its loading. */
    method PushIntoFlyout(host: Location, b: Construction.Built)
      requires window.Some? && PageAt(window.value, host).Some? && PageAt(window.value, host).value.FlyoutPage?
      requires |b.pages| > 0 && b.pages[0].Some? && Construction.InitOnly(b.trace)
      modifies this`window, this`log, this`active, this`next
      ensures var t := FlyoutPush(old(window).value, host, b.pages[0].value);
        window == Some(t.window) && next == b.next
        && log == old(log) + b.trace + TransitionTrace(t, useRegions) + [Loaded(b.pages[0].value.info.id)]
        && active == (old(active) - SetOf(Chain(t.from))) + SetOf(Chain(t.to))
    {
      Construction.InitOnlyQuiet(b.trace);
      ApplyActiveQuiet(active, b.trace);
      Emit(b.trace);
      next := b.next;
      DoFlyoutPush(host, b.pages[0].value);
      Load(true, b.pages);
    }
  }
}
