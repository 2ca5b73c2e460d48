/** The page tree and the walks `MvvmHelpers` performs over it. Every walk is
    a function from a page tree to the trace of effects it produces, in
    order: active-flag changes, callbacks on a view or its view model, and
    calls into the regions a page holds. */
module Pages {
  import opened Wrappers

  /** Object identity of a page. */
  type PageId = nat
  type RegionName = string

  /** The awareness interfaces a view or its view model may implement. */
  datatype Aware = NavigationAware | Destructible | WindowLifecycleAware
                 | SystemBackButtonClickAware | InitializeAware

  datatype Callback = NavigatedTo | NavigatedFrom | Destroy | Resume | Sleep
                    | SystemBackButtonClick | Initialize

  /** The interface that declares each callback. */
  function InterfaceOf(cb: Callback): Aware {
    match cb
    case NavigatedTo | NavigatedFrom => NavigationAware
    case Destroy => Destructible
    case Resume | Sleep => WindowLifecycleAware
    case SystemBackButtonClick => SystemBackButtonClickAware
    case Initialize => InitializeAware
  }

  /** The view itself, or its binding context. */
  datatype Party = View | ViewModel

  /** What the walks need to know about one page: its identity, the segment
      name it was created for, the interfaces its view and view model
      implement, the regions its region manager reports for it, and what the
      two back-button handlers answer. */
  datatype PageInfo = PageInfo(
    id: PageId,
    segment: Option<string>,
    view: set<Aware>,
    model: set<Aware>,
    regions: seq<RegionName>,
    viewBack: bool,
    modelBack: bool)

  /** `ContentPage`, `NavigationPage` (its navigation stack, root first),
      `TabbedPage` (its children and the index of `CurrentPage`) and
      `FlyoutPage` (its Flyout and Detail pages and `IsPresented`). */
  datatype Page =
    | ContentPage(info: PageInfo)
    | NavigationPage(info: PageInfo, stack: seq<Page>)
    | TabbedPage(info: PageInfo, children: seq<Page>, current: nat)
    | FlyoutPage(info: PageInfo, flyout: Page, detail: Page, presented: bool)

  /** A window: its main page and its modal stack, bottom first. */
  datatype Window = Window(page: Page, modal: seq<Page>)

  datatype Event =
    | SetActive(page: PageId, active: bool)
    | Invoked(page: PageId, party: Party, callback: Callback)
    | RegionNavigated(region: RegionName, to: bool)
    | RegionDestroyed(region: RegionName)
    | RegionWindowLifecycle(region: RegionName, resume: bool)
    | Cleared(page: PageId)
    | ScopeDisposed(page: PageId)
    | BackButtonPressed(page: PageId)
    // the hooks `OnInitializedAsync` and `OnPageLoadedRecursively`, whose
    // bodies are not part of this model
    | InitializedAsync(page: PageId)
    | Loaded(page: PageId)

  /** The child a walk descends into: the navigation page's `CurrentPage`
      (top of its stack), the tabbed page's `CurrentPage`, the flyout page's
      Detail. */
  function CurrentChild(p: Page): Option<Page> {
    match p
    case ContentPage(_) => None
    case NavigationPage(_, s) => if |s| > 0 then Some(s[|s| - 1]) else None
    case TabbedPage(_, c, i) => if i < |c| then Some(c[i]) else None
    case FlyoutPage(_, _, d, _) => Some(d)
  }

  /** The ids along the descent through current children, from `p` down. */
  function Chain(p: Page): (ids: seq<PageId>)
    ensures |ids| > 0 && ids[0] == p.info.id
    decreases p
  {
    [p.info.id] + match p
      case ContentPage(_) => []
      case NavigationPage(_, s) => if |s| > 0 then Chain(s[|s| - 1]) else []
      case TabbedPage(_, c, i) => if i < |c| then Chain(c[i]) else []
      case FlyoutPage(_, _, d, _) => Chain(d)
  }

  lemma ChainOfChild(p: Page)
    ensures CurrentChild(p).None? ==> Chain(p) == [p.info.id]
    ensures CurrentChild(p).Some? ==> Chain(p) == [p.info.id] + Chain(CurrentChild(p).value)
  {
  }

  /** A walk's current child is structurally smaller than its parent. */
  lemma ChildSmaller(p: Page)
    ensures CurrentChild(p).Some? ==> CurrentChild(p).value < p
  {
    match p {
      case ContentPage(_) =>
      case NavigationPage(_, s) =>
        if |s| > 0 { assert s[|s| - 1] in s; }
      case TabbedPage(_, c, i) =>
        if i < |c| { assert c[i] in c; }
      case FlyoutPage(_, _, d, _) =>
    }
  }

  /* ---------------------------------------------------------------- */
  /* Sequence helpers                                                  */
  /* ---------------------------------------------------------------- */

  function Reverse<T>(s: seq<T>): (r: seq<T>)
    ensures |r| == |s|
    ensures forall k :: 0 <= k < |s| ==> r[k] == s[|s| - 1 - k]
    decreases |s|
  {
    if |s| == 0 then [] else Reverse(s[1..]) + [s[0]]
  }

  lemma ReverseConcat<T>(a: seq<T>, b: seq<T>)
    ensures Reverse(a + b) == Reverse(b) + Reverse(a)
  {
  }

  lemma AppendAssoc<T>(a: seq<T>, b: seq<T>, c: seq<T>)
    ensures (a + b) + c == a + (b + c)
  {
  }

  lemma AppendDrop<T>(a: seq<T>, b: seq<T>)
    ensures (a + b)[|a|..] == b
  {
  }

  /** The page ids an event trace mentions through `pick`, in order. */
  function Project(t: seq<Event>, pick: Event -> Option<PageId>): seq<PageId>
    decreases |t|
  {
    if |t| == 0 then []
    else (if pick(t[0]).Some? then [pick(t[0]).value] else []) + Project(t[1..], pick)
  }

  lemma {:induction false} ProjectConcat(a: seq<Event>, b: seq<Event>, pick: Event -> Option<PageId>)
    ensures Project(a + b, pick) == Project(a, pick) + Project(b, pick)
    decreases |a|
  {
    if |a| == 0 {
      assert a + b == b;
    } else {
      assert (a + b)[1..] == a[1..] + b;
      ProjectConcat(a[1..], b, pick);
    }
  }

  function ActivationOf(e: Event): Option<PageId> {
    if e.SetActive? then Some(e.page) else None
  }

  function DisposalOf(e: Event): Option<PageId> {
    if e.ScopeDisposed? then Some(e.page) else None
  }

  function PressOf(e: Event): Option<PageId> {
    if e.BackButtonPressed? then Some(e.page) else None
  }

  function Ids(infos: seq<PageInfo>): seq<PageId>
    decreases |infos|
  {
    if |infos| == 0 then [] else [infos[0].id] + Ids(infos[1..])
  }

  lemma {:induction false} IdsConcat(a: seq<PageInfo>, b: seq<PageInfo>)
    ensures Ids(a + b) == Ids(a) + Ids(b)
    decreases |a|
  {
    if |a| == 0 {
      assert a + b == b;
    } else {
      assert (a + b)[1..] == a[1..] + b;
      IdsConcat(a[1..], b);
    }
  }

  /* ---------------------------------------------------------------- */
  /* Callbacks on one page                                             */
  /* ---------------------------------------------------------------- */

  /** `InvokeViewAndViewModelAction`: the view first, then the binding
      context, each only when it implements the callback's interface. */
  function Invoke(info: PageInfo, cb: Callback): (t: seq<Event>)
    ensures Invoked(info.id, View, cb) in t <==> InterfaceOf(cb) in info.view
    ensures Invoked(info.id, ViewModel, cb) in t <==> InterfaceOf(cb) in info.model
    ensures forall k :: 0 <= k < |t| ==> t[k].Invoked? && t[k].page == info.id && t[k].callback == cb
    ensures InterfaceOf(cb) in info.view && InterfaceOf(cb) in info.model ==> t == [Invoked(info.id, View, cb), Invoked(info.id, ViewModel, cb)]
  {
    (if InterfaceOf(cb) in info.view then [Invoked(info.id, View, cb)] else [])
    + (if InterfaceOf(cb) in info.model then [Invoked(info.id, ViewModel, cb)] else [])
  }

  /** `Navigated`: the active flag is set to `to` before any callback. */
  function Navigated(info: PageInfo, to: bool): (t: seq<Event>)
    ensures |t| > 0 && t[0] == SetActive(info.id, to)
    ensures forall k :: 1 <= k < |t| ==> t[k].Invoked? && t[k].page == info.id
  {
    [SetActive(info.id, to)] + Invoke(info, if to then NavigatedTo else NavigatedFrom)
  }

  function RegionsNavigated(rs: seq<RegionName>, to: bool): seq<Event> {
    seq(|rs|, k requires 0 <= k < |rs| => RegionNavigated(rs[k], to))
  }

  /** `PageNavigatedRecursively`. Navigating to a page runs the page, then
      its regions, then its current child; navigating from runs the child,
      then the regions, then the page. Regions take part only when
      `UsePageEventsInRegions` is set. */
  function NavigatedTrace(p: Page, to: bool, useRegions: bool): seq<Event>
    decreases p
  {
    var own := Navigated(p.info, to);
    var regions := if useRegions then RegionsNavigated(p.info.regions, to) else [];
    var child := match p
      case ContentPage(_) => []
      case NavigationPage(_, s) => if |s| > 0 then NavigatedTrace(s[|s| - 1], to, useRegions) else []
      case TabbedPage(_, c, i) => if i < |c| then NavigatedTrace(c[i], to, useRegions) else []
      case FlyoutPage(_, _, d, _) => NavigatedTrace(d, to, useRegions);
    if to then own + regions + child else child + regions + own
  }

  function ChildNavigatedTrace(p: Page, to: bool, useRegions: bool): seq<Event> {
    match CurrentChild(p)
    case None => []
    case Some(c) => NavigatedTrace(c, to, useRegions)
  }

  lemma NavigatedTraceShape(p: Page, to: bool, useRegions: bool)
    ensures var regions := if useRegions then RegionsNavigated(p.info.regions, to) else [];
      NavigatedTrace(p, to, useRegions)
      == if to then Navigated(p.info, to) + regions + ChildNavigatedTrace(p, to, useRegions)
         else ChildNavigatedTrace(p, to, useRegions) + regions + Navigated(p.info, to)
  {
  }

  lemma ProjectActivationNoPage(t: seq<Event>)
    requires forall k :: 0 <= k < |t| ==> !t[k].SetActive?
    ensures Project(t, ActivationOf) == []
    decreases |t|
  {
    if |t| > 0 {
      ProjectActivationNoPage(t[1..]);
    }
  }

  lemma ProjectNavigated(info: PageInfo, to: bool)
    ensures Project(Navigated(info, to), ActivationOf) == [info.id]
  {
    var t := Navigated(info, to);
    ProjectActivationNoPage(t[1..]);
  }
  /** How the three parts of one page's walk combine under `ActivationOf`. */
  lemma ActivationOfParts(own: seq<Event>, regions: seq<Event>, child: seq<Event>, id: PageId, ids: seq<PageId>, to: bool)
    requires Project(own, ActivationOf) == [id] && Project(regions, ActivationOf) == []
    requires Project(child, ActivationOf) == if to then ids else Reverse(ids)
    ensures Project(if to then own + regions + child else child + regions + own, ActivationOf)
      == if to then [id] + ids else Reverse([id] + ids)
  {
    if to {
      ProjectConcat(own, regions, ActivationOf);
      ProjectConcat(own + regions, child, ActivationOf);
    } else {
      ProjectConcat(child, regions, ActivationOf);
      ProjectConcat(child + regions, own, ActivationOf);
      ReverseConcat([id], ids);
    }
  }

  /** The active-flag changes of a navigation walk follow the current-child
      chain: top-down when navigating to, bottom-up when navigating from. */
  lemma {:induction false} NavigatedActivationOrder(p: Page, to: bool, useRegions: bool)
    ensures Project(NavigatedTrace(p, to, useRegions), ActivationOf) == if to then Chain(p) else Reverse(Chain(p))
    decreases p
  {
    var regions := if useRegions then RegionsNavigated(p.info.regions, to) else [];
    var child := ChildNavigatedTrace(p, to, useRegions);
    NavigatedTraceShape(p, to, useRegions);
    ChainOfChild(p);
    ChildSmaller(p);
    var childIds := if CurrentChild(p).Some? then Chain(CurrentChild(p).value) else [];
    if CurrentChild(p).Some? {
      NavigatedActivationOrder(CurrentChild(p).value, to, useRegions);
    }
    ProjectNavigated(p.info, to);
    ProjectActivationNoPage(regions);
    ActivationOfParts(Navigated(p.info, to), regions, child, p.info.id, childIds, to);
  }

  /** Every callback in a trace is preceded by the change of its page's
      active flag to `to`. */
  ghost predicate ActivatedBeforeCallbacks(t: seq<Event>, to: bool) {
    forall k :: 0 <= k < |t| && t[k].Invoked? ==> exists j :: 0 <= j < k && t[j] == SetActive(t[k].page, to)
  }

  lemma ActivatedBeforeCallbacksConcat(a: seq<Event>, b: seq<Event>, to: bool)
    requires ActivatedBeforeCallbacks(a, to) && ActivatedBeforeCallbacks(b, to)
    ensures ActivatedBeforeCallbacks(a + b, to)
  {
    var ab := a + b;
    forall k | 0 <= k < |ab| && ab[k].Invoked?
      ensures exists j :: 0 <= j < k && ab[j] == SetActive(ab[k].page, to)
    {
      if k < |a| {
        assert ab[k] == a[k];
        var j :| 0 <= j < k && a[j] == SetActive(a[k].page, to);
        assert ab[j] == a[j];
      } else {
        assert ab[k] == b[k - |a|];
        var j :| 0 <= j < k - |a| && b[j] == SetActive(b[k - |a|].page, to);
        assert ab[j + |a|] == b[j];
      }
    }
  }

  /** Every callback a navigation walk makes comes after the walk has set
      that page's active flag to the direction of the walk. */
  lemma {:induction false} NavigatedActiveBeforeCallbacks(p: Page, to: bool, useRegions: bool)
    ensures ActivatedBeforeCallbacks(NavigatedTrace(p, to, useRegions), to)
    decreases p
  {
    var own := Navigated(p.info, to);
    var regions := if useRegions then RegionsNavigated(p.info.regions, to) else [];
    var child := ChildNavigatedTrace(p, to, useRegions);
    NavigatedTraceShape(p, to, useRegions);
    match CurrentChild(p) {
      case None =>
      case Some(c) =>
        assert c < p by {
          match p {
            case NavigationPage(_, s) => assert c == s[|s| - 1];
            case TabbedPage(_, ch, i) => assert c == ch[i];
            case FlyoutPage(_, _, d, _) => assert c == d;
          }
        }
        NavigatedActiveBeforeCallbacks(c, to, useRegions);
    }
    assert ActivatedBeforeCallbacks(own, to) by {
      forall k | 0 <= k < |own| && own[k].Invoked?
        ensures exists j :: 0 <= j < k && own[j] == SetActive(own[k].page, to)
      {
        assert own[0] == SetActive(own[k].page, to);
      }
    }
    assert ActivatedBeforeCallbacks(regions, to);
    ActivatedBeforeCallbacksConcat(own, regions, to);
    ActivatedBeforeCallbacksConcat(own + regions, child, to);
    ActivatedBeforeCallbacksConcat(child, regions, to);
    ActivatedBeforeCallbacksConcat(child + regions, own, to);
  }

  /** The set of active pages after a trace. */
  function ApplyActive(active: set<PageId>, t: seq<Event>): set<PageId>
    decreases |t|
  {
    if |t| == 0 then active
    else
      var next := if t[0].SetActive? then (if t[0].active then active + {t[0].page} else active - {t[0].page}) else active;
      ApplyActive(next, t[1..])
  }

  lemma {:induction false} ApplyActiveConcat(active: set<PageId>, a: seq<Event>, b: seq<Event>)
    ensures ApplyActive(active, a + b) == ApplyActive(ApplyActive(active, a), b)
    decreases |a|
  {
    if |a| == 0 {
      assert a + b == b;
    } else {
      assert (a + b)[1..] == a[1..] + b;
      var next := if a[0].SetActive? then (if a[0].active then active + {a[0].page} else active - {a[0].page}) else active;
      ApplyActiveConcat(next, a[1..], b);
    }
  }

  lemma ApplyActiveQuiet(active: set<PageId>, t: seq<Event>)
    requires forall k :: 0 <= k < |t| ==> !t[k].SetActive?
    ensures ApplyActive(active, t) == active
    decreases |t|
  {
    if |t| > 0 {
      ApplyActiveQuiet(active, t[1..]);
    }
  }

  function SetOf(ids: seq<PageId>): set<PageId> {
    set k | 0 <= k < |ids| :: ids[k]
  }

  lemma SetOfConcat(a: seq<PageId>, b: seq<PageId>)
    ensures SetOf(a + b) == SetOf(a) + SetOf(b)
  {
    var ab := a + b;
    forall x | x in SetOf(ab) ensures x in SetOf(a) + SetOf(b) {
      var k :| 0 <= k < |ab| && ab[k] == x;
      if k < |a| { assert a[k] == x; } else { assert b[k - |a|] == x; }
    }
    forall x | x in SetOf(a) + SetOf(b) ensures x in SetOf(ab) {
      if x in SetOf(a) {
        var k :| 0 <= k < |a| && a[k] == x;
        assert ab[k] == x;
      } else {
        var k :| 0 <= k < |b| && b[k] == x;
        assert ab[k + |a|] == x;
      }
    }
  }

  lemma ApplyNavigated(active: set<PageId>, info: PageInfo, to: bool)
    ensures ApplyActive(active, Navigated(info, to)) == if to then active + {info.id} else active - {info.id}
  {
    var t := Navigated(info, to);
    var next := if to then active + {info.id} else active - {info.id};
    ApplyActiveQuiet(next, t[1..]);
  }

  /** How the three parts of a walk towards a page combine on the set of
      active pages. */
  lemma ActiveSetTo(active: set<PageId>, own: seq<Event>, regions: seq<Event>, child: seq<Event>, id: PageId, ids: seq<PageId>)
    requires ApplyActive(active, own) == active + {id}
    requires ApplyActive(active + {id}, regions) == active + {id}
    requires ApplyActive(active + {id}, child) == active + {id} + SetOf(ids)
    ensures ApplyActive(active, own + regions + child) == active + SetOf([id] + ids)
  {
    ApplyActiveConcat(active, own, regions);
    ApplyActiveConcat(active, own + regions, child);
    SetOfConcat([id], ids);
    assert [id][0] == id;
    assert SetOf([id]) == {id};
  }

  /** How the three parts of a walk away from a page combine on the set of
      active pages. */
  lemma ActiveSetFrom(active: set<PageId>, own: seq<Event>, regions: seq<Event>, child: seq<Event>, id: PageId, ids: seq<PageId>)
    requires ApplyActive(active, child) == active - SetOf(ids)
    requires ApplyActive(active - SetOf(ids), regions) == active - SetOf(ids)
    requires ApplyActive(active - SetOf(ids), own) == active - SetOf(ids) - {id}
    ensures ApplyActive(active, child + regions + own) == active - SetOf([id] + ids)
  {
    ApplyActiveConcat(active, child, regions);
    ApplyActiveConcat(active, child + regions, own);
    SetOfConcat([id], ids);
    assert [id][0] == id;
    assert SetOf([id]) == {id};
  }

  /** After navigating to a page, the whole current-child chain is active;
      after navigating from it, none of it is. */
  lemma {:induction false} NavigatedActiveSet(active: set<PageId>, p: Page, to: bool, useRegions: bool)
    ensures ApplyActive(active, NavigatedTrace(p, to, useRegions))
         == if to then active + SetOf(Chain(p)) else active - SetOf(Chain(p))
    decreases p
  {
    var own := Navigated(p.info, to);
    var regions := if useRegions then RegionsNavigated(p.info.regions, to) else [];
    var child := ChildNavigatedTrace(p, to, useRegions);
    NavigatedTraceShape(p, to, useRegions);
    ChainOfChild(p);
    ChildSmaller(p);
    var childIds := if CurrentChild(p).Some? then Chain(CurrentChild(p).value) else [];
    assert Chain(p) == [p.info.id] + childIds;
    if to {
      var a1 := active + {p.info.id};
      ApplyNavigated(active, p.info, to);
      ApplyActiveQuiet(a1, regions);
      if CurrentChild(p).Some? {
        NavigatedActiveSet(a1, CurrentChild(p).value, to, useRegions);
      }
      ActiveSetTo(active, own, regions, child, p.info.id, childIds);
    } else {
      var b1 := active - SetOf(childIds);
      if CurrentChild(p).Some? {
        NavigatedActiveSet(active, CurrentChild(p).value, to, useRegions);
      }
      ApplyActiveQuiet(b1, regions);
      ApplyNavigated(b1, p.info, to);
      ActiveSetFrom(active, own, regions, child, p.info.id, childIds);
    }
  }

  /* ---------------------------------------------------------------- */
  /* Top-most page                                                     */
  /* ---------------------------------------------------------------- */

  /** `EvaluateTopMostPage`: descend through current children to a page
      without one. */
  function EvaluateTopMost(p: Page): (r: Page)
    ensures CurrentChild(r).None?
    ensures r.info.id == Chain(p)[|Chain(p)| - 1]
    decreases p
  {
    match p
    case ContentPage(_) => p
    case NavigationPage(_, s) => if |s| > 0 then EvaluateTopMost(s[|s| - 1]) else p
    case TabbedPage(_, c, i) => if i < |c| then EvaluateTopMost(c[i]) else p
    case FlyoutPage(_, _, d, _) => EvaluateTopMost(d)
  }

  /** `GetTopMostPage`: none for no page; otherwise the descent starts at the
      top modal page when there is one, else at the main page. */
  function GetTopMostPage(w: Option<Window>): (r: Option<Page>)
    ensures r.None? <==> w.None?
    ensures w.Some? && |w.value.modal| > 0 ==>
      r.value.info.id == Chain(w.value.modal[|w.value.modal| - 1])[|Chain(w.value.modal[|w.value.modal| - 1])| - 1]
    ensures w.Some? && |w.value.modal| == 0 ==> r.value.info.id == Chain(w.value.page)[|Chain(w.value.page)| - 1]
    ensures r.Some? ==> CurrentChild(r.value).None?
  {
    match w
    case None => None
    case Some(win) =>
      var start := if |win.modal| > 0 then win.modal[|win.modal| - 1] else win.page;
      Some(EvaluateTopMost(start))
  }

  /** `GetPreviousRootPageForNavigatingTo`: the modal page below the top one,
      or the main page when at most one modal page is shown. */
  function PreviousRootPage(w: Window): (r: Page)
    ensures r == w.page || r in w.modal
    ensures |w.modal| > 1 ==> r == w.modal[|w.modal| - 2]
  {
    if |w.modal| > 1 then w.modal[|w.modal| - 2] else w.page
  }

  /* ---------------------------------------------------------------- */
  /* Destruction                                                       */
  /* ---------------------------------------------------------------- */

  function RegionsDestroyed(rs: seq<RegionName>): seq<Event> {
    seq(|rs|, k requires 0 <= k < |rs| => RegionDestroyed(rs[k]))
  }

  /** `DestroyPage`: the page's regions are destroyed, then the `Destroy`
      callbacks run, then behaviors and binding context are cleared. */
  function DestroyPage(info: PageInfo): seq<Event> {
    RegionsDestroyed(info.regions) + Invoke(info, Destroy) + [Cleared(info.id)]
  }

  lemma DestroyPageOrder(info: PageInfo)
    ensures var t := DestroyPage(info);
      |t| > 0 && t[|t| - 1] == Cleared(info.id)
      && (forall a, b :: 0 <= a < b < |t| && t[b].RegionDestroyed? ==> t[a].RegionDestroyed?)
      && (forall a, b :: 0 <= a < b < |t| && t[a].Invoked? ==> t[b].Invoked? || t[b] == Cleared(info.id))
      && |t| == |info.regions| + |Invoke(info, Destroy)| + 1
  {
  }

  /** `DestroyPageRecursively`, post-order: a flyout page destroys its
      Detail then its Flyout, tabbed and navigation pages destroy their
      children last first, and the page itself comes last, followed by the
      disposal of its service scope. */
  function DestroyTrace(p: Page): seq<Event>
    decreases p
  {
    var children := match p
      case ContentPage(_) => []
      case NavigationPage(_, s) => DestroyReversed(s)
      case TabbedPage(_, c, _) => DestroyReversed(c)
      case FlyoutPage(_, f, d, _) => DestroyTrace(d) + DestroyTrace(f);
    children + DestroyPage(p.info) + [ScopeDisposed(p.info.id)]
  }

  function DestroyReversed(ps: seq<Page>): seq<Event>
    decreases ps
  {
    if |ps| == 0 then [] else DestroyTrace(ps[|ps| - 1]) + DestroyReversed(ps[..|ps| - 1])
  }

  /** A `foreach` of `DestroyPageRecursively` over pages, in the given
      order. */
  function DestroyInOrder(ps: seq<Page>): seq<Event>
    decreases |ps|
  {
    if |ps| == 0 then [] else DestroyTrace(ps[0]) + DestroyInOrder(ps[1..])
  }

  lemma {:induction false} DestroyInOrderSnoc(ps: seq<Page>, p: Page)
    ensures DestroyInOrder(ps + [p]) == DestroyInOrder(ps) + DestroyTrace(p)
    decreases |ps|
  {
    if |ps| == 0 {
      assert DestroyInOrder([p]) == DestroyTrace(p) + DestroyInOrder([]);
    } else {
      assert (ps + [p])[1..] == ps[1..] + [p];
      DestroyInOrderSnoc(ps[1..], p);
    }
  }

  lemma {:induction false} DestroyInOrderPrefix(ps: seq<Page>, i: nat)
    requires i < |ps|
    ensures DestroyInOrder(ps[..i + 1]) == DestroyInOrder(ps[..i]) + DestroyTrace(ps[i])
  {
    var init := ps[..i];
    assert ps[..i + 1] == init + [ps[i]];
    DestroyInOrderSnoc(init, ps[i]);
  }

  /** Destroying a list of pages in reverse is destroying them last first. */
  lemma {:induction false} DestroyInOrderReverse(ps: seq<Page>)
    ensures DestroyInOrder(Reverse(ps)) == DestroyReversed(ps)
    decreases |ps|
  {
    if |ps| > 0 {
      var init := ps[..|ps| - 1];
      var r := Reverse(ps);
      assert r[1..] == Reverse(init);
      DestroyInOrderReverse(init);
    }
  }

  /** A trace that sets no activation flag. */
  ghost predicate Quiet(t: seq<Event>) {
    forall k :: 0 <= k < |t| ==> !t[k].SetActive?
  }

  lemma QuietConcat(a: seq<Event>, b: seq<Event>)
    requires Quiet(a) && Quiet(b)
    ensures Quiet(a + b)
  {
    assert forall k :: 0 <= k < |a + b| ==> (a + b)[k] == if k < |a| then a[k] else b[k - |a|];
  }

  /** Destroying pages never changes which pages are active. */
  lemma {:induction false} DestroyQuiet(p: Page)
    ensures Quiet(DestroyTrace(p))
    decreases p
  {
    var own := DestroyPage(p.info) + [ScopeDisposed(p.info.id)];
    QuietConcat(RegionsDestroyed(p.info.regions), Invoke(p.info, Destroy));
    QuietConcat(RegionsDestroyed(p.info.regions) + Invoke(p.info, Destroy), [Cleared(p.info.id)]);
    QuietConcat(DestroyPage(p.info), [ScopeDisposed(p.info.id)]);
    match p {
      case ContentPage(_) =>
        assert DestroyTrace(p) == [] + own;
      case NavigationPage(_, s) =>
        DestroyReversedQuiet(s);
        QuietConcat(DestroyReversed(s), own);
      case TabbedPage(_, c, _) =>
        DestroyReversedQuiet(c);
        QuietConcat(DestroyReversed(c), own);
      case FlyoutPage(_, f, d, _) =>
        DestroyQuiet(d);
        DestroyQuiet(f);
        QuietConcat(DestroyTrace(d), DestroyTrace(f));
        QuietConcat(DestroyTrace(d) + DestroyTrace(f), own);
    }
  }

  lemma {:induction false} DestroyReversedQuiet(ps: seq<Page>)
    ensures Quiet(DestroyReversed(ps))
    decreases ps
  {
    if |ps| > 0 {
      DestroyQuiet(ps[|ps| - 1]);
      DestroyReversedQuiet(ps[..|ps| - 1]);
      QuietConcat(DestroyTrace(ps[|ps| - 1]), DestroyReversed(ps[..|ps| - 1]));
    }
  }

  /** `DestroyAllPages`: the modal stack top first, then the main page. */
  function DestroyAllPages(main: Page, modal: seq<Page>): seq<Event> {
    DestroyReversed(modal) + DestroyTrace(main)
  }

  /** Pre-order over all children: a flyout page's Flyout then Detail, a
      tabbed page's children and a navigation page's stack in order. */
  function PreOrder(p: Page): (r: seq<PageInfo>)
    ensures |r| > 0 && r[0] == p.info
    decreases p
  {
    [p.info] + match p
      case ContentPage(_) => []
      case NavigationPage(_, s) => PreOrderAll(s)
      case TabbedPage(_, c, _) => PreOrderAll(c)
      case FlyoutPage(_, f, d, _) => PreOrder(f) + PreOrder(d)
  }

  function PreOrderAll(ps: seq<Page>): seq<PageInfo>
    decreases ps
  {
    if |ps| == 0 then [] else PreOrderAll(ps[..|ps| - 1]) + PreOrder(ps[|ps| - 1])
  }

  /** The window, its main page then its modal pages, in pre-order. */
  function WindowPreOrder(w: Window): seq<PageInfo> {
    PreOrder(w.page) + PreOrderAll(w.modal)
  }

  lemma ProjectDisposalNone(t: seq<Event>)
    requires forall k :: 0 <= k < |t| ==> !t[k].ScopeDisposed?
    ensures Project(t, DisposalOf) == []
    decreases |t|
  {
    if |t| > 0 {
      ProjectDisposalNone(t[1..]);
    }
  }

  lemma DestroyPageNoDisposal(info: PageInfo)
    ensures Project(DestroyPage(info), DisposalOf) == []
  {
    ProjectDisposalNone(DestroyPage(info));
  }

  /** Pages are disposed in exactly the reverse of the pre-order. */
  lemma {:induction false} DestroyOrder(p: Page)
    ensures Project(DestroyTrace(p), DisposalOf) == Reverse(Ids(PreOrder(p)))
    decreases p
  {
    var own := DestroyPage(p.info) + [ScopeDisposed(p.info.id)];
    DestroyPageNoDisposal(p.info);
    ProjectConcat(DestroyPage(p.info), [ScopeDisposed(p.info.id)], DisposalOf);
    assert Project(own, DisposalOf) == [p.info.id];
    match p {
      case ContentPage(_) =>
        assert DestroyTrace(p) == own;
        assert PreOrder(p) == [p.info];
        assert [p.info][1..] == [];
        assert Ids([p.info]) == [p.info.id];
        assert Reverse([p.info.id]) == [p.info.id];
      case NavigationPage(_, s) =>
        DestroyReversedOrder(s);
        assert DestroyTrace(p) == DestroyReversed(s) + own;
        ProjectConcat(DestroyReversed(s), own, DisposalOf);
        IdsConcat([p.info], PreOrderAll(s));
        ReverseConcat([p.info.id], Ids(PreOrderAll(s)));
      case TabbedPage(_, c, _) =>
        DestroyReversedOrder(c);
        assert DestroyTrace(p) == DestroyReversed(c) + own;
        ProjectConcat(DestroyReversed(c), own, DisposalOf);
        IdsConcat([p.info], PreOrderAll(c));
        ReverseConcat([p.info.id], Ids(PreOrderAll(c)));
      case FlyoutPage(_, f, d, _) =>
        DestroyOrder(f);
        DestroyOrder(d);
        assert DestroyTrace(p) == DestroyTrace(d) + DestroyTrace(f) + own;
        ProjectConcat(DestroyTrace(d), DestroyTrace(f), DisposalOf);
        ProjectConcat(DestroyTrace(d) + DestroyTrace(f), own, DisposalOf);
        IdsConcat([p.info], PreOrder(f) + PreOrder(d));
        IdsConcat(PreOrder(f), PreOrder(d));
        ReverseConcat([p.info.id], Ids(PreOrder(f)) + Ids(PreOrder(d)));
        ReverseConcat(Ids(PreOrder(f)), Ids(PreOrder(d)));
    }
  }

  lemma {:induction false} DestroyReversedOrder(ps: seq<Page>)
    ensures Project(DestroyReversed(ps), DisposalOf) == Reverse(Ids(PreOrderAll(ps)))
    decreases ps
  {
    if |ps| > 0 {
      var init := ps[..|ps| - 1];
      var last := ps[|ps| - 1];
      DestroyOrder(last);
      DestroyReversedOrder(init);
      ProjectConcat(DestroyTrace(last), DestroyReversed(init), DisposalOf);
      IdsConcat(PreOrderAll(init), PreOrder(last));
      ReverseConcat(Ids(PreOrderAll(init)), Ids(PreOrder(last)));
    }
  }

  /** Destroying a window's pages disposes every page exactly in the reverse
      of the order in which the window-lifecycle walk visits them. */
  lemma DestroyAllPagesOrder(w: Window)
    ensures Project(DestroyAllPages(w.page, w.modal), DisposalOf) == Reverse(Ids(WindowPreOrder(w)))
  {
    DestroyOrder(w.page);
    DestroyReversedOrder(w.modal);
    ProjectConcat(DestroyReversed(w.modal), DestroyTrace(w.page), DisposalOf);
    IdsConcat(PreOrder(w.page), PreOrderAll(w.modal));
    ReverseConcat(Ids(PreOrder(w.page)), Ids(PreOrderAll(w.modal)));
  }

  /* ---------------------------------------------------------------- */
  /* Window lifecycle                                                  */
  /* ---------------------------------------------------------------- */

  function RegionsLifecycle(rs: seq<RegionName>, resume: bool): seq<Event> {
    seq(|rs|, k requires 0 <= k < |rs| => RegionWindowLifecycle(rs[k], resume))
  }

  /** What one page contributes to a window-lifecycle walk: its own
      callbacks, then (when `UsePageEventsInRegions`) its regions. */
  function PageWindowLifecycle(info: PageInfo, resume: bool, useRegions: bool): seq<Event> {
    Invoke(info, if resume then Resume else Sleep)
    + (if useRegions then RegionsLifecycle(info.regions, resume) else [])
  }

  /** `OnWindowLifecycleRecursively`. */
  function LifecycleTrace(p: Page, resume: bool, useRegions: bool): seq<Event>
    decreases p
  {
    PageWindowLifecycle(p.info, resume, useRegions) + match p
      case ContentPage(_) => []
      case NavigationPage(_, s) => LifecycleAll(s, resume, useRegions)
      case TabbedPage(_, c, _) => LifecycleAll(c, resume, useRegions)
      case FlyoutPage(_, f, d, _) => LifecycleTrace(f, resume, useRegions) + LifecycleTrace(d, resume, useRegions)
  }

  function LifecycleAll(ps: seq<Page>, resume: bool, useRegions: bool): seq<Event>
    decreases ps
  {
    if |ps| == 0 then [] else LifecycleAll(ps[..|ps| - 1], resume, useRegions) + LifecycleTrace(ps[|ps| - 1], resume, useRegions)
  }

  /** `OnWindowLifecycleWithModalStack`: the main page, then each modal page
      in order. */
  function WindowLifecycleTrace(w: Window, resume: bool, useRegions: bool): seq<Event> {
    LifecycleTrace(w.page, resume, useRegions) + LifecycleAll(w.modal, resume, useRegions)
  }

  /** The per-page lifecycle effects of a list of pages, in list order. */
  function LifecycleOf(infos: seq<PageInfo>, resume: bool, useRegions: bool): seq<Event>
    decreases |infos|
  {
    if |infos| == 0 then [] else PageWindowLifecycle(infos[0], resume, useRegions) + LifecycleOf(infos[1..], resume, useRegions)
  }

  lemma {:induction false} LifecycleOfConcat(a: seq<PageInfo>, b: seq<PageInfo>, resume: bool, useRegions: bool)
    ensures LifecycleOf(a + b, resume, useRegions) == LifecycleOf(a, resume, useRegions) + LifecycleOf(b, resume, useRegions)
    decreases |a|
  {
    if |a| == 0 {
      assert a + b == b;
    } else {
      assert (a + b)[1..] == a[1..] + b;
      LifecycleOfConcat(a[1..], b, resume, useRegions);
    }
  }

  /** The lifecycle walk visits every page of the tree in pre-order. */
  lemma {:induction false} LifecyclePreOrder(p: Page, resume: bool, useRegions: bool)
    ensures LifecycleTrace(p, resume, useRegions) == LifecycleOf(PreOrder(p), resume, useRegions)
    decreases p
  {
    var own := PageWindowLifecycle(p.info, resume, useRegions);
    assert LifecycleOf([p.info], resume, useRegions) == own;
    match p {
      case ContentPage(_) =>
        assert PreOrder(p) == [p.info];
      case NavigationPage(_, s) =>
        LifecycleAllPreOrder(s, resume, useRegions);
        LifecycleOfConcat([p.info], PreOrderAll(s), resume, useRegions);
      case TabbedPage(_, c, _) =>
        LifecycleAllPreOrder(c, resume, useRegions);
        LifecycleOfConcat([p.info], PreOrderAll(c), resume, useRegions);
      case FlyoutPage(_, f, d, _) =>
        LifecyclePreOrder(f, resume, useRegions);
        LifecyclePreOrder(d, resume, useRegions);
        assert PreOrder(p) == [p.info] + (PreOrder(f) + PreOrder(d));
        LifecycleOfConcat([p.info], PreOrder(f) + PreOrder(d), resume, useRegions);
        LifecycleOfConcat(PreOrder(f), PreOrder(d), resume, useRegions);
    }
  }

  lemma {:induction false} LifecycleAllPreOrder(ps: seq<Page>, resume: bool, useRegions: bool)
    ensures LifecycleAll(ps, resume, useRegions) == LifecycleOf(PreOrderAll(ps), resume, useRegions)
    decreases ps
  {
    if |ps| > 0 {
      var init := ps[..|ps| - 1];
      var last := ps[|ps| - 1];
      LifecycleAllPreOrder(init, resume, useRegions);
      LifecyclePreOrder(last, resume, useRegions);
      LifecycleOfConcat(PreOrderAll(init), PreOrder(last), resume, useRegions);
    }
  }

  /** The window walk visits the main page's tree, then every modal page's
      tree in order, each in pre-order. */
  lemma WindowLifecyclePreOrder(w: Window, resume: bool, useRegions: bool)
    ensures WindowLifecycleTrace(w, resume, useRegions) == LifecycleOf(WindowPreOrder(w), resume, useRegions)
  {
    LifecyclePreOrder(w.page, resume, useRegions);
    LifecycleAllPreOrder(w.modal, resume, useRegions);
    LifecycleOfConcat(PreOrder(w.page), PreOrderAll(w.modal), resume, useRegions);
  }

  /* ---------------------------------------------------------------- */
  /* System back button                                                */
  /* ---------------------------------------------------------------- */

  datatype Asked = Asked(handled: bool, trace: seq<Event>)

  /** `OnSystemBackButtonClick`: the view is asked first; the view model is
      asked only when the view did not already report the press handled. */
  function OnSystemBackButtonClick(info: PageInfo): (a: Asked)
    ensures a.handled <==> ((SystemBackButtonClickAware in info.view && info.viewBack)
                         || (SystemBackButtonClickAware in info.model && info.modelBack))
    ensures Invoked(info.id, View, SystemBackButtonClick) in a.trace <==> SystemBackButtonClickAware in info.view
    ensures Invoked(info.id, ViewModel, SystemBackButtonClick) in a.trace
        <==> SystemBackButtonClickAware in info.model && !(SystemBackButtonClickAware in info.view && info.viewBack)
    ensures forall k :: 0 <= k < |a.trace| ==> a.trace[k].Invoked? && a.trace[k].page == info.id
  {
    var byView := SystemBackButtonClickAware in info.view && info.viewBack;
    var askModel := SystemBackButtonClickAware in info.model && !byView;
    Asked(byView || (askModel && info.modelBack),
          (if SystemBackButtonClickAware in info.view then [Invoked(info.id, View, SystemBackButtonClick)] else [])
          + (if askModel then [Invoked(info.id, ViewModel, SystemBackButtonClick)] else []))
  }

  /** The outcome of the back-button walk: whether the press was handled,
      the page tree afterwards (a presented flyout may have been closed) and
      the trace. */
  datatype BackResult = BackResult(handled: bool, page: Page, trace: seq<Event>)

  /** What happens at `target` once its child did not handle the press: its
      own handlers are asked, then the toolkit's `SendBackButtonPressed`,
      whose answer is given by `toolkitHandles`. */
  function BackAtPage(p: Page, before: seq<Event>, toolkitHandles: set<PageId>): BackResult {
    var a := OnSystemBackButtonClick(p.info);
    if a.handled then BackResult(true, p, before + a.trace)
    else BackResult(p.info.id in toolkitHandles, p, before + a.trace + [BackButtonPressed(p.info.id)])
  }

  /** `HandleSystemBackButtonClickRecursively` up to the toolkit call. */
  function HandleBack(p: Page, toolkitHandles: set<PageId>): BackResult
    decreases p
  {
    match p
    case FlyoutPage(info, f, d, presented) =>
      if presented then
        var r := HandleBack(f, toolkitHandles);
        BackResult(true, FlyoutPage(info, r.page, d, r.handled), r.trace)
      else
        var r := HandleBack(d, toolkitHandles);
        if r.handled then BackResult(true, FlyoutPage(info, f, r.page, false), r.trace)
        else BackAtPage(p, r.trace, toolkitHandles)
    case NavigationPage(info, s) =>
      if |s| > 0 then
        var r := HandleBack(s[|s| - 1], toolkitHandles);
        if r.handled then BackResult(true, NavigationPage(info, s[..|s| - 1] + [r.page]), r.trace)
        else BackAtPage(p, r.trace, toolkitHandles)
      else BackAtPage(p, [], toolkitHandles)
    case TabbedPage(info, c, i) =>
      if i < |c| then
        var r := HandleBack(c[i], toolkitHandles);
        if r.handled then BackResult(true, TabbedPage(info, c[i := r.page], i), r.trace)
        else BackAtPage(p, r.trace, toolkitHandles)
      else BackAtPage(p, [], toolkitHandles)
    case ContentPage(_) => BackAtPage(p, [], toolkitHandles)
  }

  /** A presented flyout always reports the press handled; it closes unless
      its Flyout content handled the press. */
  lemma BackPresentedFlyout(p: Page, toolkitHandles: set<PageId>)
    requires p.FlyoutPage? && p.presented
    ensures HandleBack(p, toolkitHandles).handled
    ensures HandleBack(p, toolkitHandles).page.FlyoutPage?
    ensures HandleBack(p, toolkitHandles).page.presented <==> HandleBack(p.flyout, toolkitHandles).handled
    ensures HandleBack(p, toolkitHandles).page.detail == p.detail
  {
  }

  /** The step at one page of an unhandled press: the page's own handlers
      declined and its id was offered to the toolkit after its child's. */
  lemma BackAtPageUnhandled(p: Page, before: seq<Event>, childIds: seq<PageId>, toolkitHandles: set<PageId>)
    requires !BackAtPage(p, before, toolkitHandles).handled
    requires Project(before, PressOf) == Reverse(childIds)
    ensures BackAtPage(p, before, toolkitHandles).page == p
    ensures Project(BackAtPage(p, before, toolkitHandles).trace, PressOf) == Reverse([p.info.id] + childIds)
    ensures p.info.id !in toolkitHandles
  {
    var a := OnSystemBackButtonClick(p.info);
    ProjectPressNone(a.trace);
    assert Project([BackButtonPressed(p.info.id)], PressOf) == [p.info.id] + Project([], PressOf);
    ProjectConcat(before, a.trace, PressOf);
    ProjectConcat(before + a.trace, [BackButtonPressed(p.info.id)], PressOf);
    ReverseConcat([p.info.id], childIds);
  }

  /** An unhandled press changes nothing in the tree, and it has been
      offered to the toolkit at every page of the current-child chain, the
      deepest first, none of which took it. */
  lemma {:induction false} BackUnhandled(p: Page, toolkitHandles: set<PageId>)
    requires !HandleBack(p, toolkitHandles).handled
    ensures HandleBack(p, toolkitHandles).page == p
    ensures Project(HandleBack(p, toolkitHandles).trace, PressOf) == Reverse(Chain(p))
    ensures SetOf(Chain(p)) !! toolkitHandles
    decreases p
  {
    ChainOfChild(p);
    ChildSmaller(p);
    var childIds: seq<PageId> := [];
    var before: seq<Event> := [];
    if CurrentChild(p).Some? {
      var c := CurrentChild(p).value;
      assert !HandleBack(c, toolkitHandles).handled;
      BackUnhandled(c, toolkitHandles);
      childIds := Chain(c);
      before := HandleBack(c, toolkitHandles).trace;
    }
    assert HandleBack(p, toolkitHandles) == BackAtPage(p, before, toolkitHandles);
    BackAtPageUnhandled(p, before, childIds, toolkitHandles);
    assert Chain(p) == [p.info.id] + childIds;
    SetOfConcat([p.info.id], childIds);
    assert SetOf([p.info.id]) == {p.info.id};
  }

  lemma ProjectPressNone(t: seq<Event>)
    requires forall k :: 0 <= k < |t| ==> !t[k].BackButtonPressed?
    ensures Project(t, PressOf) == []
    decreases |t|
  {
    if |t| > 0 {
      ProjectPressNone(t[1..]);
    }
  }
}
