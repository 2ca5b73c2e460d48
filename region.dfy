/** A region: the stack of views a region holder shows, kept as the
    children of one container grid. At most one child is visible; it is
    the region's current view. Callbacks on a view and the walks into the
    regions nested in the holder are recorded as events, not expanded. */
module Regions {
  import opened Wrappers
  import Pages

  type ViewId = nat

  /** A view created for the region, with its `RegionViewName`. */
  datatype View = View(id: ViewId, name: string)

  /** A child of the container grid and its `IsVisible` flag. */
  datatype Entry = Entry(view: View, visible: bool)

  /** `KnownNavigationParameters.NavigationDirection`. */
  datatype NavigationDirection = New | Back | Forward

  datatype RegionEvent =
    /** `InitView`: the view's name is set, `OnInitialized` runs on it and
        its behaviors are applied. */
    | ViewInitialized(view: ViewId)
    /** `MvvmHelpers.Navigated` on a view. */
    | ViewNavigated(view: ViewId, to: bool, direction: NavigationDirection)
    /** `NavigatedRecursively` of the regions nested in the holder. */
    | NestedNavigated(to: bool, direction: NavigationDirection)
    /** `DestroyRecursively`: the view's nested regions, then the view. */
    | ViewDestroyed(view: ViewId)
    /** The holder's service scope is disposed. */
    | HolderScopeDisposed
    /** `RegionManager.RemoveHolder` of the region's name. */
    | HolderRemoved(name: string)
    | ViewWindowLifecycle(view: ViewId, resume: bool)
    | NestedWindowLifecycle(resume: bool)
    | ViewPageLifecycle(view: ViewId, appearing: bool)
    | NestedPageLifecycle(appearing: bool)

  /* ---------------------------------------------------------------- */
  /* The container                                                     */
  /* ---------------------------------------------------------------- */

  function Views(cs: seq<Entry>): (vs: seq<View>)
    ensures |vs| == |cs| && forall k :: 0 <= k < |cs| ==> vs[k] == cs[k].view
  {
    seq(|cs|, k requires 0 <= k < |cs| => cs[k].view)
  }

  /** Each view object is a child at most once. */
  ghost predicate DistinctViews(cs: seq<Entry>) {
    forall i, j :: 0 <= i < j < |cs| ==> cs[i].view.id != cs[j].view.id
  }

  /** The condition under which the `CurrentView` getter's
      `SingleOrDefault` does not throw. */
  ghost predicate AtMostOneVisible(cs: seq<Entry>) {
    forall i, j :: 0 <= i < |cs| && 0 <= j < |cs| && cs[i].visible && cs[j].visible ==> i == j
  }

  /** The `CurrentView` getter: the index of the visible child. */
  function CurrentIndex(cs: seq<Entry>): (r: Option<nat>)
    ensures r.Some? ==> r.value < |cs| && cs[r.value].visible
    ensures r.None? <==> forall k :: 0 <= k < |cs| ==> !cs[k].visible
    decreases |cs|
  {
    if |cs| == 0 then None
    else if cs[0].visible then Some(0)
    else
      match CurrentIndex(cs[1..])
      case None => None
      case Some(i) => Some(i + 1)
  }

  /** With at most one visible child, a visible child is the current one. */
  lemma CurrentIsTheVisible(cs: seq<Entry>, k: nat)
    requires AtMostOneVisible(cs) && k < |cs| && cs[k].visible
    ensures CurrentIndex(cs) == Some(k)
  {
  }

  /** The children after the `CurrentView` setter has made `target` (or
      nothing) the current view. */
  function Shown(cs: seq<Entry>, target: Option<nat>): (r: seq<Entry>)
    ensures |r| == |cs| && Views(r) == Views(cs)
    ensures forall k :: 0 <= k < |r| ==> (r[k].visible <==> target == Some(k))
    ensures AtMostOneVisible(r)
    ensures target.Some? && target.value < |cs| ==> CurrentIndex(r) == target
    ensures target.None? ==> CurrentIndex(r).None?
  {
    var r := seq(|cs|, k requires 0 <= k < |cs| => cs[k].(visible := target == Some(k)));
    assert Views(r) == Views(cs);
    r
  }

  /** Showing the child that is already the only visible one changes
      nothing. */
  lemma ShownCurrent(cs: seq<Entry>)
    requires AtMostOneVisible(cs) && CurrentIndex(cs).Some?
    ensures Shown(cs, CurrentIndex(cs)) == cs
  {
    var r := Shown(cs, CurrentIndex(cs));
    forall k | 0 <= k < |cs| ensures r[k] == cs[k] {
      if cs[k].visible {
        CurrentIsTheVisible(cs, k);
      }
    }
  }

  /** The container without the children whose views are in `gone`. */
  function Keep(cs: seq<Entry>, gone: set<ViewId>): (r: seq<Entry>)
    decreases |cs|
  {
    if |cs| == 0 then []
    else (if cs[0].view.id in gone then [] else [cs[0]]) + Keep(cs[1..], gone)
  }

  /** `Children.Remove(view)`: the first child holding the view goes. */
  function RemoveView(cs: seq<Entry>, id: ViewId): (r: seq<Entry>)
    decreases |cs|
  {
    if |cs| == 0 then []
    else if cs[0].view.id == id then cs[1..]
    else [cs[0]] + RemoveView(cs[1..], id)
  }

  lemma {:induction false} RemoveAbsent(cs: seq<Entry>, id: ViewId)
    requires forall k :: 0 <= k < |cs| ==> cs[k].view.id != id
    ensures RemoveView(cs, id) == cs
    decreases |cs|
  {
    if |cs| > 0 {
      RemoveAbsent(cs[1..], id);
    }
  }

  lemma {:induction false} KeptAbsent(cs: seq<Entry>, gone: set<ViewId>, id: ViewId)
    requires forall k :: 0 <= k < |cs| ==> cs[k].view.id != id
    ensures forall k :: 0 <= k < |Keep(cs, gone)| ==> Keep(cs, gone)[k].view.id != id
    decreases |cs|
  {
    if |cs| > 0 {
      KeptAbsent(cs[1..], gone, id);
    }
  }

  lemma {:induction false} KeepAbsent(cs: seq<Entry>, gone: set<ViewId>, id: ViewId)
    requires forall k :: 0 <= k < |cs| ==> cs[k].view.id != id
    ensures Keep(cs, gone + {id}) == Keep(cs, gone)
    decreases |cs|
  {
    if |cs| > 0 {
      KeepAbsent(cs[1..], gone, id);
    }
  }

  /** Removing one more view from a container of distinct views is keeping
      the children outside a set one larger. */
  lemma {:induction false} RemoveFromKept(cs: seq<Entry>, gone: set<ViewId>, id: ViewId)
    requires DistinctViews(cs)
    ensures RemoveView(Keep(cs, gone), id) == Keep(cs, gone + {id})
    decreases |cs|
  {
    if |cs| > 0 {
      var rest := cs[1..];
      assert DistinctViews(rest) by {
        forall i, j | 0 <= i < j < |rest| ensures rest[i].view.id != rest[j].view.id {
          assert rest[i] == cs[i + 1] && rest[j] == cs[j + 1];
        }
      }
      if cs[0].view.id == id {
        assert forall k :: 0 <= k < |rest| ==> rest[k].view.id != id by {
          forall k | 0 <= k < |rest| ensures rest[k].view.id != id {
            assert rest[k] == cs[k + 1];
          }
        }
        KeepAbsent(rest, gone, id);
        var kept := Keep(rest, gone);
        KeptAbsent(rest, gone, id);
        RemoveAbsent(kept, id);
        assert Keep(cs, gone + {id}) == Keep(rest, gone + {id});
        if id in gone {
          assert Keep(cs, gone) == kept;
        } else {
          var k0 := [cs[0]] + kept;
          assert Keep(cs, gone) == k0;
          assert k0[0] == cs[0] && k0[1..] == kept;
        }
      } else {
        RemoveFromKept(rest, gone, id);
        if cs[0].view.id in gone {
          assert Keep(cs, gone) == Keep(rest, gone);
          assert Keep(cs, gone + {id}) == Keep(rest, gone + {id});
        } else {
          var k0 := [cs[0]] + Keep(rest, gone);
          assert Keep(cs, gone) == k0;
          assert k0[0] == cs[0] && k0[1..] == Keep(rest, gone);
          assert Keep(cs, gone + {id}) == [cs[0]] + Keep(rest, gone + {id});
        }
      }
    }
  }

  lemma {:induction false} KeepConcat(a: seq<Entry>, b: seq<Entry>, gone: set<ViewId>)
    ensures Keep(a + b, gone) == Keep(a, gone) + Keep(b, gone)
    decreases |a|
  {
    if |a| == 0 {
      assert a + b == b;
    } else {
      assert (a + b)[0] == a[0];
      assert (a + b)[1..] == a[1..] + b;
      KeepConcat(a[1..], b, gone);
    }
  }

  /** No child of `cs` holds a view in `s`. */
  ghost predicate Outside(cs: seq<Entry>, s: set<ViewId>) {
    forall k :: 0 <= k < |cs| ==> cs[k].view.id !in s
  }

  /** Every child of `cs` holds a view in `s`. */
  ghost predicate Inside(cs: seq<Entry>, s: set<ViewId>) {
    forall k :: 0 <= k < |cs| ==> cs[k].view.id in s
  }

  lemma {:induction false} KeepNone(cs: seq<Entry>, gone: set<ViewId>)
    requires Outside(cs, gone)
    ensures Keep(cs, gone) == cs
    decreases |cs|
  {
    if |cs| > 0 {
      KeepNone(cs[1..], gone);
    }
  }

  lemma {:induction false} KeepAll(cs: seq<Entry>, gone: set<ViewId>)
    requires Inside(cs, gone)
    ensures Keep(cs, gone) == []
    decreases |cs|
  {
    if |cs| > 0 {
      KeepAll(cs[1..], gone);
    }
  }

  function IdsOf(vs: seq<View>): set<ViewId> {
    set k | 0 <= k < |vs| :: vs[k].id
  }

  lemma InIdsOfReverse(gone: seq<Entry>, j: nat)
    requires j < |gone|
    ensures gone[j].view.id in IdsOf(Pages.Reverse(Views(gone)))
  {
    var r := Pages.Reverse(Views(gone));
    assert r[|gone| - 1 - j] == gone[j].view;
  }

  lemma NotInIdsOfReverse(gone: seq<Entry>, id: ViewId)
    requires forall j :: 0 <= j < |gone| ==> gone[j].view.id != id
    ensures id !in IdsOf(Pages.Reverse(Views(gone)))
  {
    var r := Pages.Reverse(Views(gone));
    forall k | 0 <= k < |r| ensures r[k].id != id {
      assert r[k] == gone[|gone| - 1 - k].view;
    }
  }

  lemma KeepSplit(kept: seq<Entry>, gone: seq<Entry>, rest: seq<Entry>, s: set<ViewId>)
    requires Outside(kept, s) && Outside(rest, s) && Inside(gone, s)
    ensures Keep(kept + gone + rest, s) == kept + rest
  {
    KeepConcat(kept + gone, rest, s);
    KeepConcat(kept, gone, s);
    KeepNone(kept, s);
    KeepNone(rest, s);
    KeepAll(gone, s);
    assert Keep(kept + gone + rest, s) == kept + [] + rest;
  }

  /* ---------------------------------------------------------------- */
  /* Decisions                                                         */
  /* ---------------------------------------------------------------- */

  /** `CanGoBack`: there is a current view and a view below it. */
  function CanGoBack(cs: seq<Entry>): (r: bool)
    ensures r <==> CurrentIndex(cs).Some? && 0 < CurrentIndex(cs).value
  {
    match CurrentIndex(cs)
    case None => false
    case Some(i) => |cs| > 1 && i >= 1
  }

  /** `CanGoForward`: there is a current view and a view above it. */
  function CanGoForward(cs: seq<Entry>): (r: bool)
    ensures r <==> CurrentIndex(cs).Some? && CurrentIndex(cs).value + 1 < |cs|
  {
    match CurrentIndex(cs)
    case None => false
    case Some(i) => |cs| > 1 && i <= |cs| - 2
  }

  /** `List.Find` by `RegionViewName`: the first child with that name. */
  function ByName(cs: seq<Entry>, name: string): (r: Option<nat>)
    ensures r.Some? ==> r.value < |cs| && cs[r.value].view.name == name
                        && forall k :: 0 <= k < r.value ==> cs[k].view.name != name
    ensures r.None? <==> forall k :: 0 <= k < |cs| ==> cs[k].view.name != name
    decreases |cs|
  {
    if |cs| == 0 then None
    else if cs[0].view.name == name then Some(0)
    else
      match ByName(cs[1..], name)
      case None => None
      case Some(i) => Some(i + 1)
  }

  /** `GoByName`'s decision: the first view with the name and the
      direction from the current view to it. */
  function GoByNamePlan(cs: seq<Entry>, name: string): (r: Result<(nat, NavigationDirection)>)
    ensures r.Failure? <==> (forall k :: 0 <= k < |cs| ==> cs[k].view.name != name) || ByName(cs, name) == CurrentIndex(cs)
    ensures r.Failure? ==> r.error == if ByName(cs, name).None? then NoViewWithName else ViewAlreadyCurrent
    ensures r.Success? ==> var t := r.value.0;
      t < |cs| && cs[t].view.name == name && (forall k :: 0 <= k < t ==> cs[k].view.name != name)
      && Some(t) != CurrentIndex(cs)
      && (r.value.1 == Back <==> CurrentIndex(cs).Some? && CurrentIndex(cs).value > t)
      && r.value.1 != New
  {
    match ByName(cs, name)
    case None => Failure(NoViewWithName)
    case Some(t) =>
      if Some(t) == CurrentIndex(cs) then Failure(ViewAlreadyCurrent)
      else
        var index := match CurrentIndex(cs) case None => -1 case Some(i) => i;
        Success((t, if index > t then Back else Forward))
  }

  /** Where `Push` cuts the stack: after the current view, or after the
      last view when none is current. */
  function PushIndex(cs: seq<Entry>): (r: int)
    ensures -1 <= r < |cs|
  {
    match CurrentIndex(cs)
    case None => |cs| - 1
    case Some(i) => i
  }

  /** The children after `Push`: the views up to the cut, hidden, then the
      new view, current. */
  function Pushed(cs: seq<Entry>, v: View): (r: seq<Entry>)
    ensures Views(r) == Views(cs[..PushIndex(cs) + 1]) + [v]
    ensures CurrentIndex(r) == Some(PushIndex(cs) + 1) && AtMostOneVisible(r)
  {
    var r := Shown(cs[..PushIndex(cs) + 1], None) + [Entry(v, true)];
    assert Views(r) == Views(cs[..PushIndex(cs) + 1]) + [v];
    CurrentIsTheVisible(r, |r| - 1);
    r
  }

  /** Where `PushBackwards` inserts: at the current view, or at the
      bottom when none is current. */
  function BackwardsIndex(cs: seq<Entry>): (r: nat)
    ensures r <= |cs|
  {
    match CurrentIndex(cs)
    case None => 0
    case Some(i) => i
  }

  /** The children after `PushBackwards`: the new view, current, then the
      views from the insertion point on, hidden. */
  function PushedBackwards(cs: seq<Entry>, v: View): (r: seq<Entry>)
    ensures Views(r) == [v] + Views(cs[BackwardsIndex(cs)..])
    ensures CurrentIndex(r) == Some(0) && AtMostOneVisible(r)
  {
    var r := [Entry(v, true)] + Shown(cs[BackwardsIndex(cs)..], None);
    assert Views(r) == [v] + Views(cs[BackwardsIndex(cs)..]);
    r
  }

  /** `Push` followed by `GoBack`: the view current before the push is
      current again, at its old place. */
  lemma PushThenGoBack(cs: seq<Entry>, v: View)
    requires CurrentIndex(cs).Some?
    ensures var i := CurrentIndex(cs).value;
      var pushed := Pushed(cs, v);
      CanGoBack(pushed) && CurrentIndex(pushed) == Some(i + 1)
      && var back := Shown(pushed, Some(i));
      CurrentIndex(back) == Some(i) && back[i].view == cs[i].view
  {
    var i := CurrentIndex(cs).value;
    var pushed := Pushed(cs, v);
    assert Views(pushed)[i] == Views(cs[..i + 1])[i];
    assert Views(Shown(pushed, Some(i)))[i] == Views(pushed)[i];
  }

  /** `GoBack` followed by `GoForward` restores the children. */
  lemma GoBackThenForward(cs: seq<Entry>)
    requires AtMostOneVisible(cs) && CanGoBack(cs)
    ensures var i := CurrentIndex(cs).value;
      var back := Shown(cs, Some(i - 1));
      CanGoForward(back) && Shown(back, Some(CurrentIndex(back).value + 1)) == cs
  {
    var i := CurrentIndex(cs).value;
    var back := Shown(cs, Some(i - 1));
    var forth := Shown(back, Some(i));
    forall k | 0 <= k < |cs| ensures forth[k] == cs[k] {
      assert forth[k].view == Views(forth)[k] == Views(cs)[k];
      if cs[k].visible {
        CurrentIsTheVisible(cs, k);
      }
    }
  }

  /* ---------------------------------------------------------------- */
  /* Traces                                                            */
  /* ---------------------------------------------------------------- */

  /** `NavigatedRecursively`: nothing without a current view; navigating
      to runs the current view, then the nested regions; navigating from
      runs the nested regions, then the current view. */
  function NavigatedTrace(cs: seq<Entry>, to: bool, d: NavigationDirection): seq<RegionEvent> {
    match CurrentIndex(cs)
    case None => []
    case Some(i) =>
      if to then [ViewNavigated(cs[i].view.id, true, d), NestedNavigated(true, d)]
      else [NestedNavigated(false, d), ViewNavigated(cs[i].view.id, false, d)]
  }

  function Destroyed(vs: seq<View>): (t: seq<RegionEvent>)
    ensures |t| == |vs|
  {
    seq(|vs|, k requires 0 <= k < |vs| => ViewDestroyed(vs[k].id))
  }

  lemma DestroyedPrefix(vs: seq<View>, i: nat)
    requires i < |vs|
    ensures Destroyed(vs[..i + 1]) == Destroyed(vs[..i]) + [ViewDestroyed(vs[i].id)]
  {
  }

  /** `OnWindowLifecycleRecursively`: every view in stacking order, then
      the nested regions. */
  function WindowLifecycleTrace(cs: seq<Entry>, resume: bool): seq<RegionEvent> {
    seq(|cs|, k requires 0 <= k < |cs| => ViewWindowLifecycle(cs[k].view.id, resume))
    + [NestedWindowLifecycle(resume)]
  }

  /** The page-lifecycle callback on each view, in the given order. */
  function ViewsPageLifecycle(vs: seq<View>, appearing: bool): (t: seq<RegionEvent>)
    ensures |t| == |vs|
  {
    seq(|vs|, k requires 0 <= k < |vs| => ViewPageLifecycle(vs[k].id, appearing))
  }

  /** `OnPageLifecycleRecursively`: appearing runs the views bottom-up,
      then the nested regions; disappearing runs the nested regions, then
      the views top-down. */
  function PageLifecycleTrace(cs: seq<Entry>, appearing: bool): (t: seq<RegionEvent>)
    ensures |t| == |cs| + 1
  {
    if appearing then ViewsPageLifecycle(Views(cs), true) + [NestedPageLifecycle(true)]
    else [NestedPageLifecycle(false)] + ViewsPageLifecycle(Pages.Reverse(Views(cs)), false)
  }

  /** Appearing reaches each view bottom-up and the nested regions
      last; disappearing reaches the nested regions first and the views
      top-down. */
  lemma PageLifecycleOrder(cs: seq<Entry>, appearing: bool)
    ensures var t := PageLifecycleTrace(cs, appearing);
      (appearing ==> t[|cs|] == NestedPageLifecycle(true)
                     && forall k :: 0 <= k < |cs| ==> t[k] == ViewPageLifecycle(cs[k].view.id, true))
      && (!appearing ==> t[0] == NestedPageLifecycle(false)
                         && forall k :: 0 <= k < |cs| ==> t[|cs| - k] == ViewPageLifecycle(cs[k].view.id, false))
  {
    var t := PageLifecycleTrace(cs, appearing);
    if appearing {
      var u := ViewsPageLifecycle(Views(cs), true);
      assert forall k :: 0 <= k < |cs| ==> t[k] == u[k];
    } else {
      var r := Pages.Reverse(Views(cs));
      var u := ViewsPageLifecycle(r, false);
      forall k | 0 <= k < |cs| ensures t[|cs| - k] == ViewPageLifecycle(cs[k].view.id, false) {
        assert t[|cs| - k] == u[|cs| - k - 1];
        assert r[|cs| - 1 - k] == cs[k].view;
      }
    }
  }

  lemma ViewsPageLifecyclePrefix(vs: seq<View>, i: nat, appearing: bool)
    requires i < |vs|
    ensures ViewsPageLifecycle(vs[..i + 1], appearing) == ViewsPageLifecycle(vs[..i], appearing) + [ViewPageLifecycle(vs[i].id, appearing)]
  {
  }

  /* ---------------------------------------------------------------- */
  /* The region                                                        */
  /* ---------------------------------------------------------------- */

  class Region {
    /** The view names registered with the container. */
    const registered: set<string>
    /** `RegionAccessor.RegionName`. */
    const regionName: string
    /** `StackContainer.Children`, with their visibility. */
    var children: seq<Entry>
    /** The callbacks caused so far, in order. */
    var log: seq<RegionEvent>
    /** The next fresh view identity. */
    var next: nat

    ghost predicate Valid()
      reads this
    {
      WellFormed(children, next)
    }

    /** A region starts with an empty container. */
    constructor (registered: set<string>, regionName: string)
      ensures Valid() && this.registered == registered && this.regionName == regionName
      ensures children == [] && log == [] && next == 0
    {
      this.registered := registered;
      this.regionName := regionName;
      children := [];
      log := [];
      next := 0;
    }

    /** `InitView`: an unregistered name raises; otherwise a fresh view
        with that name is initialised. */
    method InitView(name: string) returns (r: Result<View>)
      requires Valid()
      modifies this`next, this`log
      ensures Valid()
      ensures name !in registered ==> r == Failure(ViewNotRegistered(name)) && next == old(next) && log == old(log)
      ensures name in registered ==> r == Success(View(old(next), name)) && next == old(next) + 1
                                     && log == old(log) + [ViewInitialized(old(next))]
    {
      if name !in registered {
        return Failure(ViewNotRegistered(name));
      }
      r := Success(View(next, name));
      log := log + [ViewInitialized(next)];
      next := next + 1;
    }

    /** The `CurrentView` setter: the first visible child other than the
        target is hidden, then the target is shown. */
    method SetCurrentView(target: Option<nat>)
      requires target.Some? ==> target.value < |children|
      requires forall i, j :: (0 <= i < |children| && 0 <= j < |children| && children[i].visible
                 && children[j].visible && target != Some(i) && target != Some(j)) ==> i == j
      modifies this`children
      ensures children == Shown(old(children), target)
    {
      var k := 0;
      while k < |children| && !(children[k].visible && target != Some(k))
        invariant 0 <= k <= |children|
        invariant forall j :: 0 <= j < k ==> !children[j].visible || target == Some(j)
      {
        k := k + 1;
      }
      if k < |children| {
        children := children[k := children[k].(visible := false)];
      }
      if target.Some? {
        children := children[target.value := children[target.value].(visible := true)];
      }
      assert forall j :: 0 <= j < |children| ==> children[j].view == old(children)[j].view;
    }

    method NavigatedRecursively(to: bool, d: NavigationDirection)
      modifies this`log
      ensures log == old(log) + NavigatedTrace(children, to, d)
    {
      log := log + NavigatedTrace(children, to, d);
    }

    /** The `foreach` over the views to remove: each leaves the container
        and is destroyed, in the order listed. */
    method RemoveAndDestroy(items: seq<View>)
      requires DistinctViews(children)
      modifies this`children, this`log
      ensures children == Keep(old(children), IdsOf(items))
      ensures log == old(log) + Destroyed(items)
    {
      assert IdsOf(items[..0]) == {};
      KeepNone(children, {});
      var i := 0;
      while i < |items|
        invariant 0 <= i <= |items|
        invariant children == Keep(old(children), IdsOf(items[..i]))
        invariant log == old(log) + Destroyed(items[..i])
      {
        assert IdsOf(items[..i + 1]) == IdsOf(items[..i]) + {items[i].id} by {
          assert forall k :: 0 <= k < i ==> items[..i + 1][k] == items[..i][k];
          assert items[..i + 1][i] == items[i];
        }
        RemoveFromKept(old(children), IdsOf(items[..i]), items[i].id);
        DestroyedPrefix(items, i);
        children := RemoveView(children, items[i].id);
        log := log + [ViewDestroyed(items[i].id)];
        i := i + 1;
      }
      assert items[..i] == items;
    }

    /** `ReplaceAll`: the current view is navigated from, the new view is
        added, made current and navigated to, then every old view is
        removed and destroyed, the top one first. */
    method ReplaceAll(viewName: string) returns (r: NavigationResult)
      requires Valid()
      modifies this
      ensures Valid()
      ensures viewName !in registered ==> r == Failed(ViewNotRegistered(viewName)) && unchanged(this)
      ensures viewName in registered ==>
        var v := View(old(next), viewName);
        r == Succeeded && next == old(next) + 1 && children == [Entry(v, true)]
        && log == old(log) + [ViewInitialized(v.id)] + NavigatedTrace(old(children), false, New)
                  + NavigatedTrace(children, true, New) + Destroyed(Pages.Reverse(Views(old(children))))
    {
      var cs := children;
      var init := InitView(viewName);
      if init.Failure? {
        return Failed(init.error);
      }
      var v := init.value;
      Leave();
      ReplacedRemoval(cs, v);
      Install(v, |cs|, Pages.Reverse(Views(cs)));
      r := Succeeded;
    }

    /** `Push`: the current view is navigated from, the new view is added
        on top, made current and navigated to, then the views above the
        old current view are removed and destroyed, the top one first. */
    method Push(viewName: string) returns (r: NavigationResult)
      requires Valid()
      modifies this
      ensures Valid()
      ensures viewName !in registered ==> r == Failed(ViewNotRegistered(viewName)) && unchanged(this)
      ensures viewName in registered ==>
        var v := View(old(next), viewName);
        r == Succeeded && next == old(next) + 1 && children == Pushed(old(children), v)
        && log == old(log) + [ViewInitialized(v.id)] + NavigatedTrace(old(children), false, New)
                  + NavigatedTrace(children, true, New)
                  + Destroyed(Pages.Reverse(Views(old(children)[PushIndex(old(children)) + 1..])))
    {
      var cs := children;
      var init := InitView(viewName);
      if init.Failure? {
        return Failed(init.error);
      }
      var v := init.value;
      Leave();
      var index := PushIndex(cs);
      PushedRemoval(cs, v);
      Install(v, |cs|, Pages.Reverse(Views(cs[index + 1..])));
      r := Succeeded;
    }

    /** `PushBackwards`: the current view is navigated from, the new view is
        inserted at its place, made current and navigated to, then the views
        below it are removed and destroyed, the top one first. */
    method PushBackwards(viewName: string) returns (r: NavigationResult)
      requires Valid()
      modifies this
      ensures Valid()
      ensures viewName !in registered ==> r == Failed(ViewNotRegistered(viewName)) && unchanged(this)
      ensures viewName in registered ==>
        var v := View(old(next), viewName);
        r == Succeeded && next == old(next) + 1 && children == PushedBackwards(old(children), v)
        && log == old(log) + [ViewInitialized(v.id)] + NavigatedTrace(old(children), false, New)
                  + NavigatedTrace(children, true, New)
                  + Destroyed(Pages.Reverse(Views(old(children)[..BackwardsIndex(old(children))])))
    {
      var cs := children;
      var init := InitView(viewName);
      if init.Failure? {
        return Failed(init.error);
      }
      var v := init.value;
      Leave();
      var index := BackwardsIndex(cs);
      BackwardsRemoval(cs, v);
      Install(v, index, Pages.Reverse(Views(cs[..index])));
      r := Succeeded;
    }

    /** The current view, when there is one, and the nested regions are
        navigated from. */
    method Leave()
      modifies this`log
      ensures log == old(log) + NavigatedTrace(children, false, New)
    {
      if CurrentIndex(children).Some? {
        NavigatedRecursively(false, New);
      }
    }

    /** The common tail of the pushes: the new view is inserted at `at`
        and made current, it and the nested regions are navigated to, then
        the views to remove are removed and destroyed in order. */
    method Install(v: View, at: nat, toRemove: seq<View>)
      requires at <= |children| && AtMostOneVisible(children) && DistinctViews(Inserted(children, at, v))
      modifies this`children, this`log
      ensures children == Keep(Inserted(old(children), at, v), IdsOf(toRemove))
      ensures log == old(log) + NavigatedTrace(Inserted(old(children), at, v), true, New) + Destroyed(toRemove)
    {
      PutCurrent(v, at);
      NavigatedRecursively(true, New);
      RemoveAndDestroy(toRemove);
    }

    /** `Children.Insert(at, view)` (an `Add` when `at` is the end), then
        the `CurrentView` setter on the new view, which is visible from the
        start. */
    method PutCurrent(v: View, at: nat)
      requires at <= |children| && AtMostOneVisible(children)
      modifies this`children
      ensures children == Inserted(old(children), at, v)
    {
      var cs := children;
      children := children[..at] + [Entry(v, true)] + children[at..];
      SetCurrentView(Some(at));
      var r := Inserted(cs, at, v);
      forall k | 0 <= k < |r| ensures children[k] == r[k] {
        if k < at {
          assert r[k].view == Views(Shown(cs[..at], None))[k];
        } else if k > at {
          assert r[k].view == Views(Shown(cs[at..], None))[k - at - 1];
        }
      }
    }

    /** `GoBack`: without a view below the current one it raises and
        changes nothing; otherwise the view below becomes current. */
    method GoBack() returns (r: NavigationResult)
      requires Valid()
      modifies this`children, this`log
      ensures Valid()
      ensures !CanGoBack(old(children)) ==> r == Failed(CannotGoBack) && unchanged(this)
      ensures CanGoBack(old(children)) ==>
        r == Succeeded && children == Shown(old(children), Some(CurrentIndex(old(children)).value - 1))
        && log == old(log) + NavigatedTrace(old(children), false, Back) + NavigatedTrace(children, true, Back)
    {
      if !CanGoBack(children) {
        return Failed(CannotGoBack);
      }
      var index := CurrentIndex(children).value;
      Move(index - 1, Back);
      r := Succeeded;
    }

    /** `GoForward`: without a view above the current one it raises and
        changes nothing; otherwise the view above becomes current. */
    method GoForward() returns (r: NavigationResult)
      requires Valid()
      modifies this`children, this`log
      ensures Valid()
      ensures !CanGoForward(old(children)) ==> r == Failed(CannotGoForward) && unchanged(this)
      ensures CanGoForward(old(children)) ==>
        r == Succeeded && children == Shown(old(children), Some(CurrentIndex(old(children)).value + 1))
        && log == old(log) + NavigatedTrace(old(children), false, Forward) + NavigatedTrace(children, true, Forward)
    {
      if !CanGoForward(children) {
        return Failed(CannotGoForward);
      }
      var index := CurrentIndex(children).value;
      Move(index + 1, Forward);
      r := Succeeded;
    }

    /** `GoByName`: the first view with the name becomes current, unless
        there is none or it is current already. */
    method GoByName(name: string) returns (r: NavigationResult)
      requires Valid()
      modifies this`children, this`log
      ensures Valid()
      ensures r == ToNavigationResult(GoByNamePlan(old(children), name))
      ensures r.Failed? ==> unchanged(this)
      ensures r.Succeeded? ==>
        var (t, d) := GoByNamePlan(old(children), name).value;
        children == Shown(old(children), Some(t))
        && log == old(log) + NavigatedTrace(old(children), false, d) + NavigatedTrace(children, true, d)
    {
      var plan := GoByNamePlan(children, name);
      if plan.Failure? {
        return Failed(plan.error);
      }
      Move(plan.value.0, plan.value.1);
      r := Succeeded;
    }

    /** The current view is navigated from, the child at `target` becomes
        current and is navigated to. */
    method Move(target: nat, d: NavigationDirection)
      requires Valid() && target < |children|
      modifies this`children, this`log
      ensures Valid()
      ensures children == Shown(old(children), Some(target))
      ensures log == old(log) + NavigatedTrace(old(children), false, d) + NavigatedTrace(children, true, d)
    {
      NavigatedRecursively(false, d);
      SetCurrentView(Some(target));
      NavigatedRecursively(true, d);
      ValidShown(old(children), Some(target));
    }

    /** `DestroyAll` as written: the views are destroyed, the top one first,
        but they stay in the container, because they are removed from a
        copy of its children. While the holder is alive its scope is then
        disposed and its name unregistered. */
    method DestroyAllAsWritten(holderAlive: bool)
      requires Valid()
      modifies this`log
      ensures children == old(children)
      ensures log == old(log) + Destroyed(Pages.Reverse(Views(children)))
                     + (if holderAlive then [HolderScopeDisposed, HolderRemoved(regionName)] else [])
    {
      var items := Pages.Reverse(Views(children));
      var i := 0;
      while i < |items|
        invariant 0 <= i <= |items|
        invariant log == old(log) + Destroyed(items[..i])
      {
        DestroyedPrefix(items, i);
        log := log + [ViewDestroyed(items[i].id)];
        i := i + 1;
      }
      assert items[..i] == items;
      if holderAlive {
        log := log + [HolderScopeDisposed, HolderRemoved(regionName)];
      }
    }

    /** `DestroyAll` with the views removed from the container itself: the
        same callbacks, and the container is left empty. */
    method DestroyAll(holderAlive: bool)
      requires Valid()
      modifies this`children, this`log
      ensures Valid() && children == []
      ensures log == old(log) + Destroyed(Pages.Reverse(Views(old(children))))
                     + (if holderAlive then [HolderScopeDisposed, HolderRemoved(regionName)] else [])
    {
      var old0 := children;
      RemoveAndDestroy(Pages.Reverse(Views(children)));
      assert Inside(old0, IdsOf(Pages.Reverse(Views(old0)))) by {
        forall j | 0 <= j < |old0| ensures old0[j].view.id in IdsOf(Pages.Reverse(Views(old0))) {
          InIdsOfReverse(old0, j);
        }
      }
      KeepAll(old0, IdsOf(Pages.Reverse(Views(old0))));
      if holderAlive {
        log := log + [HolderScopeDisposed, HolderRemoved(regionName)];
      }
    }

    /** `OnWindowLifecycleRecursively`. */
    method OnWindowLifecycleRecursively(resume: bool)
      modifies this`log
      ensures log == old(log) + WindowLifecycleTrace(children, resume)
    {
      var cs := children;
      var i := 0;
      while i < |cs|
        invariant 0 <= i <= |cs|
        invariant log == old(log) + seq(i, k requires 0 <= k < i => ViewWindowLifecycle(cs[k].view.id, resume))
      {
        log := log + [ViewWindowLifecycle(cs[i].view.id, resume)];
        i := i + 1;
      }
      assert seq(i, k requires 0 <= k < i => ViewWindowLifecycle(cs[k].view.id, resume))
          == seq(|cs|, k requires 0 <= k < |cs| => ViewWindowLifecycle(cs[k].view.id, resume));
      log := log + [NestedWindowLifecycle(resume)];
    }

    /** `OnPageLifecycleRecursively`. */
    method OnPageLifecycleRecursively(appearing: bool)
      modifies this`log
      ensures log == old(log) + PageLifecycleTrace(children, appearing)
    {
      var vs := if appearing then Views(children) else Pages.Reverse(Views(children));
      if !appearing {
        log := log + [NestedPageLifecycle(false)];
      }
      var start := log;
      var i := 0;
      while i < |vs|
        invariant 0 <= i <= |vs|
        invariant log == start + ViewsPageLifecycle(vs[..i], appearing)
      {
        ViewsPageLifecyclePrefix(vs, i, appearing);
        log := log + [ViewPageLifecycle(vs[i].id, appearing)];
        i := i + 1;
      }
      assert vs[..i] == vs;
      if appearing {
        log := log + [NestedPageLifecycle(true)];
      }
    }
  }

  /** The current view's children are the visible one's: `Shown` keeps a
      container of distinct views below `next` valid. */
  lemma ValidShown(cs: seq<Entry>, target: Option<nat>)
    requires DistinctViews(cs)
    ensures DistinctViews(Shown(cs, target))
  {
    var r := Shown(cs, target);
    assert forall k :: 0 <= k < |cs| ==> r[k].view == Views(r)[k] == Views(cs)[k] == cs[k].view;
  }

  /** A container whose views are distinct, visible at most once, and
      older than `next`. */
  ghost predicate WellFormed(cs: seq<Entry>, next: nat) {
    AtMostOneVisible(cs) && DistinctViews(cs)
    && forall k :: 0 <= k < |cs| ==> cs[k].view.id < next
  }

  /** The children once a new view is inserted at `at`, current, with
      every other child hidden. */
  function Inserted(cs: seq<Entry>, at: nat, v: View): (r: seq<Entry>)
    requires at <= |cs|
    ensures |r| == |cs| + 1 && r[at] == Entry(v, true)
  {
    Shown(cs[..at], None) + [Entry(v, true)] + Shown(cs[at..], None)
  }

  /** No view of `a` is a view of `b`. */
  ghost predicate Disjoint(a: seq<Entry>, b: seq<Entry>) {
    forall i, j :: 0 <= i < |a| && 0 <= j < |b| ==> a[i].view.id != b[j].view.id
  }

  /** Hiding every child of a container in two pieces is hiding them in
      each piece. */
  lemma ShownSplit(cs: seq<Entry>, m: nat)
    requires m <= |cs|
    ensures Shown(cs, None) == Shown(cs[..m], None) + Shown(cs[m..], None)
  {
    var l := Shown(cs, None);
    var a := Shown(cs[..m], None);
    var b := Shown(cs[m..], None);
    forall k | 0 <= k < |l| ensures l[k] == (a + b)[k] {
      assert l[k].view == Views(l)[k] == cs[k].view;
      if k < m {
        assert a[k].view == Views(a)[k] == cs[..m][k].view;
      } else {
        assert b[k - m].view == Views(b)[k - m] == cs[m..][k - m].view;
      }
    }
  }

  /** The two pieces of a container of distinct views, one of them
      hidden, share no view. */
  lemma SlicesDisjoint(cs: seq<Entry>, m: nat)
    requires DistinctViews(cs) && m <= |cs|
    ensures Disjoint(Shown(cs[..m], None), cs[m..])
    ensures Disjoint(Shown(cs[m..], None), cs[..m])
  {
    var a := Shown(cs[..m], None);
    var b := Shown(cs[m..], None);
    forall i, j | 0 <= i < |a| && 0 <= j < |cs[m..]| ensures a[i].view.id != cs[m..][j].view.id {
      assert a[i].view == Views(a)[i] == cs[i].view;
      assert cs[m..][j] == cs[m + j];
    }
    forall i, j | 0 <= i < |b| && 0 <= j < |cs[..m]| ensures b[i].view.id != cs[..m][j].view.id {
      assert b[i].view == Views(b)[i] == cs[m + i].view;
      assert cs[..m][j] == cs[j];
    }
  }

  /** A fresh view is none of the older ones. */
  lemma FreshDisjoint(v: View, cs: seq<Entry>, m: nat, n: nat)
    requires WellFormed(cs, v.id) && m <= n <= |cs|
    ensures Disjoint([Entry(v, true)], cs[m..n])
  {
    assert forall j :: 0 <= j < |cs[m..n]| ==> cs[m..n][j] == cs[m + j];
  }

  lemma DisjointConcat(a: seq<Entry>, b: seq<Entry>, c: seq<Entry>)
    requires Disjoint(a, c) && Disjoint(b, c)
    ensures Disjoint(a + b, c)
  {
    forall i, j | 0 <= i < |a + b| && 0 <= j < |c| ensures (a + b)[i].view.id != c[j].view.id {
      if i >= |a| {
        assert (a + b)[i] == b[i - |a|];
      }
    }
  }

  /** Removing the views of a container slice, hidden, from a container in
      which it sits between two parts holding other views. */
  lemma KeepWithout(kept: seq<Entry>, gone: seq<Entry>, rest: seq<Entry>)
    requires Disjoint(kept, gone) && Disjoint(rest, gone)
    ensures Keep(kept + Shown(gone, None) + rest, IdsOf(Pages.Reverse(Views(gone)))) == kept + rest
  {
    var s := IdsOf(Pages.Reverse(Views(gone)));
    var hidden := Shown(gone, None);
    assert Outside(kept, s) by {
      forall i | 0 <= i < |kept| ensures kept[i].view.id !in s {
        NotInIdsOfReverse(gone, kept[i].view.id);
      }
    }
    assert Outside(rest, s) by {
      forall i | 0 <= i < |rest| ensures rest[i].view.id !in s {
        NotInIdsOfReverse(gone, rest[i].view.id);
      }
    }
    assert Inside(hidden, s) by {
      forall j | 0 <= j < |hidden| ensures hidden[j].view.id in s {
        assert hidden[j].view == Views(hidden)[j];
        InIdsOfReverse(gone, j);
      }
    }
    KeepSplit(kept, hidden, rest, s);
  }

  /** The views of a container built from older distinct views and one
      fresh view on top (or at the bottom) are distinct and below the next
      identity. */
  lemma FreshWellFormed(r: seq<Entry>, cs: seq<Entry>, v: View, top: bool)
    requires WellFormed(cs, v.id) && AtMostOneVisible(r)
    requires Views(r) == if top then Views(cs) + [v] else [v] + Views(cs)
    ensures WellFormed(r, v.id + 1)
  {
    forall k | 0 <= k < |r| ensures r[k].view == Views(r)[k] {
    }
  }

  /** A slice of a well-formed container is well formed. */
  lemma SliceWellFormed(cs: seq<Entry>, n: nat, t: seq<Entry>, m: nat)
    requires WellFormed(cs, n) && m <= |cs| && |t| <= |cs| - m
    requires forall k :: 0 <= k < |t| ==> t[k] == cs[m + k]
    ensures WellFormed(t, n)
  {
  }

  /** What `ReplaceAll` leaves once its removal loop is done. */
  lemma ReplacedRemoval(cs: seq<Entry>, v: View)
    requires WellFormed(cs, v.id)
    ensures DistinctViews(Inserted(cs, |cs|, v))
    ensures Keep(Inserted(cs, |cs|, v), IdsOf(Pages.Reverse(Views(cs)))) == [Entry(v, true)]
    ensures NavigatedTrace(Inserted(cs, |cs|, v), true, New) == NavigatedTrace([Entry(v, true)], true, New)
    ensures WellFormed([Entry(v, true)], v.id + 1)
  {
    var ins := Inserted(cs, |cs|, v);
    assert cs[..|cs|] == cs;
    assert Shown(cs[|cs|..], None) == [];
    assert ins == [] + Shown(cs, None) + [Entry(v, true)];
    FreshDisjoint(v, cs, 0, |cs|);
    assert cs[0..|cs|] == cs;
    KeepWithout([], cs, [Entry(v, true)]);
    InsertedCurrent(cs, |cs|, v);
  }

  /** Inserting puts the new view at `at` among the old ones, and only it
      is visible. */
  lemma InsertedViews(cs: seq<Entry>, at: nat, v: View)
    requires at <= |cs|
    ensures Views(Inserted(cs, at, v)) == Views(cs)[..at] + [v] + Views(cs)[at..]
    ensures forall k :: 0 <= k < |cs| + 1 ==> (Inserted(cs, at, v)[k].visible <==> k == at)
  {
    var a := Shown(cs[..at], None);
    var b := Shown(cs[at..], None);
    assert Views(cs[..at]) == Views(cs)[..at];
    assert Views(cs[at..]) == Views(cs)[at..];
    assert Views(a + [Entry(v, true)] + b) == Views(a) + [v] + Views(b);
  }

  /** The new view is the current one once it is inserted, and the views
      stay distinct. */
  lemma InsertedCurrent(cs: seq<Entry>, at: nat, v: View)
    requires WellFormed(cs, v.id) && at <= |cs|
    ensures DistinctViews(Inserted(cs, at, v)) && AtMostOneVisible(Inserted(cs, at, v))
    ensures NavigatedTrace(Inserted(cs, at, v), true, New) == [ViewNavigated(v.id, true, New), NestedNavigated(true, New)]
  {
    var r := Inserted(cs, at, v);
    InsertedViews(cs, at, v);
    InsertedDistinct(Views(cs), at, v);
    assert DistinctViews(r) by {
      forall i, j | 0 <= i < j < |r| ensures r[i].view.id != r[j].view.id {
        assert r[i].view == Views(r)[i] && r[j].view == Views(r)[j];
      }
    }
    CurrentIsTheVisible(r, at);
  }

  /** A fresh view inserted among distinct older views. */
  lemma InsertedDistinct(vs: seq<View>, at: nat, v: View)
    requires at <= |vs| && forall i, j :: 0 <= i < j < |vs| ==> vs[i].id != vs[j].id
    requires forall k :: 0 <= k < |vs| ==> vs[k].id < v.id
    ensures var ws := vs[..at] + [v] + vs[at..];
      forall i, j :: 0 <= i < j < |ws| ==> ws[i].id != ws[j].id
  {
    var ws := vs[..at] + [v] + vs[at..];
    forall i, j | 0 <= i < j < |ws| ensures ws[i].id != ws[j].id {
      var i' := if i < at then i else i - 1;
      var j' := if j <= at then j else j - 1;
      if i != at && j != at {
        assert ws[i] == vs[i'] && ws[j] == vs[j'];
      } else if i == at {
        assert ws[j] == vs[j'];
      } else {
        assert ws[i] == vs[i'];
      }
    }
  }

  /** What `Push` leaves once its removal loop is done. */
  lemma PushedRemoval(cs: seq<Entry>, v: View)
    requires WellFormed(cs, v.id)
    ensures DistinctViews(Inserted(cs, |cs|, v))
    ensures Keep(Inserted(cs, |cs|, v), IdsOf(Pages.Reverse(Views(cs[PushIndex(cs) + 1..])))) == Pushed(cs, v)
    ensures NavigatedTrace(Inserted(cs, |cs|, v), true, New) == NavigatedTrace(Pushed(cs, v), true, New)
    ensures WellFormed(Pushed(cs, v), v.id + 1)
  {
    PushedKeep(cs, v);
    InsertedCurrent(cs, |cs|, v);
    PushedTop(cs, v);
    PushedWellFormed(cs, v);
  }

  lemma PushedTop(cs: seq<Entry>, v: View)
    ensures NavigatedTrace(Pushed(cs, v), true, New) == [ViewNavigated(v.id, true, New), NestedNavigated(true, New)]
  {
    var r := Pushed(cs, v);
    var i := PushIndex(cs) + 1;
    assert r[i].view == Views(r)[i] == v;
  }

  lemma PushedWellFormed(cs: seq<Entry>, v: View)
    requires WellFormed(cs, v.id)
    ensures WellFormed(Pushed(cs, v), v.id + 1)
  {
    var index := PushIndex(cs);
    SliceWellFormed(cs, v.id, cs[..index + 1], 0);
    FreshWellFormed(Pushed(cs, v), cs[..index + 1], v, true);
  }

  lemma PushedKeep(cs: seq<Entry>, v: View)
    requires WellFormed(cs, v.id)
    ensures Keep(Inserted(cs, |cs|, v), IdsOf(Pages.Reverse(Views(cs[PushIndex(cs) + 1..])))) == Pushed(cs, v)
  {
    var index := PushIndex(cs);
    var pre := Shown(cs[..index + 1], None);
    var gone := cs[index + 1..];
    assert cs[..|cs|] == cs;
    assert Shown(cs[|cs|..], None) == [];
    ShownSplit(cs, index + 1);
    assert Inserted(cs, |cs|, v) == pre + Shown(gone, None) + [Entry(v, true)];
    SlicesDisjoint(cs, index + 1);
    FreshDisjoint(v, cs, index + 1, |cs|);
    assert cs[index + 1..|cs|] == gone;
    KeepWithout(pre, gone, [Entry(v, true)]);
  }

  /** What `PushBackwards` leaves once its removal loop is done. */
  lemma BackwardsRemoval(cs: seq<Entry>, v: View)
    requires WellFormed(cs, v.id)
    ensures DistinctViews(Inserted(cs, BackwardsIndex(cs), v))
    ensures var index := BackwardsIndex(cs);
      Keep(Inserted(cs, index, v), IdsOf(Pages.Reverse(Views(cs[..index])))) == PushedBackwards(cs, v)
    ensures NavigatedTrace(Inserted(cs, BackwardsIndex(cs), v), true, New) == NavigatedTrace(PushedBackwards(cs, v), true, New)
    ensures WellFormed(PushedBackwards(cs, v), v.id + 1)
  {
    BackwardsKeep(cs, v);
    InsertedCurrent(cs, BackwardsIndex(cs), v);
    BackwardsTop(cs, v);
    BackwardsWellFormed(cs, v);
  }

  lemma BackwardsTop(cs: seq<Entry>, v: View)
    ensures NavigatedTrace(PushedBackwards(cs, v), true, New) == [ViewNavigated(v.id, true, New), NestedNavigated(true, New)]
  {
    var r := PushedBackwards(cs, v);
    assert r[0].view == Views(r)[0] == v;
  }

  lemma BackwardsWellFormed(cs: seq<Entry>, v: View)
    requires WellFormed(cs, v.id)
    ensures WellFormed(PushedBackwards(cs, v), v.id + 1)
  {
    var index := BackwardsIndex(cs);
    SliceWellFormed(cs, v.id, cs[index..], index);
    FreshWellFormed(PushedBackwards(cs, v), cs[index..], v, false);
  }

  lemma BackwardsKeep(cs: seq<Entry>, v: View)
    requires WellFormed(cs, v.id)
    ensures var index := BackwardsIndex(cs);
      Keep(Inserted(cs, index, v), IdsOf(Pages.Reverse(Views(cs[..index])))) == PushedBackwards(cs, v)
  {
    var index := BackwardsIndex(cs);
    var gone := cs[..index];
    var post := [Entry(v, true)] + Shown(cs[index..], None);
    assert Inserted(cs, index, v) == [] + Shown(gone, None) + post;
    SlicesDisjoint(cs, index);
    FreshDisjoint(v, cs, 0, index);
    assert cs[0..index] == gone;
    DisjointConcat([Entry(v, true)], Shown(cs[index..], None), gone);
    KeepWithout([], gone, post);
  }

}
