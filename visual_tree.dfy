/** Parent-chain searches over the visual tree. An element is seen through
    its parent chain: `chain[0]` is the element itself, `chain[k + 1]` is the
    parent of `chain[k]`, and the last entry has no parent. */
module VisualTree {
  import opened Wrappers

  /** The page classes the searches distinguish. A navigation page records
      the id of its root page (`RootPage`), if it has one. */
  datatype PageKind = ContentKind | NavigationKind(root: Option<nat>) | TabbedKind | FlyoutKind

  /** A non-visual element (a window, the application), a visual element
      that is not a page, or a page. */
  datatype Kind = NonVisual | ViewKind | PageKind(page: PageKind)

  /** An element of the tree; `id` is its object identity. */
  datatype Element = Element(id: nat, kind: Kind)

  predicate IsVisual(e: Element) {
    !e.kind.NonVisual?
  }

  predicate IsPage(e: Element) {
    e.kind.PageKind?
  }

  /** The type argument of `GetParentOfTypeOrSelf`. */
  datatype Wanted = AnyPage | AFlyoutPage | ATabbedPage

  predicate Is(e: Element, w: Wanted) {
    match w
    case AnyPage => IsPage(e)
    case AFlyoutPage => e.kind == PageKind(FlyoutKind)
    case ATabbedPage => e.kind == PageKind(TabbedKind)
  }

  /** `GetParentOfTypeOrSelf`: climb from the element while it is not of the
      wanted type; stepping onto a parent that is not a visual element (or
      past the top) gives null. The result is the index in the chain of the
      element found. */
  function FirstOfType(chain: seq<Element>, w: Wanted): (r: Option<nat>)
    ensures r.Some? ==> r.value < |chain| && Is(chain[r.value], w)
    ensures r.Some? ==> forall k :: 0 <= k < r.value ==> !Is(chain[k], w) && IsVisual(chain[k])
    ensures r.None? ==> forall j :: 0 <= j < |chain| && Is(chain[j], w) ==> exists k :: 0 <= k < j && !IsVisual(chain[k])
    decreases |chain|
  {
    if |chain| == 0 || !IsVisual(chain[0]) then None
    else if Is(chain[0], w) then Some(0)
    else
      match FirstOfType(chain[1..], w)
      case None => None
      case Some(j) => Some(j + 1)
  }

  /** The search of `FirstOfType` started at index `i` of the chain. */
  function SearchFrom(chain: seq<Element>, w: Wanted, i: nat): Option<nat>
    decreases |chain| - i
  {
    if i >= |chain| || !IsVisual(chain[i]) then None
    else if Is(chain[i], w) then Some(i)
    else SearchFrom(chain, w, i + 1)
  }

  lemma {:induction false} SearchFromFirst(chain: seq<Element>, w: Wanted, i: nat)
    requires i <= |chain|
    ensures SearchFrom(chain, w, i) == match FirstOfType(chain[i..], w) case None => None case Some(j) => Some(j + i)
    decreases |chain| - i
  {
    if i < |chain| && IsVisual(chain[i]) && !Is(chain[i], w) {
      SearchFromFirst(chain, w, i + 1);
      assert chain[i..][1..] == chain[i + 1..];
    }
  }

  /** The climbing loop of `GetParentOfTypeOrSelf`. An empty chain stands for
      a null argument. */
  method ParentOfTypeOrSelf(chain: seq<Element>, w: Wanted) returns (r: Option<nat>)
    requires |chain| > 0 ==> IsVisual(chain[0])
    ensures r == FirstOfType(chain, w)
  {
    SearchFromFirst(chain, w, 0);
    assert chain[0..] == chain;
    if |chain| == 0 {
      return None;
    }
    var i := 0;
    while !Is(chain[i], w)
      invariant 0 <= i < |chain| && IsVisual(chain[i])
      invariant SearchFrom(chain, w, i) == SearchFrom(chain, w, 0)
      decreases |chain| - i
    {
      if i + 1 == |chain| || !IsVisual(chain[i + 1]) {
        return None;
      }
      i := i + 1;
    }
    return Some(i);
  }

  /** `GetRootPageBeforeWindowForPage`: the index of the highest page
      reachable from the page through parents that are all pages. */
  function RootIndex(chain: seq<Element>): (r: nat)
    requires |chain| > 0 && IsPage(chain[0])
    ensures r < |chain|
    ensures forall k :: 0 <= k <= r ==> IsPage(chain[k])
    ensures r + 1 == |chain| || !IsPage(chain[r + 1])
    decreases |chain|
  {
    if |chain| == 1 || !IsPage(chain[1]) then 0 else 1 + RootIndex(chain[1..])
  }

  /** The climbing loop of `GetRootPageBeforeWindowForPage`. */
  method RootPageBeforeWindow(chain: seq<Element>) returns (r: nat)
    requires |chain| > 0 && IsPage(chain[0])
    ensures r == RootIndex(chain)
  {
    r := 0;
    while r + 1 < |chain| && IsPage(chain[r + 1])
      invariant r < |chain| && IsPage(chain[r])
      invariant RootIndex(chain) == RootIndex(chain[r..]) + r
      decreases |chain| - r
    {
      assert chain[r..][1..] == chain[r + 1..];
      r := r + 1;
    }
  }

  /** A page's parent holds it directly: the parent is a page, and unless
      the parent is a navigation page whose root is this very page, it is
      not a navigation page. */
  predicate HoldsDirectly(child: Element, parent: Element) {
    IsPage(parent) && !(parent.kind.page.NavigationKind? && parent.kind.page.root != Some(child.id))
  }

  /** `GetFarthestDirectParentPageOrSelf`: the index of the highest page
      reachable through parents that each hold the page below directly. */
  function FarthestDirectParent(chain: seq<Element>): (r: nat)
    requires |chain| > 0 && IsPage(chain[0])
    ensures r < |chain|
    ensures forall k :: 0 <= k < r ==> HoldsDirectly(chain[k], chain[k + 1])
    ensures r + 1 == |chain| || !HoldsDirectly(chain[r], chain[r + 1])
    decreases |chain|
  {
    if |chain| == 1 || !HoldsDirectly(chain[0], chain[1]) then 0
    else 1 + FarthestDirectParent(chain[1..])
  }

  /** The farthest direct parent never climbs past the root page before the
      window. */
  lemma {:induction false} FarthestWithinRoot(chain: seq<Element>)
    requires |chain| > 0 && IsPage(chain[0])
    ensures FarthestDirectParent(chain) <= RootIndex(chain)
    decreases |chain|
  {
    if |chain| > 1 && HoldsDirectly(chain[0], chain[1]) {
      FarthestWithinRoot(chain[1..]);
    }
  }

  /** Whether the climb from a view meets the holder: it stops at the
      first enclosing page, which must be the holder, and succeeds earlier if
      it meets the holder. */
  function HolderReached(chain: seq<Element>, holder: nat): (r: bool)
    requires |chain| > 0
    ensures r <==> exists j :: 1 <= j < |chain| && chain[j].id == holder
                              && forall k :: 1 <= k < j ==> !IsPage(chain[k])
    decreases |chain|
  {
    if |chain| == 1 then false
    else if IsPage(chain[1]) then chain[1].id == holder
    else if chain[1].id == holder then true
    else
      assert forall k :: 1 <= k < |chain[1..]| ==> chain[1..][k] == chain[k + 1];
      HolderReached(chain[1..], holder)
  }

  /** `IsParentRegionHolder`: false when either argument is null; otherwise
      the climbing loop decides `HolderReached`. */
  method IsParentRegionHolder(view: Option<seq<Element>>, holder: Option<nat>) returns (r: bool)
    requires view.Some? ==> |view.value| > 0
    ensures r == (view.Some? && holder.Some? && HolderReached(view.value, holder.value))
  {
    if holder.None? || view.None? {
      return false;
    }
    var chain := view.value;
    var i := 0;
    while i + 1 < |chain|
      invariant 0 <= i < |chain|
      invariant HolderReached(chain, holder.value) == HolderReached(chain[i..], holder.value)
      decreases |chain| - i
    {
      assert chain[i..][1..] == chain[i + 1..];
      if IsPage(chain[i + 1]) {
        return chain[i + 1].id == holder.value;
      }
      if chain[i + 1].id == holder.value {
        return true;
      }
      i := i + 1;
    }
    return false;
  }

  /** The element at position `i` of a chain, or null past its top. */
  function At(chain: seq<Element>, i: nat): Option<Element> {
    if i < |chain| then Some(chain[i]) else None
  }

  /** The loop condition of `IsParentForElement` as written: it continues
      while the element is not null OR differs from `parent`. */
  predicate ParentSearchContinuesAsWritten(e: Option<Element>, parent: Element) {
    e.Some? || e != Some(parent)
  }

  /** `IsParentForElement` as written: the condition holds at every element
      and at null, so the climb always ends by dereferencing null. */
  method IsParentForElementAsWritten(chain: seq<Element>, parent: Element) returns (r: Result<bool>)
    ensures r == Failure(NullReference)
  {
    var i: nat := 0;
    while ParentSearchContinuesAsWritten(At(chain, i), parent)
      invariant i <= |chain|
      decreases |chain| - i
    {
      if At(chain, i).None? {
        return Failure(NullReference);
      }
      i := i + 1;
    }
    r := Success(At(chain, i).Some?);
  }

  /** `IsParentForElement` with the intended condition (not null AND
      different from `parent`): true exactly when `parent` is the element
      or one of its ancestors. */
  method IsParentForElement(chain: seq<Element>, parent: Element) returns (r: bool)
    ensures r <==> exists j :: 0 <= j < |chain| && chain[j].id == parent.id
  {
    var i: nat := 0;
    while At(chain, i).Some? && At(chain, i).value.id != parent.id
      invariant i <= |chain|
      invariant forall k :: 0 <= k < i ==> chain[k].id != parent.id
      decreases |chain| - i
    {
      i := i + 1;
    }
    r := At(chain, i).Some?;
  }
}
