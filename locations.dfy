/** Where a page sits in a window: a root (the main page or one modal page)
    and the steps down through navigation stacks, tabs and flyout parts. The
    navigation service reads and rewrites the page tree through these paths,
    and finds the page its service belongs to by identity. */
module Locations {
  import opened Wrappers
  import opened Pages
  import VisualTree

  /** One step down: an entry of a navigation stack, a tab, the Flyout or
      the Detail of a flyout page. */
  datatype Step = StackAt(i: nat) | TabAt(i: nat) | FlyoutPart | DetailPart

  function Child(p: Page, s: Step): Option<Page> {
    match s
    case StackAt(i) => if p.NavigationPage? && i < |p.stack| then Some(p.stack[i]) else None
    case TabAt(i) => if p.TabbedPage? && i < |p.children| then Some(p.children[i]) else None
    case FlyoutPart => if p.FlyoutPage? then Some(p.flyout) else None
    case DetailPart => if p.FlyoutPage? then Some(p.detail) else None
  }

  /** The page with the child at `s` replaced by `c`. */
  function WithChild(p: Page, s: Step, c: Page): (r: Page)
    requires Child(p, s).Some?
    ensures r.info == p.info && Child(r, s) == Some(c)
  {
    match s
    case StackAt(i) => p.(stack := p.stack[i := c])
    case TabAt(i) => p.(children := p.children[i := c])
    case FlyoutPart => p.(flyout := c)
    case DetailPart => p.(detail := c)
  }

  function Descend(p: Page, steps: seq<Step>): Option<Page>
    decreases |steps|
  {
    if |steps| == 0 then Some(p)
    else
      match Descend(p, steps[..|steps| - 1])
      case None => None
      case Some(q) => Child(q, steps[|steps| - 1])
  }

  lemma {:induction false} DescendPrefix(p: Page, steps: seq<Step>, m: nat)
    requires m <= |steps| && Descend(p, steps).Some?
    ensures Descend(p, steps[..m]).Some?
    decreases |steps| - m
  {
    if m < |steps| {
      assert Descend(p, steps[..|steps| - 1]).Some?;
      assert steps[..|steps| - 1][..m] == steps[..m];
      DescendPrefix(p, steps[..|steps| - 1], m);
    } else {
      assert steps[..m] == steps;
    }
  }

  lemma {:induction false} DescendCons(p: Page, s: Step, sub: seq<Step>)
    ensures Descend(p, [s] + sub) == match Child(p, s) case None => None case Some(c) => Descend(c, sub)
    decreases |sub|
  {
    if |sub| == 0 {
      assert [s] + sub == [s];
      assert [s][..0] == [];
    } else {
      var init := sub[..|sub| - 1];
      assert ([s] + sub)[..|[s] + sub| - 1] == [s] + init;
      DescendCons(p, s, init);
    }
  }

  /** The page with the descendant at `steps` replaced by `q`. */
  function ReplaceDown(p: Page, steps: seq<Step>, q: Page): Page
    requires Descend(p, steps).Some?
    decreases |steps|
  {
    if |steps| == 0 then q
    else
      var init := steps[..|steps| - 1];
      ReplaceDown(p, init, WithChild(Descend(p, init).value, steps[|steps| - 1], q))
  }

  lemma {:induction false} DescendReplaced(p: Page, steps: seq<Step>, q: Page)
    requires Descend(p, steps).Some?
    ensures Descend(ReplaceDown(p, steps, q), steps) == Some(q)
    decreases |steps|
  {
    if |steps| > 0 {
      var init := steps[..|steps| - 1];
      var x := WithChild(Descend(p, init).value, steps[|steps| - 1], q);
      DescendReplaced(p, init, x);
    }
  }

  /* ---------------------------------------------------------------- */
  /* Window paths                                                      */
  /* ---------------------------------------------------------------- */

  datatype Root = MainRoot | ModalRoot(i: nat)

  datatype Location = Location(root: Root, steps: seq<Step>)

  function RootPage(w: Window, r: Root): Option<Page> {
    match r
    case MainRoot => Some(w.page)
    case ModalRoot(i) => if i < |w.modal| then Some(w.modal[i]) else None
  }

  function PageAt(w: Window, loc: Location): Option<Page> {
    match RootPage(w, loc.root)
    case None => None
    case Some(p) => Descend(p, loc.steps)
  }

  /** The window with the page at `loc` replaced; everything outside that
      root's tree is unchanged. */
  function ReplaceAt(w: Window, loc: Location, q: Page): (r: Window)
    requires PageAt(w, loc).Some?
    ensures PageAt(r, loc) == Some(q)
    ensures |r.modal| == |w.modal|
    ensures loc.root.MainRoot? ==> r.modal == w.modal
    ensures loc.root.ModalRoot? ==>
      (r.page == w.page && forall k :: 0 <= k < |w.modal| && k != loc.root.i ==> r.modal[k] == w.modal[k])
  {
    match loc.root
    case MainRoot =>
      DescendReplaced(w.page, loc.steps, q);
      w.(page := ReplaceDown(w.page, loc.steps, q))
    case ModalRoot(i) =>
      DescendReplaced(w.modal[i], loc.steps, q);
      w.(modal := w.modal[i := ReplaceDown(w.modal[i], loc.steps, q)])
  }

  /** The location one step below. */
  function Below(loc: Location, s: Step): Location {
    Location(loc.root, loc.steps + [s])
  }

  lemma PageAtBelow(w: Window, loc: Location, s: Step)
    ensures PageAt(w, Below(loc, s)) == match PageAt(w, loc) case None => None case Some(p) => Child(p, s)
  {
    var steps := loc.steps + [s];
    assert steps[..|steps| - 1] == loc.steps;
  }

  /** The location `j` levels up. */
  function Up(loc: Location, j: nat): Location
    requires j <= |loc.steps|
  {
    Location(loc.root, loc.steps[..|loc.steps| - j])
  }

  lemma UpPage(w: Window, loc: Location, j: nat)
    requires PageAt(w, loc).Some? && j <= |loc.steps|
    ensures PageAt(w, Up(loc, j)).Some?
  {
    DescendPrefix(RootPage(w, loc.root).value, loc.steps, |loc.steps| - j);
  }

  lemma UpOfUp(loc: Location, j: nat)
    requires j < |loc.steps|
    ensures Up(Up(loc, j), 1) == Up(loc, j + 1)
  {
    var s := loc.steps[..|loc.steps| - j];
    assert s[..|s| - 1] == loc.steps[..|loc.steps| - (j + 1)];
  }

  /** The step from the parent one level up to the page `j` levels up. */
  lemma UpChild(w: Window, loc: Location, j: nat)
    requires PageAt(w, loc).Some? && j < |loc.steps|
    ensures PageAt(w, Up(loc, j + 1)).Some? && Up(loc, 0) == loc
    ensures PageAt(w, Up(loc, j)) == Child(PageAt(w, Up(loc, j + 1)).value, loc.steps[|loc.steps| - 1 - j])
  {
    UpPage(w, loc, j);
    UpPage(w, loc, j + 1);
    var s := loc.steps[..|loc.steps| - j];
    assert s[..|s| - 1] == loc.steps[..|loc.steps| - (j + 1)];
    assert loc.steps[..|loc.steps|] == loc.steps;
  }

  /* ---------------------------------------------------------------- */
  /* Identity                                                          */
  /* ---------------------------------------------------------------- */

  /** A path to a page with the given id in a tree, searching the page, then
      its children in order. */
  function Find(p: Page, id: PageId): (r: Option<seq<Step>>)
    ensures r.Some? ==> Descend(p, r.value).Some? && Descend(p, r.value).value.info.id == id
    decreases p
  {
    if p.info.id == id then Some([])
    else
      match p
      case ContentPage(_) => None
      case NavigationPage(_, s) =>
        (match FindAmong(s, 0, id)
         case None => None
         case Some(hit) => DescendCons(p, StackAt(hit.0), hit.1); Some([StackAt(hit.0)] + hit.1))
      case TabbedPage(_, c, _) =>
        (match FindAmong(c, 0, id)
         case None => None
         case Some(hit) => DescendCons(p, TabAt(hit.0), hit.1); Some([TabAt(hit.0)] + hit.1))
      case FlyoutPage(_, f, d, _) =>
        match Find(f, id)
        case Some(sub) => DescendCons(p, FlyoutPart, sub); Some([FlyoutPart] + sub)
        case None =>
          match Find(d, id)
          case None => None
          case Some(sub) => DescendCons(p, DetailPart, sub); Some([DetailPart] + sub)
  }

  function FindAmong(cs: seq<Page>, i: nat, id: PageId): (r: Option<(nat, seq<Step>)>)
    ensures r.Some? ==> r.value.0 < |cs| && Descend(cs[r.value.0], r.value.1).Some?
                        && Descend(cs[r.value.0], r.value.1).value.info.id == id
    decreases cs, |cs| - i
  {
    if i >= |cs| then None
    else
      match Find(cs[i], id)
      case Some(sub) => Some((i, sub))
      case None => FindAmong(cs, i + 1, id)
  }

  /** Where the page with the given id is: in the main page's tree, else in
      the first modal page's tree that holds it. */
  function Locate(w: Window, id: PageId): (r: Option<Location>)
    ensures r.Some? ==> PageAt(w, r.value).Some? && PageAt(w, r.value).value.info.id == id
  {
    match Find(w.page, id)
    case Some(steps) => Some(Location(MainRoot, steps))
    case None => LocateModal(w, 0, id)
  }

  function LocateModal(w: Window, i: nat, id: PageId): (r: Option<Location>)
    ensures r.Some? ==> PageAt(w, r.value).Some? && PageAt(w, r.value).value.info.id == id
    decreases |w.modal| - i
  {
    if i >= |w.modal| then None
    else
      match Find(w.modal[i], id)
      case Some(steps) => Some(Location(ModalRoot(i), steps))
      case None => LocateModal(w, i + 1, id)
  }

  /* ---------------------------------------------------------------- */
  /* Parent chains                                                     */
  /* ---------------------------------------------------------------- */

  /** How the parent-chain searches see a page. */
  function ElementOf(p: Page): VisualTree.Element {
    var kind := match p
      case ContentPage(_) => VisualTree.ContentKind
      case NavigationPage(_, s) => VisualTree.NavigationKind(if |s| > 0 then Some(s[0].info.id) else None)
      case TabbedPage(_, _, _) => VisualTree.TabbedKind
      case FlyoutPage(_, _, _, _) => VisualTree.FlyoutKind;
    VisualTree.Element(p.info.id, VisualTree.PageKind(kind))
  }

  /** The window, the non-visual top of every page's parent chain. */
  const WindowElement: VisualTree.Element := VisualTree.Element(0, VisualTree.NonVisual)

  function ElementAt(w: Window, loc: Location): VisualTree.Element {
    match PageAt(w, loc)
    case Some(p) => ElementOf(p)
    case None => WindowElement
  }

  /** The parent chain of the page at `loc`: the page, each enclosing page up
      to the root, then the window. */
  function ElementChain(w: Window, loc: Location): (c: seq<VisualTree.Element>)
    ensures |c| == |loc.steps| + 2 && c[|loc.steps| + 1] == WindowElement
    ensures PageAt(w, loc).Some? ==> VisualTree.IsPage(c[0])
  {
    assert Up(loc, 0) == loc by { assert loc.steps[..|loc.steps|] == loc.steps; }
    seq(|loc.steps| + 2, j requires 0 <= j < |loc.steps| + 2 =>
      if j <= |loc.steps| then ElementAt(w, Up(loc, j)) else WindowElement)
  }

  lemma ElementChainShape(w: Window, loc: Location)
    requires PageAt(w, loc).Some?
    ensures var c := ElementChain(w, loc);
      |c| == |loc.steps| + 2 && c[|loc.steps| + 1] == WindowElement
      && VisualTree.IsPage(c[0]) && Up(loc, 0) == loc
      && forall j :: 0 <= j <= |loc.steps| ==>
           PageAt(w, Up(loc, j)).Some? && c[j] == ElementOf(PageAt(w, Up(loc, j)).value) && VisualTree.IsPage(c[j])
  {
    assert loc.steps[..|loc.steps|] == loc.steps;
    forall j | 0 <= j <= |loc.steps| ensures PageAt(w, Up(loc, j)).Some? {
      UpPage(w, loc, j);
    }
  }

  /** The root page before the window of any page is the root of its tree:
      every enclosing page is a page, and the window is not. */
  lemma RootBeforeWindow(w: Window, loc: Location)
    requires PageAt(w, loc).Some?
    ensures VisualTree.RootIndex(ElementChain(w, loc)) == |loc.steps|
    ensures Up(loc, |loc.steps|) == Location(loc.root, []) && PageAt(w, Location(loc.root, [])) == RootPage(w, loc.root)
  {
    ElementChainShape(w, loc);
    var c := ElementChain(w, loc);
    assert !VisualTree.IsPage(c[|loc.steps| + 1]);
  }

  /** The farthest direct parent of a page is the page itself or one of its
      enclosing pages, never the window. */
  lemma FarthestInTree(w: Window, loc: Location)
    requires PageAt(w, loc).Some?
    ensures VisualTree.FarthestDirectParent(ElementChain(w, loc)) <= |loc.steps|
  {
    ElementChainShape(w, loc);
    RootBeforeWindow(w, loc);
    VisualTree.FarthestWithinRoot(ElementChain(w, loc));
  }
}
