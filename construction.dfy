/** Building the page tree a navigation path describes
    (`ConstructPages`, `ConstructPagesFromSegmentsRecursively`,
    `ConfigureNavigationPage`, `ConfigureFlyoutPage`, `ConfigureTabbedPage`,
    `ConfigurePage`). The kind of page each segment name resolves to is given
    by a registry; new pages take fresh ids from a counter. */
module Construction {
  import opened Wrappers
  import opened UriParsing
  import opened Pages

  /** The two query keys a tabbed page accepts. */
  const CreateTab: string := "CreateTab"
  const SelectTab: string := "SelectTab"

  /** What a registered view and its view model implement and hold. */
  datatype Caps = Caps(view: set<Aware>, model: set<Aware>, regions: seq<RegionName>, viewBack: bool, modelBack: bool)

  /** A registered page: its class and capabilities. A flyout page comes with
      its Flyout (menu) page. */
  datatype Template =
    | ContentTemplate(caps: Caps)
    | NavigationTemplate(caps: Caps)
    | TabbedTemplate(caps: Caps)
    | FlyoutTemplate(caps: Caps, menu: Caps)

  /** The keyed view registrations: segment name to page. */
  type Registry = map<string, Template>

  function InfoOf(c: Caps, id: PageId, segment: Option<string>): PageInfo {
    PageInfo(id, segment, c.view, c.model, c.regions, c.viewBack, c.modelBack)
  }

  /** The pages built for a path in path order (a back marker stands as a
      null page), the next free id, and the trace of `Initialize` calls. */
  datatype Built = Built(pages: seq<Option<Page>>, next: nat, trace: seq<Event>)

  datatype BuiltTabs = BuiltTabs(pages: seq<Page>, next: nat, trace: seq<Event>)

  /* ---------------------------------------------------------------- */
  /* Navigation page                                                   */
  /* ---------------------------------------------------------------- */

  /** Pushing the following pages onto a navigation stack one by one;
      pushing a null page fails. */
  function PushEach(stack: seq<Page>, pages: seq<Option<Page>>): (r: Result<seq<Page>>)
    ensures r.Success? <==> forall k :: 0 <= k < |pages| ==> pages[k].Some?
    ensures r.Failure? ==> r.error == NullPage
    ensures r.Success? ==> |r.value| == |stack| + |pages| && r.value[..|stack|] == stack
                           && forall k :: 0 <= k < |pages| ==> r.value[|stack| + k] == pages[k].value
    decreases |pages|
  {
    if |pages| == 0 then Success(stack)
    else if pages[0].None? then Failure(NullPage)
    else PushEach(stack + [pages[0].value], pages[1..])
  }

  /** The outcome `ConfigureNavigationPage` computes. */
  function PushAll(stack: seq<Page>, pages: seq<Option<Page>>): Result<seq<Page>> {
    if |pages| == 0 then Failure(NavigationPageNeedsPage) else PushEach(stack, pages)
  }

  /** `ConfigureNavigationPage`: fails without a following page, otherwise
      pops the following pages (top = first in path order) and pushes each. */
  method ConfigureNavigationPage(stack: seq<Page>, pages: seq<Option<Page>>) returns (r: Result<seq<Page>>)
    ensures r == PushAll(stack, pages)
  {
    if |pages| == 0 {
      return Failure(NavigationPageNeedsPage);
    }
    var nav := stack;
    var i := 0;
    while i < |pages|
      invariant 0 <= i <= |pages|
      invariant PushEach(nav, pages[i..]) == PushEach(stack, pages)
      decreases |pages| - i
    {
      if pages[i].None? {
        return Failure(NullPage);
      }
      assert pages[i..][1..] == pages[i + 1..];
      nav := nav + [pages[i].value];
      i := i + 1;
    }
    return Success(nav);
  }

  /** After configuration the navigation stack holds exactly the following
      pages, in path order. */
  lemma NavigationStackInPathOrder(pages: seq<Option<Page>>)
    requires PushAll([], pages).Success?
    ensures |pages| > 0
    ensures var s := PushAll([], pages).value;
      |s| == |pages| && forall k :: 0 <= k < |pages| ==> pages[k] == Some(s[k])
  {
  }

  /* ---------------------------------------------------------------- */
  /* Tabbed page                                                       */
  /* ---------------------------------------------------------------- */

  predicate IsTabKey(key: Option<string>) {
    key == Some(CreateTab) || key == Some(SelectTab)
  }

  predicate HasTabKey(qp: seq<QueryPair>) {
    exists k :: 0 <= k < |qp| && IsTabKey(qp[k].key)
  }

  /** The value of the last `SelectTab` pair, if any. */
  function LastSelectTab(qp: seq<QueryPair>): (r: Option<Uri>)
    ensures r.None? <==> forall k :: 0 <= k < |qp| ==> qp[k].key != Some(SelectTab)
    decreases |qp|
  {
    if |qp| == 0 then None
    else if qp[|qp| - 1].key == Some(SelectTab) then Some(qp[|qp| - 1].uri)
    else LastSelectTab(qp[..|qp| - 1])
  }

  /** A found value belongs to a `SelectTab` pair with no later one. */
  lemma {:induction false} LastSelectTabIsLast(qp: seq<QueryPair>)
    requires LastSelectTab(qp).Some?
    ensures exists k :: 0 <= k < |qp| && qp[k].key == Some(SelectTab) && qp[k].uri == LastSelectTab(qp).value
                        && forall j :: k < j < |qp| ==> qp[j].key != Some(SelectTab)
    decreases |qp|
  {
    var n := |qp| - 1;
    if qp[n].key == Some(SelectTab) {
      assert qp[n].uri == LastSelectTab(qp).value;
    } else {
      var init := qp[..n];
      LastSelectTabIsLast(init);
      var k :| 0 <= k < |init| && init[k].key == Some(SelectTab) && init[k].uri == LastSelectTab(init).value
               && forall j :: k < j < |init| ==> init[j].key != Some(SelectTab);
      assert qp[k] == init[k];
      forall j | k < j < |qp| ensures qp[j].key != Some(SelectTab) {
        if j < n { assert qp[j] == init[j]; }
      }
    }
  }

  /** The uris of the `CreateTab` pairs, in order. */
  function TabUris(qp: seq<QueryPair>): (r: seq<Uri>)
    ensures |r| <= |qp|
    decreases |qp|
  {
    if |qp| == 0 then []
    else (if qp[0].key == Some(CreateTab) then [qp[0].uri] else []) + TabUris(qp[1..])
  }

  /** A tab answers to a name when its own segment name is that name, or it
      is a navigation page whose root page's segment name is. */
  predicate TabMatches(p: Page, name: string) {
    p.info.segment == Some(name)
    || (p.NavigationPage? && |p.stack| > 0 && p.stack[0].info.segment == Some(name))
  }

  /** The first tab answering to `name`, or `|tabs|` when there is none. */
  function FindTab(tabs: seq<Page>, name: string): (i: nat)
    ensures i <= |tabs|
    ensures i < |tabs| ==> TabMatches(tabs[i], name)
    ensures forall j :: 0 <= j < i ==> !TabMatches(tabs[j], name)
    decreases |tabs|
  {
    if |tabs| == 0 then 0
    else if TabMatches(tabs[0], name) then 0
    else 1 + FindTab(tabs[1..], name)
  }

  /** The name the first segment of a uri resolves to, when it resolves. */
  function FirstSegment(u: Uri): Option<string> {
    match Processed(u)
    case Success(p) => if |p.segments| > 0 then Some(p.segments[0]) else None
    case Failure(_) => None
  }

  /* ---------------------------------------------------------------- */
  /* Construction                                                      */
  /* ---------------------------------------------------------------- */

  /** `ConstructPages`: resolve the path, refuse a back marker at the start of
      an absolute, modal or tab path, build the pages, and refuse more than
      one top-level page for such a path. */
  function ConstructPages(reg: Registry, uri: Uri, isAbsoluteOrModal: bool, next: nat): (r: Result<Built>)
    ensures r.Success? ==> Processed(uri).Success? && |r.value.pages| > 0 && r.value.next >= next
    ensures r.Success? && isAbsoluteOrModal ==> |r.value.pages| == 1 && r.value.pages[0].Some?
    ensures r.Success? ==> (r.value.pages[0].None? <==> Processed(uri).value.segments[0] == Marker)
    ensures r.Success? && r.value.pages[0].Some? ==> r.value.pages[0].value.info.segment == FirstSegment(uri)
    decreases Nesting(uri), 2, 0
  {
    match Processed(uri)
    case Failure(e) => Failure(e)
    case Success(processed) =>
      ProcessedNesting(uri);
      if |processed.segments| == 0 then Failure(NoSegments)
      else if isAbsoluteOrModal && processed.segments[0] == Marker then Failure(BackOperatorInAbsolutePath)
      else
        match Build(reg, processed.segments, processed.query, Nesting(uri), next)
        case Failure(e) => Failure(e)
        case Success(built) =>
          if isAbsoluteOrModal && |built.pages| > 1 then Failure(TooManyRootPages)
          else Success(built)
  }

  /** `ConstructPagesFromSegmentsRecursively` over the remaining segments: a
      page is created for the first segment, the rest of the path is built,
      and then the first page is configured from what the rest produced. */
  function Build(reg: Registry, segs: seq<string>, qp: seq<QueryPair>, ghost bound: nat, next: nat): (r: Result<Built>)
    requires forall k :: 0 <= k < |qp| ==> Nesting(qp[k].uri) < bound
    ensures r.Success? ==> (|r.value.pages| == 0 <==> |segs| == 0) && r.value.next >= next
    ensures r.Success? && |segs| > 0 ==> (r.value.pages[0].None? <==> segs[0] == Marker)
    ensures r.Success? && |segs| > 0 && segs[0] != Marker ==> r.value.pages[0].value.info.segment == Some(segs[0])
    decreases bound, 1, |segs|
  {
    if |segs| == 0 then Success(Built([], next, []))
    else if segs[0] == Marker then
      match Build(reg, segs[1..], qp, bound, next)
      case Failure(e) => Failure(e)
      case Success(rest) =>
        if |rest.pages| == 0 && |qp| > 0 then Failure(QueryOnlyAfterTabbedPage)
        else Success(Built([None] + rest.pages, rest.next, rest.trace))
    else if segs[0] !in reg then Failure(PageNotRegistered(segs[0]))
    else
      var t := reg[segs[0]];
      var info := InfoOf(t.caps, next, Some(segs[0]));
      var init := Invoke(info, Initialize) + [InitializedAsync(info.id)];
      var afterOwn := if t.FlyoutTemplate? then next + 2 else next + 1;
      match Build(reg, segs[1..], qp, bound, afterOwn)
      case Failure(e) => Failure(e)
      case Success(rest) =>
        if t.TabbedTemplate? then
          if |rest.pages| > 0 then Failure(SegmentsAfterTabbedPage)
          else
            match ConfigureTabbedPage(reg, info, qp, bound, rest.next)
            case Failure(e) => Failure(e)
            case Success(tabs) => Success(Built([Some(tabs.page)], tabs.next, init + rest.trace + tabs.trace))
        else if |rest.pages| == 0 && |qp| > 0 then Failure(QueryOnlyAfterTabbedPage)
        else
          match t
          case FlyoutTemplate(_, menu) =>
            if |rest.pages| != 1 then Failure(FlyoutNeedsSinglePage)
            else if rest.pages[0].None? then Failure(NullPage)
            else
              var flyout := FlyoutPage(info, ContentPage(InfoOf(menu, next + 1, None)), rest.pages[0].value, false);
              Success(Built([Some(flyout)], rest.next, init + rest.trace))
          case NavigationTemplate(_) =>
            (match PushAll([], rest.pages)
             case Failure(e) => Failure(e)
             case Success(stack) => Success(Built([Some(NavigationPage(info, stack))], rest.next, init + rest.trace)))
          case ContentTemplate(_) =>
            Success(Built([Some(ContentPage(info))] + rest.pages, rest.next, init + rest.trace))
  }

  /** The page a tabbed page becomes. */
  datatype BuiltPage = BuiltPage(page: Page, next: nat, trace: seq<Event>)

  /** `ConfigureTabbedPage`: check the query, create one tab per `CreateTab`
      pair in order, then select the tab the last `SelectTab` names. */
  function ConfigureTabbedPage(reg: Registry, info: PageInfo, qp: seq<QueryPair>, ghost bound: nat, next: nat): (r: Result<BuiltPage>)
    requires forall k :: 0 <= k < |qp| ==> Nesting(qp[k].uri) < bound
    ensures |qp| == 0 ==> r == Failure(NoQueryForTabbedPage)
    ensures |qp| > 0 && !HasTabKey(qp) ==> r == Failure(QueryNotAcceptableForTabbedPage)
    ensures |qp| == 1 && qp[0].key == Some(SelectTab) ==> r == Failure(NoTabsToSelect)
    ensures r.Success? ==> r.value.page.TabbedPage? && r.value.page.info == info && r.value.next >= next
    ensures r.Success? ==> CreateTabs(reg, qp, bound, next).Success? && r.value.trace == CreateTabs(reg, qp, bound, next).value.trace
    ensures r.Success? ==> |r.value.page.children| == |TabUris(qp)|
    ensures r.Success? ==> forall k :: 0 <= k < |TabUris(qp)| ==>
              r.value.page.children[k].info.segment == FirstSegment(TabUris(qp)[k])
    ensures r.Success? && LastSelectTab(qp).None? ==> r.value.page.current == 0
    ensures r.Success? && LastSelectTab(qp).Some? ==>
              var i := r.value.page.current;
              i < |r.value.page.children| && TabMatches(r.value.page.children[i], LastSelectTab(qp).value.original)
              && forall j :: 0 <= j < i ==> !TabMatches(r.value.page.children[j], LastSelectTab(qp).value.original)
    decreases bound, 0, |qp| + 1
  {
    if |qp| == 0 then Failure(NoQueryForTabbedPage)
    else if !HasTabKey(qp) then Failure(QueryNotAcceptableForTabbedPage)
    else if |qp| == 1 && qp[0].key == Some(SelectTab) then Failure(NoTabsToSelect)
    else
      match CreateTabs(reg, qp, bound, next)
      case Failure(e) => Failure(e)
      case Success(tabs) =>
        match LastSelectTab(qp)
        case None => Success(BuiltPage(TabbedPage(info, tabs.pages, 0), tabs.next, tabs.trace))
        case Some(selected) =>
          var i := FindTab(tabs.pages, selected.original);
          if i == |tabs.pages| then Failure(UnknownTabToSelect)
          else Success(BuiltPage(TabbedPage(info, tabs.pages, i), tabs.next, tabs.trace))
  }

  /** One tab per `CreateTab` pair, each the single page its uri builds. */
  function CreateTabs(reg: Registry, qp: seq<QueryPair>, ghost bound: nat, next: nat): (r: Result<BuiltTabs>)
    requires forall k :: 0 <= k < |qp| ==> Nesting(qp[k].uri) < bound
    ensures r.Success? ==> r.value.next >= next && |r.value.pages| == |TabUris(qp)|
    ensures r.Success? ==> forall k :: 0 <= k < |TabUris(qp)| ==> r.value.pages[k].info.segment == FirstSegment(TabUris(qp)[k])
    decreases bound, 0, |qp|
  {
    if |qp| == 0 then Success(BuiltTabs([], next, []))
    else
      assert forall k :: 0 <= k < |qp[1..]| ==> qp[1..][k] == qp[k + 1];
      if qp[0].key != Some(CreateTab) then
        assert TabUris(qp) == TabUris(qp[1..]);
        CreateTabs(reg, qp[1..], bound, next)
      else
        match ConstructPages(reg, qp[0].uri, true, next)
        case Failure(e) => Failure(e)
        case Success(first) =>
          match CreateTabs(reg, qp[1..], bound, first.next)
          case Failure(e) => Failure(e)
          case Success(rest) =>
            var tab := first.pages[0].value;
            TabsInOrder(qp, tab, rest.pages);
            Success(BuiltTabs([tab] + rest.pages, rest.next, first.trace + rest.trace))
  }

  lemma TabsInOrder(qp: seq<QueryPair>, tab: Page, rest: seq<Page>)
    requires |qp| > 0 && qp[0].key == Some(CreateTab)
    requires tab.info.segment == FirstSegment(qp[0].uri)
    requires |rest| == |TabUris(qp[1..])|
    requires forall k :: 0 <= k < |rest| ==> rest[k].info.segment == FirstSegment(TabUris(qp[1..])[k])
    ensures |[tab] + rest| == |TabUris(qp)|
    ensures forall k :: 0 <= k < |TabUris(qp)| ==> ([tab] + rest)[k].info.segment == FirstSegment(TabUris(qp)[k])
  {
    assert TabUris(qp) == [qp[0].uri] + TabUris(qp[1..]);
  }

  /* ---------------------------------------------------------------- */
  /* Structural rules                                                  */
  /* ---------------------------------------------------------------- */

  /** A tabbed page followed by any further segment is refused. */
  lemma TabbedMustBeLast(reg: Registry, segs: seq<string>, qp: seq<QueryPair>, bound: nat, next: nat)
    requires forall k :: 0 <= k < |qp| ==> Nesting(qp[k].uri) < bound
    requires |segs| > 1 && segs[0] != Marker && segs[0] in reg && reg[segs[0]].TabbedTemplate?
    ensures Build(reg, segs, qp, bound, next).Failure?
  {
  }

  /** With query parameters, a path whose last segment is not a tabbed page
      is refused. */
  lemma {:induction false} QueryNeedsTabbedLast(reg: Registry, segs: seq<string>, qp: seq<QueryPair>, bound: nat, next: nat)
    requires forall k :: 0 <= k < |qp| ==> Nesting(qp[k].uri) < bound
    requires |qp| > 0 && |segs| > 0
    requires var last := segs[|segs| - 1]; !(last != Marker && last in reg && reg[last].TabbedTemplate?)
    ensures Build(reg, segs, qp, bound, next).Failure?
    decreases |segs|
  {
    if |segs| > 1 {
      assert segs[1..][|segs[1..]| - 1] == segs[|segs| - 1];
      var t := if segs[0] != Marker && segs[0] in reg then reg[segs[0]] else ContentTemplate(Caps({}, {}, [], false, false));
      var afterOwn := if segs[0] == Marker then next else if t.FlyoutTemplate? then next + 2 else next + 1;
      QueryNeedsTabbedLast(reg, segs[1..], qp, bound, afterOwn);
    }
  }

  /** A built flyout page's Detail is the single page the rest of the path
      built. */
  lemma FlyoutTakesDetail(reg: Registry, segs: seq<string>, qp: seq<QueryPair>, bound: nat, next: nat)
    requires forall k :: 0 <= k < |qp| ==> Nesting(qp[k].uri) < bound
    requires |segs| > 0 && segs[0] != Marker && segs[0] in reg && reg[segs[0]].FlyoutTemplate?
    requires Build(reg, segs, qp, bound, next).Success?
    ensures var rest := Build(reg, segs[1..], qp, bound, next + 2);
      rest.Success? && |rest.value.pages| == 1 && rest.value.pages[0].Some?
      && var r := Build(reg, segs, qp, bound, next).value;
         |r.pages| == 1 && r.pages[0].value.FlyoutPage?
         && r.pages[0].value.detail == rest.value.pages[0].value
         && r.pages[0].value.info.id == next
  {
  }

  /** A built navigation page's stack is the pages the rest of the path
      built, in path order. */
  lemma NavigationTakesRest(reg: Registry, segs: seq<string>, qp: seq<QueryPair>, bound: nat, next: nat)
    requires forall k :: 0 <= k < |qp| ==> Nesting(qp[k].uri) < bound
    requires |segs| > 0 && segs[0] != Marker && segs[0] in reg && reg[segs[0]].NavigationTemplate?
    requires Build(reg, segs, qp, bound, next).Success?
    ensures var rest := Build(reg, segs[1..], qp, bound, next + 1);
      rest.Success? && |rest.value.pages| > 0
      && var r := Build(reg, segs, qp, bound, next).value;
         |r.pages| == 1 && r.pages[0].value.NavigationPage?
         && |r.pages[0].value.stack| == |rest.value.pages|
         && forall k :: 0 <= k < |rest.value.pages| ==> rest.value.pages[k] == Some(r.pages[0].value.stack[k])
  {
    var rest := Build(reg, segs[1..], qp, bound, next + 1);
    NavigationStackInPathOrder(rest.value.pages);
  }

  /** An absolute or modal path that starts with a back operator is refused. */
  lemma AbsoluteRefusesBackOperator(reg: Registry, uri: Uri, next: nat)
    requires Processed(uri).Success? && Processed(uri).value.segments[0] == Marker
    ensures ConstructPages(reg, uri, true, next) == Failure(BackOperatorInAbsolutePath)
  {
    ProcessedContract(uri);
  }

  /* ---------------------------------------------------------------- */
  /* Callbacks during construction                                     */
  /* ---------------------------------------------------------------- */

  /** A trace of initialisation only: `Initialize` callbacks and the
      `OnInitializedAsync` hook. */
  ghost predicate InitOnly(t: seq<Event>) {
    forall k :: 0 <= k < |t| ==> (t[k].Invoked? && t[k].callback == Initialize) || t[k].InitializedAsync?
  }

  lemma InitOnlyConcat(a: seq<Event>, b: seq<Event>)
    requires InitOnly(a) && InitOnly(b)
    ensures InitOnly(a + b)
  {
    assert forall k :: 0 <= k < |a + b| ==> (a + b)[k] == if k < |a| then a[k] else b[k - |a|];
  }

  /** Initialisation sets no activation flag. */
  lemma InitOnlyQuiet(t: seq<Event>)
    requires InitOnly(t)
    ensures Quiet(t)
  {
  }

  /** Constructing pages calls `Initialize` on them and nothing else. */
  lemma {:induction false} ConstructInitOnly(reg: Registry, uri: Uri, isAbsoluteOrModal: bool, next: nat)
    ensures var r := ConstructPages(reg, uri, isAbsoluteOrModal, next);
      r.Success? ==> InitOnly(r.value.trace)
    decreases Nesting(uri), 2, 0
  {
    match Processed(uri)
    case Failure(_) =>
    case Success(processed) =>
      ProcessedNesting(uri);
      BuildInitOnly(reg, processed.segments, processed.query, Nesting(uri), next);
  }

  lemma {:induction false} BuildInitOnly(reg: Registry, segs: seq<string>, qp: seq<QueryPair>, bound: nat, next: nat)
    requires forall k :: 0 <= k < |qp| ==> Nesting(qp[k].uri) < bound
    ensures var r := Build(reg, segs, qp, bound, next);
      r.Success? ==> InitOnly(r.value.trace)
    decreases bound, 1, |segs|
  {
    if |segs| == 0 {
    } else if segs[0] == Marker {
      BuildInitOnly(reg, segs[1..], qp, bound, next);
    } else if segs[0] in reg {
      var t := reg[segs[0]];
      var info := InfoOf(t.caps, next, Some(segs[0]));
      var init := Invoke(info, Initialize) + [InitializedAsync(info.id)];
      InitOnlyConcat(Invoke(info, Initialize), [InitializedAsync(info.id)]);
      var afterOwn := if t.FlyoutTemplate? then next + 2 else next + 1;
      BuildInitOnly(reg, segs[1..], qp, bound, afterOwn);
      var rest := Build(reg, segs[1..], qp, bound, afterOwn);
      if rest.Success? {
        InitOnlyConcat(init, rest.value.trace);
        if t.TabbedTemplate? {
          TabbedInitOnly(reg, info, qp, bound, rest.value.next);
          var tabs := ConfigureTabbedPage(reg, info, qp, bound, rest.value.next);
          if tabs.Success? {
            InitOnlyConcat(init + rest.value.trace, tabs.value.trace);
          }
        }
      }
    }
  }

  lemma {:induction false} TabbedInitOnly(reg: Registry, info: PageInfo, qp: seq<QueryPair>, bound: nat, next: nat)
    requires forall k :: 0 <= k < |qp| ==> Nesting(qp[k].uri) < bound
    ensures var r := ConfigureTabbedPage(reg, info, qp, bound, next);
      r.Success? ==> InitOnly(r.value.trace)
    decreases bound, 0, |qp| + 1
  {
    CreateTabsInitOnly(reg, qp, bound, next);
  }

  lemma {:induction false} CreateTabsInitOnly(reg: Registry, qp: seq<QueryPair>, bound: nat, next: nat)
    requires forall k :: 0 <= k < |qp| ==> Nesting(qp[k].uri) < bound
    ensures var r := CreateTabs(reg, qp, bound, next);
      r.Success? ==> InitOnly(r.value.trace)
    decreases bound, 0, |qp|
  {
    if |qp| > 0 {
      assert forall k :: 0 <= k < |qp[1..]| ==> qp[1..][k] == qp[k + 1];
      if qp[0].key != Some(CreateTab) {
        CreateTabsInitOnly(reg, qp[1..], bound, next);
      } else {
        ConstructInitOnly(reg, qp[0].uri, true, next);
        var first := ConstructPages(reg, qp[0].uri, true, next);
        if first.Success? {
          CreateTabsInitOnly(reg, qp[1..], bound, first.value.next);
          var rest := CreateTabs(reg, qp[1..], bound, first.value.next);
          if rest.Success? {
            InitOnlyConcat(first.value.trace, rest.value.trace);
          }
        }
      }
    }
  }
}
