# MPowerKit navigation core, modelled in Dafny

This project models the sequential core of MPowerKit, a .NET MAUI
navigation library. It covers five parts:

- **The path resolver** (`UriParsingHelper`):
  - it turns a navigation string into a queue of segment names and a list of `(key, sub-uri)` query pairs;
  - every `..` is first rewritten to the marker `__onePageBack`;
  - a stack then balances markers against real names.
- **The navigation engine** (`NavigationService`):
  - it builds a page tree from the segments (content, navigation, tabbed and flyout pages);
  - it validates and classifies relative navigation;
  - it edits navigation stacks;
  - it implements tab selection, flyout toggling, going back (plain, modal, to the root) and absolute, modal and flyout pushes.
  - Every public operation catches what it raises and returns a `NavigationResult`, except `NavigateThrougFlyoutPageAsync`, which raises before its `try` when the scope's page is not a flyout page.
- **The page-tree walks** (`MvvmHelpers`):
  - navigated-to/from events, post-order destruction, window-lifecycle pre-order and the back-button decision;
  - the top-most-page descent and the parent-chain searches.
- **The region stack** (`Region`): a container of views, at most one of them visible, which is the current one.
- **The region registry** (`RegionManager`): a name → region-holder dictionary with weak references, and the search for the region holders under an element.

How the source's constructs are modelled:

- **Pages.** A page is a datatype with one constructor per kind: `ContentPage`, `NavigationPage(stack)`, `TabbedPage(children, current)` and `FlyoutPage(flyout, detail, presented)`.
- **Page identity.** It is a numeric id drawn from a counter that construction threads through.
- **Callbacks.** Every callback the library makes (view and view model, region events, scope disposal, the toolkit's back-button press) is an `Event` appended to a log. The properties are statements about the order of that log.
- **Active flags.** The `IsActiveView` flags are a set of page ids, updated by the `SetActive` events.
- **What a page implements.** The interfaces a page's view and view model implement are sets on the page, and so are the regions its region manager reports.
- **Pages in the window.** A page of the window is addressed by a `Location`: the main page or a modal page, then a path of child steps. The parent chains `MvvmHelpers` climbs are derived from it.
- **Stateful services.** The navigation service, the region and the registry are Dafny classes. Their methods change fields (`window`, `active`, `log`, `children`, `entries`, `scopes`).
- **Pure operations.** Each of these is a function, proved against its contract.

Files, one module each:

| file | module | models |
|---|---|---|
| wrappers.dfy | Wrappers | `Option`, `Result`, the failure reasons (one per throw site) and `NavigationResult` |
| uri_parsing.dfy | UriParsing | `UriParsingHelper` |
| pages.dfy | Pages | the page datatype and the `MvvmHelpers` walks as event traces |
| visual_tree.dfy | VisualTree | the `MvvmHelpers` parent-chain loops over element chains |
| locations.dfy | Locations | pages addressed inside a window; their parent chains |
| construction.dfy | Construction | `ConstructPages`, `ConstructPagesFromSegmentsRecursively`, `Configure*Page` |
| navigation_plans.dfy | NavigationPlans | the validations and the stack/slot/window edits of each navigation |
| navigation_service.dfy | Navigation | `NavigationService` as a class over a window, active flags and a log |
| region.dfy | Regions | `Region` as a class over its children |
| region_manager.dfy | RegionManagement | `RegionManager` as a class over the dictionary, the collected holders and the region scopes |

Inputs the model takes as parameters:

- **The page registry.** It maps a segment name to a page kind and capabilities, and stands in for the service provider's `GetViewAndViewModel`.
- **The region views registered.** These stand in for the region's service provider.
- **Toolkit back-button handling.** The set of pages whose toolkit `SendBackButtonPressed` answers true.
- **A parent chain per region holder.** It stands in for the visual tree the registry climbs.
- **Collection.** The garbage collector is the `Collect` method of the registry.

## Model

| member | source | states |
|---|---|---|
| UriParsing.ReplaceDotsRemovesBackOperators | MPowerKit.Navigation/Utilities/UriParsingHelper.cs:10-13 | after the rewrite no `..` is left anywhere in the string |
| UriParsing.ReplaceDotsIdentity | MPowerKit.Navigation/Utilities/UriParsingHelper.cs:10-13 | a string without `..` is left unchanged |
| UriParsing.ReplaceDotsCount | MPowerKit.Navigation/Utilities/UriParsingHelper.cs:10-13 | the rewrite keeps the count of every character other than `.`, `_` and letters (so of `?`, `/`, `&`) |
| UriParsing.ReplaceCount | MPowerKit.Navigation/Utilities/UriParsingHelper.cs:12 | `string.Replace` keeps the count of a character that neither the pattern nor the replacement contains |
| UriParsing.ParseContract | MPowerKit.Navigation/Utilities/UriParsingHelper.cs:24-36 | parsing fails exactly on input that is empty or all white space in the sense of `char.IsWhiteSpace`, Unicode separators included (`BlankUri`); input starting with `/` becomes an absolute uri under `app://MPowerKit.github`; other input keeps its text |
| UriParsing.ReplaceDotsAndParseContract | MPowerKit.Navigation/Utilities/UriParsingHelper.cs:10-13 | the parsed uri holds no `..`; it fails exactly when the rewritten text is blank |
| UriParsing.AppBaseIsAbsolute | MPowerKit.Navigation/Utilities/UriParsingHelper.cs:21-30 | whatever follows the application base, the text is an absolute uri |
| UriParsing.EnsureAbsolute | MPowerKit.Navigation/Utilities/UriParsingHelper.cs:15-22 | the result is absolute; an absolute uri comes back unchanged; a relative one is placed under the base with exactly one `/` between them |
| UriParsing.SplitJoin | MPowerKit.Navigation/Utilities/UriParsingHelper.cs:47-49 | splitting on a character and joining again gives back the string |
| UriParsing.Segments | MPowerKit.Navigation/Utilities/UriParsingHelper.cs:38-52 | no returned segment is empty, is `/` or contains `/` |
| UriParsing.StepNormalForm | MPowerKit.Navigation/Utilities/UriParsingHelper.cs:61-72 | one balancing step (pop only a real name on top, otherwise push) keeps the stack in normal form |
| UriParsing.BalanceNormalForm | MPowerKit.Navigation/Utilities/UriParsingHelper.cs:61-72 | the balanced stack is markers followed only by real names: no marker after a real name |
| UriParsing.BalanceOfNormalForm | MPowerKit.Navigation/Utilities/UriParsingHelper.cs:61-72 | a stack already in normal form is its own balance |
| UriParsing.BalanceIdempotent | MPowerKit.Navigation/Utilities/UriParsingHelper.cs:61-72 | balancing a balanced path changes nothing |
| UriParsing.BalanceWithoutMarkers | MPowerKit.Navigation/Utilities/UriParsingHelper.cs:61-72 | a path without markers comes back unchanged |
| UriParsing.BalanceWeight | MPowerKit.Navigation/Utilities/UriParsingHelper.cs:61-72 | real names minus markers is the same before and after: each pop cancels one of each |
| UriParsing.BalanceKeepsOrder | MPowerKit.Navigation/Utilities/UriParsingHelper.cs:61-90 | the surviving segments are a subsequence of the path: left-to-right order is kept |
| UriParsing.NotBalancedExactlyWhenCancelled | MPowerKit.Navigation/Utilities/UriParsingHelper.cs:61-77 | for every uri, resolution fails with `NotBalanced` exactly when the back operators cancel every segment, whatever the query |
| UriParsing.ProcessSegments | MPowerKit.Navigation/Utilities/UriParsingHelper.cs:59-90 | the stack loop and the query loop compute the balanced segments, `NotBalanced` when none is left, and then the query pairs |
| UriParsing.BuildQueryParameters | MPowerKit.Navigation/Utilities/UriParsingHelper.cs:79-88 | the nested loop computes one pair per query value, key by key; a blank value fails the whole call |
| UriParsing.ProcessUri | MPowerKit.Navigation/Utilities/UriParsingHelper.cs:54-91 | the method's result is the resolved uri: segments and query pairs of the uri once made absolute |
| UriParsing.ProcessedContract | MPowerKit.Navigation/Utilities/UriParsingHelper.cs:54-91 | a resolved uri has at least one segment, in normal form, a subsequence of the path with the same weight; every pair's uri is free of `..` and `\|`; the pair keys are, as a multiset, the keys of the query pieces |
| UriParsing.PartsContract | MPowerKit.Navigation/Utilities/UriParsingHelper.cs:59-90 | the same from given segments and groups, the pair keys being each group's key repeated once per value, in group order |
| UriParsing.QueryKeys | MPowerKit.Navigation/Utilities/UriParsingHelper.cs:79-88 | every pair is clean and the pair keys are the flattened group keys |
| UriParsing.GroupPiecesKeys | MPowerKit.Navigation/Utilities/UriParsingHelper.cs:57 | grouping the query gives distinct keys and loses no piece: group keys times values equal the piece keys as a multiset |
| UriParsing.AddValueDistinct | MPowerKit.Navigation/Utilities/UriParsingHelper.cs:57 | adding a value keeps the keys distinct and touches only the group of its own key |
| UriParsing.AddValueFlatKeys | MPowerKit.Navigation/Utilities/UriParsingHelper.cs:57 | adding a value adds exactly one occurrence of its key |
| UriParsing.QueryParametersKeys | MPowerKit.Navigation/Utilities/UriParsingHelper.cs:79-88 | one pair per value, so a repeated key gives several pairs, in group order |
| UriParsing.GroupPairsKeys | MPowerKit.Navigation/Utilities/UriParsingHelper.cs:82-87 | each value of a group yields one pair carrying the group's key |
| UriParsing.PairOfClean | MPowerKit.Navigation/Utilities/UriParsingHelper.cs:86 | the pair built from a value (after `\|` becomes `/` and `..` becomes the marker) holds no `..` and no `\|` |
| UriParsing.QueryParametersClean | MPowerKit.Navigation/Utilities/UriParsingHelper.cs:79-88 | every pair of the query is clean |
| UriParsing.QueryParametersFailure | MPowerKit.Navigation/Utilities/UriParsingHelper.cs:86 | whenever the query loop fails, the reason is `BlankUri`: a value that is blank once rewritten |
| UriParsing.QueryParametersPrefixFailure | MPowerKit.Navigation/Utilities/UriParsingHelper.cs:80-88 | once a prefix of the groups fails, the whole loop fails |
| UriParsing.ProcessedNesting | MPowerKit.Navigation/Utilities/UriParsingHelper.cs:57-86 | every query-pair uri nests fewer `?` queries than the uri it came from, so resolving the pairs' uris in turn terminates |
| Wrappers.ToNavigationResult | MPowerKit.Navigation/NavigationService.cs:60-63 | success maps to success; a failure keeps its reason, as `NavigationResult(false, ex)` keeps the exception |
| Pages.Invoke | MPowerKit.Navigation.Core/Utilities/MvvmHelpers.cs:170-181 | the view's callback runs exactly when the view implements the interface, the view model's exactly when it does, the view first |
| Pages.Navigated | MPowerKit.Navigation.Core/Utilities/MvvmHelpers.cs:159-163 | the active flag is set to `to` before any callback, and only that page's callbacks follow |
| Pages.NavigatedActivationOrder | MPowerKit.Navigation.Core/Utilities/MvvmHelpers.cs:110-163 | the active flags change along the current-child chain, from the top page down when navigating to, from the leaf up when navigating from |
| Pages.NavigatedActiveBeforeCallbacks | MPowerKit.Navigation.Core/Utilities/MvvmHelpers.cs:159-163 | every callback of the walk comes after its page's active flag was set |
| Pages.NavigatedActiveSet | MPowerKit.Navigation.Core/Utilities/MvvmHelpers.cs:110-163 | after the walk the chain's pages are all active (to) or all inactive (from); no other flag changes |
| Pages.EvaluateTopMost | MPowerKit.Navigation.Core/Utilities/MvvmHelpers.cs:32-45 | the descent ends at a page without a current child, the last page of the current-child chain |
| Pages.GetTopMostPage | MPowerKit.Navigation.Core/Utilities/MvvmHelpers.cs:20-30 | none for no window; otherwise the descent starts at the top modal page if any, else at the main page |
| Pages.PreviousRootPage | MPowerKit.Navigation.Core/Utilities/MvvmHelpers.cs:10-18 | the page is the main page or a modal page, and `ModalStack[^2]` when two or more modal pages exist |
| Pages.DestroyPageOrder | MPowerKit.Navigation.Core/Utilities/MvvmHelpers.cs:252-273 | the page's regions are destroyed first, then its `Destroy` callbacks, then behaviors and binding context are cleared, last |
| Pages.DestroyOrder | MPowerKit.Navigation.Core/Utilities/MvvmHelpers.cs:218-250 | scopes are disposed in reverse pre-order: Detail before Flyout, tabs and stack pages last to first, each page after all its children |
| Pages.DestroyReversedOrder | MPowerKit.Navigation.Core/Utilities/MvvmHelpers.cs:211-214 | destroying a list top-first disposes the reverse of the list's pre-order |
| Pages.DestroyAllPagesOrder | MPowerKit.Navigation.Core/Utilities/MvvmHelpers.cs:209-216 | the modal pages are destroyed top-first, then the main page: the reverse of the window's pre-order |
| Pages.DestroyQuiet | MPowerKit.Navigation.Core/Utilities/MvvmHelpers.cs:218-268 | destruction changes no active flag |
| Pages.LifecyclePreOrder | MPowerKit.Navigation.Core/Utilities/MvvmHelpers.cs:287-323 | the window-lifecycle walk visits every page in pre-order over all children (Flyout before Detail), each page's own callbacks before its regions |
| Pages.WindowLifecyclePreOrder | MPowerKit.Navigation.Core/Utilities/MvvmHelpers.cs:275-285 | the window's main page is walked first, then the modal pages in order |
| Pages.OnSystemBackButtonClick | MPowerKit.Navigation.Core/Utilities/MvvmHelpers.cs:404-409 | handled exactly when the view or the view model answers true; the view model is asked only when the view did not handle it |
| Pages.BackPresentedFlyout | MPowerKit.Navigation.Core/Utilities/MvvmHelpers.cs:342-348 | a presented flyout always reports handled; it stays presented exactly when its Flyout handled the press; its Detail is untouched |
| Pages.BackUnhandled | MPowerKit.Navigation.Core/Utilities/MvvmHelpers.cs:340-369 | an unhandled press changes no page and reaches the toolkit for every page of the current chain, leaf first |
| VisualTree.FirstOfType | MPowerKit.Navigation.Core/Utilities/MvvmHelpers.cs:55-63 | the first element of the wanted type on the climb, with only visual elements before it; none exactly when every element of that type has a non-visual element before it |
| VisualTree.ParentOfTypeOrSelf | MPowerKit.Navigation.Core/Utilities/MvvmHelpers.cs:55-63 | the while loop computes that first element |
| VisualTree.RootIndex | MPowerKit.Navigation.Core/Utilities/MvvmHelpers.cs:65-73 | the highest page reached through page parents: all below it are pages, its parent is not |
| VisualTree.RootPageBeforeWindow | MPowerKit.Navigation.Core/Utilities/MvvmHelpers.cs:65-73 | the while loop computes that page |
| VisualTree.FarthestDirectParent | MPowerKit.Navigation.Core/Utilities/MvvmHelpers.cs:47-53 | the climb goes on through page parents that hold the page directly (a navigation page only if it is the root) and stops at the first that does not |
| VisualTree.FarthestWithinRoot | MPowerKit.Navigation.Core/Utilities/MvvmHelpers.cs:47-73 | the farthest direct parent is never above the root page before the window |
| VisualTree.HolderReached | MPowerKit.Navigation.Core/Utilities/MvvmHelpers.cs:90-108 | true exactly when the holder is on the parent chain before the first enclosing page, or is that page |
| VisualTree.IsParentRegionHolder | MPowerKit.Navigation.Core/Utilities/MvvmHelpers.cs:90-108 | false when either argument is null; otherwise the loop answers whether the holder is reached |
| VisualTree.IsParentForElementAsWritten | MPowerKit.Navigation.Core/Utilities/MvvmHelpers.cs:80-88 | the loop as written always ends by dereferencing null |
| VisualTree.IsParentForElement | MPowerKit.Navigation.Core/Utilities/MvvmHelpers.cs:80-88 | the corrected loop answers whether the page is on the element's parent chain |
| Locations.RootBeforeWindow | MPowerKit.Navigation.Core/Utilities/MvvmHelpers.cs:65-73 | for a page of the window, the climb stops at the main page or modal page its tree hangs from |
| Locations.FarthestInTree | MPowerKit.Navigation.Core/Utilities/MvvmHelpers.cs:47-53 | the farthest direct parent of a page of the window lies within that page's tree |
| Construction.PushEach | MPowerKit.Navigation/NavigationService.cs:669-672 | pushing the following pages succeeds exactly when none is null, and appends them in path order after the old stack |
| Construction.ConfigureNavigationPage | MPowerKit.Navigation/NavigationService.cs:662-673 | fails without a following page; otherwise the while loop pushes the following pages in path order |
| Construction.NavigationStackInPathOrder | MPowerKit.Navigation/NavigationService.cs:648-673 | a configured navigation page has at least one page, and its stack is the following pages in path order |
| Construction.LastSelectTab | MPowerKit.Navigation/NavigationService.cs:704-706 | none exactly when no pair has the `SelectTab` key |
| Construction.LastSelectTabIsLast | MPowerKit.Navigation/NavigationService.cs:706 | the value found belongs to a `SelectTab` pair with no later `SelectTab` pair: the last one wins |
| Construction.FindTab | MPowerKit.Navigation/NavigationService.cs:708-718 | the first tab whose segment name, or whose navigation root's segment name, is the name |
| Construction.ConstructPages | MPowerKit.Navigation/NavigationService.cs:581-602 | success needs a resolved path; an absolute or modal path gives exactly one page, never null; the first page is null exactly for a leading marker, else it is built for the first segment |
| Construction.AbsoluteRefusesBackOperator | MPowerKit.Navigation/NavigationService.cs:589-592 | an absolute or modal path starting with a marker fails with `BackOperatorInAbsolutePath` |
| Construction.Build | MPowerKit.Navigation/NavigationService.cs:604-660 | one page per segment, none for no segment; a marker gives a null page, a name a page built for it |
| Construction.TabbedMustBeLast | MPowerKit.Navigation/NavigationService.cs:624-630 | a tabbed segment followed by any segment fails |
| Construction.QueryNeedsTabbedLast | MPowerKit.Navigation/NavigationService.cs:634-637 | with query parameters, a path whose last segment is not tabbed fails |
| Construction.FlyoutTakesDetail | MPowerKit.Navigation/NavigationService.cs:638-647 | a flyout segment must be followed by exactly one page, which becomes its Detail |
| Construction.NavigationTakesRest | MPowerKit.Navigation/NavigationService.cs:648-652 | a navigation segment takes all following pages, at least one, pushed in path order |
| Construction.ConfigureTabbedPage | MPowerKit.Navigation/NavigationService.cs:680-726 | fails without query, without a `CreateTab`/`SelectTab` key, or with a single `SelectTab`; the tabs are the `CreateTab` pages in order; with a `SelectTab`, the current tab is the first tab matching the last `SelectTab`'s name, and an unknown name fails |
| Construction.CreateTabs | MPowerKit.Navigation/NavigationService.cs:695-702 | one tab per `CreateTab` pair, in order, each built for its uri's first segment |
| Construction.ConstructInitOnly | MPowerKit.Navigation/NavigationService.cs:728-749 | building pages only causes `Initialize` callbacks and `OnInitializedAsync` hooks, and changes no active flag |
| NavigationPlans.TransitionOutcome | MPowerKit.Navigation/NavigationService.cs:478-505 | every navigation (from/to walks then destruction) leaves the old chain inactive and the new one active, and disposes exactly the trees of the pages it drops, in reverse pre-order |
| NavigationPlans.SwitchDisposal | MPowerKit.Navigation/NavigationService.cs:118-119 | the from/to walks dispose nothing |
| NavigationPlans.PlanSelectTab | MPowerKit.Navigation/NavigationService.cs:85-116 | fails without an enclosing tabbed page, for an unknown name and for the tab already selected; otherwise targets the first matching tab |
| NavigationPlans.PlanToggleFlyout | MPowerKit.Navigation/NavigationService.cs:66-77 | targets the nearest enclosing flyout page; fails exactly when there is none |
| NavigationPlans.PlanGoBackToRoot | MPowerKit.Navigation/NavigationService.cs:137-147 | fails for an inactive page; fails with `AlreadyAtRoot` exactly when the page is not in a navigation page, or is its root |
| NavigationPlans.BackToRoot | MPowerKit.Navigation/NavigationService.cs:149-162 | the stack is cut down to its root; the walk goes from the top to the root; every page above the root is destroyed |
| NavigationPlans.BackToRootAsWritten | MPowerKit.Navigation/NavigationService.cs:157-162 | as written, the transition is the intended one with nothing left to destroy, because the loop reads the stack after the pop |
| NavigationPlans.BackToRootAsWrittenLeaks | MPowerKit.Navigation/NavigationService.cs:157-162 | as written nothing is disposed, while the intended version disposes the old top page |
| NavigationPlans.Farthest | MPowerKit.Navigation/NavigationService.cs:210 | the farthest direct parent inside the window is an ancestor; it is a root or a non-root page of a navigation page |
| NavigationPlans.PlanGoBack | MPowerKit.Navigation/NavigationService.cs:172-254 | fails for an inactive page; from the main page of the window fails with `BackFromMainPage` (or `EmptyNavigationStack` when two or more modal pages exist); a non-modal back goes modally only from a modal root; modal back fails exactly on an empty modal stack; a stack pop is from the farthest parent's navigation stack, above its root |
| NavigationPlans.Retreated | MPowerKit.Navigation/NavigationService.cs:230-265 | modal back pops the top modal page and arrives at `ModalStack[^2]` or the main page; plain back arrives at the page below and destroys the popped top |
| NavigationPlans.NonNull | MPowerKit.Navigation/NavigationService.cs:358-360 | `RemoveAll(null)` keeps exactly the non-null pages; the count removed is the number of markers |
| NavigationPlans.PlanRelative | MPowerKit.Navigation/NavigationService.cs:344-398 | fails for an inactive page or from a modal root; under a navigation page fails exactly when the stack has fewer pages than markers, or as many with no new page; otherwise accepts a slot replacement only with one marker and one page |
| NavigationPlans.PlanInSlot | MPowerKit.Navigation/NavigationService.cs:380-397 | outside a navigation page only one marker and exactly one new page are accepted; the slot is the current page's place in its parent |
| NavigationPlans.DirectionCases | MPowerKit.Navigation/NavigationService.cs:442-457 | no marker means forward; markers with no new page means backward; otherwise both |
| NavigationPlans.RelativeTransition | MPowerKit.Navigation/NavigationService.cs:460-507 | in a stack, the stack ends as its first count-minus-k pages followed by the new pages, the walk goes from the old top to the new top, and the top k pages are dropped; in a slot, the new page takes the old page's place and the old page is dropped |
| NavigationPlans.RelativeTransitionAsWritten | MPowerKit.Navigation/NavigationService.cs:397-433 | as written the slot walk goes from the shown page to the current page, and the shown page is what is destroyed |
| NavigationPlans.SlotAsWrittenDisposesShownPage | MPowerKit.Navigation/NavigationService.cs:397-433 | as written the slot keeps the old page yet disposes it; the intended version shows the new page and disposes the old tree |
| NavigationPlans.EditNavigationStack | MPowerKit.Navigation/NavigationService.cs:468-506 | the push, `InsertPageBefore`, `RemovePage` and pop steps leave the stack as its first count-minus-k pages followed by the new pages |
| NavigationPlans.AbsolutePush | MPowerKit.Navigation/NavigationService.cs:550-562 | the window gets the new root and no modal pages; the walk goes from the top modal page, else the main page |
| NavigationPlans.AbsolutePushTrace | MPowerKit.Navigation/NavigationService.cs:557-562 | the walks are followed by `DestroyAllPages` of the page left |
| NavigationPlans.ModalPush | MPowerKit.Navigation/NavigationService.cs:509-526 | the new page is pushed on the modal stack; the walk goes from the root page before the window; nothing is destroyed |
| NavigationPlans.FlyoutPush | MPowerKit.Navigation/NavigationService.cs:565-579 | the flyout's Detail is replaced; the walk goes from the old Detail, which is destroyed |
| Navigation.NavigationService.CurrentLocation | MPowerKit.Navigation/NavigationService.cs:751-754 | the scope's page, located in the window, when the service has a scope; else the window's main page; no page at all is `NullReference`; a scope page outside the window is reported as `InactivePage` (see Left out) |
| Navigation.NavigationService.Move | MPowerKit.Navigation/NavigationService.cs:118-119 | logs the from walk then the to walk; the old chain becomes inactive, the new one active |
| Navigation.NavigationService.DestroyPageRecursively | MPowerKit.Navigation.Core/Utilities/MvvmHelpers.cs:218-250 | logs the destruction trace and keeps the active flags |
| Navigation.NavigationService.SelectTab | MPowerKit.Navigation/NavigationService.cs:85-129 | fails without changing anything, or runs the walks and then sets the tabbed page's current page to the target |
| Navigation.NavigationService.ToggleFlyout | MPowerKit.Navigation/NavigationService.cs:66-83 | fails without changing anything, or sets `IsPresented` on the nearest flyout page only |
| Navigation.NavigationService.GoBackToRoot | MPowerKit.Navigation/NavigationService.cs:131-170 | fails without changing anything, or makes the root current and destroys every page above it |
| Navigation.NavigationService.GoBackToRootAsWritten | MPowerKit.Navigation/NavigationService.cs:131-170 | as written: the stack is cut to the root, but nothing is disposed |
| Navigation.NavigationService.GoBack | MPowerKit.Navigation/NavigationService.cs:172-265 | fails without changing anything, or carries out the back transition and disposes exactly the popped page's tree |
| Navigation.NavigationService.DoAbsolutePush | MPowerKit.Navigation/NavigationService.cs:528-563 | without a window the root becomes the window's page after its to walk; otherwise the absolute transition, destroying all pages of the page left |
| Navigation.NavigationService.DoModalPush | MPowerKit.Navigation/NavigationService.cs:509-526 | fails without a window; otherwise the modal push, disposing nothing |
| Navigation.NavigationService.DoFlyoutPush | MPowerKit.Navigation/NavigationService.cs:565-579 | replaces the flyout's Detail and disposes the old Detail's tree |
| Navigation.NavigationService.DoRelativeNavigation | MPowerKit.Navigation/NavigationService.cs:344-507 | the intended version: fails without changing anything, or carries out the planned stack edit or slot replacement, showing the new page in the slot, and disposes exactly the pages dropped |
| Navigation.NavigationService.DoRelativeNavigationAsWritten | MPowerKit.Navigation/NavigationService.cs:344-433 | as written: the same checks and stack edit; in a slot the current page is navigated from and to, stays in place and is disposed, and the new page is never shown |
| Navigation.NavigationService.Constructed | MPowerKit.Navigation/NavigationService.cs:281-290 | navigation is absolute exactly when the uri is absolute or there is no window; absolute construction yields one page; construction only initializes |
| Navigation.NavigationService.LoadedHook | MPowerKit.Navigation/NavigationService.cs:305 | at most one loaded hook, changing no active flag: on the new root for absolute and modal navigation, and for relative navigation exactly when a page was built |
| Navigation.NavigationService.Navigate | MPowerKit.Navigation/NavigationService.cs:272-313 | a failed construction changes nothing; otherwise the log holds the initializations, then the route's walks and destruction (relative slot navigation as written), then the loaded hook; a failed route leaves the window as it was; a modal push of a path starting with `..` has already walked away from the current page's root tree, logging its from-callbacks and clearing its flags, before it fails with `NullReference`; any other failed route logs only the initializations |
| Navigation.NavigationService.AbandonModalPush | MPowerKit.Navigation/NavigationService.cs:518-523 | a modal push of no page navigates from the current page's root, then fails with `NullReference` |
| Navigation.NavigationService.FlyoutHost | MPowerKit.Navigation/NavigationService.cs:317 | only from a scope whose page is a flyout page of the window |
| Navigation.NavigationService.FlyoutConstructed | MPowerKit.Navigation/NavigationService.cs:326-330 | an absolute uri fails with `AbsoluteInsideFlyoutPage`; success yields exactly one page |
| Navigation.NavigationService.NavigateThroughFlyout | MPowerKit.Navigation/NavigationService.cs:315-342 | without a scope, or when the scope page is a page of the window that is not a flyout page, the call fails outright with nothing changed; a scope page not found in the window gives `Failed(InactivePage)` (see Left out); other failures are results with nothing changed; success replaces the Detail |
| Regions.CurrentIndex | MPowerKit.Regions/Region.cs:19-21 | the getter: the index of a visible child; none exactly when no child is visible |
| Regions.CurrentIsTheVisible | MPowerKit.Regions/Region.cs:21 | with at most one visible child, `SingleOrDefault` finds that child |
| Regions.Shown | MPowerKit.Regions/Region.cs:22-30 | the setter keeps the children in order and shows exactly the target; at most one child is visible afterwards |
| Regions.ValidShown | MPowerKit.Regions/Region.cs:22-30 | the setter keeps the views distinct |
| Regions.Region.SetCurrentView | MPowerKit.Regions/Region.cs:22-30 | from any state with at most one other visible child, the setter leaves only the target visible |
| Regions.Region.InitView | MPowerKit.Regions/Region.cs:154-165 | an unregistered name fails; otherwise a fresh view, initialized first |
| Regions.Region.ReplaceAll | MPowerKit.Regions/Region.cs:43-76 | the children become exactly the new view, current; the old current is navigated from, the new one to, then all old views are destroyed last to first |
| Regions.ReplacedRemoval | MPowerKit.Regions/Region.cs:51-68 | removing all old views from the container with the new view appended leaves the new view alone |
| Regions.Region.Push | MPowerKit.Regions/Region.cs:78-114 | the children become those up to the old current view, then the new view, current; the views after the old current are destroyed last to first |
| Regions.Pushed | MPowerKit.Regions/Region.cs:86-99 | the pushed container holds the views up to the old current one, then the new view, which is current |
| Regions.PushedRemoval | MPowerKit.Regions/Region.cs:96-106 | adding the view and removing the views after the old current gives the pushed container |
| Regions.Region.PushBackwards | MPowerKit.Regions/Region.cs:116-152 | the children become the new view, current, followed by the old ones from the old current on; the views before it are destroyed last to first |
| Regions.PushedBackwards | MPowerKit.Regions/Region.cs:124-137 | the result is `[view] ++ old[idx..]` with the new view current |
| Regions.BackwardsRemoval | MPowerKit.Regions/Region.cs:134-144 | inserting at the current index and removing the views before it gives that result |
| Regions.CanGoBack | MPowerKit.Regions/Region.cs:167-170 | true exactly when there is a current view with index at least 1 |
| Regions.CanGoForward | MPowerKit.Regions/Region.cs:172-175 | true exactly when there is a current view that is not the last |
| Regions.ByName | MPowerKit.Regions/Region.cs:177-180 | the first view with the name; none exactly when no view has it |
| Regions.GoByNamePlan | MPowerKit.Regions/Region.cs:247-263 | fails for an unknown name (`NoViewWithName`) or when the target is current (`ViewAlreadyCurrent`); the direction is Back exactly when the current index is above the target's |
| Regions.Region.GoBack | MPowerKit.Regions/Region.cs:182-210 | fails without change when it cannot go back; otherwise only the current index moves down by one, between the from and to events |
| Regions.Region.GoForward | MPowerKit.Regions/Region.cs:212-239 | fails without change when it cannot go forward; otherwise only the current index moves up by one |
| Regions.Region.GoByName | MPowerKit.Regions/Region.cs:241-275 | fails without change as planned; otherwise only the current view moves to the first view with the name |
| Regions.PushThenGoBack | MPowerKit.Regions/Region.cs:96-100 | after a push one can go back, and going back makes the old current view current again |
| Regions.GoBackThenForward | MPowerKit.Regions/Region.cs:193-231 | going back then forward restores the container exactly |
| Regions.Region.NavigatedRecursively | MPowerKit.Regions/Region.cs:277-295 | nothing without a current view; to fires on the current view then the nested regions; from fires the other way round |
| Regions.Region.RemoveAndDestroy | MPowerKit.Regions/Region.cs:64-67 | removes exactly the given views from the container and destroys each in the given order |
| Regions.RemoveFromKept | MPowerKit.Regions/Region.cs:66 | removing one more view is keeping the container without it |
| Regions.Region.DestroyAllAsWritten | MPowerKit.Regions/Region.cs:297-312 | as written every view is destroyed last to first, yet the container keeps its children |
| Regions.Region.DestroyAll | MPowerKit.Regions/Region.cs:297-312 | destroys every view last to first and empties the container; a live holder's scope is disposed and its name removed |
| Regions.Region.OnWindowLifecycleRecursively | MPowerKit.Regions/Region.cs:329-340 | every view in order, then the nested regions |
| Regions.Region.OnPageLifecycleRecursively | MPowerKit.Regions/Region.cs:342-364 | logs the page-lifecycle trace of the container |
| Regions.PageLifecycleOrder | MPowerKit.Regions/Region.cs:342-364 | appearing runs every view in order and then the nested regions; disappearing runs the nested regions first and then the views in reverse |
| RegionManagement.Lookup | MPowerKit.Regions/RegionManager.cs:24 | `TryGetValue`: the holder bound to the name; none exactly when no entry has it |
| RegionManagement.DropWellFormed | MPowerKit.Regions/RegionManager.cs:110 | removing entries keeps names distinct, holders distinct and names non-blank |
| RegionManagement.PrunedIsLive | MPowerKit.Regions/RegionManager.cs:122-126 | pruning keeps exactly the entries whose holder is alive |
| RegionManagement.ReleasedFacts | MPowerKit.Regions/RegionManager.cs:143-148 | removing the view's own entry leaves no entry for the view and keeps the dictionary well keyed |
| RegionManagement.LiveHoldersMembers | MPowerKit.Regions/RegionManager.cs:113-115 | the holders listed are exactly the live targets of the entries |
| RegionManagement.LiveHoldersDistinct | MPowerKit.Regions/RegionManager.cs:113-115 | no holder is listed twice |
| RegionManagement.LookupAppended | MPowerKit.Regions/RegionManager.cs:157 | after the insertion the name finds the view and the view is bound under that name |
| RegionManagement.BeneathMembers | MPowerKit.Regions/RegionManager.cs:83 | the candidates are the live holders under the given holder; none without a holder |
| RegionManagement.PassRemove | MPowerKit.Regions/RegionManager.cs:88-94 | a visited holder under a listed one is removed, and the pass invariant holds again |
| RegionManagement.PassKeep | MPowerKit.Regions/RegionManager.cs:88-94 | a visited holder under no listed one stays, and the invariant holds again |
| RegionManagement.DirectHolders | MPowerKit.Regions/RegionManager.cs:85-97 | the loop keeps the candidates in order without those removed; no kept holder is under another kept one; a candidate under no candidate is kept |
| RegionManagement.RegionsOfMembers | MPowerKit.Regions/RegionManager.cs:99-107 | exactly the regions of holders that have a scope are yielded |
| RegionManagement.RegionManager.RegionHolders | MPowerKit.Regions/RegionManager.cs:113-115 | exactly the live targets of the entries |
| RegionManagement.RegionManager.GetRegionByName | MPowerKit.Regions/RegionManager.cs:68-79 | fails for an unregistered name and for a collected holder; otherwise the holder's region, none when it has no scope |
| RegionManagement.RegionManager.Prune | MPowerKit.Regions/RegionManager.cs:122-126 | the loop removes exactly the dead entries |
| RegionManagement.RegionManager.RemoveHolder | MPowerKit.Regions/RegionManager.cs:118-131 | a blank key changes nothing; otherwise the dead entries and the key are removed, and every other live entry stays |
| RegionManagement.RegionManager.ReleaseOwn | MPowerKit.Regions/RegionManager.cs:143-148 | drops the view's own entry, if any |
| RegionManagement.RegionManager.Bind | MPowerKit.Regions/RegionManager.cs:152-157 | appends the binding; the name then finds the view and the view is bound under exactly that name |
| RegionManagement.RegionManager.OnRegionNameChanged | MPowerKit.Regions/RegionManager.cs:133-163 | ignored for a non-content view or a blank name; otherwise prunes, drops the view's own entry, fails with `RegionNameTaken` if the name is bound to a live holder, else binds it |
| RegionManagement.RegionManager.ScopeFor | MPowerKit.Regions/RegionManager.cs:32-41 | an existing scope is reused; otherwise exactly one new empty region is created for the holder |
| RegionManagement.RegionManager.NavigateTo | MPowerKit.Regions/RegionManager.cs:18-66 | fails for an unregistered name or a collected holder, leaving the scopes and every region unchanged; otherwise reuses the holder's scope or creates exactly one empty region named after the key; an unknown view fails with `ViewNotRegistered` and leaves that region as it was; a registered view becomes the region's only, current view, the log gains its `ViewInitialized`, the old views' navigated-from events, its navigated-to event and the old views destroyed last to first, and the next view id advances; no other region changes |
| RegionManagement.RegionManager.GetRegions | MPowerKit.Regions/RegionManager.cs:81-108 | every holder returned is live and under the given holder; with direct descendants only, none is under another; a null holder yields nothing |

## Left out

- Window creation and window management. This covers `OpenNewWindowAsync`, `CloseWindow`, `IMPowerKitWindow` resolution and the type check at MPowerKit.Navigation/NavigationService.cs:536-545. Without a window, the window is simply set.
- Setting `Window.Page` is assumed to clear the modal stack. That is toolkit behaviour, not visible in the library.
- Navigation parameters, `animated` flags, `Task.Delay(1)` and `await` scheduling. The direction parameter is recorded only in the region events.
- `OnPageLoadedRecursively` and `OnInitializedAsync` are opaque hooks (`Loaded`, `InitializedAsync` events). Their bodies are not part of this model.
- The walks of a page's regions inside page walks are single events (`RegionNavigated`, `RegionDestroyed`, `RegionWindowLifecycle`). The region's own walk is modelled separately in the Regions module.
- Exceptions thrown by the callbacks themselves are not modelled; callbacks never fail. So the wrapping `Cannot destroy` exception is not modelled either.
- Construction that fails part-way has, in the source, already run `Initialize` on the pages built so far. The model drops those callbacks.
- Navigation.NavigationService.NavigateThroughFlyout: the scope's page counts only when it is found in the window. A detached scope page gives the result `Failed(InactivePage)` whatever its kind: where it is a flyout page the source would navigate it, and where it is any other page the source raises before its `try` (MPowerKit.Navigation/NavigationService.cs:317).
- Navigation.NavigationService.CurrentLocation: a scope page that is not in the window is reported as `InactivePage`; `GetCurrentPage` would return it. So SelectTab, ToggleFlyout and DoModalPush fail with `InactivePage` from a detached scope page, where the source climbs that page's own parents. Detached pages have no location in the model.
- NavigationPlans.PlanGoBack: from the main page with two or more modal pages, the plan fails with `EmptyNavigationStack`. That assumes the toolkit gives a window's root page an empty `NavigationStack`. With a stack of `[page]` the source would instead fail on the index at MPowerKit.Navigation/NavigationService.cs:229-231. The model's own flags never reach this case from an active main page.
- Going back modally from a modal root: the source pops the page reported by `GetCurrentPage`. The model leaves the `null` dereference of a missing current page out and fails with `NullReference` before any callback.
- Modal stacks of pages that are not the window's own are not modelled. `Navigation.ModalStack` is always the window's.
- `HandleSystemBackButtonClickRecursively` after `SendBackButtonPressed` (MPowerKit.Navigation.Core/Utilities/MvvmHelpers.cs:369-399) is left out. It depends on toolkit pop behaviour and a platform index hack. The toolkit's answer is an input.
- Percent-decoding (`Uri.UnescapeDataString`, `HttpUtility`) and case-insensitive query keys are left out. Full `System.Uri` syntax is reduced to: a scheme, `://`, the path split on `/`, then the query after the first `?`.
- Regions.Region.GoForward: its source message says "Cannot go back". The model gives it its own reason, `CannotGoForward`.
- Regions.Region.DestroyAll: a destroyed view's nested regions are one event.
  - The holder's scope disposal and `RemoveHolder` are events; the registry's dictionary does not observe them.
  - The nested `DestroyRecursively` walk over a view's regions is part of the `ViewDestroyed` event.
- Region's constructor assigning `RegionHolder.Content` is left out. It only attaches the container to the visual tree.
- RegionManagement.RegionManager.NavigateTo: the copy of the parent page's accessor into the new scope (MPowerKit.Regions/RegionManager.cs:42-55) is left out. It has no effect on the registry or the region.
- Dictionary order: the registry's entries are in insertion order. .NET's reuse of freed dictionary slots, which can reorder enumeration after removals, is not modelled.
- The static dictionary is the state of one registry object. Weak references are the registry's `collected` set, which `Collect` extends.
- RegionManagement.RegionManager.GetRegions also returns the holders it selected, so that its contract can speak about them. The source returns only the regions.
- `List.Remove` in the direct-descendants pass is modelled as removing every occurrence. The candidate list has no repeats, so this is the same as removing the first.
- Navigation.NavigationService.Navigate carries relative slot navigation as written (DoRelativeNavigationAsWritten). The corrected slot replacement (see Findings) is Navigation.NavigationService.DoRelativeNavigation.
- Pages.PreviousRootPage: the contract states the `ModalStack[^2]` case and that the page is the main page or a modal page. It does not separately state that the main page is returned when there are fewer than two modal pages.
- Popups, behaviors, `ThreadUtil`, `EventToCommandBehavior`, service registration and the platform renderer are outside this core.

## Findings

| source | as written | input that shows it | evidently intended | confidence | as-written member | corrected member |
|---|---|---|---|---|---|---|
| MPowerKit.Navigation.Core/Utilities/MvvmHelpers.cs:82 | loop condition `element is not null \|\| element != parent` holds at null too, so the loop dereferences null | any element and any page | `element is not null && element != parent` | not executed | VisualTree.IsParentForElementAsWritten | VisualTree.IsParentForElement |
| MPowerKit.Navigation/NavigationService.cs:157-162 | the pages to destroy are read from the stack after `PopToRootAsync`, so `[..^1]` of `[root]` is empty | a navigation stack `[A, B]` with `B` current | destroy the pages above the root, read before the pop | not executed | NavigationPlans.BackToRootAsWrittenLeaks | Navigation.NavigationService.GoBackToRoot |
| MPowerKit.Navigation/NavigationService.cs:397 | the current page is passed as the page to navigate to, so the slot keeps the old page and then destroys it | `X/..` + one content page from a tab of a tabbed page | navigate to the newly built page | not executed | NavigationPlans.SlotAsWrittenDisposesShownPage | NavigationPlans.RelativeTransition |
| MPowerKit.Regions/Region.cs:303 | `RegionStack` is a fresh `ToList()` copy, so `Remove` leaves the container's children in place | a region holding one view | remove from `StackContainer.Children` | not executed | Regions.Region.DestroyAllAsWritten | Regions.Region.DestroyAll |
