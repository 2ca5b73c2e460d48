/** Failure-compatible wrappers shared by every module of the model, and the
    error values that stand for the exceptions the library throws. */
module Wrappers {

  datatype Option<+T> = None | Some(value: T) {
    predicate IsFailure() { None? }

    function PropagateFailure<U>(): Option<U>
      requires None?
    {
      None
    }

    function Extract(): T
      requires Some?
    {
      value
    }

    function GetOr(default: T): T {
      match this
      case Some(v) => v
      case None => default
    }
  }

  /** The exception type the library would raise. */
  datatype ExceptionKind = ArgumentException | ArgumentNullException | InvalidOperationException
                         | NullReferenceException | IndexOutOfRangeException | KeyNotFoundException

  /** Why an operation failed: one constructor per distinct throw site. */
  datatype Error =
    // path resolver
    | BlankUri | NotBalanced
    // page-tree construction
    | NoSegments | BackOperatorInAbsolutePath | TooManyRootPages | SegmentsAfterTabbedPage
    | QueryOnlyAfterTabbedPage | FlyoutNeedsSinglePage | NavigationPageNeedsPage
    | NoQueryForTabbedPage | QueryNotAcceptableForTabbedPage | NoTabsToSelect
    | UnknownTabToSelect | PageNotRegistered(name: string) | NullPage
    // navigation service
    | NoParentFlyoutPage | NoParentTabbedPage | UnknownTab | TabAlreadySelected
    | InactivePage | AlreadyAtRoot | NoWindow | BackFromMainPage | EmptyNavigationStack
    | EmptyModalStack | RelativeFromModalRoot | TooManyBackOperators | RelativeFromRootPage
    | BackFromTabbedCurrentPage | ReplaceTabbedCurrentWithMany | NotFromFlyoutPage
    | AbsoluteInsideFlyoutPage | NullReference | OutOfRange
    // regions
    | ViewNotRegistered(view: string) | CannotGoBack | CannotGoForward | NoViewWithName
    | ViewAlreadyCurrent | RegionNotRegistered | RegionHolderCollected | RegionNameTaken

  /** The exception type each failure is raised as. */
  function KindOf(e: Error): ExceptionKind {
    match e
    case NoParentFlyoutPage | NoParentTabbedPage | TabAlreadySelected | InactivePage
      | AlreadyAtRoot | NoWindow | BackFromMainPage | EmptyNavigationStack | EmptyModalStack
      | RelativeFromModalRoot | TooManyBackOperators | RelativeFromRootPage
      | BackFromTabbedCurrentPage | ReplaceTabbedCurrentWithMany | NotFromFlyoutPage
      | AbsoluteInsideFlyoutPage | CannotGoBack | CannotGoForward | ViewAlreadyCurrent
      => InvalidOperationException
    case NullPage | RegionNotRegistered => ArgumentNullException
    case NullReference | RegionHolderCollected => NullReferenceException
    case OutOfRange => IndexOutOfRangeException
    case PageNotRegistered(_) | ViewNotRegistered(_) => KeyNotFoundException
    case _ => ArgumentException
  }

  datatype Result<+T> = Success(value: T) | Failure(error: Error) {
    predicate IsFailure() { Failure? }

    function PropagateFailure<U>(): Result<U>
      requires Failure?
    {
      Failure(error)
    }

    function Extract(): T
      requires Success?
    {
      value
    }
  }

  /** What every public operation of the navigation service returns instead of
      throwing: success, or failure carrying the exception. */
  datatype NavigationResult = Succeeded | Failed(cause: Error)

  function ToNavigationResult<T>(r: Result<T>): (n: NavigationResult)
    ensures n.Succeeded? <==> r.Success?
    ensures n.Failed? ==> n.cause == r.error
  {
    match r
    case Success(_) => Succeeded
    case Failure(e) => Failed(e)
  }
}
