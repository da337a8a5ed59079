/**
 * Errors of the menu-domain layer and their command-line exit codes
 * (src/menu/errors.rs).  Message texts are not modelled.
 */
module MenuErrors {
  import AxErrors

  datatype MenuError =
    | AccessDenied
    | AppNotFound(identifier: string)
    | ItemNotFound(query: string)
    | AmbiguousMatch(query: string, candidates: seq<string>)
    | ItemDisabled(path: string)
    | NotToggleable(path: string)
    | AX(ax: AxErrors.AXError)

  /** Permission failures, whichever layer reports them. */
  predicate IsPermissionError(e: MenuError)
  {
    e.AccessDenied? || (e.AX? && e.ax.NotTrusted?)
  }

  /** Lookup failures of the menu layer itself (not wrapped accessibility errors). */
  predicate IsLookupError(e: MenuError)
  {
    e.AppNotFound? || e.ItemNotFound? || e.AmbiguousMatch?
  }

  /** The process exit code the command line reports for `e`. */
  function ExitCode(e: MenuError): (code: AxErrors.int32)
    ensures code == 1 || code == 3 || code == 4
    ensures code == 3 <==> IsPermissionError(e)
    ensures code == 4 <==> IsLookupError(e)
    ensures code == 1 <==> !IsPermissionError(e) && !IsLookupError(e)
  {
    match e
    case AccessDenied => 3
    case AppNotFound(_) => 4
    case ItemNotFound(_) => 4
    case AmbiguousMatch(_, _) => 4
    case ItemDisabled(_) => 1
    case NotToggleable(_) => 1
    case AX(ax) =>
      match ax
      case NotTrusted => 3
      case _ => 1
  }

  /** An application lookup failure wrapped as an accessibility error exits
      with 1, unlike the menu layer's own `AppNotFound`. */
  lemma WrappedAppNotFoundExitsOne(id: string)
    ensures ExitCode(AX(AxErrors.AppNotFound(id))) == 1
    ensures ExitCode(AppNotFound(id)) == 4
  {
  }
}
