/**
 * The machine-readable output records of the command line (src/types.rs):
 * the error envelope built from a `MenuError`, and the toggle result.
 */
module Types {
  import opened Wrappers
  import AxErrors
  import opened MenuErrors

  /** Error detail of the JSON error envelope. */
  datatype ErrorDetail = ErrorDetail(code: string, message: string, candidates: Option<seq<string>>)

  /** The JSON error envelope; `ok` is always false. */
  datatype ErrorOutput = ErrorOutput(ok: bool, error: ErrorDetail)

  /** Result of a toggle: the item's path and its checkmark before and after. */
  datatype ToggleOutput = ToggleOutput(path: string, checkedBefore: bool, checkedAfter: bool, dryRun: bool)

  /** The variant of a menu error, ignoring its payload (every `AX(_)` is one kind). */
  function Kind(e: MenuError): nat
  {
    match e
    case AccessDenied => 0
    case AppNotFound(_) => 1
    case ItemNotFound(_) => 2
    case AmbiguousMatch(_, _) => 3
    case ItemDisabled(_) => 4
    case NotToggleable(_) => 5
    case AX(_) => 6
  }

  /** Build the error envelope for `err`.  `message` is the error's rendered
      display text, which this model takes as given. */
  function FromMenuError(err: MenuError, message: string): (out: ErrorOutput)
    ensures !out.ok
    ensures out.error.message == message
    ensures out.error.candidates.Some? <==> err.AmbiguousMatch?
    ensures err.AmbiguousMatch? ==> out.error.candidates.value == err.candidates
    ensures err.AX? ==> out.error.code == "ax_error"
  {
    var (code, candidates) :=
      match err
      case AccessDenied => ("permission_denied", None)
      case AppNotFound(_) => ("app_not_found", None)
      case ItemNotFound(_) => ("item_not_found", None)
      case AmbiguousMatch(_, cs) => ("ambiguous_match", Some(cs))
      case ItemDisabled(_) => ("item_disabled", None)
      case NotToggleable(_) => ("not_toggleable", None)
      case AX(_) => ("ax_error", None);
    ErrorOutput(false, ErrorDetail(code, message, candidates))
  }

  /** Codes are in one-to-one correspondence with variant kinds. */
  lemma CodeIdentifiesKind(e1: MenuError, m1: string, e2: MenuError, m2: string)
    ensures FromMenuError(e1, m1).error.code == FromMenuError(e2, m2).error.code <==> Kind(e1) == Kind(e2)
  {
  }

  /** The payload of a wrapped accessibility error never shows in the code. */
  lemma AxErrorCodeIgnoresInner(a: AxErrors.AXError, b: AxErrors.AXError, m: string)
    ensures FromMenuError(AX(a), m).error == FromMenuError(AX(b), m).error
  {
  }

  /** The lookup codes are exactly the errors that exit with 4. */
  lemma LookupCodesExitFour(e: MenuError, m: string)
    ensures FromMenuError(e, m).error.code in {"app_not_found", "item_not_found", "ambiguous_match"}
            <==> ExitCode(e) == 4
  {
  }
}
