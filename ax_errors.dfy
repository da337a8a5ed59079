/**
 * Typed errors of the accessibility layer and the mapping from the raw
 * status code every accessibility call returns (src/ax/errors.rs).
 */
module AxErrors {
  import opened Wrappers

  /** Rust's `i32`. */
  newtype int32 = x: int | -0x8000_0000 <= x < 0x8000_0000

  /** Raw status code returned by the accessibility API. */
  type RawAXError = int32

  // The status codes `check_ax_error` distinguishes, with the values the
  // platform's AXError.h gives them.
  const AXErrorSuccess: RawAXError := 0
  const AXErrorInvalidUIElement: RawAXError := -25202
  const AXErrorCannotComplete: RawAXError := -25204
  const AXErrorAttributeUnsupported: RawAXError := -25205
  const AXErrorActionUnsupported: RawAXError := -25206

  /** The status codes that have a dedicated error variant. */
  predicate IsKnownFailureCode(code: RawAXError)
  {
    code == AXErrorInvalidUIElement || code == AXErrorCannotComplete
    || code == AXErrorAttributeUnsupported || code == AXErrorActionUnsupported
  }

  datatype AXError =
    | NotTrusted
    | InvalidElement
    | AttributeUnsupported(name: string)
    | ActionUnsupported(name: string)
    | Timeout
    | ApiFailure(code: RawAXError, context: string)
    | AppNotFound(identifier: string)

  /** Map a raw status code to `Ok(())` or a typed error; `context` names the
      call (or the attribute or action) that produced the code. */
  function CheckAxError(code: RawAXError, context: string): (r: Result<(), AXError>)
    ensures r.Ok? <==> code == AXErrorSuccess
    ensures r == Err(InvalidElement) <==> code == AXErrorInvalidUIElement
    ensures r == Err(Timeout) <==> code == AXErrorCannotComplete
    ensures r.Err? && r.error.AttributeUnsupported? <==> code == AXErrorAttributeUnsupported
    ensures r.Err? && r.error.ActionUnsupported? <==> code == AXErrorActionUnsupported
    ensures r.Err? && r.error.ApiFailure? <==> code != AXErrorSuccess && !IsKnownFailureCode(code)
    // the failure variants that carry a payload carry the caller's context verbatim
    ensures r.Err? && (r.error.AttributeUnsupported? || r.error.ActionUnsupported?) ==> r.error.name == context
    ensures r.Err? && r.error.ApiFailure? ==> r.error.code == code && r.error.context == context
    // permission and application lookups are never reported through a status code
    ensures r.Err? ==> !r.error.NotTrusted? && !r.error.AppNotFound?
  {
    if code == AXErrorSuccess then Ok(())
    else if code == AXErrorInvalidUIElement then Err(InvalidElement)
    else if code == AXErrorAttributeUnsupported then Err(AttributeUnsupported(context))
    else if code == AXErrorActionUnsupported then Err(ActionUnsupported(context))
    else if code == AXErrorCannotComplete then Err(Timeout)
    else Err(ApiFailure(code, context))
  }

  /** Two codes that give the same error are the same code. */
  lemma CheckAxErrorInjective(c1: RawAXError, c2: RawAXError, context: string)
    requires CheckAxError(c1, context) == CheckAxError(c2, context)
    ensures c1 == c2
  {
  }
}
