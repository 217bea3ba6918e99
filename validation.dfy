// The request check of middleware/validation.js: the URL first, then the
// optional custom code. `validator.isURL` is an external library call and is
// passed in as an arbitrary predicate `isUrl` (called with the options
// "protocols http/https, protocol required").

module Validation {
  import opened Wrappers
  import opened ShortCodes

  const UrlError: string := "Please provide a valid URL with http or https protocol"
  const CodeError: string :=
    "Custom code can only contain letters, numbers, hyphens, and underscores (1-50 characters)"

  /** The URL test: given, non-empty and accepted by `isUrl`. */
  predicate UrlAccepted(originalUrl: Option<string>, isUrl: string -> bool)
  {
    Truthy(originalUrl) && isUrl(originalUrl.value)
  }

  /** The custom-code test: a falsy code means "no custom code" and passes. */
  predicate CustomCodeAccepted(customCode: Option<string>)
  {
    !Truthy(customCode) || IsValidCode(customCode.value)
  }

  /** What the middleware does with a request: call `next()`, or answer with
      a status and an error message. */
  datatype Verdict = Next | Reject(status: nat, error: string)

  function ValidateCreateLink(originalUrl: Option<string>, customCode: Option<string>,
                              isUrl: string -> bool): (v: Verdict)
    // a missing or empty URL is refused, whatever the custom code
    ensures originalUrl.None? || originalUrl == Some("") ==> v == Reject(400, UrlError)
    // so is a URL the isURL check refuses: the URL is judged first
    ensures originalUrl.Some? && !isUrl(originalUrl.value) ==> v == Reject(400, UrlError)
    // a custom code with a character outside [A-Za-z0-9_-] is refused
    ensures UrlAccepted(originalUrl, isUrl) && customCode.Some? &&
            (exists i :: 0 <= i < |customCode.value| && !IsCodeChar(customCode.value[i]))
            ==> v == Reject(400, CodeError)
    // as is one longer than 50 characters
    ensures UrlAccepted(originalUrl, isUrl) && customCode.Some? && |customCode.value| > MaxCodeLength
            ==> v == Reject(400, CodeError)
    // an absent or empty custom code with a good URL passes
    ensures UrlAccepted(originalUrl, isUrl) && !Truthy(customCode) ==> v == Next
    // and the request passes exactly when both tests do
    ensures v == Next <==> UrlAccepted(originalUrl, isUrl) && CustomCodeAccepted(customCode)
    ensures v.Reject? ==> v.status == 400
  {
    if !UrlAccepted(originalUrl, isUrl) then Reject(400, UrlError)
    else if Truthy(customCode) && !IsValidCode(customCode.value) then Reject(400, CodeError)
    else Next
  }
}
