/** The text-generation service, seen from the parsers: each call either returns the
    response text or raises an exception whose message is all the caller inspects. */
module Generation {
  import opened Text

  datatype Outcome = Response(text: string) | Raised(message: string)

  /** The message every pipeline raises before any call when the client failed to configure. */
  const NotConfiguredMessage: string := "Gemini API not configured. Please add API key to api_config.py"

  /** A transient overload: the message mentions `503` or, in any letter case, `overloaded`. */
  predicate IsOverload(message: string) {
    Contains(message, "503") || Contains(Lower(message), "overloaded")
  }

  predicate Overloaded(o: Outcome) {
    o.Raised? && IsOverload(o.message)
  }
}
