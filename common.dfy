/** Shared vocabulary of the services: the four error kinds the service
    layer throws, a result type that carries them, optional values for
    nullable arguments, and the few `java.lang.String` behaviours the
    services rely on (`isBlank`, `equalsIgnoreCase` against a constant). */
module Common {

  /** The exception classes the services throw: EntityNotFoundException,
      ValidationException, ConflictDataException and ForbiddenException. */
  datatype Error = NotFound | Validation | Conflict | Forbidden

  datatype Result<T> = Ok(value: T) | Err(error: Error)

  /** A nullable reference: `None` plays the part of Java's `null`. */
  datatype Option<T> = None | Some(value: T)

  /** Patch semantics of the update DTOs: a null field leaves the stored
      value alone, a non-null one replaces it. */
  function Patch<T>(current: T, update: Option<T>): (r: T)
    ensures update.None? ==> r == current
    ensures update.Some? ==> r == update.value
  {
    match update
    case None => current
    case Some(v) => v
  }

  /** `Character.isWhitespace`: the Unicode space, line and paragraph
      separators except the three non-breaking spaces, plus the ASCII
      control characters HT, LF, VT, FF, CR and FS..US. */
  predicate IsJavaWhitespace(c: char)
  {
    || c == ' ' || c == '\t' || c == '\n' || c == '\U{B}' || c == '\U{C}' || c == '\r'
    || ('\U{1C}' <= c <= '\U{1F}')
    || c == '\U{1680}'
    || ('\U{2000}' <= c <= '\U{2006}') || ('\U{2008}' <= c <= '\U{200A}')
    || c == '\U{2028}' || c == '\U{2029}' || c == '\U{205F}' || c == '\U{3000}'
  }

  /** `String.isBlank`: empty, or whitespace only. */
  predicate IsBlank(s: string)
  {
    forall i :: 0 <= i < |s| ==> IsJavaWhitespace(s[i])
  }

  /** One step of `String.equalsIgnoreCase` where the right-hand character
      `k` is an ASCII upper-case letter, digit or punctuation: `c` matches
      when it is `k`, when its upper-case form is `k`, or when the
      lower-case form of its upper-case form is the lower-case form of `k`.
      Beyond ASCII that admits U+0130 and U+0131 for I, U+017F for S and
      the Kelvin sign U+212A for K. */
  predicate CharMatchesUpper(c: char, k: char)
  {
    || c == k
    || ('A' <= k <= 'Z' && c as int == k as int + 32)
    || (k == 'I' && (c == '\U{130}' || c == '\U{131}'))
    || (k == 'S' && c == '\U{17F}')
    || (k == 'K' && c == '\U{212A}')
  }

  /** `s.equalsIgnoreCase(upper)` for a constant `upper` written in
      ASCII upper case. */
  predicate EqualsIgnoreCase(s: string, upper: string)
  {
    |s| == |upper| && forall i :: 0 <= i < |s| ==> CharMatchesUpper(s[i], upper[i])
  }
}
