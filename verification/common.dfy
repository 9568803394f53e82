/** Shared vocabulary of the client and the server: an optional value and the
    two puzzle modes (country names and capital names). */
module Common {

  /** A value that may be absent: a missing request field, a cancelled prompt,
      a lookup that found nothing. */
  datatype Option<+T> = None | Some(value: T)

  /** The two independent puzzle categories. */
  datatype Mode = Country | Capital

  /** The wire name of a mode, as sent by the client and accepted by the server. */
  function ModeName(m: Mode): string
  {
    match m
    case Country => "country"
    case Capital => "capital"
  }

  /** Reads a wire name back; every other string names no mode. */
  function ParseMode(s: string): (r: Option<Mode>)
    ensures r.Some? <==> s == "country" || s == "capital"
    ensures r.Some? ==> ModeName(r.value) == s
  {
    if s == "country" then Some(Country)
    else if s == "capital" then Some(Capital)
    else None
  }

  /** Printing a mode and reading it back gives the same mode. */
  lemma ParseModeName(m: Mode)
    ensures ParseMode(ModeName(m)) == Some(m)
  {
  }
}
