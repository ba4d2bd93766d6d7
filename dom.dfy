/** Shared vocabulary for the page model: an element's class list and an optional value. */
module Dom {

  /** The tokens of an element's `classList`. Token order is not modelled. */
  type ClassList = set<string>

  datatype Option<T> = None | Some(value: T)

  /** `classList.toggle(token)`: removes the token when present, adds it otherwise. */
  function Toggle(c: ClassList, token: string): (r: ClassList)
    ensures token in r <==> token !in c
    ensures r - {token} == c - {token}
  {
    if token in c then c - {token} else c + {token}
  }

  /** Toggling the same token twice gives back the original class list. */
  lemma ToggleTwice(c: ClassList, token: string)
    ensures Toggle(Toggle(c, token), token) == c
  {
  }

  /** The string `setAttribute` stores for a boolean value. */
  function BoolAttr(b: bool): (r: string)
    ensures r == "true" || r == "false"
    ensures r == "true" <==> b
  {
    if b then "true" else "false"
  }
}
