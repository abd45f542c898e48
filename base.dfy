/** Values, outcomes and errors shared by every part of the contact model. */
module Base {

  /** The conventional optional value. */
  datatype Option<T> = None | Some(value: T)

  /** A Python value as the contact model stores it in a field: `None` or a `str`. */
  datatype Value = Null | Text(s: string)

  /** Python's `str(v)`: `None` renders as the text "None". */
  function Str(v: Value): string
  {
    match v
    case Null => "None"
    case Text(s) => s
  }

  /** `str()` cannot tell None from the text "None"; every other text renders as itself. */
  lemma StrOfNone(v: Value)
    ensures Str(v) == "None" <==> v == Null || v == Text("None")
    ensures v.Text? ==> Str(v) == v.s
  {
  }

  /** Python truthiness of a stored value: `None` and the empty string are false. */
  predicate Truthy(v: Value)
    ensures !Truthy(v) <==> v == Null || v == Text("")
  {
    v.Text? && v.s != ""
  }

  /** The exceptions the core raises, one constructor per kind of failure. */
  datatype Error =
    | NotDigits       // PhoneValidator: a character other than a digit, or no characters at all
    | WrongLength     // PhoneValidator: all digits, but not nine of them
    | BadDate         // DateValidator's rewrapped ValueError, or strptime's own ValueError
    | BadEmail        // EmailValidator: the pattern does not match exactly once
    | NotAString      // None reaching a str-only operation (AttributeError or TypeError)
    | DateOutOfRange  // datetime(...) rejecting a day for the month or the year 10000

  /** An operation that may raise: it either completes or raises one error. */
  datatype Outcome = Ok | Raised(error: Error)

  /** The non-fatal result of a lookup: the entry was found and changed, or it was not found. */
  datatype Status = Done | NotFound
}
