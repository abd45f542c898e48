/** The address and email of a record: one field each. */
module Contacts {
  import opened Base
  import opened Validators
  import opened Fields

  /** The address: a field without a validator, so every value is accepted. */
  class RecordAddress {
    const address: Field

    ghost predicate Valid()
    {
      address.validator == None
    }

    constructor (address: Value)
      ensures Valid() && fresh(this.address) && this.address.value == address
    {
      this.address := new Field(address, None);
    }

    method AddAddress(raw: Value)
      requires Valid()
      modifies address
      ensures address.value == raw
    {
      var _ := address.SetValue(raw);
    }

    method EditAddress(raw: Value)
      requires Valid()
      modifies address
      ensures address.value == raw
    {
      var _ := address.SetValue(raw);
    }

    method RemoveAddress()
      requires Valid()
      modifies address
      ensures address.value == Null
    {
      var _ := address.SetValue(Null);
    }
  }

  /**
   * The email: a field with the email validator. The pattern test of
   * `re.findall` is the parameter `matchesOnce`; None is always accepted.
   */
  class RecordEmail {
    const email: Field
    ghost const matchesOnce: string -> bool

    ghost predicate Valid()
    {
      email.validator == Some(EmailValidator(matchesOnce))
    }

    constructor (email: Value, matchesOnce: string -> bool)
      ensures Valid() && fresh(this.email) && this.email.value == email
      ensures this.matchesOnce == matchesOnce
    {
      this.email := new Field(email, Some(EmailValidator(matchesOnce)));
      this.matchesOnce := matchesOnce;
    }

    /** `add_email`: None or a text the pattern matches exactly once is stored; anything else raises. */
    method AddEmail(raw: Value) returns (outcome: Outcome)
      requires Valid()
      modifies email
      ensures outcome == if raw.Null? || matchesOnce(raw.s) then Ok else Raised(BadEmail)
      ensures email.value == if outcome == Ok then raw else old(email.value)
    {
      outcome := email.SetValue(raw);
    }

    method EditEmail(raw: Value) returns (outcome: Outcome)
      requires Valid()
      modifies email
      ensures outcome == if raw.Null? || matchesOnce(raw.s) then Ok else Raised(BadEmail)
      ensures email.value == if outcome == Ok then raw else old(email.value)
    {
      outcome := email.SetValue(raw);
    }

    /** `remove_email`: None passes the email validator, so the email is cleared. */
    method RemoveEmail() returns (outcome: Outcome)
      requires Valid()
      modifies email
      ensures outcome == Ok && email.value == Null
    {
      outcome := email.SetValue(Null);
    }
  }
}
