/** The validated value cell every sub-aggregate of a record is built from. */
module Fields {
  import opened Base
  import opened Validators

  /** What `set_value` runs before assigning: nothing without a validator. */
  function Check(validator: Option<Validator>, raw: Value): (r: Outcome)
    ensures validator.None? ==> r == Ok
  {
    match validator
    case None => Ok
    case Some(v) => Validate(v, raw)
  }

  /** A value cell with an optional validator; `get_value` is a read of `value`. */
  class Field {
    var value: Value
    const validator: Option<Validator>

    /** `Field(value, validator)` installs `value` without running the validator. */
    constructor (value: Value, validator: Option<Validator>)
      ensures this.value == value && this.validator == validator
    {
      this.value := value;
      this.validator := validator;
    }

    /**
     * `set_value`: all or nothing. When the validator raises, the stored value
     * is left as it was; otherwise (or without a validator) it becomes `raw`.
     */
    method SetValue(raw: Value) returns (outcome: Outcome)
      modifies this
      ensures outcome == Check(validator, raw)
      ensures value == (if outcome == Ok then raw else old(value))
    {
      outcome := Check(validator, raw);
      if outcome == Ok {
        value := raw;
      }
    }
  }
}
