/**
 * The phone list of a record: an ordered list of phone fields with
 * duplicates allowed. The pure functions describe the list of stored values;
 * the class RecordPhone changes the list of fields and is proved against them.
 */
module Phones {
  import opened Base
  import opened Validators
  import opened Fields

  /** The values stored in a list of fields, in list order. */
  function ValuesOf(fs: seq<Field>): (vs: seq<Value>)
    reads fs
    ensures |vs| == |fs| && forall i {:trigger vs[i]} :: 0 <= i < |fs| ==> vs[i] == fs[i].value
  {
    if fs == [] then [] else ValuesOf(fs[..|fs| - 1]) + [fs[|fs| - 1].value]
  }

  /** Appending a field appends its value. */
  lemma ValuesOfSnoc(fs: seq<Field>, f: Field)
    ensures ValuesOf(fs + [f]) == ValuesOf(fs) + [f.value]
  {
    assert (fs + [f])[..|fs|] == fs;
  }

  /** Replacing a field replaces its value. */
  lemma ValuesOfUpdate(fs: seq<Field>, i: nat, f: Field)
    requires i < |fs|
    ensures ValuesOf(fs[i := f]) == ValuesOf(fs)[i := f.value]
  {
  }

  // ---------------------------------------------------------------- remove_phone

  /** The list comprehension of `remove_phone`: the entries whose `str` differs from `p`. */
  function Removed(vs: seq<Value>, p: string): (r: seq<Value>)
  {
    if vs == [] then []
    else Removed(vs[..|vs| - 1], p) + (if Str(vs[|vs| - 1]) == p then [] else [vs[|vs| - 1]])
  }

  /** Filtering an appended entry keeps it exactly when its `str` differs from `p`. */
  lemma RemovedSnoc(vs: seq<Value>, v: Value, p: string)
    ensures Removed(vs + [v], p) == Removed(vs, p) + (if Str(v) == p then [] else [v])
  {
    assert (vs + [v])[..|vs|] == vs;
  }

  /** No entry equal to `p` survives, and every other value keeps its number of copies. */
  lemma {:induction false} RemovedElements(vs: seq<Value>, p: string)
    ensures forall v :: multiset(Removed(vs, p))[v] == if Str(v) == p then 0 else multiset(vs)[v]
  {
    if vs != [] {
      var init, last := vs[..|vs| - 1], vs[|vs| - 1];
      RemovedElements(init, p);
      assert vs == init + [last];
    }
  }

  /** Removal works on each part of a list separately and keeps their order. */
  lemma {:induction false} RemovedConcat(a: seq<Value>, b: seq<Value>, p: string)
    ensures Removed(a + b, p) == Removed(a, p) + Removed(b, p)
    decreases |b|
  {
    if b == [] {
      assert a + b == a;
    } else {
      var init, last := b[..|b| - 1], b[|b| - 1];
      assert (a + b)[..|a + b| - 1] == a + init;
      RemovedConcat(a, init, p);
    }
  }

  /** Removing a value that is not in the list changes nothing. */
  lemma {:induction false} RemovedAbsent(vs: seq<Value>, p: string)
    requires forall i :: 0 <= i < |vs| ==> Str(vs[i]) != p
    ensures Removed(vs, p) == vs
  {
    if vs != [] {
      RemovedAbsent(vs[..|vs| - 1], p);
    }
  }

  /** Removing the same value twice is the same as removing it once. */
  lemma RemovedIdempotent(vs: seq<Value>, p: string)
    ensures Removed(Removed(vs, p), p) == Removed(vs, p)
  {
    var r := Removed(vs, p);
    RemovedElements(vs, p);
    forall i | 0 <= i < |r|
      ensures Str(r[i]) != p
    {
      assert r[i] in multiset(r);
    }
    RemovedAbsent(r, p);
  }

  /** Four equal numbers are all removed at once. */
  lemma RemovesAllDuplicates(s: string)
    ensures Removed([Text(s), Text(s), Text(s), Text(s)], s) == []
  {
    var vs := [Text(s), Text(s), Text(s), Text(s)];
    RemovedElements(vs, s);
  }

  // ---------------------------------------------------------------- edit_phone

  /** `i` is the first position whose `str` equals `p`. */
  predicate IsFirstMatch(vs: seq<Value>, p: string, i: int)
  {
    0 <= i < |vs| && Str(vs[i]) == p && forall j :: 0 <= j < i ==> Str(vs[j]) != p
  }

  /** The position `edit_phone`'s loop stops at, if any. */
  function FirstMatch(vs: seq<Value>, p: string): (r: Option<nat>)
    ensures r.None? <==> forall i :: 0 <= i < |vs| ==> Str(vs[i]) != p
    ensures r.Some? ==> IsFirstMatch(vs, p, r.value)
  {
    if vs == [] then None
    else if Str(vs[0]) == p then Some(0)
    else match FirstMatch(vs[1..], p)
      case None => None
      case Some(k) => Some(k + 1)
  }

  /** The list after `edit_phone(old, new)`: the first entry equal to `p` becomes `n`. */
  function Edited(vs: seq<Value>, p: string, n: Value): (r: seq<Value>)
    ensures |r| == |vs|
    ensures forall i :: 0 <= i < |vs| && r[i] != vs[i] ==> IsFirstMatch(vs, p, i) && r[i] == n
  {
    match FirstMatch(vs, p)
    case None => vs
    case Some(k) => vs[k := n]
  }

  /** Only the first matching position changes; with no match the list is unchanged. */
  lemma EditedReplacesFirstOnly(vs: seq<Value>, p: string, n: Value)
    ensures |Edited(vs, p, n)| == |vs|
    ensures forall i :: 0 <= i < |vs| ==> Edited(vs, p, n)[i] == if IsFirstMatch(vs, p, i) then n else vs[i]
    ensures (forall i :: 0 <= i < |vs| ==> Str(vs[i]) != p) ==> Edited(vs, p, n) == vs
  {
  }

  /** At the first match, the edit overwrites exactly that position. */
  lemma EditedAtFirstMatch(vs: seq<Value>, p: string, n: Value, i: int)
    requires IsFirstMatch(vs, p, i)
    ensures FirstMatch(vs, p) == Some(i) && Edited(vs, p, n) == vs[i := n]
  {
    var k := FirstMatch(vs, p).value;
    assert !(k < i) && !(i < k);
  }

  /** Every entry is a number PhoneValidator accepts. */
  predicate AllPhoneNumbers(vs: seq<Value>)
  {
    forall i :: 0 <= i < |vs| ==> Validate(PhoneValidator, vs[i]) == Ok
  }

  /** As written, an edit installs a replacement that PhoneValidator rejects. */
  lemma EditInstallsUnvalidated()
    ensures AllPhoneNumbers([Text("123456789")])
    ensures Edited([Text("123456789")], "123456789", Text("12-34")) == [Text("12-34")]
    ensures Validate(PhoneValidator, Text("12-34")) == Raised(NotDigits)
  {
    assert !IsDigit("12-34"[2]);
  }

  /** An edit whose replacement passes PhoneValidator keeps every entry a phone number. */
  lemma EditedKeepsPhoneNumbers(vs: seq<Value>, p: string, n: Value)
    requires AllPhoneNumbers(vs) && Validate(PhoneValidator, n) == Ok
    ensures AllPhoneNumbers(Edited(vs, p, n))
  {
    EditedReplacesFirstOnly(vs, p, n);
  }

  /** The list comprehension of `remove_phone`, over fields: the fields whose value's `str` differs from `p`. */
  method Kept(fs: seq<Field>, p: string) returns (kept: seq<Field>)
    ensures ValuesOf(kept) == Removed(ValuesOf(fs), p)
  {
    ghost var vs := ValuesOf(fs);
    kept := [];
    var i := 0;
    while i < |fs|
      invariant 0 <= i <= |fs| == |vs|
      invariant ValuesOf(kept) == Removed(vs[..i], p)
    {
      var v := fs[i].value;
      assert vs[..i + 1] == vs[..i] + [v];
      RemovedSnoc(vs[..i], v, p);
      if Str(v) != p {
        ValuesOfSnoc(kept, fs[i]);
        kept := kept + [fs[i]];
      }
      i := i + 1;
    }
    assert vs[..i] == vs;
  }

  /** The search loop of `edit_phone`: the first position whose value's `str` equals `p`. */
  method FindFirst(fs: seq<Field>, p: string) returns (r: Option<nat>)
    ensures r == FirstMatch(ValuesOf(fs), p)
  {
    ghost var vs := ValuesOf(fs);
    var i := 0;
    while i < |fs|
      invariant 0 <= i <= |fs| == |vs|
      invariant forall j :: 0 <= j < i ==> Str(vs[j]) != p
    {
      if Str(fs[i].value) == p {
        EditedAtFirstMatch(vs, p, Null, i);
        return Some(i);
      }
      i := i + 1;
    }
    return None;
  }

  /** A validated edit, or no edit at all, keeps every entry a phone number. */
  lemma CheckedEditKeepsPhoneNumbers(vs: seq<Value>, p: string, n: Value, accepted: bool, ws: seq<Value>)
    requires ws == if accepted then Edited(vs, p, n) else vs
    requires accepted ==> Validate(PhoneValidator, n) == Ok
    ensures AllPhoneNumbers(vs) ==> AllPhoneNumbers(ws)
  {
    if accepted && AllPhoneNumbers(vs) {
      EditedKeepsPhoneNumbers(vs, p, n);
    }
  }

  // ---------------------------------------------------------------- RecordPhone

  class RecordPhone {
    var phones: seq<Field>

    /** The stored phone values, in list order. */
    function Numbers(): seq<Value>
      reads this, phones
    {
      ValuesOf(phones)
    }

    /** `RecordPhone(phones=...)`: an empty argument gives an empty list. */
    constructor (phones: seq<Field>)
      ensures this.phones == phones
    {
      this.phones := phones;
    }

    /** `add_phone`: validate into a new field, then append it; duplicates are allowed. */
    method AddPhone(phone: Value) returns (outcome: Outcome)
      modifies this
      ensures outcome == Validate(PhoneValidator, phone)
      ensures Numbers() == if outcome == Ok then old(Numbers()) + [phone] else old(Numbers())
      ensures outcome == Ok ==> |phones| == |old(phones)| + 1 && phones[..|old(phones)|] == old(phones)
                                && fresh(phones[|old(phones)|])
      ensures outcome != Ok ==> phones == old(phones)
    {
      var field := new Field(Null, Some(PhoneValidator));
      outcome := field.SetValue(phone);
      if outcome != Ok {
        return;
      }
      phones := phones + [field];
      assert Numbers() == old(Numbers()) + [phone];
    }

    /** `remove_phone`: keep the entries whose `str` differs from `str(phone)`. */
    method RemovePhone(phone: Value)
      modifies this
      ensures Numbers() == Removed(old(Numbers()), Str(phone))
    {
      var target := Str(phone);
      ghost var vs := Numbers();
      var found := FindFirst(phones, target);
      if found.Some? {
        phones := Kept(phones, target);
      } else {
        RemovedAbsent(vs, target);
      }
    }

    /**
     * `edit_phone`: the first entry whose `str` equals `str(old_phone)` is
     * replaced by `Field(new_phone, PhoneValidator())`, which is not validated.
     */
    method EditPhone(oldPhone: Value, newPhone: Value) returns (status: Status)
      modifies this
      ensures status == if FirstMatch(old(Numbers()), Str(oldPhone)).Some? then Done else NotFound
      ensures Numbers() == Edited(old(Numbers()), Str(oldPhone), newPhone)
      ensures |phones| == |old(phones)|
      ensures match FirstMatch(old(Numbers()), Str(oldPhone))
              case None => phones == old(phones)
              case Some(k) => phones == old(phones)[k := phones[k]] && fresh(phones[k])
                              && phones[k].validator == Some(PhoneValidator)
    {
      var target := Str(oldPhone);
      var fs := phones;
      ghost var vs := ValuesOf(fs);
      var found := FindFirst(fs, target);
      if found.None? {
        EditedReplacesFirstOnly(vs, target, newPhone);
        return NotFound;
      }
      var i := found.value;
      EditedAtFirstMatch(vs, target, newPhone, i);
      var field := new Field(newPhone, Some(PhoneValidator));
      assert ValuesOf(fs) == vs;
      ValuesOfUpdate(fs, i, field);
      phones := fs[i := field];
      return Done;
    }

    /**
     * The evidently intended `edit_phone`: the replacement is validated before
     * it is installed, so the list only ever holds accepted numbers.
     */
    method EditPhoneChecked(oldPhone: Value, newPhone: Value) returns (outcome: Outcome, status: Status)
      modifies this
      ensures status == if FirstMatch(old(Numbers()), Str(oldPhone)).Some? then Done else NotFound
      ensures outcome == if status == Done then Validate(PhoneValidator, newPhone) else Ok
      ensures Numbers() == if outcome == Ok then Edited(old(Numbers()), Str(oldPhone), newPhone) else old(Numbers())
      ensures AllPhoneNumbers(old(Numbers())) ==> AllPhoneNumbers(Numbers())
      ensures |phones| == |old(phones)|
      ensures match FirstMatch(old(Numbers()), Str(oldPhone))
              case None => phones == old(phones)
              case Some(k) =>
                if outcome == Ok then
                  phones == old(phones)[k := phones[k]] && fresh(phones[k])
                  && phones[k].validator == Some(PhoneValidator)
                else phones == old(phones)
    {
      var target := Str(oldPhone);
      var fs := phones;
      ghost var vs := ValuesOf(fs);
      var found := FindFirst(fs, target);
      if found.None? {
        EditedReplacesFirstOnly(vs, target, newPhone);
        return Ok, NotFound;
      }
      var i := found.value;
      EditedAtFirstMatch(vs, target, newPhone, i);
      var field := new Field(Null, Some(PhoneValidator));
      outcome := field.SetValue(newPhone);
      assert ValuesOf(fs) == vs;
      if outcome == Ok {
        ValuesOfUpdate(fs, i, field);
        phones := fs[i := field];
      }
      CheckedEditKeepsPhoneNumbers(vs, target, newPhone, outcome == Ok, Numbers());
      return outcome, Done;
    }
  }
}
