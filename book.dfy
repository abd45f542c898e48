/** A record aggregates one of each sub-aggregate under a name; the address book lists records. */
module Book {
  import opened Base
  import opened Validators
  import opened Fields
  import opened Phones
  import opened Birthdays
  import opened Contacts
  import opened Notes

  class Record {
    const name: string
    const phone: RecordPhone
    const birthday: RecordBirthday
    const address: RecordAddress
    const email: RecordEmail
    const info: RecordInfo

    /** `Record(name)`: every sub-aggregate starts empty. */
    constructor (name: string, emailMatchesOnce: string -> bool)
      ensures this.name == name
      ensures fresh(phone) && phone.phones == []
      ensures fresh(birthday) && fresh(birthday.birthday) && birthday.Valid() && birthday.birthday.value == Null
      ensures fresh(address) && fresh(address.address) && address.Valid() && address.address.value == Null
      ensures fresh(email) && fresh(email.email) && email.Valid() && email.email.value == Null
      ensures email.matchesOnce == emailMatchesOnce
      ensures fresh(info) && info.Valid() && info.notes == map[]
    {
      this.name := name;
      phone := new RecordPhone([]);
      birthday := new RecordBirthday(Null);
      address := new RecordAddress(Null);
      email := new RecordEmail(Null, emailMatchesOnce);
      info := new RecordInfo();
    }
  }

  class AddressBook {
    var records: seq<Record>

    constructor ()
      ensures records == []
    {
      records := [];
    }

    /** `add_record`: a plain append, with no check for a repeated record or name. */
    method AddRecord(record: Record)
      modifies this
      ensures records == old(records) + [record]
    {
      records := records + [record];
    }
  }

  /** Nine digits pass PhoneValidator. */
  lemma SampleNumberIsValid()
    ensures Validate(PhoneValidator, Text("123456789")) == Ok
  {
    var s := "123456789";
    assert forall i :: 0 <= i < |s| ==> IsDigit(s[i]);
  }

  /**
   * A scenario on the phone list: four equal numbers, added as the program's
   * own session adds them for its first record, are all kept, and one
   * removal then takes all of them out.
   */
  method SamplePhones()
  {
    var john := new RecordPhone([]);
    var number := Text("123456789");
    SampleNumberIsValid();
    var outcome := john.AddPhone(number);
    assert john.Numbers() == [number];
    outcome := john.AddPhone(number);
    assert john.Numbers() == [number, number];
    outcome := john.AddPhone(number);
    assert john.Numbers() == [number, number, number];
    outcome := john.AddPhone(number);
    assert john.Numbers() == [number, number, number, number];
    john.RemovePhone(number);
    RemovesAllDuplicates("123456789");
    assert john.Numbers() == [];
  }

  /** A scenario on the notes: they are reached only through their key objects, never by tag text. */
  method SampleNotes(matchesOnce: string -> bool)
  {
    var john := new Record("John Doe", matchesOnce);
    ghost var key := john.info.AddNote(Text("Family"), Text("I have a wife"));
    var status := john.info.EditNote(ByText(Text("Family")), Text("Updated"));
    assert status == NotFound && john.info.Contents() == map[key := Text("I have a wife")];
    status := john.info.RemoveNote(ByText(Text("Family")));
    assert status == NotFound && |john.info.notes| == 1;
  }

  /** A scenario on a record: removing its birthday raises and keeps it, and the record is then appended to the book. */
  method SampleBook(matchesOnce: string -> bool)
  {
    var book := new AddressBook();
    var john := new Record("John Doe", matchesOnce);
    var outcome := john.birthday.RemoveBirthday();
    assert outcome == Raised(NotAString) && john.birthday.birthday.value == Null;
    book.AddRecord(john);
    assert book.records == [john];
  }
}
