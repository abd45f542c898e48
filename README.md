# Personal assistant address book — a Dafny model

`personal_assistant_web_v01.py` is a small console address book. A record holds
a name together with five sub-aggregates: phone numbers, a birthday, an address,
an email and free-form notes. Every stored value sits in a `Field`, a value cell
with an optional validator. Its `set_value` runs the validator first and assigns
only when the validator does not raise. Phone numbers must be exactly nine
digits. Birthdays must be readable by `strptime` with `%d-%m-%Y`. An email must
contain exactly one match of a pattern, and None is always allowed as an email.
A record can report how many days remain until its birthday next comes round.
The address book is a list that records get appended to.

The model has one module per part of the program:

- `Base`: Python values (`None` or a string), `str()`, truthiness, and raised
  errors as an `Outcome`.
- `Calendar`: the `datetime` calendar, with ordinals, microsecond timestamps
  and Python's `>` on datetimes.
- `Validators`: the three validators. This includes the reading of `%d-%m-%Y`.
- `Fields`: the `Field` class.
- `Phones`, `Birthdays`, `Contacts` and `Notes`: the sub-aggregates, each a
  class whose methods change its fields.
- `Book`: `Record`, `AddressBook` and three small client methods that
  exercise the sub-aggregates. Only their four equal phone numbers come from
  the program's own session; the removals and edits are scenarios of their
  own.

Some parts of the environment are not modelled directly:

- `datetime.today()` becomes a parameter `now`.
- The email regular expression becomes a parameter `matchesOnce`. It stands
  for "`re.findall` of the pattern finds exactly one match".
- Console messages become a returned `Status`: `Done`, or `NotFound` where
  the program prints a "does not exist" or "not found" message.
- An exception becomes `Raised(e)`. Its kind is `NotDigits`, `WrongLength`,
  `BadDate`, `BadEmail`, `NotAString` (None given where a string is required)
  or `DateOutOfRange` (`datetime(...)` refusing a day).

## Model

| member | source | states |
|---|---|---|
| Base.Str | personal_assistant_web_v01.py:83-85 | Python's `str()` of a stored value, with no contract of its own; StrOfNone states what it gives. |
| Base.StrOfNone | personal_assistant_web_v01.py:83-85 | `str()` gives "None" exactly for None and for the text "None", and any other text renders as itself, so removing or editing "None" also matches an absent number. |
| Base.Truthy | personal_assistant_web_v01.py:110 | The only falsy stored values are None and the empty string. |
| Calendar.After | personal_assistant_web_v01.py:114 | A datetime is never after itself, and on the same date the later time of day is after. |
| Calendar.AfterIsStrictTotalOrder | personal_assistant_web_v01.py:114 | `>` on datetimes is asymmetric, and of two distinct datetimes one is after the other. |
| Fields.Check | personal_assistant_web_v01.py:63-65 | A field without a validator accepts every value. |
| Fields.Field.constructor | personal_assistant_web_v01.py:59-61 | The initial value and the validator are installed as given, with no validation. |
| Fields.Field.SetValue | personal_assistant_web_v01.py:63-66 | All or nothing: the outcome is the validator's verdict, and the value becomes the argument exactly when the verdict is Ok. Otherwise the value is unchanged. |
| Validators.CheckPhone | personal_assistant_web_v01.py:30-35 | The verdict is Ok, the digits error or the length error, and the length error is reported only for text made of digits. |
| Validators.PhoneAcceptsExactlyNineDigits | personal_assistant_web_v01.py:30-35 | The phone validator accepts a string if and only if it has exactly nine characters and each one is a digit. |
| Validators.PhoneDigitTestFirst | personal_assistant_web_v01.py:32-35 | A string that fails both tests, including the empty string, reports the digits-only error, because that test runs first. |
| Validators.ParseDate | personal_assistant_web_v01.py:41 | Every date that `%d-%m-%Y` reads is a real calendar date with a year from 1 to 9999. |
| Validators.ParseFormatRoundTrip | personal_assistant_web_v01.py:41 | Reading the zero-padded `dd-mm-yyyy` text of any calendar date gives that same date back. |
| Validators.ParsedHasShape | personal_assistant_web_v01.py:41 | Accepted text is 8 to 10 characters long: a day of 1–2 digits, '-', a month of 1–2 digits, '-', then four year digits. |
| Validators.Validate | personal_assistant_web_v01.py:30-55 | A phone Ok implies nine digits. A date Ok implies the text parses. The email validator always accepts None. |
| Validators.ParseDateReadsAnyShape | personal_assistant_web_v01.py:41 | Text of any of the four D-M-YYYY shapes is read field by field: its date when the fields name a calendar date, and nothing otherwise. The shapes exclude one another, so the order in which they are tried does not matter. |
| Validators.DateValidatorLenient | personal_assistant_web_v01.py:38-43 | The date validator accepts a text if and only if it is a day of one or two digits, '-', a month of one or two digits, '-', four year digits, and those fields name a calendar date. |
| Validators.DateValidatorAcceptsFormatted | personal_assistant_web_v01.py:38-43 | Every calendar date written as `dd-mm-yyyy` passes the date validator. |
| Validators.DateValidatorRejectsNone | personal_assistant_web_v01.py:41 | `strptime(None, ...)` raises TypeError. The `except ValueError` clause does not catch it, so None never passes. |
| Validators.AcceptsLeapDay2000 | personal_assistant_web_v01.py:38-43 | "29-02-2000" is accepted, because 2000 is a leap year. |
| Validators.RejectsLeapDay1900 | personal_assistant_web_v01.py:38-43 | "29-02-1900" is rejected, because 1900 is not a leap year. |
| Validators.RejectsThirtyFirstFebruary | personal_assistant_web_v01.py:38-43 | "31-02-2020" is rejected. |
| Validators.RejectsDayZero | personal_assistant_web_v01.py:38-43 | "00-01-2020" is rejected. |
| Validators.RejectsSlashes | personal_assistant_web_v01.py:38-43 | "15/05/1990" is rejected. |
| Validators.AcceptsOneDigitFields | personal_assistant_web_v01.py:38-43 | "1-3-2000" is accepted: `%d` and `%m` also read one digit. |
| Phones.ValuesOf | personal_assistant_web_v01.py:84 | The list of stored values has the same length as the list of fields and takes entries from it position by position. |
| Phones.Removed | personal_assistant_web_v01.py:85 | The comprehension itself, with no contract of its own: RemovedElements, RemovedConcat and RemovedIdempotent state which entries survive and in what order. |
| Phones.RemovedElements | personal_assistant_web_v01.py:85 | After filtering, no value whose `str` equals the target is left. Every other value keeps its multiplicity. |
| Phones.RemovedConcat | personal_assistant_web_v01.py:85 | The filter distributes over concatenation, so the order of the kept entries is preserved. |
| Phones.RemovedAbsent | personal_assistant_web_v01.py:84-85 | When no entry matches, the list is unchanged. This agrees with the membership check that skips the rebuild. |
| Phones.RemovedIdempotent | personal_assistant_web_v01.py:82-85 | Removing the same number twice gives the same result as removing it once. |
| Phones.RemovesAllDuplicates | personal_assistant_web_v01.py:82-85 | One removal takes out every copy of a number that was added repeatedly. |
| Phones.Kept | personal_assistant_web_v01.py:85 | The kept fields hold exactly the old values whose `str` differs from the target, in order. |
| Phones.FindFirst | personal_assistant_web_v01.py:89-90 | The search returns the first position whose value's `str` equals the target, or nothing when none does. |
| Phones.FirstMatch | personal_assistant_web_v01.py:89-92 | The loop stops at the first position whose `str` equals the target. It finds nothing if and only if no position matches. |
| Phones.Edited | personal_assistant_web_v01.py:87-93 | An edit keeps the length, and a position can differ from before only if it is the first match, which then holds the new value. |
| Phones.EditedReplacesFirstOnly | personal_assistant_web_v01.py:87-93 | An edit replaces only the first match and keeps the length. With no match the list is unchanged. |
| Phones.EditedAtFirstMatch | personal_assistant_web_v01.py:89-91 | At the first match, the edit overwrites exactly that position. |
| Phones.EditInstallsUnvalidated | personal_assistant_web_v01.py:91 | As written, an edit can replace a valid number with one that PhoneValidator rejects. |
| Phones.EditedKeepsPhoneNumbers | personal_assistant_web_v01.py:91 | If the replacement passes PhoneValidator, every entry is still a phone number after the edit. |
| Phones.CheckedEditKeepsPhoneNumbers | personal_assistant_web_v01.py:91 | A validated edit, or a rejected one that changes nothing, keeps every entry a phone number. |
| Phones.RecordPhone.constructor | personal_assistant_web_v01.py:73-75 | The phone list is exactly the given list. |
| Phones.RecordPhone.AddPhone | personal_assistant_web_v01.py:77-80 | The outcome is PhoneValidator's verdict. On Ok, one new field holding the number is appended and duplicates are allowed. Otherwise the list is unchanged. |
| Phones.RecordPhone.RemovePhone | personal_assistant_web_v01.py:82-85 | The numbers are the old numbers with every entry whose `str` equals `str(phone)` filtered out, in their old order. |
| Phones.RecordPhone.EditPhone | personal_assistant_web_v01.py:87-93 | Done if and only if some number matches. Only the first match is replaced, unvalidated, by a fresh field carrying PhoneValidator; every other position keeps its field object. With no match the list is unchanged. |
| Phones.RecordPhone.EditPhoneChecked | personal_assistant_web_v01.py:87-93 | Corrected edit: the replacement is validated first, and the property that every entry is a phone number is preserved. When accepted, only the first match gets a fresh field carrying PhoneValidator and every other position keeps its field object; otherwise the list is unchanged. |
| Birthdays.DaysUntil | personal_assistant_web_v01.py:109-119 | The result is None if and only if the stored birthday is falsy. |
| Birthdays.CountFrom | personal_assistant_web_v01.py:112-117 | A parsed birthday gives a day count or the date-out-of-range error, and never None. |
| Birthdays.CountFromFloor | personal_assistant_web_v01.py:113-117 | The count n is the floor of the time to the next birthday's midnight: n days ≤ remaining < n+1 days. |
| Birthdays.NextBirthdayWithinAYear | personal_assistant_web_v01.py:113-116 | The next birthday's midnight is at most 366 days after the start of today. |
| Birthdays.DaysUntilBounds | personal_assistant_web_v01.py:109-119 | Every count is between 0 and 365. |
| Birthdays.OnBirthdayAtMidnight | personal_assistant_web_v01.py:114-117 | At exactly 00:00 on the birthday the count is 0. |
| Birthdays.OnBirthdayAfterMidnight | personal_assistant_web_v01.py:114-117 | As written, on the birthday after 00:00 the count is 364 or 365, not 0. |
| Birthdays.BirthdayMorningExample | personal_assistant_web_v01.py:109-117 | "15-05-1990" asked at 10:00 on 15 May 2024 gives 364. |
| Birthdays.DayBeforeExample | personal_assistant_web_v01.py:109-117 | As written, "15-05-1990" asked at 10:00 on 14 May 2024 already gives 0. |
| Birthdays.CountFromZero | personal_assistant_web_v01.py:114-117 | The count is 0 if and only if `now` is midnight on the birthday, or the birthday is tomorrow and `now` is past midnight. |
| Birthdays.LeapDayBirthday | personal_assistant_web_v01.py:113-115 | A 29 February birthday raises if and only if this year is not a leap year or that day has passed this year. |
| Birthdays.DaysUntilUnparsable | personal_assistant_web_v01.py:112 | Stored text that strptime cannot read raises the format error. |
| Birthdays.DaysUntilByDate | personal_assistant_web_v01.py:109-119 | Corrected count: None if and only if the stored birthday is falsy. |
| Birthdays.CountFromByDate | personal_assistant_web_v01.py:112-117 | Corrected count from a parsed birthday: never None. |
| Birthdays.CountFromByDateSpec | personal_assistant_web_v01.py:112-117 | Corrected count, measured in whole dates: it is between 0 and 365, and it is 0 if and only if today has the birthday's month and day. |
| Birthdays.RecordBirthday.constructor | personal_assistant_web_v01.py:97-98 | The initial value is installed without validation, and the field carries the date validator. |
| Birthdays.RecordBirthday.AddBirthday | personal_assistant_web_v01.py:100-101 | The outcome is the date validator's verdict. The birthday becomes the argument exactly on Ok. |
| Birthdays.RecordBirthday.EditBirthday | personal_assistant_web_v01.py:103-104 | Same as adding: the birthday is overwritten after validation. |
| Birthdays.RecordBirthday.RemoveBirthday | personal_assistant_web_v01.py:106-107 | As written, it always raises (None is not a string) and the birthday is kept. |
| Birthdays.RecordBirthday.ClearBirthday | personal_assistant_web_v01.py:106-107 | Corrected removal: the birthday becomes None. |
| Birthdays.RecordBirthday.DaysToBirthday | personal_assistant_web_v01.py:109-119 | None if and only if no birthday is stored. Any count is between 0 and 365. |
| Contacts.RecordAddress.constructor | personal_assistant_web_v01.py:123-124 | The address field has no validator and holds the initial value. |
| Contacts.RecordAddress.AddAddress | personal_assistant_web_v01.py:126-127 | Any value is stored. |
| Contacts.RecordAddress.EditAddress | personal_assistant_web_v01.py:129-130 | Any value is stored. |
| Contacts.RecordAddress.RemoveAddress | personal_assistant_web_v01.py:132-133 | The address becomes None. |
| Contacts.RecordEmail.constructor | personal_assistant_web_v01.py:137-138 | The email field carries the email validator and holds the initial value. |
| Contacts.RecordEmail.AddEmail | personal_assistant_web_v01.py:140-141 | None, or text matched exactly once, is stored. Anything else raises and leaves the email unchanged. |
| Contacts.RecordEmail.EditEmail | personal_assistant_web_v01.py:143-144 | Same acceptance rule as adding. |
| Contacts.RecordEmail.RemoveEmail | personal_assistant_web_v01.py:146-147 | Always succeeds, and the email becomes None. |
| Notes.RecordInfo.constructor | personal_assistant_web_v01.py:151-154 | There are no notes. |
| Notes.RecordInfo.AddNote | personal_assistant_web_v01.py:156-157 | A fresh key object holding the tag maps to a fresh note field holding the note. The notes grow by exactly that one entry, even for a repeated tag, and every old entry is kept. |
| Notes.RecordInfo.EditNote | personal_assistant_web_v01.py:159-163 | A note is found only through a key object present in the notes, never through tag text. Only that note's text changes. |
| Notes.RecordInfo.RemoveNote | personal_assistant_web_v01.py:165-170 | Done if and only if the key object is present, in which case exactly that entry is deleted. Otherwise nothing changes. |
| Book.Record.constructor | personal_assistant_web_v01.py:174-180 | The name is kept, and every sub-aggregate starts fresh and empty. |
| Book.AddressBook.constructor | personal_assistant_web_v01.py:187-188 | There are no records. |
| Book.AddressBook.AddRecord | personal_assistant_web_v01.py:190-191 | The record is appended with no duplicate check. |
| Book.SampleNumberIsValid | personal_assistant_web_v01.py:201 | The sample number "123456789" passes PhoneValidator. |

## Left out

- Display strategies, `Record.display` and `AddressBook.display_all`: these are console output only.
- The `__main__` session: the client methods in `Book` exercise the sub-aggregates with scenarios of their own instead of replaying it.
- The email pattern itself: `re.findall` and the regular expression are the parameter `matchesOnce`.
- `EmailValidator` writing `self.value`: that attribute is never read.
- The clock: `datetime.today()` is the parameter `now`, a valid local date and time of day to the microsecond.
- Validators.ParseDate: does not read the space-padded forms strptime also allows (" 5-05-2024").
- Validators.ParseDate: does not read non-ASCII Unicode digits.
- Validators.PhoneAcceptsExactlyNineDigits: `str.isdigit` also accepts non-ASCII digits, which the model does not.
- Values other than None and text, such as an int handed to `add_phone`: the model has no such values.
- The unused attributes `RecordPhone.phone`, `RecordInfo.tag` and `RecordInfo.note`.
- The `notes` constructor argument of `RecordInfo`: its notes start empty.
- List aliasing: a list passed to `RecordPhone` is shared in Python but copied as a value here.
- Dictionary insertion order of the notes: it affects only display.
- Reassigning a record's sub-aggregate attributes: they are fixed here.
- Exception messages: each message is reduced to an `Error` kind.
- Phones.RecordPhone.RemovePhone: states the kept values and their order, but not that the kept fields are the same objects as before.
- `Field.get_value`: it is the plain read of `value`, not a separate member.

## Findings

| source | as written | input that shows it | evidently intended | confidence | as-written member | corrected member |
|---|---|---|---|---|---|---|
| personal_assistant_web_v01.py:114-117 | `today` has a time of day but `next_birthday` is midnight, so on the birthday itself the count moves on to next year, and from just after midnight on the day before it is already 0 | birthday "15-05-1990", asked at 10:00 on 15 May 2024: 364; asked at 10:00 on 14 May 2024: 0 | 0 on the birthday | not executed; high | Birthdays.OnBirthdayAfterMidnight | Birthdays.CountFromByDateSpec |
| personal_assistant_web_v01.py:106-107 | `remove_birthday` passes None to DateValidator, and strptime raises TypeError, which escapes `except ValueError` | `remove_birthday()` on any record raises and keeps the birthday | the birthday becomes None | not executed; high | Birthdays.RecordBirthday.RemoveBirthday | Birthdays.RecordBirthday.ClearBirthday |
| personal_assistant_web_v01.py:91 | `edit_phone` installs the new number with a validator but never validates it | `edit_phone("123456789", "12-34")` stores "12-34" | the new number is validated like `add_phone` | not executed; high | Phones.EditInstallsUnvalidated | Phones.RecordPhone.EditPhoneChecked |
