/**
 * The notes of a record: a dictionary from tag fields to note fields. Keys
 * are fresh Field objects compared by identity, so a note can only be found
 * through the very key object `add_note` created.
 */
module Notes {
  import opened Base
  import opened Fields

  /** The argument of `edit_note` and `remove_note`: a tag as text (or None), or a key object. */
  datatype NoteKey = ByText(tag: Value) | ByField(key: Field)

  class RecordInfo {
    var notes: map<Field, Field>

    /** Note fields are unvalidated, pairwise distinct, and none of them is a key. */
    ghost predicate Valid()
      reads this
    {
      && (forall k :: k in notes ==> notes[k].validator == None && notes[k] !in notes)
      && (forall k, k' :: k in notes && k' in notes && k != k' ==> notes[k] != notes[k'])
    }

    /** The note text stored under each key. */
    ghost function Contents(): map<Field, Value>
      reads this, notes.Values
    {
      map k | k in notes :: notes[k].value
    }

    /** `RecordInfo()`: no notes. */
    constructor ()
      ensures Valid() && notes == map[]
    {
      notes := map[];
    }

    /**
     * `add_note`: a fresh key field holding `tag` maps to a fresh note field
     * holding `note`; a repeated tag still adds an entry.
     */
    method AddNote(tag: Value, note: Value) returns (ghost key: Field)
      requires Valid()
      modifies this
      ensures Valid()
      ensures fresh(key) && key.value == tag && key !in old(notes)
      ensures key in notes && fresh(notes[key]) && notes[key].value == note
      ensures notes == old(notes)[key := notes[key]] && |notes| == |old(notes)| + 1
    {
      var k := new Field(tag, None);
      var v := new Field(note, None);
      notes := notes[k := v];
      key := k;
    }

    /**
     * `edit_note`: only a key object present in the dictionary is found; its
     * note is overwritten in place. A text tag is never a key.
     */
    method EditNote(tag: NoteKey, newNote: Value) returns (status: Status)
      requires Valid()
      modifies notes.Values
      ensures Valid() && notes == old(notes)
      ensures status == if tag.ByField? && tag.key in notes then Done else NotFound
      ensures Contents() == if status == Done then old(Contents())[tag.key := newNote] else old(Contents())
      ensures forall k :: k in notes ==> k.value == old(k.value)
    {
      if tag.ByField? && tag.key in notes {
        var _ := notes[tag.key].SetValue(newNote);
        return Done;
      }
      return NotFound;
    }

    /** `remove_note`: only a key object present in the dictionary is found and deleted. */
    method RemoveNote(tag: NoteKey) returns (status: Status)
      requires Valid()
      modifies this
      ensures Valid()
      ensures status == if tag.ByField? && tag.key in old(notes) then Done else NotFound
      ensures notes == if status == Done then old(notes) - {tag.key} else old(notes)
      ensures Contents() == if status == Done then old(Contents()) - {tag.key} else old(Contents())
    {
      if tag.ByField? && tag.key in notes {
        notes := notes - {tag.key};
        return Done;
      }
      return NotFound;
    }
  }
}
