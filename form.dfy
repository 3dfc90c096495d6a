/** The contact form (src/components/ContactForm.tsx): its two state cells,
    `formData` and `tagInput`, and the handlers that update them. */
module Form {
  import opened Types
  import opened Seqs
  import opened Text

  /** The form's starting state: empty texts, empty notes and no tags. */
  function EmptyForm(): ContactFormData
  {
    ContactFormData("", "", "", Some(""), Some([]))
  }

  /** Edit-mode prefill from the contact being edited: missing notes become `''`
      and missing tags `[]`, so the prefilled form always carries both. */
  function FromContact(c: Contact): (f: ContactFormData)
    ensures f.name == c.name && f.email == c.email && f.phoneNumber == c.phoneNumber
    ensures f.notes.Some? && (c.notes.Some? ==> f.notes == c.notes) && (c.notes.None? ==> f.notes == Some(""))
    ensures f.tags.Some? && (c.tags.Some? ==> f.tags == c.tags) && (c.tags.None? ==> f.tags == Some([]))
  {
    ContactFormData(c.name, c.email, c.phoneNumber, Some(c.notes.GetOr("")), Some(c.tags.GetOr([])))
  }

  /** The text inputs, by their `name` attribute. */
  datatype Field = Name | Email | PhoneNumber | Notes

  /** The value a text input shows for `field`. */
  function Get(f: ContactFormData, field: Field): Option<string>
  {
    match field
    case Name => Some(f.name)
    case Email => Some(f.email)
    case PhoneNumber => Some(f.phoneNumber)
    case Notes => f.notes
  }

  /** `{ ...prev, [name]: value }`: the named field takes the typed value and
      every other field, the tags included, is kept. */
  function SetField(f: ContactFormData, field: Field, value: string): (r: ContactFormData)
    ensures Get(r, field) == Some(value)
    ensures forall g :: g != field ==> Get(r, g) == Get(f, g)
    ensures r.tags == f.tags
  {
    match field
    case Name => f.(name := value)
    case Email => f.(email := value)
    case PhoneNumber => f.(phoneNumber := value)
    case Notes => f.(notes := Some(value))
  }

  /** The tag list after adding `tag`: appended when absent (an absent list
      counts as empty), left as it is when already there. */
  function WithTag(tags: Option<seq<string>>, tag: string): (r: Option<seq<string>>)
    ensures r.Some? && tag in r.value
    ensures tag in tags.GetOr([]) ==> r == tags
    ensures tag !in tags.GetOr([]) ==> r.value == tags.GetOr([]) + [tag]
    ensures NoDuplicates(tags.GetOr([])) ==> NoDuplicates(r.value)
  {
    if tags.Some? && tag in tags.value then tags
    else
      var r := tags.GetOr([]) + [tag];
      assert NoDuplicates(tags.GetOr([])) ==> NoDuplicates(r) by {
        if NoDuplicates(tags.GetOr([])) {
          forall i, j | 0 <= i < j < |r| ensures Distinct(r[i], r[j]) {
            if j == |r| - 1 {
              assert r[i] in tags.GetOr([]);
            } else {
              assert Distinct(tags.GetOr([])[i], tags.GetOr([])[j]);
            }
          }
        }
      }
      Some(r)
  }

  /** The filter predicate of tag removal: every tag other than `tag`. */
  function OtherThan(tag: string): string -> bool
  {
    t => t != tag
  }

  /** The tag list after removing `tag`: every occurrence goes, the other tags
      stay in order, and an absent list becomes empty. */
  function WithoutTag(tags: Option<seq<string>>, tag: string): (r: Option<seq<string>>)
    ensures r.Some? && tag !in r.value
    ensures IsSubsequence(r.value, tags.GetOr([]))
    ensures forall t :: t != tag ==> (t in r.value <==> t in tags.GetOr([]))
    ensures forall t :: multiset(r.value)[t] == if t == tag then 0 else multiset(tags.GetOr([]))[t]
    ensures NoDuplicates(tags.GetOr([])) ==> NoDuplicates(r.value)
  {
    var keep := OtherThan(tag);
    var r := Filter(tags.GetOr([]), keep);
    forall t ensures multiset(r)[t] == if t == tag then 0 else multiset(tags.GetOr([]))[t] {
      FilterCount(tags.GetOr([]), keep, t);
    }
    assert NoDuplicates(tags.GetOr([])) ==> NoDuplicates(r) by {
      if NoDuplicates(tags.GetOr([])) {
        FilterNoDuplicates(tags.GetOr([]), keep);
      }
    }
    Some(r)
  }

  /** Adding a tag that is already there, or adding it twice, changes nothing. */
  lemma WithTagIdempotent(tags: Option<seq<string>>, tag: string)
    ensures WithTag(WithTag(tags, tag), tag) == WithTag(tags, tag)
  {
  }

  /** Adding a tag that was not there and removing it again gives back the old list. */
  lemma {:induction false} AddThenRemoveTag(tags: Option<seq<string>>, tag: string)
    requires tag !in tags.GetOr([])
    ensures WithoutTag(WithTag(tags, tag), tag) == Some(tags.GetOr([]))
  {
    var before := tags.GetOr([]);
    var keep := OtherThan(tag);
    assert WithTag(tags, tag) == Some(before + [tag]);
    assert WithoutTag(Some(before + [tag]), tag) == Some(Filter(before + [tag], keep));
    FilterAppend(before, [tag], keep);
    FilterAll(before, keep);
    assert Filter([tag], keep) == [];
    assert before + [] == before;
    assert Filter(before + [tag], keep) == before;
  }

  /** The state of one mounted form. */
  class ContactForm {
    var formData: ContactFormData
    var tagInput: string

    /** The form keeps its tag list free of duplicates. */
    ghost predicate Valid()
      reads this
    {
      NoDuplicates(formData.tags.GetOr([]))
    }

    constructor ()
      ensures formData == EmptyForm() && tagInput == ""
      ensures Valid()
    {
      formData := EmptyForm();
      tagInput := "";
    }

    /** The effect that prefills the form when it is opened to edit a contact. */
    method LoadInitialData(mode: FormMode, initialData: Option<Contact>)
      modifies this
      ensures formData == if mode == Edit && initialData.Some? then FromContact(initialData.value) else old(formData)
      ensures tagInput == old(tagInput)
      ensures (if mode == Edit && initialData.Some? then NoDuplicates(initialData.value.tags.GetOr([]))
               else old(Valid())) ==> Valid()
    {
      if mode == Edit && initialData.Some? {
        formData := FromContact(initialData.value);
      }
    }

    /** A keystroke in one of the text inputs. */
    method HandleChange(field: Field, value: string)
      modifies this
      ensures formData == SetField(old(formData), field, value)
      ensures tagInput == old(tagInput)
      ensures old(Valid()) ==> Valid()
    {
      formData := SetField(formData, field, value);
    }

    /** A keystroke in the tag input. */
    method SetTagInput(value: string)
      modifies this
      ensures tagInput == value && formData == old(formData)
    {
      tagInput := value;
    }

    /** A key press in the tag input: Enter with a non-blank input adds the
        trimmed tag (unless already there) and clears the input; any other key,
        or a blank input, changes nothing. */
    method HandleAddTag(key: string)
      modifies this
      ensures key == "Enter" && Trim(old(tagInput)) != "" ==>
                formData == old(formData).(tags := WithTag(old(formData).tags, Trim(old(tagInput))))
                && tagInput == ""
      ensures !(key == "Enter" && Trim(old(tagInput)) != "") ==>
                formData == old(formData) && tagInput == old(tagInput)
      ensures old(Valid()) ==> Valid()
    {
      var tag := Trim(tagInput);
      if key == "Enter" && tag != "" {
        if !(formData.tags.Some? && tag in formData.tags.value) {
          formData := formData.(tags := Some(formData.tags.GetOr([]) + [tag]));
        }
        tagInput := "";
      }
    }

    /** A click on a tag's remove button. */
    method HandleRemoveTag(tag: string)
      modifies this
      ensures formData == old(formData).(tags := WithoutTag(old(formData).tags, tag))
      ensures tagInput == old(tagInput)
      ensures old(Valid()) ==> Valid()
    {
      formData := formData.(tags := WithoutTag(formData.tags, tag));
    }

    /** Submitting hands the current form data to the page unchanged. */
    method HandleSubmit() returns (data: ContactFormData)
      ensures data == formData
    {
      data := formData;
    }
  }
}
