/** The contact-book page (src/app/page.tsx): the list transformations its
    event handlers apply, and the page's state cells as a class whose methods
    are those handlers.

    Values the page draws from the browser are parameters here: the fresh id
    from `crypto.randomUUID()`, the timestamp from `new Date().toISOString()`,
    and the user's answer to `window.confirm`. */
module Page {
  import opened Types
  import opened Seqs
  import opened Text
  import ContactList

  function Ids(cs: seq<Contact>): set<string>
  {
    set c | c in cs :: c.id
  }

  function DistinctIds(a: Contact, b: Contact): bool
  {
    a.id != b.id
  }

  /** No two entries of the list share an id. */
  ghost predicate UniqueIds(cs: seq<Contact>)
  {
    Pairwise(cs, DistinctIds)
  }

  /** A list whose entries keep their ids position by position keeps their uniqueness. */
  lemma SameIdsStayUnique(cs: seq<Contact>, r: seq<Contact>)
    requires |r| == |cs| && forall i :: 0 <= i < |cs| ==> r[i].id == cs[i].id
    ensures UniqueIds(cs) ==> UniqueIds(r)
  {
    if UniqueIds(cs) {
      forall i, j | 0 <= i < j < |r| ensures DistinctIds(r[i], r[j]) {
        assert DistinctIds(cs[i], cs[j]);
      }
    }
  }

  /** The contact built in add mode: `{ ...formData, id, createdAt, isFavorite: false }`. */
  function NewContact(form: ContactFormData, id: string, createdAt: string): (c: Contact)
    ensures c.id == id && c.createdAt == createdAt && c.isFavorite == Some(false) && !IsFavorite(c)
    ensures c.name == form.name && c.email == form.email && c.phoneNumber == form.phoneNumber
    ensures c.notes == form.notes && c.tags == form.tags && c.avatar == None
  {
    Contact(id, form.name, form.email, form.phoneNumber, createdAt, Some(false), form.notes, form.tags, None)
  }

  /** `[...contacts, newContact]`: the old entries unchanged and in order, then the
      new contact, which carries the form's fields, is not a favourite and has
      the supplied id and timestamp. A fresh id keeps the ids unique. */
  function AddContact(cs: seq<Contact>, form: ContactFormData, id: string, createdAt: string): (r: seq<Contact>)
    ensures |r| == |cs| + 1 && r[..|cs|] == cs
    ensures var c := r[|cs|];
            && c.id == id && c.createdAt == createdAt && c.isFavorite == Some(false) && !IsFavorite(c)
            && c.name == form.name && c.email == form.email && c.phoneNumber == form.phoneNumber
            && c.notes == form.notes && c.tags == form.tags && c.avatar == None
    ensures UniqueIds(cs) && id !in Ids(cs) ==> UniqueIds(r)
  {
    var r := cs + [NewContact(form, id, createdAt)];
    assert UniqueIds(cs) && id !in Ids(cs) ==> UniqueIds(r) by {
      if UniqueIds(cs) && id !in Ids(cs) {
        forall i, j | 0 <= i < j < |r| ensures DistinctIds(r[i], r[j]) {
          if j == |cs| {
            assert r[i] in cs;
          } else {
            assert DistinctIds(cs[i], cs[j]);
          }
        }
      }
    }
    r
  }

  /** `{ ...contact, ...formData }`. A form property that is absent leaves the
      contact's own value; the form has no id, timestamp or favourite flag. */
  function Merge(c: Contact, form: ContactFormData): (m: Contact)
    ensures m.id == c.id && m.createdAt == c.createdAt && m.isFavorite == c.isFavorite && m.avatar == c.avatar
    ensures m.name == form.name && m.email == form.email && m.phoneNumber == form.phoneNumber
    ensures form.notes.Some? ==> m.notes == form.notes
    ensures form.notes.None? ==> m.notes == c.notes
    ensures form.tags.Some? ==> m.tags == form.tags
    ensures form.tags.None? ==> m.tags == c.tags
  {
    c.(name := form.name, email := form.email, phoneNumber := form.phoneNumber,
       notes := if form.notes.Some? then form.notes else c.notes,
       tags := if form.tags.Some? then form.tags else c.tags)
  }

  /** Edit mode: every entry with the selected id takes the form's fields and
      keeps its id, timestamp, favourite flag and avatar; every other entry is
      unchanged; length and order are kept, and so is the uniqueness of ids. */
  function EditById(cs: seq<Contact>, id: string, form: ContactFormData): (r: seq<Contact>)
    ensures |r| == |cs|
    ensures forall i :: 0 <= i < |cs| ==>
              && r[i].id == cs[i].id && r[i].createdAt == cs[i].createdAt
              && r[i].isFavorite == cs[i].isFavorite && r[i].avatar == cs[i].avatar
    ensures forall i :: 0 <= i < |cs| && cs[i].id == id ==>
              && r[i].name == form.name && r[i].email == form.email && r[i].phoneNumber == form.phoneNumber
              && r[i].notes == (if form.notes.Some? then form.notes else cs[i].notes)
              && r[i].tags == (if form.tags.Some? then form.tags else cs[i].tags)
    ensures forall i :: 0 <= i < |cs| && cs[i].id != id ==> r[i] == cs[i]
    ensures UniqueIds(cs) ==> UniqueIds(r)
    ensures id !in Ids(cs) ==> r == cs
  {
    var r := seq(|cs|, i requires 0 <= i < |cs| => if cs[i].id == id then Merge(cs[i], form) else cs[i]);
    SameIdsStayUnique(cs, r);
    assert id !in Ids(cs) ==> r == cs by {
      if id !in Ids(cs) {
        forall i | 0 <= i < |cs| ensures r[i] == cs[i] {
          assert cs[i] in cs;
        }
      }
    }
    r
  }

  /** `{ ...contact, isFavorite: !contact.isFavorite }` */
  function Toggled(c: Contact): (t: Contact)
    ensures IsFavorite(t) == !IsFavorite(c) && t.isFavorite.Some?
    ensures t.(isFavorite := c.isFavorite) == c
  {
    c.(isFavorite := Some(!IsFavorite(c)))
  }

  /** Toggling flips the favourite status of the entries with the given id (an
      absent flag counts as not a favourite) and changes nothing else: no other
      field of theirs, no other entry, not the length or the order. */
  function ToggleById(cs: seq<Contact>, id: string): (r: seq<Contact>)
    ensures |r| == |cs|
    ensures forall i :: 0 <= i < |cs| && cs[i].id == id ==>
              IsFavorite(r[i]) == !IsFavorite(cs[i]) && r[i].isFavorite.Some?
              && r[i].(isFavorite := cs[i].isFavorite) == cs[i]
    ensures forall i :: 0 <= i < |cs| && cs[i].id != id ==> r[i] == cs[i]
    ensures UniqueIds(cs) ==> UniqueIds(r)
    ensures id !in Ids(cs) ==> r == cs
  {
    var r := seq(|cs|, i requires 0 <= i < |cs| => if cs[i].id == id then Toggled(cs[i]) else cs[i]);
    SameIdsStayUnique(cs, r);
    assert id !in Ids(cs) ==> r == cs by {
      if id !in Ids(cs) {
        forall i | 0 <= i < |cs| ensures r[i] == cs[i] {
          assert cs[i] in cs;
        }
      }
    }
    r
  }

  /** Toggling the same id twice gives every entry back its favourite status,
      and gives back the very list when the toggled entries had the flag set. */
  lemma ToggleTwice(cs: seq<Contact>, id: string)
    ensures var r := ToggleById(ToggleById(cs, id), id);
            && |r| == |cs|
            && (forall i :: 0 <= i < |cs| ==> IsFavorite(r[i]) == IsFavorite(cs[i]))
            && (forall i :: 0 <= i < |cs| ==> r[i].(isFavorite := cs[i].isFavorite) == cs[i])
            && ((forall c :: c in cs && c.id == id ==> c.isFavorite.Some?) ==> r == cs)
  {
    var t := ToggleById(cs, id);
    var r := ToggleById(t, id);
    forall i | 0 <= i < |cs| && cs[i].id == id
      ensures IsFavorite(r[i]) == IsFavorite(cs[i]) && r[i] == cs[i].(isFavorite := r[i].isFavorite)
      ensures r[i].(isFavorite := cs[i].isFavorite) == cs[i]
    {
      assert t[i].id == id;
      assert t[i] == cs[i].(isFavorite := t[i].isFavorite);
    }
    if forall c :: c in cs && c.id == id ==> c.isFavorite.Some? {
      forall i | 0 <= i < |cs| ensures r[i] == cs[i] {
        assert cs[i] in cs;
        if cs[i].id == id {
          assert IsFavorite(r[i]) == IsFavorite(cs[i]) && r[i].isFavorite.Some? && cs[i].isFavorite.Some?;
          assert r[i].isFavorite.value == cs[i].isFavorite.value;
        }
      }
    }
  }

  /** The filter predicate of deletion: every entry whose id is not `id`. */
  function OtherId(id: string): Contact -> bool
  {
    (c: Contact) => c.id != id
  }

  /** `contacts.filter(contact => contact.id !== id)`: no entry with the id is
      left, every other entry stays, in order; ids stay unique, and an id that
      is not in the list leaves it as it is. */
  function RemoveById(cs: seq<Contact>, id: string): (r: seq<Contact>)
    ensures IsSubsequence(r, cs)
    ensures forall c :: c in r <==> c in cs && c.id != id
    ensures id !in Ids(r)
    ensures UniqueIds(cs) ==> UniqueIds(r)
    ensures id !in Ids(cs) ==> r == cs
  {
    var r := Filter(cs, OtherId(id));
    SubsequenceKeepsIdsUnique(r, cs);
    assert id !in Ids(cs) ==> r == cs by {
      if id !in Ids(cs) {
        FilterAll(cs, OtherId(id));
      }
    }
    r
  }

  lemma SubsequenceKeepsIdsUnique(r: seq<Contact>, cs: seq<Contact>)
    requires IsSubsequence(r, cs)
    ensures UniqueIds(cs) ==> UniqueIds(r)
  {
    if UniqueIds(cs) {
      SubsequencePairwise(r, cs, DistinctIds);
    }
  }

  /** Deletion keeps every copy of every entry whose id differs. */
  lemma RemoveKeepsOthers(cs: seq<Contact>, id: string, c: Contact)
    requires c.id != id
    ensures multiset(RemoveById(cs, id))[c] == multiset(cs)[c]
  {
    FilterCount(cs, OtherId(id), c);
  }

  /** The search test: the query occurs in the lower-cased name or e-mail
      address, or, without case folding, in the phone number. */
  function Matches(c: Contact, query: string): (r: bool)
    ensures r <==> || (exists i :: OccursAt(Lower(c.name), Lower(query), i))
                   || (exists i :: OccursAt(Lower(c.email), Lower(query), i))
                   || (exists i :: OccursAt(c.phoneNumber, query, i))
  {
    Contains(Lower(c.name), Lower(query)) || Contains(Lower(c.email), Lower(query)) || Contains(c.phoneNumber, query)
  }

  function MatchesQuery(query: string): Contact -> bool
  {
    (c: Contact) => Matches(c, query)
  }

  /** `filteredContacts`: the matching entries, as an order-preserving subsequence. */
  function FilterContacts(cs: seq<Contact>, query: string): (r: seq<Contact>)
    ensures IsSubsequence(r, cs)
    ensures forall c :: c in r <==> c in cs && Matches(c, query)
    ensures forall c :: multiset(r)[c] == if Matches(c, query) then multiset(cs)[c] else 0
  {
    var r := Filter(cs, MatchesQuery(query));
    forall c ensures multiset(r)[c] == if Matches(c, query) then multiset(cs)[c] else 0 {
      FilterCount(cs, MatchesQuery(query), c);
    }
    r
  }

  /** The search ignores the case of the query's letters: two queries that
      lower-case alike select the same entries, as long as the phone number,
      which is matched without case folding, has no letters. */
  lemma MatchesIgnoresQueryCase(c: Contact, q1: string, q2: string)
    requires Lower(q1) == Lower(q2)
    requires forall i :: 0 <= i < |c.phoneNumber| ==> !IsAsciiLetter(c.phoneNumber[i])
    ensures Matches(c, q1) == Matches(c, q2)
  {
    PhoneMatchIgnoresCase(c.phoneNumber, q1, q2);
    PhoneMatchIgnoresCase(c.phoneNumber, q2, q1);
  }

  lemma PhoneMatchIgnoresCase(phone: string, q1: string, q2: string)
    requires Lower(q1) == Lower(q2)
    requires forall i :: 0 <= i < |phone| ==> !IsAsciiLetter(phone[i])
    ensures Contains(phone, q1) ==> Contains(phone, q2)
  {
    if Contains(phone, q1) {
      var i :| OccursAt(phone, q1, i);
      forall k | 0 <= k < |q1| ensures !IsAsciiLetter(q1[k]) {
        assert q1[k] == phone[i..i + |q1|][k] == phone[i + k];
      }
      SameFoldWithoutLetters(q1, q2);
    }
  }

  /** An empty search keeps every entry, in order. */
  lemma FilterEmptyQuery(cs: seq<Contact>)
    ensures FilterContacts(cs, "") == cs
  {
    forall c | c in cs ensures MatchesQuery("")(c) {
      assert Lower("") == "";
      assert Contains(c.phoneNumber, "");
    }
    FilterAll(cs, MatchesQuery(""));
  }

  /** The header's favourites count: `contacts.filter(c => c.isFavorite).length`. */
  function FavoriteCount(cs: seq<Contact>): (n: nat)
    ensures n <= |cs|
    ensures n == 0 <==> forall c :: c in cs ==> !IsFavorite(c)
  {
    var f := Filter(cs, IsFavorite);
    assert f != [] ==> f[0] in f;
    |f|
  }

  /** The count is the number of favourites: none in the empty list, and
      appending an entry adds one exactly when it is a favourite. */
  lemma FavoriteCountAppend(cs: seq<Contact>, c: Contact)
    ensures FavoriteCount([]) == 0
    ensures FavoriteCount(cs + [c]) == FavoriteCount(cs) + if IsFavorite(c) then 1 else 0
  {
    FilterAppend(cs, [c], IsFavorite);
    assert [c][1..] == [];
  }

  /** Adding a contact leaves the favourites count as it was. */
  lemma FavoriteCountAfterAdd(cs: seq<Contact>, form: ContactFormData, id: string, createdAt: string)
    ensures FavoriteCount(AddContact(cs, form, id, createdAt)) == FavoriteCount(cs)
  {
    FilterAppend(cs, [NewContact(form, id, createdAt)], IsFavorite);
  }

  /** Editing leaves the favourites count as it was. */
  lemma FavoriteCountAfterEdit(cs: seq<Contact>, id: string, form: ContactFormData)
    ensures FavoriteCount(EditById(cs, id, form)) == FavoriteCount(cs)
  {
    FilterLengthPointwise(EditById(cs, id, form), cs, IsFavorite);
  }

  /** With unique ids, toggling an entry moves the favourites count by one. */
  lemma FavoriteCountAfterToggle(cs: seq<Contact>, k: nat)
    requires UniqueIds(cs) && k < |cs|
    ensures FavoriteCount(ToggleById(cs, cs[k].id))
         == if IsFavorite(cs[k]) then FavoriteCount(cs) - 1 else FavoriteCount(cs) + 1
  {
    var id := cs[k].id;
    var r := ToggleById(cs, id);
    forall i | 0 <= i < |cs| && i != k ensures r[i] == cs[i] {
      if i < k { assert DistinctIds(cs[i], cs[k]); } else { assert DistinctIds(cs[k], cs[i]); }
    }
    assert cs == cs[..k] + [cs[k]] + cs[k + 1..];
    assert r == cs[..k] + [r[k]] + cs[k + 1..];
    FilterAppend(cs[..k] + [cs[k]], cs[k + 1..], IsFavorite);
    FilterAppend(cs[..k], [cs[k]], IsFavorite);
    FilterAppend(cs[..k] + [r[k]], cs[k + 1..], IsFavorite);
    FilterAppend(cs[..k], [r[k]], IsFavorite);
  }

  /** A walk-through: add Bob, make him a favourite, add Amy; Bob is listed
      first whatever the collation, and searching "am" finds only Amy. */
  lemma BobAndAmy(collate: (string, string) -> int, bobId: string, amyId: string, t1: string, t2: string)
    ensures var bob := ContactFormData("Bob", "bob@x.com", "111", None, None);
            var amy := ContactFormData("Amy", "amy@x.com", "222", None, None);
            var s1 := AddContact([], bob, bobId, t1);
            var s2 := ToggleById(s1, bobId);
            var s3 := AddContact(s2, amy, amyId, t2);
            && |s1| == 1 && !IsFavorite(s1[0])
            && IsFavorite(s2[0])
            && |s3| == 2 && s3[0].name == "Bob" && s3[1].name == "Amy"
            && ContactList.SortForDisplay(collate, s3) == s3
            && FilterContacts(s3, "am") == [s3[1]]
  {
    var bob := ContactFormData("Bob", "bob@x.com", "111", None, None);
    var amy := ContactFormData("Amy", "amy@x.com", "222", None, None);
    var s1 := AddContact([], bob, bobId, t1);
    var s2 := ToggleById(s1, bobId);
    var s3 := AddContact(s2, amy, amyId, t2);
    assert s3 == [s2[0], NewContact(amy, amyId, t2)];
    assert ContactList.SortForDisplay(collate, [s3[1]]) == [s3[1]];
    SearchBobAndAmy(s3[0], s3[1]);
    assert s3[1..][1..] == [];
  }

  /** The search step of the scenario above: "am" finds Amy and not Bob. */
  lemma SearchBobAndAmy(b: Contact, a: Contact)
    requires b.name == "Bob" && b.email == "bob@x.com" && b.phoneNumber == "111"
    requires a.name == "Amy"
    ensures FilterContacts([b, a], "am") == [a]
  {
    var keep := MatchesQuery("am");
    BobMissesAm(b);
    AmyMatchesAm(a);
    assert [b, a][1..] == [a] && [a][1..] == [];
    assert Filter([a], keep) == [a];
    assert Filter([b, a], keep) == [a];
  }

  lemma BobMissesAm(b: Contact)
    requires b.name == "Bob" && b.email == "bob@x.com" && b.phoneNumber == "111"
    ensures !MatchesQuery("am")(b)
  {
    LowerWithoutUpper("am");
    LowerLetterAbsent(b.name, 'a');
    LowerLetterAbsent(b.email, 'a');
    FirstCharAbsent(Lower(b.name), "am");
    FirstCharAbsent(Lower(b.email), "am");
    FirstCharAbsent(b.phoneNumber, "am");
  }

  lemma AmyMatchesAm(a: Contact)
    requires a.name == "Amy"
    ensures MatchesQuery("am")(a)
  {
    LowerWithoutUpper("am");
    assert Lower(a.name)[..2] == "am";
    assert OccursAt(Lower(a.name), "am", 0);
  }

  /** The page's state cells and the event handlers that replace them. */
  class Home {
    var contacts: seq<Contact>
    var isModalOpen: bool
    var formMode: FormMode
    var selectedContact: Option<Contact>
    var searchQuery: string

    /** The page keeps ids unique. */
    ghost predicate Valid()
      reads this
    {
      UniqueIds(contacts)
    }

    /** The first render: the stored list, the modal closed, add mode, nothing
        selected and an empty search. */
    constructor (stored: seq<Contact>)
      ensures contacts == stored && !isModalOpen && formMode == Add
      ensures selectedContact == None && searchQuery == ""
      ensures UniqueIds(stored) ==> Valid()
    {
      contacts := stored;
      isModalOpen := false;
      formMode := Add;
      selectedContact := None;
      searchQuery := "";
    }

    /** The "Add Contact" button. */
    method HandleAddContact()
      modifies this
      ensures formMode == Add && selectedContact == None && isModalOpen
      ensures contacts == old(contacts) && searchQuery == old(searchQuery)
    {
      formMode := Add;
      selectedContact := None;
      isModalOpen := true;
    }

    /** A card's edit button. */
    method HandleEditContact(contact: Contact)
      modifies this
      ensures formMode == Edit && selectedContact == Some(contact) && isModalOpen
      ensures contacts == old(contacts) && searchQuery == old(searchQuery)
    {
      formMode := Edit;
      selectedContact := Some(contact);
      isModalOpen := true;
    }

    /** A card's delete button; `confirmed` is the answer to the confirmation prompt. */
    method HandleDeleteContact(id: string, confirmed: bool)
      modifies this
      ensures contacts == if confirmed then RemoveById(old(contacts), id) else old(contacts)
      ensures old(Valid()) ==> Valid()
      ensures isModalOpen == old(isModalOpen) && formMode == old(formMode)
      ensures selectedContact == old(selectedContact) && searchQuery == old(searchQuery)
    {
      if confirmed {
        contacts := RemoveById(contacts, id);
      }
    }

    /** A card's favourite button. */
    method HandleToggleFavorite(id: string)
      modifies this
      ensures contacts == ToggleById(old(contacts), id)
      ensures old(Valid()) ==> Valid()
      ensures isModalOpen == old(isModalOpen) && formMode == old(formMode)
      ensures selectedContact == old(selectedContact) && searchQuery == old(searchQuery)
    {
      contacts := ToggleById(contacts, id);
    }

    /** The form's submission: add mode appends a new contact with the supplied
        id and timestamp; edit mode merges the form into the selected contact's
        entries, and does nothing when no contact is selected. The modal closes
        either way. Ids stay unique when the supplied id is fresh. */
    method HandleSubmit(formData: ContactFormData, newId: string, now: string)
      modifies this
      ensures old(formMode) == Add ==> contacts == AddContact(old(contacts), formData, newId, now)
      ensures old(formMode) == Edit && old(selectedContact).Some? ==>
                contacts == EditById(old(contacts), old(selectedContact).value.id, formData)
      ensures old(formMode) == Edit && old(selectedContact).None? ==> contacts == old(contacts)
      ensures old(Valid()) && (old(formMode) == Add ==> newId !in Ids(old(contacts))) ==> Valid()
      ensures !isModalOpen && formMode == old(formMode)
      ensures selectedContact == old(selectedContact) && searchQuery == old(searchQuery)
    {
      if formMode == Add {
        contacts := AddContact(contacts, formData, newId, now);
      } else if selectedContact.Some? {
        contacts := EditById(contacts, selectedContact.value.id, formData);
      }
      isModalOpen := false;
    }

    /** Typing in the search bar. */
    method SetSearchQuery(query: string)
      modifies this
      ensures searchQuery == query && contacts == old(contacts)
      ensures isModalOpen == old(isModalOpen) && formMode == old(formMode) && selectedContact == old(selectedContact)
    {
      searchQuery := query;
    }

    /** Closing or cancelling the modal. */
    method CloseModal()
      modifies this
      ensures !isModalOpen && contacts == old(contacts) && formMode == old(formMode)
      ensures selectedContact == old(selectedContact) && searchQuery == old(searchQuery)
    {
      isModalOpen := false;
    }

    /** The contacts handed to the list: those matching the current search, in
        stored order. */
    function FilteredContacts(): (r: seq<Contact>)
      reads this
      ensures r == FilterContacts(contacts, searchQuery)
      ensures IsSubsequence(r, contacts)
      ensures forall c :: c in r <==> c in contacts && Matches(c, searchQuery)
    {
      FilterContacts(contacts, searchQuery)
    }

    /** What the list component shows for the current state. */
    function Shown(collate: (string, string) -> int): (v: ContactList.View)
      reads this
      ensures v.EmptyState? <==> FilteredContacts() == []
      ensures v.Cards? ==> multiset(v.shown) == multiset(FilteredContacts())
      ensures v.Cards? ==> v.shown == ContactList.SortForDisplay(collate, FilteredContacts())
    {
      ContactList.Render(collate, FilteredContacts())
    }
  }
}
