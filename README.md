# Contact book — a Dafny model

A model of the logic of a small client-side contact book: the page that keeps
the list of contacts and reacts to add, edit, delete, favourite and search
events; the contact form with its field and tag editing and its edit-mode
prefill; the list component's favourites-first, then by-name display order;
and the records they exchange.

Modules, one per source file plus two of shared helpers:

- `Types` (src/types/index.ts): the datatypes `Contact` (lines 2-12: `id` and
  `createdAt` required, `isFavorite`, `notes`, `tags` and `avatar` optional),
  `FormMode` (line 14: exactly `Add` and `Edit`) and `ContactFormData` (lines
  16-22: the contact's name, e-mail, phone, notes and tags, with the same
  optionality); every optional property is an `Option`, and `IsFavorite` is
  JavaScript truthiness of `isFavorite` (an absent flag is not a favourite).
- `Text`: `trim` (the exact ECMAScript white-space and line-terminator set),
  `toLowerCase` on ASCII letters, `includes`, and `localeCompare` as a parameter
  `collate` constrained by `IsCollation` (a total preorder by sign), with
  code-point comparison proved to be one instance.
- `Seqs`: subsequences, an order-preserving `Filter` and its laws.
- `ContactList` (src/components/ContactList.tsx): the comparator, the sort of a
  copy as a stable insertion sort, and the empty-state branch.
- `Form` (src/components/ContactForm.tsx): the tag and field computations as
  functions, and the component's two state cells `formData` and `tagInput` as
  class `ContactForm` whose methods are the handlers.
- `Page` (src/app/page.tsx): the list transformations as functions, and the
  page's state cells `contacts`, `isModalOpen`, `formMode`, `selectedContact`
  and `searchQuery` as class `Home` whose methods are the handlers.

The id from `crypto.randomUUID()`, the timestamp from `new Date().toISOString()`
and the answer of `window.confirm` are parameters of the handlers that use
them. Freshness of the id is not a precondition of submission: the handler's
contract says that ids stay unique whenever the supplied id is fresh.

## Model

| member | source | states |
|---|---|---|
| Types.IsFavorite | src/types/index.ts:8 | truthiness of the optional flag: absent and `false` are not favourites, `true` is |
| Form.FromContact | src/components/ContactForm.tsx:26-35 | edit-mode prefill copies name, e-mail and phone; notes default to `''` and tags to `[]`, otherwise they are the contact's |
| Form.SetField | src/components/ContactForm.tsx:43-46 | the named field takes the typed value; every other field, the tags included, is unchanged |
| Form.WithTag | src/components/ContactForm.tsx:51-55 | the tag ends up in the list; a tag already present leaves the list unchanged, an absent one is appended at the end (an absent list counts as empty); a duplicate-free list stays duplicate-free |
| Form.WithoutTag | src/components/ContactForm.tsx:61-65 | every occurrence of the tag is gone and every copy of every other tag is kept, in order (an order-preserving subsequence with the same multiplicities); an absent list becomes empty; duplicate-freedom is kept |
| Form.WithTagIdempotent | src/components/ContactForm.tsx:51-55 | adding the same tag twice is adding it once |
| Form.AddThenRemoveTag | src/components/ContactForm.tsx:51-54 | adding a tag that was absent and then removing it gives back the previous list |
| Form.ContactForm.constructor | src/components/ContactForm.tsx:17-24 | the form starts with empty texts, empty notes, no tags and an empty tag input |
| Form.ContactForm.LoadInitialData | src/components/ContactForm.tsx:26-36 | in edit mode with a contact the form data becomes its prefill; otherwise nothing changes; the tag list is duplicate-free afterwards when the contact's tags are (edit mode) or when it already was (otherwise) |
| Form.ContactForm.HandleChange | src/components/ContactForm.tsx:43-46 | the form data becomes `SetField` of the old data; the tag input and tag uniqueness are kept |
| Form.ContactForm.SetTagInput | src/components/ContactForm.tsx:168 | the tag input takes the typed text and the form data is unchanged |
| Form.ContactForm.HandleAddTag | src/components/ContactForm.tsx:48-59 | only Enter with a non-blank input acts: the trimmed tag is added if absent and the input is cleared either way; any other key or a blank input changes nothing; tag uniqueness is kept |
| Form.ContactForm.HandleRemoveTag | src/components/ContactForm.tsx:61-66 | the tags become `WithoutTag` of the old tags, all else unchanged, tag uniqueness kept |
| Form.ContactForm.HandleSubmit | src/components/ContactForm.tsx:38-41 | the page receives exactly the current form data |
| Text.Trim | src/components/ContactForm.tsx:49 | the result is a slice of the input with only white space cut off at either end, and it neither starts nor ends with white space |
| Text.TrimEmptyIff | src/components/ContactForm.tsx:49 | the trimmed input is empty exactly when the input is all white space |
| Text.Lower | src/app/page.tsx:88-89 | same length; each ASCII capital becomes its small letter (code point + 32) and every other character is kept |
| Text.SameFoldWithoutLetters | src/app/page.tsx:88-89 | lower-casing only merges the two cases of a letter: a string without letters is the only string that lower-cases like it |
| Text.LowerWithoutUpper | src/app/page.tsx:88-89 | lower-casing a string with no upper-case ASCII letter gives it back unchanged |
| Text.LowerLetterAbsent | src/app/page.tsx:88-89 | a lower-case letter is absent from the lower-cased string when neither it nor its capital occurs in the input |
| Text.Contains | src/app/page.tsx:88-90 | true exactly when the needle occurs as a contiguous slice of the haystack |
| Text.FirstCharAbsent | src/app/page.tsx:88-90 | a needle whose first character does not occur in the haystack is not found |
| Text.OrdinalIsCollation | src/components/ContactList.tsx:51 | code-point comparison satisfies the ordering assumptions made of `localeCompare` |
| ContactList.Compare | src/components/ContactList.tsx:48-52 | a favourite goes before a non-favourite, a non-favourite after a favourite, and two entries of the same status are ordered by the name collation |
| ContactList.CompareConsistent | src/components/ContactList.tsx:48-52 | for any collation the comparator is antisymmetric in sign, total, reflexive and transitive |
| ContactList.SortForDisplay | src/components/ContactList.tsx:48 | the displayed list is a permutation of the input |
| ContactList.SortSorted | src/components/ContactList.tsx:48-52 | the displayed list is ordered by the comparator |
| ContactList.SortFavoritesFirst | src/components/ContactList.tsx:49-50 | no entry that is not a favourite precedes a favourite |
| ContactList.SortNamesOrdered | src/components/ContactList.tsx:51 | among entries of the same favourite status, names are in collation order |
| ContactList.SortStable | src/components/ContactList.tsx:48-52 | entries that compare equal keep their relative order from the input |
| ContactList.SortUnique | src/components/ContactList.tsx:48-52 | any ordered, stable rearrangement of the input is the displayed list, so the order is fully determined by the comparator |
| ContactList.Render | src/components/ContactList.tsx:20-52 | an empty list takes the empty-state branch; otherwise the cards are the sorted permutation of the input |
| Page.NewContact | src/app/page.tsx:66-71 | the new contact has the form's fields, the supplied id and timestamp, `isFavorite` false and no avatar |
| Page.AddContact | src/app/page.tsx:65-72 | one contact appended at the end with the old entries unchanged and in order; it carries the form's fields, the supplied id and timestamp, `isFavorite` false and no avatar; a fresh id keeps ids unique |
| Page.Merge | src/app/page.tsx:78 | `{ ...contact, ...formData }`: name, e-mail and phone come from the form, notes and tags from the form when present and otherwise from the contact; the form data has no id, creation time, favourite flag or avatar (src/types/index.ts:16-22), so the contact keeps its own |
| Page.EditById | src/app/page.tsx:74-81 | the entries with the selected id take the form's fields present and keep id, timestamp, favourite flag and avatar; other entries, length and order are unchanged; ids stay unique; an absent id changes nothing |
| Page.Toggled | src/app/page.tsx:53 | the favourite status is negated (an absent flag counts as false) and the flag becomes explicit; nothing else changes |
| Page.ToggleById | src/app/page.tsx:49-56 | the entries with the id get the negation of their favourite status (absent counts as false) and nothing else changes; ids stay unique; an absent id changes nothing |
| Page.ToggleTwice | src/app/page.tsx:49-56 | toggling the same id twice restores every entry's favourite status and all its other fields, and restores the whole list when the toggled entries had an explicit flag (an absent flag comes back as `false`) |
| Page.RemoveById | src/app/page.tsx:44 | exactly the entries with the id are removed, the rest stay in order; ids stay unique; an absent id changes nothing |
| Page.RemoveKeepsOthers | src/app/page.tsx:44 | every entry whose id differs keeps all of its copies |
| Page.Matches | src/app/page.tsx:87-91 | the lower-cased query occurs in the lower-cased name or e-mail, or the query occurs verbatim in the phone number |
| Page.FilterContacts | src/app/page.tsx:87-91 | the search result is an order-preserving subsequence holding every copy of each matching entry and no copy of any other |
| Page.MatchesIgnoresQueryCase | src/app/page.tsx:88-90 | two queries that lower-case alike select the same entries whenever the phone number has no letters (the phone is matched without case folding) |
| Page.FilterEmptyQuery | src/app/page.tsx:87-91 | an empty search keeps every entry in order |
| Page.FavoriteCount | src/app/page.tsx:147 | the count never exceeds the list length and is zero exactly when no entry is a favourite |
| Page.FavoriteCountAppend | src/app/page.tsx:147 | the count is the number of favourites: zero for the empty list, and appending an entry adds one exactly when it is a favourite |
| Page.FavoriteCountAfterAdd | src/app/page.tsx:66-72 | adding a contact does not change the favourites count |
| Page.FavoriteCountAfterEdit | src/app/page.tsx:74-81 | editing does not change the favourites count |
| Page.FavoriteCountAfterToggle | src/app/page.tsx:49-56 | with unique ids, toggling an entry moves the count down by one if it was a favourite and up by one otherwise |
| Page.SameIdsStayUnique | src/app/page.tsx:50-56 | a list whose ids are unchanged position by position keeps ids unique |
| Page.SubsequenceKeepsIdsUnique | src/app/page.tsx:44 | a subsequence of a list with unique ids has unique ids |
| Page.BobAndAmy | src/app/page.tsx:49-91 | adding Bob, making him a favourite and adding Amy lists Bob first under any collation, and searching "am" finds only Amy |
| Page.SearchBobAndAmy | src/app/page.tsx:87-91 | the search "am" over Bob and Amy keeps only Amy |
| Page.Home.constructor | src/app/page.tsx:16-20 | the page starts with the stored list, the modal closed, add mode, nothing selected and an empty search; ids are unique from the start when the stored ids are |
| Page.Home.HandleAddContact | src/app/page.tsx:29-33 | add mode, nothing selected, the modal open; the list unchanged |
| Page.Home.HandleEditContact | src/app/page.tsx:35-39 | edit mode, the contact selected, the modal open; the list unchanged |
| Page.Home.HandleDeleteContact | src/app/page.tsx:41-47 | when confirmed the list becomes `RemoveById` of the old list, otherwise it is unchanged; ids stay unique; no other state changes |
| Page.Home.HandleToggleFavorite | src/app/page.tsx:49-62 | the list becomes `ToggleById` of the old list; ids stay unique; no other state changes |
| Page.Home.HandleSubmit | src/app/page.tsx:64-85 | add mode appends the new contact; edit mode with a selection edits the selected id; edit mode without one leaves the list unchanged; ids stay unique when the new id is fresh; the modal closes |
| Page.Home.SetSearchQuery | src/app/page.tsx:175 | the search query takes the typed text and nothing else changes |
| Page.Home.CloseModal | src/app/page.tsx:192 | the modal closes and nothing else changes |
| Page.Home.FilteredContacts | src/app/page.tsx:87-91 | the list handed to the list component is `FilterContacts` of the current list and query |
| Page.Home.Shown | src/app/page.tsx:182-183 | the list component shows the empty state exactly when no contact matches, otherwise the matches in display order (`SortForDisplay` of them, favourites first, then by name) |

## Left out

- Persistence: `useLocalStorage` (its loading, saving, JSON serialisation and error fallback) is not part of this model; the field `Home.contacts` stands for the stored list and the constructor takes the stored value.
- Toasts, the welcome-screen timer and every message text, including the name looked up for the delete and favourite toasts: presentation and time only.
- src/components/ContactCard.tsx, src/components/Toast.tsx, the modal, animations, the grid/list `viewMode` toggle and the JSX markup: rendering only.
- The form's `required` attributes: browser validation, not logic of the program.
- The browser's default action for Enter in the tag input: the handler suppresses it whenever the trimmed input is non-blank, whether or not the tag is new, so Enter on a blank tag input submits the form implicitly; `Form.ContactForm.HandleAddTag` states only that `formData` and `tagInput` are unchanged then, and the implicit submission is not modelled.
- `crypto.randomUUID()`, `new Date().toISOString()` and `window.confirm`: replaced by parameters.
- Text.Lower: folds only the ASCII letters A–Z; the full Unicode case mapping of `toLowerCase` (non-ASCII letters, length-changing mappings) is not modelled.
- Page.MatchesIgnoresQueryCase: holds only for phone numbers without letters, because the phone number is matched with the query as typed, without case folding.
- ContactList.SortForDisplay: `localeCompare` is an abstract collation parameter; only its ordering assumptions (`IsCollation`) are modelled, not locale data.
- An optional property set explicitly to `undefined` is not distinguished from an absent one; both are `None`, so the spread merge of edit mode keeps the contact's value for either.
- The rendering of the contact count ("contact" / "contacts") in the header: presentation only.
