# Phonebook contact-list state, in Dafny

This project models the state of the phonebook's top-level `App` component
(`src/components/App.jsx`). The component holds four pieces of state:

- the contact list, a sequence of `{id, name, number}` records;
- the filter text;
- two panel flags, `isOpenForm` and `isOpenFilter`.

Its handlers change that state. `addContact` appends a record and toggles
the form panel. `deleteContact` drops every record with a given id.
`toggle` flips one panel flag, or throws for an unknown target. `onSearch`
replaces the filter text. The list shown on screen is derived from the
state: the contacts whose lower-cased name contains the lower-cased filter.

Layout, one module per file:

- `sequences.dfy` (`Sequences`): `Keep`, the model of `Array.prototype.filter`.
  Also the definitions used to specify it: subsequence via an index
  embedding, and `Count`.
- `text.dfy` (`Text`): `Lower` (ASCII `toLowerCase`) and `Includes`
  (`String.prototype.includes`). `Lower` is specified character by
  character and by `SameUpToCase`, equality up to the case of ASCII letters.
  `Includes` is proved equal to a positional substring definition.
- `contacts.dfy` (`Contacts`): the `Contact` record, the `Seed` list, and
  deletion by id (`WithoutId`). Also the filtered view (`Filtered`) and
  the replay of a series of adds and deletes (`Replay`). The replay is
  proved to keep list order: its result is a subsequence of the starting
  list followed by the added contacts.
- `phonebook.dfy` (`Phonebook`): the class `PhonebookState`. Its fields are
  those of `App`'s state and its methods are the handlers. It also holds
  the toggle targets (`PanelOf`) and the flag flip (`Flip`).

Points of the code the model keeps as written:

- `deleteContact` filters the list, so it removes every contact that carries
  the id, not only the first one. `WithoutId` models the filter.
- `addContact` receives the whole record, id included, from the form
  component, and does not check that the id is unique. `AddContact` takes
  the record as input, and the model does not claim ids stay unique.
- An unknown toggle target throws `Error('component not found')`. The model
  returns `Fail("component not found")` and leaves the state unchanged.

## Model

| member | source | states |
|---|---|---|
| `Sequences.Keep` | src/components/App.jsx:66-68 | The result is never longer than the input. An element is in the result iff it is in the input and satisfies the predicate. |
| `Sequences.KeepIsSubsequence` | src/components/App.jsx:66-68 | The result is a subsequence of the input: its elements sit at strictly increasing positions of the input, so order is preserved. |
| `Sequences.KeepAll` | src/components/App.jsx:42 | If every element passes, the result equals the input. |
| `Sequences.KeepCongruent` | src/components/App.jsx:66-68 | Two predicates that agree on every element keep the same elements. |
| `Sequences.SubsequenceRefl` | src/components/App.jsx:66-68 | Every list is a subsequence of itself. |
| `Sequences.SubsequenceTrans` | src/components/App.jsx:33-47 | A subsequence of a subsequence is a subsequence. |
| `Sequences.SubsequenceAppend` | src/components/App.jsx:34 | Appending the same tail to both sides keeps a subsequence one. |
| `Sequences.KeepIdempotent` | src/components/App.jsx:66-68 | Filtering twice with the same predicate equals filtering once. |
| `Sequences.KeepAppend` | src/components/App.jsx:34 | Filtering a concatenation equals concatenating the filtered parts. |
| `Sequences.KeepLength` | src/components/App.jsx:42 | The result's length equals the number of elements that satisfy the predicate. |
| `Sequences.Count` | src/components/App.jsx:42 | The count is at most the length of the sequence. It is zero iff no element satisfies the predicate. |
| `Text.UpperOf` | src/components/App.jsx:65 | The capital form of a lower-case ASCII letter is an upper-case ASCII letter. |
| `Text.LowerChar` | src/components/App.jsx:65 | The folded character is never an upper-case ASCII letter. Only upper-case letters change. |
| `Text.LowerCharCases` | src/components/App.jsx:65 | A lower-case letter and its capital both fold to the lower-case letter, and no other character folds to it. |
| `Text.Lower` | src/components/App.jsx:65 | Lower-casing keeps the length and folds every character on its own, at the same position. |
| `Text.LowerSameUpToCase` | src/components/App.jsx:65 | Two strings that differ only in the case of ASCII letters have the same lower-cased form. |
| `Text.LowerIdempotent` | src/components/App.jsx:67 | Lower-casing twice equals lower-casing once. |
| `Text.IncludesIff` | src/components/App.jsx:67 | `Includes(text, pat)` holds iff `pat` occurs in `text` at some position `i`, that is `text[i..i+|pat|] == pat`. |
| `Text.Includes` | src/components/App.jsx:67 | Every string includes the empty pattern. A pattern that is included is no longer than the text. |
| `Text.IncludesNeedsHead` | src/components/App.jsx:67 | A text lacking the first character of a non-empty pattern does not include the pattern. |
| `Text.LowerLacks` | src/components/App.jsx:67 | A lower-case letter absent from a string in both cases is absent from its lower-cased form. |
| `Contacts.WithoutId` | src/components/App.jsx:42 | Deletion never lengthens the list. A contact survives iff it was in the list and its id differs from the deleted id. |
| `Contacts.CountId` | src/components/App.jsx:42 | The number of contacts with the id is at most the list length. It is zero iff no contact has that id. |
| `Contacts.WithoutIdIsSubsequence` | src/components/App.jsx:42 | The remaining contacts keep their original relative order. |
| `Contacts.WithoutIdLength` | src/components/App.jsx:42 | Remaining length plus the number of contacts with the id equals the old length. |
| `Contacts.WithoutAbsentId` | src/components/App.jsx:42 | Deleting an id that no contact has leaves the list unchanged. |
| `Contacts.WithoutUniqueId` | src/components/App.jsx:42 | Deleting an id that exactly one contact has shortens the list by exactly one. |
| `Contacts.WithoutIdAppend` | src/components/App.jsx:42 | Deleting from `cs + [c]` equals deleting from `cs`, followed by `c` if `c` lacks the id. |
| `Contacts.Matches` | src/components/App.jsx:66-67 | A contact matches iff the lower-cased filter occurs at some position of its lower-cased name. The empty filter matches every contact. |
| `Contacts.Matching` | src/components/App.jsx:66-67 | The filter callback, as a predicate value: it accepts a contact iff the lower-cased filter occurs at some position of the contact's lower-cased name. |
| `Contacts.Filtered` | src/components/App.jsx:64-69 | The view is never longer than the list. A contact is shown iff it is in the list and its lower-cased name includes the lower-cased filter. The view has exactly as many entries as the list has matching entries, so identical records are all shown. With `FilteredIsSubsequence`, this fixes the view completely. |
| `Contacts.FilteredIsSubsequence` | src/components/App.jsx:64-69 | The view is an order-preserving subsequence of the contact list. |
| `Contacts.FilteredMembership` | src/components/App.jsx:64-69 | A contact is shown iff it is in the list and the lower-cased filter occurs at some position of its lower-cased name. |
| `Contacts.FilteredEmpty` | src/components/App.jsx:64-69 | With an empty filter, every contact is shown in list order. |
| `Contacts.FilteredIdempotent` | src/components/App.jsx:64-69 | Filtering the view again with the same filter changes nothing. |
| `Contacts.FilteredIgnoresFilterCase` | src/components/App.jsx:65 | Lower-casing the filter text first does not change the view. |
| `Contacts.FilteredCaseInsensitive` | src/components/App.jsx:64-69 | Two filter texts that differ only in the case of their letters show the same view. |
| `Contacts.MatchesIgnoresNameCase` | src/components/App.jsx:67 | Two contacts whose names differ only in the case of their letters match the same filters. |
| `Contacts.FilteredAppend` | src/components/App.jsx:64-69 | Adding a contact changes the view only by appending that contact, and only if it matches. |
| `Contacts.MissesLetter` | src/components/App.jsx:67 | A contact whose name lacks, in both cases, the first letter of the folded filter is not shown. |
| `Contacts.FilteredMissingLetter` | src/components/App.jsx:64-69 | If no name contains the filter's first folded letter in either case, the view is empty. |
| `Contacts.SeedIdsDistinct` | src/components/App.jsx:15-20 | The four seed contacts have distinct ids. |
| `Contacts.SeedIds` | src/components/App.jsx:15-20 | The seed ids are `id-1`, `id-2`, `id-3`, `id-4`, in that order. |
| `Contacts.SeedNames` | src/components/App.jsx:15-20 | The seed names are Rosie Simpson, Hermione Kline, Eden Clements and Annie Copeland, in that order. |
| `Contacts.SeedFilterRos` | src/components/App.jsx:64-69 | On the seed list, the filter "ros" shows Rosie Simpson. |
| `Contacts.SeedFilterXyz` | src/components/App.jsx:64-69 | On the seed list, the filter "xyz" shows nothing. |
| `Contacts.WithoutThirdOfThree` | src/components/App.jsx:42 | Deleting the id carried only by the last of three contacts leaves the first two in order. |
| `Contacts.WithoutThirdOfFive` | src/components/App.jsx:42 | Deleting the id carried only by the third of five contacts leaves the other four in order. |
| `Contacts.SeedAddThenDelete` | src/components/App.jsx:33-47 | From the seed, adding a contact whose id is not `id-3` and then deleting `id-3` leaves Rosie, Hermione and Annie, then the new contact: four entries. |
| `Contacts.Apply` | src/components/App.jsx:33-47 | One edit lengthens the list by at most one. Every contact after the edit was already listed or is the one the edit adds. |
| `Contacts.Replay` | src/components/App.jsx:33-47 | After a series of edits, every listed contact was listed at the start or was added by one of the edits. |
| `Contacts.AddedContacts` | src/components/App.jsx:34 | A contact is among the added ones iff some edit of the series adds it. |
| `Contacts.AddStepInOrder` | src/components/App.jsx:34 | Appending a contact keeps the list, followed by the contacts still to be added, in order. |
| `Contacts.DeleteStepInOrder` | src/components/App.jsx:42 | A delete keeps the list, followed by the contacts still to be added, in order. |
| `Contacts.AddedContactsStep` | src/components/App.jsx:33-47 | After the first edit, the list followed by what the remaining edits add is a subsequence of the old list followed by what all the edits add. |
| `Contacts.ReplayInOrder` | src/components/App.jsx:33-47 | After any series of adds and deletes, the list is a subsequence of the starting list followed by the added contacts in the order they were added. |
| `Contacts.AddedAndKeptCons` | src/components/App.jsx:33-47 | "Added by some edit and its id never deleted later", split on the first edit of the series. |
| `Contacts.ReplayMembership` | src/components/App.jsx:33-47 | After any series of adds and deletes, a contact is listed iff (1) it was there at the start and no delete named its id, or (2) some add inserted it and no later delete named its id. |
| `Phonebook.PanelOf` | src/components/App.jsx:49-61 | Only "form" and "filter" name a panel. "form" names the form panel and "filter" names the filter panel. |
| `Phonebook.Flip` | src/components/App.jsx:52-56 | Toggling flips the toggled panel's flag and keeps every other panel's flag. |
| `Phonebook.FlipTwice` | src/components/App.jsx:49-62 | Toggling the same panel twice restores the flags. |
| `Phonebook.FlipCommutes` | src/components/App.jsx:49-62 | Toggles of the two panels are independent; their order does not matter. |
| `Phonebook.PhonebookState.constructor` | src/components/App.jsx:15-26 | The initial state is the seed list, an empty filter, and both panels closed. |
| `Phonebook.PhonebookState.OnSearch` | src/components/App.jsx:28-31 | Only the filter changes; it becomes the typed value. |
| `Phonebook.PhonebookState.Toggle` | src/components/App.jsx:49-62 | A valid target flips only its own panel's flag and returns `Pass`. Any other target returns `Fail("component not found")` and changes nothing. Contacts and filter are untouched either way. |
| `Phonebook.PhonebookState.AddContact` | src/components/App.jsx:33-38 | The list becomes the old list plus the new record at the end. The form flag flips. The filter and the filter flag are unchanged. |
| `Phonebook.PhonebookState.DeleteContact` | src/components/App.jsx:40-47 | The list becomes `WithoutId(old list, id)`. The filter and both flags are unchanged. |
| `Phonebook.PhonebookState.FilteredContacts` | src/components/App.jsx:64-69 | The visible list is an order-preserving subsequence of the contacts. A contact appears iff it is listed and matches the current filter. The visible list has one entry per matching entry of the contacts, so identical records all appear. |

## Left out

- Rendering: the JSX tree and the child components (`NavBar`, `AddContactsForm`, `Filter`, `ContactsList`, `Container`) are user interface. Their sources are not part of this model.
- `Notify.success` toasts after an add or a delete: a call into a notification library, with no effect on the state.
- Persistence through `useLocalStorage`: the hook's source is not part of this model. The model starts from the seed list, which the hook returns when storage is empty. It does not model loading a stored list, or saving it after each change.
- React plumbing: `useState` setters, `useMemo`, `useCallback` and the delete-context provider. Each handler is modelled as one atomic update of the fields. `FilteredContacts` is recomputed on demand rather than memoised.
- The commented-out class-based component at the end of the file: dead code.
- `Text.Lower`: folds only ASCII `A`–`Z`, not the full Unicode case mapping of `toLowerCase`. JavaScript strings are UTF-16; here they are `seq<char>`.
- `Phonebook.PhonebookState.Toggle`: the thrown exception is modelled as a `Fail` result that leaves the state unchanged, not as control flow that unwinds the caller.
- Id generation and input validation happen in the form component, which is not part of this model. The model does not claim that ids stay unique, because `addContact` does not check them.
