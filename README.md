# Deploy form: contributor roster and member list

This project models the state logic of the client's deploy forms
(`client/DeployForm.tsx`) in Dafny and proves what each handler does.

- `DeployForm2` keeps a roster of contributor addresses and a pending text input.
  `attempt_add_contributor` runs the address validator on a raw string. It
  rejects the string when the validator returns nothing or an empty string, and
  when the validated address is already in the roster. Otherwise it appends the
  address and clears the pending input. The Enter key tries the pending input.
  Paste tries the pasted text. `remove_contributor` filters an address out.
  The roster invariant is that it holds validated, non-empty addresses, each only once.
- `DeployForm` edits its member list by index, removes by index and appends an
  empty entry. Its submit handler returns early when the target, the target
  share or either deadline is null. Otherwise it passes the form values with
  every comma stripped from the two amounts.

Layout:

- `options.dfy` holds `Options.Option`, which stands for a value that may be `null`.
- `sequences.dfy` holds `Sequences`, the list operations the components use
  (`filter` by value, `map` at one index, `filter` by index) and their lemmas.
- `events.dfy` holds `Events.Event`, the two DOM event flags the handlers set.
- `forms.dfy` holds `Forms`, with both components as classes whose methods
  update their fields. The pure functions the methods are proved against
  (`Admits`, `AddContributor`, `StripCommas`, `SubmitParams`) live there too.

The address validator `validate_address` comes from a file that is not part of
this model. It is the constant `DeployForm2.validate : string -> Option<string>`,
given to the constructor. Nothing is assumed about it, in particular nothing
about case or canonical form. So "another spelling of the same address is
rejected" is proved only for spellings the validator maps to the same value
(`SecondAttemptRejected`).

Three details of the code that the model keeps:

- The Enter handler (lines 166-172) always stops propagation and prevents the
  default, whatever the add returns.
- `remove_contributor` removes every occurrence (line 181). Because of the
  roster invariant, this removes exactly one element when the address is present
  (`Sequences.WithoutDistinct`) and none when it is absent.
- The guard `!validated_address` (line 158) also rejects a validator result that
  is the empty string, because that string is falsy. `Admits` models this.

## Model

| member | source | states |
|---|---|---|
| `Sequences.Without` | client/DeployForm.tsx:181 | the filtered list does not contain the removed value and is no longer than the input |
| `Sequences.WithoutMember` | client/DeployForm.tsx:181 | a value is in the filtered list exactly when it was in the input and is not the removed value |
| `Sequences.WithoutAppend` | client/DeployForm.tsx:181 | filtering a concatenation filters each part, so the kept elements stay in their original relative order |
| `Sequences.WithoutAbsent` | client/DeployForm.tsx:181 | removing a value that does not occur leaves the list unchanged |
| `Sequences.WithoutIdempotent` | client/DeployForm.tsx:181 | filtering a second time by the same value changes nothing |
| `Sequences.WithoutMultiset` | client/DeployForm.tsx:181 | every occurrence of the value is gone and every other value keeps its number of occurrences |
| `Sequences.WithoutLength` | client/DeployForm.tsx:181 | the list shrinks by exactly the number of occurrences of the removed value |
| `Sequences.WithoutDistinct` | client/DeployForm.tsx:181 | in a list without duplicates, removing the value at index i gives the list with index i dropped, one element shorter |
| `Sequences.WithoutKeepsDistinct` | client/DeployForm.tsx:181 | filtering a duplicate-free list leaves it duplicate-free |
| `Sequences.AppendAbsentKeepsDistinct` | client/DeployForm.tsx:158-160 | appending a value not yet present keeps a list duplicate-free |
| `Sequences.ReplaceAt` | client/DeployForm.tsx:104 | replacing one index keeps the length of the list |
| `Sequences.ReplaceAtIndex` | client/DeployForm.tsx:104 | after an edit at index i, index i holds the new value and every other index holds its old value |
| `Sequences.ReplaceAtOutside` | client/DeployForm.tsx:104 | an edit at an index outside the list changes nothing |
| `Sequences.ReplaceAtSame` | client/DeployForm.tsx:104 | writing back the value already at index i changes nothing |
| `Sequences.ReplaceAtTwice` | client/DeployForm.tsx:104 | a second edit at the same index overrides the first |
| `Sequences.RemoveAt` | client/DeployForm.tsx:106 | dropping an index inside the list shortens it by one; an index outside leaves the length alone |
| `Sequences.RemoveAtOutside` | client/DeployForm.tsx:106 | dropping an index outside the list changes nothing |
| `Sequences.RemoveAtSplit` | client/DeployForm.tsx:106 | dropping index i keeps the elements before and after i, in order |
| `Sequences.RemoveAtLastAppended` | client/DeployForm.tsx:106-110 | removing the entry that "Add Member" appended gives back the previous list |
| `Forms.StripCommasSpec` | client/DeployForm.tsx:54-55 | the stripped amount has no comma, loses nothing but commas, is unchanged by a second strip, and equals an input that had no comma |
| `Forms.StripCommasAppend` | client/DeployForm.tsx:54-55 | stripping works piece by piece, so the digits keep their order |
| `Forms.StripCommas` | client/DeployForm.tsx:54-55 | the stripped amount contains no comma and is shorter than the input by exactly its number of commas |
| `Forms.SubmitParams` | client/DeployForm.tsx:43-58 | no call exactly when the target, the target share or a deadline is null; otherwise the other values are passed unchanged and each amount is `StripCommas` of the input: no comma, only commas removed, unchanged by a second strip |
| `Forms.DeployForm.constructor` | client/DeployForm.tsx:27-38 | the initial field values: default token and residual, the two initial members, the initial amounts and the two deadlines |
| `Forms.DeployForm.EditMember` | client/DeployForm.tsx:104 | the member list keeps its length, index i takes the typed value and every other member is unchanged |
| `Forms.DeployForm.RemoveMember` | client/DeployForm.tsx:106 | the member list loses index i and keeps the others in order |
| `Forms.DeployForm.AddMember` | client/DeployForm.tsx:110 | exactly one empty member is appended at the end |
| `Forms.DeployForm.OnSubmit` | client/DeployForm.tsx:43-62 | the callback receives `SubmitParams` of the fields; the event's default is prevented and propagation stopped only when the callback is called |
| `Forms.Admits` | client/DeployForm.tsx:158 | an admitted validated value is present and not yet in the roster, and appending it keeps a duplicate-free roster duplicate-free |
| `Forms.AddContributor` | client/DeployForm.tsx:160 | the old roster is a prefix of the new one, which grows by at most one, and grows exactly when the value is admitted |
| `Forms.AddContributorSpec` | client/DeployForm.tsx:155-163 | an accepted attempt appends exactly the validated address at the end; a rejected one changes nothing; afterwards a truthy validated address is in the roster |
| `Forms.AddContributorKeepsDistinct` | client/DeployForm.tsx:158-160 | an attempt never adds a duplicate or an empty string to the roster |
| `Forms.SecondAttemptRejected` | client/DeployForm.tsx:156-158 | a second raw string that validates to the same value as the first is rejected and leaves the roster unchanged |
| `Forms.InsertionOrderScenario` | client/DeployForm.tsx:155-182 | adding three distinct addresses gives them in insertion order; removing the middle one leaves the outer two |
| `Forms.DeployForm2.constructor` | client/DeployForm.tsx:148-149 | the roster starts empty and the pending input starts as the empty string |
| `Forms.DeployForm2.ContributorOnChange` | client/DeployForm.tsx:151-153 | the pending input takes the typed value without validation |
| `Forms.DeployForm2.AttemptAddContributor` | client/DeployForm.tsx:155-164 | returns true exactly when the validated address is truthy and absent; then it is appended and the pending input cleared; on false neither field changes; the roster invariant is kept |
| `Forms.DeployForm2.ContributorOnKeyDown` | client/DeployForm.tsx:166-172 | Enter attempts the pending input and always prevents the default and stops propagation; any other key changes nothing |
| `Forms.DeployForm2.ContributorOnPaste` | client/DeployForm.tsx:174-178 | the pasted text is attempted; the default paste is prevented when it was added and left as it was otherwise |
| `Forms.DeployForm2.RemoveContributor` | client/DeployForm.tsx:180-182 | the address is gone, the list is unchanged when it was absent, exactly its index is dropped when it was present, and the invariant is kept |
| `Forms.ContributorScenario` | client/DeployForm.tsx:155-182 | on a fresh roster an invalid string is refused, a valid address is added, the same address is then refused and the roster stays the one address, and removing it leaves the roster empty |

## Left out

- Rendering, MUI components and styling (lines 64-144, 184-232) are out: they are pure UI.
- The number mask `useIMask` (lines 40-41) is out: it is an external library. The date pickers and `nextMonday`/`startOfDay` (lines 24-25, 123-140) are out too. The constructor of `DeployForm` takes the two initial deadlines as parameters.
- The `Number(...)` conversion of the deadlines (lines 56-57) is not modelled. A deadline is its millisecond time value, so the conversion is the identity.
- The text field, picker and mask setters (lines 40-41, 87, 93, 97, 127, 134) are out. Each assigns one field from its widget, and the fields of `DeployForm` are public.
- `shorten_address` and `randomcolor` (lines 190-191) are out: they only affect display.
- The body of `validate_address` is not part of this model. It is the uninterpreted `DeployForm2.validate`.
- The default token from `process.env` (line 20) is a constructor parameter.
- React state batching and re-rendering are out. Each handler is modelled as one atomic update of the object's fields, as each runs within one event callback and reads the state of the last render.
- The deployment callback `onSubmit` is an external boundary. `OnSubmit` returns the value it would receive.
- The browser's own default actions (inserting pasted text, submitting the form) are not modelled. Only whether the handler prevents them is modelled.
