# CustomTable data core, modelled in Dafny

`src/components/Table.jsx` renders an editable table of people (`key`, `name`,
`age`). Beneath the widgets sits a small data core, and this project models
and proves it:

- **Record list** (`records.dfy`, module `Records`). The `records` state is a
  `seq<Rec>`. There are three list transforms. Delete-by-key is a filter.
  Edit-by-key is a map that overwrites `name` and `age` and keeps `key`. Add
  appends a row whose key the caller supplies. Lemmas state each transform's
  effect and the key-uniqueness invariant.
- **Dialog state** (`table_state.dfy`, module `TableState`). Class
  `CustomTable` holds the three state fields: `records`, `selectedRecord` and
  `isModalOpen`. Its methods are the component's handlers: open for add, open
  for edit, delete, cancel and submit. `DialogMode` reads the fields as the
  three-state machine Closed / AddOpen / EditOpen.
- **Column callbacks** (`columns.dfy`, module `Columns`). This covers the
  name filter (case-insensitive containment), the age filter (containment in
  the age's decimal text) and the numeric age comparator.

Two inputs come from outside the component. They are parameters of
`HandleModalSubmit`:
- the outcome of the form's validation, as a `Validation` value: `Passed(values)` or `Rejected`;
- the clock reading `Date.now()` that keys a new row, as `now`.

Behaviour of the code worth stating:
- Editing a key that no row has is not an error. The list stays as it was
  (`EditAbsent`), and the dialog still closes.
- Keys are unique only if the clock gives a key that is not already in use.
  `AddKeepsUnique` proves that keys are unique after an add exactly when
  they were unique before and the new key is fresh.
- The model enforces no bounds on names or ages. The form's `required` and
  `min`/`max` rules belong to the widget library, and the model only sees
  their outcome.
- Closing the dialog does not clear `selectedRecord`. Only `ShowAddModal`
  resets it.

## Model

| member | source | states |
|---|---|---|
| Records.Delete | src/components/Table.jsx:25-27 | the result holds exactly the rows whose key differs from the deleted key; no row of the result carries that key; the list never grows |
| Records.DeleteAppend | src/components/Table.jsx:26 | deleting distributes over concatenation, so the remaining rows keep their relative order |
| Records.DeleteCount | src/components/Table.jsx:26 | every row with the key is removed, every other row keeps its multiplicity |
| Records.DeleteUnchanged | src/components/Table.jsx:26 | a delete leaves the list unchanged if and only if no row has the key |
| Records.DeleteIdempotent | src/components/Table.jsx:25-27 | deleting the same key a second time changes nothing |
| Records.DeleteKeepsUnique | src/components/Table.jsx:25-27 | a delete preserves key uniqueness |
| Records.Edit | src/components/Table.jsx:34-38 | an edit preserves the list length and the key sequence (every row's key at every position) |
| Records.EditAt | src/components/Table.jsx:35-37 | at each position: a row with the edited key becomes `{key, submitted name, submitted age}`, any other row is untouched |
| Records.Overwrite | src/components/Table.jsx:36 | the spread `{ ...item, ...values }` keeps the row's key and takes name and age from the form values |
| Records.EditAbsent | src/components/Table.jsx:34-38 | editing a key no row has leaves the list unchanged |
| Records.EditLastWins | src/components/Table.jsx:34-38 | two edits of one key equal the second edit alone |
| Records.EditKeepsUnique | src/components/Table.jsx:34-38 | keys are unique after an edit exactly when they were before |
| Records.Add | src/components/Table.jsx:40-43 | an add appends exactly one row `{now, name, age}` and leaves the existing prefix unchanged |
| Records.AddKeepsUnique | src/components/Table.jsx:40-43 | keys are unique after an add if and only if they were unique before and the new key was not yet present |
| Records.AddThenDelete | src/components/Table.jsx:25-43 | deleting the key of a row just added with a fresh key restores the list |
| Records.AddThenEdit | src/components/Table.jsx:33-43 | editing a row just added with a fresh key gives the same list as adding it with the edited values |
| TableState.CustomTable.DialogMode | src/components/Table.jsx:157-158 | the dialog is Closed iff `isModalOpen` is false, in AddOpen iff it is open with no selection, and in EditOpen(r) only when `r` is selected |
| TableState.CustomTable.constructor | src/components/Table.jsx:7-9 | the initial state: no rows, no selection, dialog closed |
| TableState.CustomTable.ShowAddModal | src/components/Table.jsx:13-17 | clears the selection and opens the dialog in AddOpen; rows unchanged |
| TableState.CustomTable.ShowEditModal | src/components/Table.jsx:19-23 | selects the given row and opens the dialog in EditOpen of that row; rows unchanged |
| TableState.CustomTable.DeleteRecord | src/components/Table.jsx:25-27 | the new list is the delete of the old one; the key is gone; the membership characterisation holds; uniqueness is kept; the dialog state is unchanged |
| TableState.CustomTable.CancelModal | src/components/Table.jsx:160 | closes the dialog; rows and selection unchanged |
| TableState.CustomTable.HandleModalSubmit | src/components/Table.jsx:29-50 | a rejected validation changes nothing. On success, a selection means the selected key is edited, no selection means a row keyed `now` is appended, and the dialog closes. The selection is untouched. Uniqueness is kept whenever an added key is fresh |
| TableState.AddEditDeleteSession | src/components/Table.jsx:13-50 | add Alice, then edit her to Alicia, then delete her key: the lists are `[Alice]`, `[Alicia]`, `[]` |
| Columns.IncludesStep | src/components/Table.jsx:82 | when the query is not a prefix of the text, it occurs in the text iff it occurs in the text without its first character |
| Columns.Includes | src/components/Table.jsx:82 | `includes`: the left-to-right scan succeeds if and only if the query occurs at some index of the text |
| Columns.Lower | src/components/Table.jsx:82 | `toLowerCase`: same length, every character mapped by ASCII lower-casing |
| Columns.NameFilter | src/components/Table.jsx:82 | the name filter accepts a row if and only if the lower-cased query occurs in the lower-cased name |
| Columns.NameFilterIgnoresCase | src/components/Table.jsx:82 | the lower-cased or upper-cased query selects exactly the rows the query itself selects |
| Columns.NameFilterCaseInsensitive | src/components/Table.jsx:82 | two queries that differ only in letter case (equal position by position after lower-casing) select the same rows |
| Columns.LowerIdempotent | src/components/Table.jsx:82 | lower-casing twice is the same as lower-casing once |
| Columns.LowerOfUpper | src/components/Table.jsx:82 | lower-casing an upper-cased text equals lower-casing the text |
| Columns.NameFilterEmpty | src/components/Table.jsx:82 | the empty query accepts every row |
| Columns.NameFilterExample | src/components/Table.jsx:82 | the query "jo" accepts "John" and rejects "Jane" |
| Columns.NatTextRoundTrip | src/components/Table.jsx:113 | reading back the decimal text of a natural number gives the number |
| Columns.IntText | src/components/Table.jsx:113 | the decimal text of an integer (`toString` for magnitude at most 2^53): non-empty, a leading '-' exactly for negative values, then digits with no leading zero that read back as the magnitude; 0 is exactly `"0"` |
| Columns.IntTextInjective | src/components/Table.jsx:113 | different ages have different decimal texts |
| Columns.AgeFilter | src/components/Table.jsx:113 | the age filter accepts a row if and only if the query occurs in the decimal text of its age |
| Columns.AgeFilterOwnAge | src/components/Table.jsx:113 | a row passes the filter for its own age, and the empty query passes every row |
| Columns.AgeFilterExample | src/components/Table.jsx:113 | the filter is containment, not equality: "3" accepts ages 30 and 13 and rejects 25 |
| Columns.AgeCompare | src/components/Table.jsx:88 | the comparator is negative, zero or positive exactly when the first age is less than, equal to or greater than the second |
| Columns.AgeCompareOrder | src/components/Table.jsx:88 | the comparator is antisymmetric (swapping the arguments negates it) and transitive |

## Left out

- Rendering: the table, dialog, form, inputs, buttons, icons, pagination (five rows per page) and the Russian labels. These are presentation only.
- The form's own state: `form.resetFields()` clears the dialog's fields and `form.setFieldsValue(record)` pre-fills them with the row being edited. This happens inside the widget library. The model receives only the outcome of `validateFields()`.
- Validation rules: `required`, and `min`/`max` on the age input. The library enforces them out of sight, so the outcome is an input of `HandleModalSubmit`. The model does not trim, clamp or range-check.
- Key generation: `Date.now()` is a clock read, so the model takes it as the parameter `now`.
- The name column's sorter, `localeCompare`, is a locale-dependent library call. It is not modelled.
- Applying filters and sorting rows is done by the table widget, which is not visible. The model does not cover how several filters combine or whether the sort is stable.
- The filter dropdowns' wiring (`setSelectedKeys`, `confirm`, `clearFilters`) is not modelled. This includes how the age input's value is turned into the query text: `String(value)`, with the filter cleared when `value` is falsy.
- React plumbing: hooks, batching of setter calls, the promise chain and the `console.log` on a rejected validation. Handlers are modelled as sequential state changes.
- Columns.Lower, Columns.NameFilter and the other name-filter members use ASCII lower-casing. `toLowerCase()` uses full Unicode case mapping, which is not modelled.
- Columns.IntText, Columns.AgeFilter and Columns.AgeCompare treat ages as unbounded integers written in plain decimal. JavaScript numbers are doubles, so the model differs from the source for three kinds of age. Some integers of magnitude above 2^53 and below 10^21 print differently, because JavaScript prints the shortest digits that read back as the same double: `(2**64).toString()` is `"18446744073709552000"`, not the exact digits. Others in that range print exactly, e.g. `(2**53 + 2).toString()` is `"9007199254740994"`, and integers that are not doubles cannot be ages at all. Integers of magnitude 10^21 or more are printed in exponent notation, e.g. `"1e+21"`. Ages that are not whole numbers, such as 25.5, have texts like `"25.5"`. The subtraction in the comparator also rounds for such values. The age input's `min`/`max` of 1 to 100 keeps the large integers out. It does not keep out non-whole ages: the input has no precision setting and no integer rule, so the form accepts 25.5. Those ages are not modelled.
