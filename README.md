# OKVED directory diff

This project models `get_diff` from `main.py`. The function compares two
snapshots of the OKVED classification directory. Each snapshot is a list of
`DirectoryOkved` records, each with an integer `id`, a string `code` and a
string `name`. The function produces the rows of an HTML report. Each row
(`TableRecord`) pairs a record with one of four states: `unmodified`,
`updated`, `new` or `deleted`.

The Dafny module `OkvedDiff` (file `okved_diff.dfy`) contains:

- the datatypes `Record`, `State` and `TableRecord`. Dafny's datatype equality
  stands for pydantic's field-wise `==`.
- the imperative methods `IndexAfter`, `VisitBefore` and `GetDiff`. They hold
  the Python dict as a sequence of keys in insertion order plus a `map` from
  id to row, and they follow the source's two loops:
  - `IndexAfter` is the first loop. It walks the after list and writes each
    record as `New` under its id. A repeated id keeps its first position and
    takes the later value.
  - `VisitBefore` is one pass of the second loop over a before record. An
    unknown id gets a `Deleted` row. A known id keeps its record, and its state
    becomes `Unmodified` or `Updated` depending on whether the before record
    equals it.
  - `GetDiff` runs `IndexAfter`, loops `VisitBefore` over the before list, and
    reads the rows out in key order.
- `Diff`, a declarative reference definition. It gives the output order
  (`KeyOrder`) and each id's row (`Entry`). An after id's row is decided by its
  last after record and its last before record. A before-only id's row is
  decided by its first and last before records and by how many before records
  carry it. `GetDiff` is proved to return exactly `Diff(l1, l2)`.
- lemmas about `Diff`: coverage, contents and order when ids are unique,
  the edge cases, and what happens when an id is repeated.

Repeated ids inside one list are modelled as the code handles them. No
uniqueness precondition is placed on `GetDiff`. One might expect a later
duplicate to simply overwrite an earlier one. That is what the code does for
the after list. For the before list, the code does something else, and the
model follows the code. If an id is absent from the
after list, its second occurrence in the before list is compared with the
first occurrence. The row then keeps the first record and is retagged
`unmodified` or `updated`, not `deleted` (`BeforeRepeated`).

## Model

| member | source | states |
|---|---|---|
| `OkvedDiff.GetDiff` | main.py:20-46 | The two loops over the dict return exactly the reference diff, for all inputs including repeated ids. |
| `OkvedDiff.IndexAfter` | main.py:34-36 | After the first loop, the keys are the after ids in first-occurrence order, the dict holds exactly the after ids, and each id's row is its last after record tagged `New`. |
| `OkvedDiff.VisitBefore` | main.py:38-44 | One pass over a before record moves the dict from the state for the before records seen so far to the state for one more. The key order, the key set and every row match the reference after the step. |
| `OkvedDiff.DistinctIds` | main.py:35-36 | The keys the first loop inserts, in insertion order. Every one is an id of the after list. |
| `OkvedDiff.BeforeOnlyIds` | main.py:39-40 | The keys the second loop appends, in insertion order. Every one is a before id that the after list lacks. |
| `OkvedDiff.KeyOrder` | main.py:46 | The dict's final insertion order is the after keys followed by the appended before-only keys. Every key is an id of one of the lists. |
| `OkvedDiff.Diff` | main.py:34-46 | The reference output has one row per key of the final insertion order, in that order, and each row carries a record whose id is that key. |
| `OkvedDiff.Entry` | main.py:34-44 | The row of an id carries a record with that id. It is `New` exactly when the before list lacks the id. An id present in both lists always ends `Unmodified` or `Updated`, so the two-branch check is exhaustive. |
| `OkvedDiff.EntryStep` | main.py:38-44 | One more before-side record changes only the row of its own id. An unknown id gains a `Deleted` row with that record. A known id keeps its record, and its state becomes `Unmodified` if the new record equals it and `Updated` otherwise. |
| `OkvedDiff.FirstWithIndex` | main.py:38-40 | The record kept for a before-only id is the one at the least index with that id. |
| `OkvedDiff.LastWithIndex` | main.py:35-36 | The record kept for an after id is the one at the greatest index with that id, because later writes to a key overwrite earlier ones. |
| `OkvedDiff.DistinctIdsProps` | main.py:34-36 | The after list's keys in insertion order are free of repeats, hold every after id, and are as many as the distinct after ids. |
| `OkvedDiff.BeforeOnlyIdsProps` | main.py:38-40 | The keys appended by the before loop are free of repeats, hold every before id missing from the after list, and are as many as such ids. |
| `OkvedDiff.KeyOrderProps` | main.py:34-46 | The final key order holds every id of either list exactly once, and its length is the number of distinct ids across both lists. |
| `OkvedDiff.DiffIds` | main.py:34-46 | Every id of either list appears in exactly one output row, and no other id appears. The output length is the number of distinct ids across both lists. |
| `OkvedDiff.DistinctIdsUnique` | main.py:35-36 | With unique after ids, the insertion order is the after list's order. |
| `OkvedDiff.BeforeOnlyIdsUnique` | main.py:38-40 | With unique before ids, the appended keys are the ids of the before-only records, in before-list order. |
| `OkvedDiff.DiffUnique` | main.py:34-46 | With unique ids on each side, the output starts with the after records in after-list order. Each is `New` if its id is missing from the before list, `Unmodified` if the before list holds that exact record, and `Updated` otherwise, carrying the after-side record. The before-only records follow in before-list order, each `Deleted` with its before-side record. |
| `OkvedDiff.DiffSame` | main.py:34-46 | Diffing a list against itself tags every row `Unmodified`. With unique ids, the rows are the list's own records in order. |
| `OkvedDiff.DiffEmptyBefore` | main.py:34-46 | Against an empty before list, every row is `New`. With unique ids, the rows are the after list's records in order. |
| `OkvedDiff.DiffEmptyAfter` | main.py:34-46 | For a before list with unique ids against an empty after list, every record is `Deleted`, in order. |
| `OkvedDiff.DistinctIdsPrefix` | main.py:35-36 | A key never moves once inserted: the keys inserted after any number of steps of the first loop are a prefix of the final keys. |
| `OkvedDiff.AfterRow` | main.py:35-36 | For any inputs, the row of an after id sits at the position where its first occurrence was inserted and carries the record of its last occurrence. |
| `OkvedDiff.BeforeRepeated` | main.py:38-44 | For any inputs, an id that the after list lacks and the before list carries at least twice has a row holding its first before record. The row is `Unmodified` if its last before record equals the first and `Updated` otherwise, never `Deleted`. |
| `OkvedDiff.AfterDuplicate` | main.py:35-36 | Example: after list `[a, b, c]`, where `a` and `c` share an id, against an empty before list gives `c` as `New` in `a`'s position, then `b` as `New`. |
| `OkvedDiff.BeforeDuplicate` | main.py:38-44 | Example: before list `[r, s]` of one repeated id against an empty after list gives one row with `r`, `Unmodified` if `r == s` and `Updated` otherwise. |
| `OkvedDiff.RenamedExample` | main.py:41-44 | A record whose name changed gives one `Updated` row carrying the new name. |
| `OkvedDiff.MixedExample` | main.py:34-46 | Before `[1, 2]` and after `[2, 3]` give 2 `Unmodified`, then 3 `New`, then 1 `Deleted`. |

## Left out

- `render_output` (main.py:49-66): it reads `./template.html`, renders it with Jinja2 (a foreign template library) and writes `./output.html`. This is file I/O and foreign code.
- The `__main__` block (main.py:69-73): it loads two JSON files with pydantic's `parse_file_as`. This is file I/O and foreign validation code.
- Pydantic's runtime check of the `Literal` state field (main.py:17): the enum datatype `State` makes any other state impossible, so there is no validation to model.
- The output rows are plain dicts in the source (main.py:36, main.py:40). They are modelled as `TableRecord` values with the same two fields.
- The in-place update of a row's `state` field (main.py:42, main.py:44) is modelled as storing an updated copy of the row under the same key. No row is shared outside the dict, so no aliasing is lost.
