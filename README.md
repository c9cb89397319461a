# Journal: a verified model of the Single Responsibility example

The Single Responsibility example keeps a `Journal`: an in-memory list of text
entries plus a counter. `add_entry(text)` appends `"<count>: <text>"` and then
increments the counter. `remove_entry(pos)` deletes the entry at a list position
with Python `del` semantics: a negative position counts from the end, and a
position outside the list raises `IndexError`. `__str__` joins the entries with
newlines.

The model has four modules:

- `Journals` (journal.dfy) holds the journal itself, told twice.
  - `Snapshot(entries, count)` is the journal's state as a value. The functions
    `Empty`, `Added`, `Removed` and `Rendered` are the constructor, `add_entry`,
    `remove_entry` and `__str__` on that value. `Step` and `Run` apply a
    sequence of calls.
  - `class Journal` has the same two fields and updates them in place. Each
    method promises that its new state is what those functions give from the
    old state.
  - The numbering invariant `WellNumbered` is stated on the entry strings
    themselves. `EntryNumber` reads each entry's leading number back. Every
    number is below `count`, and the numbers strictly increase along the list.
    Because `remove_entry` never touches `count`, a number is never issued twice.
- `Decimal` (decimal.dfy) renders a `nat` in decimal, as `f"{n}"` does, and reads
  a digit string back.
- `Strings` (strings.dfy) has `Join`, which is `sep.join(parts)`, and `Split`,
  which is `s.split(c)`. Joining the pieces of any split gives the string back.
  Splitting a join gives the parts back only when there is at least one part and
  no part contains the separator.
- `Wrappers` (wrappers.dfy) has the `Option`, `Outcome` and `Result` types.

The functions `Added`, `Removed`, `Rendered`, `Step` and `Run` carry no contracts
of their own. The lemmas below state their properties.

`add_entry` accepts text that contains a newline, for example
`add_entry("a\nb")`. The rendering then no longer determines the entries, since
one entry reads as two lines. `RenderedSplits` therefore recovers the entries
only when no entry contains a newline.

## Model

| member | source | states |
|---|---|---|
| `Journals.Empty` | SOLID/single_responsibility.py:11-13 | no contract of its own; it is the state `Journal.constructor` is proved to produce; `FromEmptyAtMostCount` starts from it |
| `Journals.FormatEntry` | SOLID/single_responsibility.py:16 | no contract of its own; `EntryNumberOfFormat` reads the number and the text back out of it |
| `Journals.Added` | SOLID/single_responsibility.py:15-17 | no contract of its own; `AddedEffect`, `AddedPreserves` and `RenderedAdded` state its properties |
| `Journals.Removed` | SOLID/single_responsibility.py:19-20 | no contract of its own; `RemovedEffect` and `RemovedPreserves` state its properties |
| `Journals.Rendered` | SOLID/single_responsibility.py:22-23 | no contract of its own; `RenderedEmpty`, `RenderedSingle`, `RenderedEndsWithLast`, `RenderedSplits` and `RenderedAdded` state its properties |
| `Journals.Step` | SOLID/single_responsibility.py:15-20 | no contract of its own; one call to one method, where a failed removal leaves the state unchanged |
| `Journals.Run` | SOLID/single_responsibility.py:15-20 | no contract of its own; `RunPreserves`, `RunCount` and `FromEmptyAtMostCount` state its properties |
| `Strings.Join` | SOLID/single_responsibility.py:23 | no contract of its own; `JoinAppend`, `JoinEndsWithLast`, `SplitJoin` and `JoinSplit` state its properties |
| `Decimal.FromNat` | SOLID/single_responsibility.py:16 | the rendering of the counter in the f-string is non-empty, all digits, and has no leading zero |
| `Decimal.ValueOfFromNat` | SOLID/single_responsibility.py:16 | reading the decimal rendering back gives the number it was rendered from |
| `Decimal.FromNatInjective` | SOLID/single_responsibility.py:16 | different counter values produce different prefixes |
| `Journals.EntryNumberOfFormat` | SOLID/single_responsibility.py:16 | an entry `f"{n}: {text}"` reads back as number n and text `text`, whatever the text is, even when it starts with digits |
| `Journals.Journal.constructor` | SOLID/single_responsibility.py:11-13 | a new journal has no entries, its counter is 0, and it is well numbered |
| `Journals.AddedEffect` | SOLID/single_responsibility.py:15-17 | adding grows the list by exactly one and keeps every earlier entry; the new last entry carries the old counter as its number and the given text after `": "`; the counter rises by one |
| `Journals.AddedPreserves` | SOLID/single_responsibility.py:15-17 | adding keeps the numbering invariant, and the new entry's number is above every number already present |
| `Journals.Journal.AddEntry` | SOLID/single_responsibility.py:15-17 | the object's new fields are `Added` of its old fields, and the numbering invariant is kept |
| `Journals.ResolveIndex` | SOLID/single_responsibility.py:20 | a position resolves if and only if it lies in [-len, len); the resolved index is below len and congruent to the position modulo len, so a negative position counts from the end |
| `Journals.RemovedEffect` | SOLID/single_responsibility.py:19-20 | removal succeeds exactly for positions in [-len, len); on success it drops exactly the entry at the resolved index, keeps the others in their order, shrinks the list by one, leaves the counter alone, and the multiset of entries loses only that entry |
| `Journals.RemovedPreserves` | SOLID/single_responsibility.py:19-20 | a successful removal keeps the numbering invariant |
| `Journals.Journal.RemoveEntry` | SOLID/single_responsibility.py:19-20 | reports success exactly when the position is in range; on success the new fields are `Removed` of the old ones; on IndexError nothing changes; the numbering invariant is kept |
| `Journals.EntriesAtMostCount` | SOLID/single_responsibility.py:15-20 | in a well-numbered journal, len(entries) <= count |
| `Journals.NumbersDistinct` | SOLID/single_responsibility.py:15-20 | no two entries of a well-numbered journal carry the same number |
| `Journals.RunPreserves` | SOLID/single_responsibility.py:15-20 | every sequence of add and remove calls keeps the numbering invariant |
| `Journals.RunCount` | SOLID/single_responsibility.py:15-20 | over any sequence of calls the counter rises by exactly the number of additions, so it never decreases |
| `Journals.FromEmptyAtMostCount` | SOLID/single_responsibility.py:11-20 | from a fresh journal, after any sequence of calls, there are never more entries than numbers handed out |
| `Strings.JoinAppend` | SOLID/single_responsibility.py:23 | joining one more part appends the separator and then that part |
| `Strings.JoinEndsWithLast` | SOLID/single_responsibility.py:23 | a join of at least one part ends with its last part |
| `Strings.Split` | SOLID/single_responsibility.py:23 | the partner of the join: pieces free of the separator, one more piece than separators |
| `Strings.SplitJoin` | SOLID/single_responsibility.py:23 | splitting a join of one or more separator-free parts on the separator gives the parts back |
| `Strings.JoinSplit` | SOLID/single_responsibility.py:23 | joining the pieces of any split with the separator gives the original string back |
| `Journals.Journal.ToString` | SOLID/single_responsibility.py:22-23 | an empty journal renders as "" and a one-entry journal renders as that entry |
| `Journals.RenderedEmpty` | SOLID/single_responsibility.py:22-23 | the empty journal's rendering is "" |
| `Journals.RenderedSingle` | SOLID/single_responsibility.py:22-23 | a single entry renders as itself |
| `Journals.RenderedEndsWithLast` | SOLID/single_responsibility.py:22-23 | a non-empty rendering ends with the last entry, so no newline follows it |
| `Journals.RenderedSplits` | SOLID/single_responsibility.py:22-23 | when no entry contains a newline, splitting the rendering on newlines recovers the entries |
| `Journals.RenderedAdded` | SOLID/single_responsibility.py:15-23 | after an addition, the rendering is the new entry alone if the journal was empty, and otherwise the old rendering, a newline and the new entry |
| `Journals.ExampleRendering` | SOLID/single_responsibility.py:39-42 | adding "I cried today." and then "I ate a bug." to a fresh journal renders as "0: I cried today.\n1: I ate a bug." |
| `Journals.Example` | SOLID/single_responsibility.py:39-42 | the same run on a `Journal` object gives that same rendering |

## Left out

- `PersistenceManager.save_to_file` (lines 32-36) and the commented-out `Journal.save` (lines 26-30) are file I/O. `save_to_file` also lacks a `self` parameter, so the call at line 46 would raise a TypeError.
- The module-level demo (lines 39-50) prints, writes a file and reads it back. Only its two `add_entry` calls and the rendering (lines 39-42) are modelled, as `Example`.
- `Journals.Journal.RemoveEntry`: takes an integer position only. Python's `del` also accepts a slice, which would delete a range, and raises TypeError for a non-integer. Neither is modelled.
- `Journals.Journal.AddEntry`: takes a string. The f-string would accept any object and call `str()` on it, which this model does not cover.
- `Journals.Run`: a failed removal leaves the state unchanged, as if the caller had caught the IndexError. `del` does not modify the list before it raises.
- The singleton, factory and abstract-factory examples under `design patterns/` are not part of this model. The double-checked-locking singleton is mainly about thread-safe lazy initialisation, and concurrency is outside this model.
