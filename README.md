# Observation table of an L* maze learner, in Dafny

The learner in `main.py` infers a maze automaton with Angluin's L*. Its
core is the observation table:

- the prefixes `S`, one per row;
- the suffixes `E`, one per column;
- the rows `_T`, where cell `(k, j)` caches the membership answer for
  `S[k] + E[j]`;
- a split point `main_table_end`. Rows `[0, main_table_end)` are the main
  rows and are pairwise distinct. The rest are pending rows.
- an expansion cursor `row_pointer` over the main rows.

Five operations act on the table:

- adding the suffixes of a counterexample as columns;
- appending a prefix row;
- the uniqueness test and the promotion of a pending row, which rotates it
  into the main region;
- the alignment scan, which promotes every pending row that is new;
- the expansion loop, which adds every one-symbol extension of the main
  rows.

The serializer flattens the table into the four text fields sent to the
equivalence oracle.

The model has five modules:

- `ObservationTableObject` (observation_table_object.dfy):
  - The class `ObservationTable` has the source's fields, as `seq` fields that
    its methods reassign:
    - `S` and `E` are `seq<string>`;
    - `_T` is `T: seq<seq<bool>>`, indexed like `S`;
    - `rowPointer` and `mainEnd`.
  - The alphabet `A` and the membership oracle `mem` are constants fixed at
    construction.
  - Each loop of the source is a `while` loop with its invariants.
  - Each method that changes the table states its new `State()` as a
    function of the old one, from `ObservationTables`.
- `ObservationTables` (observation_table.dfy): the table as a value.
  - A `Snapshot` datatype holds the fields as one value.
  - Each operation has a function on snapshots: `WithSuffixes`, `WithPrefix`,
    `Promoted`, `Align`, `ExtendBy`, `ExtendUpTo`, `ExpandRound`, `Expand`
    and `Refined`.
  - The table invariant and its preservation lemmas are stated on snapshots.
  - The invariant, which the class calls `Valid()`:
    - the shape: one row per prefix, `|E|` cells per row, `S[0] == E[0] == ""`,
      `1 <= mainEnd <= |S|` and `rowPointer <= mainEnd`;
    - no duplicate suffixes;
    - every cell is the oracle's answer;
    - the main rows are pairwise distinct;
    - every main row the cursor has passed has all of its one-symbol
      extensions among the prefixes.
- `Sequences` (sequences.dfy): the rotation that promotion performs, and the
  list of suffixes a counterexample contributes.
- `RowCount` (row_count.dfy): the pigeonhole bound. At most `2^|E|` rows of
  width `|E|` are pairwise distinct, so `main_table_end <= 2^|E|`. This bound
  is the termination measure of the expansion loop.
- `Serialization` (serialization.dfy): the request body. A decoder is written
  next to it (`SplitSpaces`, `ParseTable`) so that each field can be shown to
  read back.

The table is created with row 0 equal to `[0]`, and that cell is never sent
to the oracle (main.py:76). The model keeps this. The cell-agreement part of
the invariant covers every cell except `(0, 0)`, which is false.

## Model

| member | source | states |
|---|---|---|
| ObservationTableObject.ObservationTable.constructor | main.py:72-78 | The new table holds prefix `""`, suffix `""`, the single row `[false]`, cursor 0 and one main row; it satisfies the invariant and is closed |
| ObservationTableObject.ObservationTable.AddSuffixes | main.py:80-88 | The new table is exactly `WithSuffixes(mem, old table, word)`: `E` becomes `old(E)` followed by the new suffixes of the word; every old cell is unchanged; every new cell `(k, j)` is `mem(S[k] + E[j])`; prefixes, cursor and main end are unchanged; the invariant is kept |
| ObservationTableObject.ObservationTable.AddSuffix | main.py:82-88 | One iteration of the suffix scan: whether the suffix is new or already a column, the table stays valid and differs from the starting table by exactly the new suffixes scanned so far, as columns of oracle answers |
| ObservationTables.KnownSuffixStep | main.py:83 | A suffix that is already a column is skipped, and the scan's account of new suffixes still holds one step further |
| ObservationTables.NewSuffixStep | main.py:83-88 | Appending a new suffix with one oracle answer per row keeps the invariant and extends the scan's account by that suffix |
| ObservationTables.ScanDone | main.py:80-88 | After all suffixes are scanned, `E` is the old list followed by the new suffixes of the word, old cells are kept, new cells are oracle answers, and prefixes, row count and counters are as before |
| ObservationTableObject.ObservationTable.AddColumn | main.py:84-88 | Appends one suffix and extends every row `k`, in row order, with `mem(S[k] + suffix)`; nothing else changes |
| ObservationTables.SuffixesAdded | main.py:80-88 | A fact about the suffix list: every non-empty suffix of the word is a column, no column is listed twice, and the new ones come shortest first. Given a table whose rows keep their old cells (a premise, established by `AddSuffixes`), the old cells are still found at their old positions. A word whose suffixes are all known, including the empty word, leaves `E` unchanged. It takes no oracle, so it says nothing about the new cells; `AddSuffixes` and `WithSuffixesRows` state those |
| Sequences.SuffixesShortestFirst | main.py:81-82 | Entry `k` is the suffix of the word starting at `|w| - 1 - k`, so the suffixes come shortest first |
| Sequences.UnseenMembers | main.py:83 | The unseen words are exactly the listed words that are not yet known |
| Sequences.UnseenStep | main.py:81-84 | One iteration of the suffix scan: the current suffix is absent from the growing list exactly when it was absent from the original list, so the scan appends exactly the unseen suffixes |
| Sequences.UnseenKeepsOrder | main.py:81-84 | Dropping known suffixes from a shortest-first list keeps it shortest-first |
| Sequences.NewSuffixesProperties | main.py:80-88 | The new suffixes are shortest first; the extended list has no duplicates; it holds every non-empty suffix of the word |
| Sequences.NoNewSuffixes | main.py:80-84 | No suffix is added exactly when every non-empty suffix of the word is already a column |
| Sequences.NewSuffixes | main.py:80-84 | The suffixes a counterexample contributes: at most one per character of the word. Which ones, and in what order, is stated by `NewSuffixesProperties`, `NoNewSuffixes` and `SuffixesShortestFirst` |
| Sequences.UnseenLength | main.py:81-84 | The suffix scan appends at most one suffix per suffix it examines |
| ObservationTables.NewColumnKeepsInvariant | main.py:83-88 | Appending a fresh suffix with one oracle answer per row keeps the invariant; main rows stay distinct because old cells are kept |
| ObservationTables.OldCellsKept | main.py:85-88 | Two valid tables with the same prefixes, whose suffix lists extend one another, agree on the cells of the shorter list |
| ObservationTables.WithSuffixes | main.py:80-88 | The table after `add_suffixes`, as a function: the prefixes, row count, cursor and main end are unchanged, and `E` is the old list followed by the new suffixes of the word |
| ObservationTables.WithSuffixesRows | main.py:85-88 | Every row of `WithSuffixes` is the old row followed by the oracle's answers for its prefix and each new suffix |
| ObservationTables.WithSuffixesRow | main.py:85-88 | The same, for one row `k`: the old cells first, then `mem(S[k] + E[j])` in each new column `j` |
| ObservationTables.SuffixesKeepInvariant | main.py:80-88 | Adding the new suffixes of any word to a valid table gives a valid table |
| ObservationTables.ColumnsKeepInvariant | main.py:83-88 | Appending columns without duplicates to a valid table, keeping the old cells and filling the new ones with oracle answers, keeps the invariant |
| ObservationTables.SuffixCellsTable | main.py:80-88 | A table with the old prefixes, the old suffixes followed by the new ones, the old cells kept and oracle answers in the new cells is exactly `WithSuffixes` of the old table; so the table the loop builds is the one the function describes |
| ObservationTables.CellsDetermined | main.py:85-93 | Two shaped tables with the same prefixes and suffixes, whose cells all answer the same oracle, have the same rows: the cells are determined by the words they cache |
| ObservationTableObject.ObservationTable.AddNewPrefix | main.py:90-93 | Appends exactly the prefix, and the row whose cell `j` is `mem(prefix + E[j])`; earlier prefixes and rows are unchanged; the invariant is kept |
| ObservationTables.Cells | main.py:92 | The new row has one cell per suffix, and cell `j` is `mem(prefix + E[j])` |
| ObservationTables.WithPrefix | main.py:90-93 | `add_new_prefix` as a function: the prefixes gain `p` at the end and keep the old ones in front; the rows gain one row at the end whose cell `j` is `mem(p + E[j])` and keep the old ones; `E`, the cursor and `mainEnd` are unchanged |
| ObservationTables.NewRowKeepsInvariant | main.py:90-93 | Appending a pending row of oracle answers keeps the invariant |
| ObservationTables.NewRowIsGrown | main.py:90-93 | Appending a row keeps the main rows in place and every old prefix present |
| ObservationTableObject.ObservationTable.IsUniqueRow | main.py:109-113 | True exactly when row `i` differs from every main row |
| ObservationTables.DiffersFromAll | main.py:110-113 | True exactly when the row differs from each of the first `n` rows |
| ObservationTableObject.ObservationTable.MoveToMainTable | main.py:115-128 | `S` and the rows become the rotation of `[mainEnd, r]`, so row `r` lands at the old `mainEnd`; `mainEnd` grows by one; `E` and the cursor are unchanged |
| ObservationTableObject.ObservationTable.ShiftPendingRows | main.py:119-123 | The downward copy loop leaves every entry `k` of `S` and of the rows equal to the old entry `k - 1` for `lo < k <= r`, and to the old entry `k` everywhere else, slot `lo` included; lengths, `E`, the cursor and `mainEnd` are unchanged. Writing the old entry `r` into slot `lo` afterwards gives the rotation (`ShiftThenWriteIsRotation`, used by `MoveToMainTable`) |
| Sequences.Rotate | main.py:119-127 | The rotation that promotion performs keeps the length; where each entry lands is `RotateEntries`, and that it only permutes is `RotatePermutes` |
| ObservationTables.Promoted | main.py:115-128 | The table after promoting row `r`: `mainEnd` grows by one; `E`, the cursor and the number of rows and prefixes are unchanged. The prefixes and rows are the rotations of `[mainEnd, r]` |
| Sequences.RotateEntries | main.py:115-128 | In the rotation of `[lo, hi]`, the promoted entry `hi` lands at `lo`; entries in `[lo, hi)` move up by one, unchanged by value; entries outside `[lo, hi]` are untouched |
| Sequences.RotatePermutes | main.py:115-128 | The rotation has the same multiset of entries as the sequence it rotates |
| Sequences.ShiftThenWriteIsRotation | main.py:119-127 | Shifting `[lo, r)` one place later and then writing the old entry `r` at `lo` equals the rotation |
| ObservationTables.PromotionKeepsInvariant | main.py:105-106 | Promoting a row that differs from every main row keeps the invariant |
| ObservationTables.PromotedShape | main.py:115-128 | Promotion keeps the shape |
| ObservationTables.PromotedCells | main.py:115-128 | Promotion moves each row together with its prefix, so every cell still answers its own word |
| ObservationTables.PromotedDistinct | main.py:105-106 | Promoting a unique row keeps the main rows pairwise distinct |
| ObservationTables.PromotedExpanded | main.py:115-128 | Promotion loses no prefix, so the extensions already present stay present |
| ObservationTableObject.ObservationTable.AlignRows | main.py:102-107 | The new table is exactly `Align(old table, old mainEnd)`: the scan's outcome, including which rows are promoted and in which order. Afterwards the invariant holds and every pending row equals some main row; prefixes and rows are permuted only; the main rows from before stay in place; `mainEnd` does not decrease; `E` and the cursor are unchanged |
| ObservationTableObject.ObservationTable.ScanRow | main.py:104-107 | One iteration of the scan at row `index`: the new table is `Promoted(old table, index)` when row `index` differs from every main row, and the old table otherwise; aligning the old table from `index` gives the same table as aligning the new one from `index + 1` |
| ObservationTables.Align | main.py:102-107 | The scan from row `index` to the end, as a function: each row in turn is promoted when it differs from every main row at that moment. Row count, `E` and cursor are unchanged, and `mainEnd` does not decrease |
| ObservationTables.AlignedTable | main.py:102-107 | Aligning a valid table gives a valid table in which every pending row equals a main row, and which is a reordering of the old one that keeps its main rows in place |
| ObservationTables.AlignKeepsInvariant | main.py:104-107 | The scan from any row keeps the invariant |
| ObservationTables.ScanStepKeepsInvariant | main.py:105-107 | One scan step keeps the invariant and moves the scan on by one row |
| ObservationTables.AlignCloses | main.py:104-107 | When the rows before `index` match main rows, the scan from `index` leaves every pending row matching a main row |
| ObservationTables.ScanStepMatches | main.py:105-107 | One scan step, whether it promotes or not, leaves every row up to `index` matched |
| ObservationTables.AlignReorders | main.py:104-107 | The scan from any row only reorders the pending rows: the same multisets of prefixes and rows, the main rows from before in place |
| ObservationTables.ScanStepReorders | main.py:105-107 | One scan step only reorders the pending rows |
| ObservationTables.MatchedRowsStay | main.py:104-107 | On a table whose pending rows all match main rows, the scan promotes nothing and returns the table unchanged |
| ObservationTables.AlignIdempotent | main.py:102-107 | A second scan over an aligned table changes nothing |
| ObservationTables.PromotionKeepsMatched | main.py:105-107 | After promoting row `index`, the rows it passed, now one slot later, still match main rows; so the scan may continue at `index + 1` |
| ObservationTables.PromotionReorders | main.py:102-107 | A promotion is a reordering that keeps earlier main rows in place; reorderings compose |
| ObservationTables.ReorderedIsGrown | main.py:102-107 | A reordering loses no prefix and keeps the main rows in place |
| ObservationTables.GrownTransitive | main.py:95-100 | Growth composes: the main rows stay in place and no prefix is lost over two steps |
| ObservationTableObject.ObservationTable.ExpandTable | main.py:95-100 | The new table is exactly `Expand(A, mem, old table)`, which fixes which extensions are added, in which order, and which rows the alignments promote. On exit `rowPointer == mainEnd` and the invariant holds; for every main row `i` and symbol `a`, `S[i] + A[a]` is a prefix; every prefix is an old prefix or such an extension, so nothing else is added; the main rows from before stay in place and no prefix is lost; a closed table stays closed |
| ObservationTableObject.ObservationTable.ExpandCursorRow | main.py:96-100 | One iteration of the expansion loop: the new table is exactly `ExpandRound(A, mem, old table)`. It adds the cursor row's extensions, moves the cursor on by one, keeps the invariant, loses no prefix and adds only extensions of main rows |
| ObservationTableObject.ObservationTable.AddExtensions | main.py:97-99 | The new table is exactly `ExtendUpTo(A, mem, old table, |A|)`: the extension of the row under the cursor by every symbol, in alphabet order, each followed by an alignment. The cursor and `S[rowPointer]` stay put; every extension is a prefix afterwards; no other prefix is added |
| ObservationTableObject.ObservationTable.AddExtension | main.py:98-99 | One iteration of the inner loop: the new table is exactly `ExtendBy(A, mem, old table, a)`, the extension by symbol `a` appended and then aligned. The invariant holds, the table is closed, and the extensions by the first `a + 1` symbols are prefixes |
| ObservationTableObject.ObservationTable.ExpandStep | main.py:96-100 | One pass of the expansion loop stated against the table the loop started from: the new table is `ExpandRound` of the old one, so `Expand` of it is unchanged; the invariant, growth and the only-extensions fact are kept; the cursor moves on by one and stays within the `2^|E|` bound |
| ObservationTables.ExtendBy | main.py:98-99 | One symbol step as a function: one prefix is added, `E` and the cursor are unchanged, and the main region does not shrink |
| ObservationTables.ExtendUpTo | main.py:97-99 | The first `n` symbol steps: `n` prefixes are added, `E` and the cursor are unchanged, and the main region does not shrink |
| ObservationTables.ExpandRound | main.py:96-100 | One pass of the expansion loop as a function: `|A|` prefixes are added, the cursor moves on by one, `E` is kept and the main region does not shrink |
| ObservationTables.ExpandDone | main.py:96 | The loop exit: on a table whose cursor is not below `mainEnd`, `Expand` returns the table unchanged |
| ObservationTables.Expand | main.py:95-100 | The expansion loop as a function: it keeps `E`. What it yields on a valid table is stated by `ExpandTable` |
| ObservationTables.ExtendByKeepsInvariant | main.py:98-99 | A symbol step on a valid table whose cursor is on a main row gives a valid table |
| ObservationTables.ExtendByGrows | main.py:98-99 | A symbol step keeps the main rows in place and loses no prefix, and afterwards the extension it appended is a prefix |
| ObservationTables.ExtendedUpToStart | main.py:97 | Before the first symbol, the loop facts of an expansion round hold trivially |
| ObservationTables.CursorRowDone | main.py:100 | Moving the cursor past a main row whose extensions by every symbol are present keeps the invariant; the round grew the table by extensions of main rows only; a closed table stays closed |
| ObservationTables.ExtensionStep | main.py:97-99 | One symbol step keeps the growth facts and adds the extension by that symbol, while the earlier extensions stay present and no prefix other than an extension of a main row is added |
| ObservationTables.ExtensionAddsOnlyExtensions | main.py:97-99 | Appending the extension of the cursor row, and then reordering, adds no prefix other than extensions of main rows |
| ObservationTables.OnlyExtensionsTransitive | main.py:96-100 | Two expansion rounds that each add only extensions of main rows add only such extensions together |
| ObservationTables.OnlyExtensionsAdded | main.py:96-100 | Restates "adds only extensions of main rows" index by index: every prefix is an old prefix or `S[i] + A[a]` for a main row `i` |
| ObservationTables.CursorRowExtended | main.py:97-100 | Once every symbol has been tried, the cursor row has all of its one-symbol extensions among the prefixes |
| ObservationTables.CursorStepKeepsInvariant | main.py:100 | Advancing the cursor past a main row whose extensions are all present keeps the invariant |
| ObservationTables.CursorStepExpanded | main.py:100 | Advancing the cursor past such a row keeps the expansion part of the invariant |
| ObservationTables.ExtensionsPresent | main.py:95-100 | Helper that unfolds the expansion part of the invariant: in a valid table, every extension of a main row the cursor has passed is a prefix |
| ObservationTables.ExpandedClosedTable | main.py:95-107 | L* closedness of an expanded, aligned table: for every main prefix and symbol, the extension is a row equal to some main row |
| ObservationTables.MainRowsBounded | main.py:96 | A valid table has at most `2^|E|` main rows, which bounds the expansion loop |
| RowCount.DistinctRowsBound | main.py:96 | Pigeonhole: pairwise distinct boolean rows of width `n` number at most `2^n` |
| RowCount.CodesOfDistinctRows | main.py:96 | Pairwise distinct rows have as many distinct binary codes as there are rows |
| RowCount.CodeInjective | main.py:96 | Two rows of the same width with the same binary code are equal |
| ObservationTableObject.ObservationTable.Refine | main.py:145-147 | One round after a counterexample: the new table is exactly `Refined(A, mem, old table, counterexample)`. Afterwards the table is valid, every pending row equals a main row, and the cursor has passed every main row, which `ExpandedClosedTable` turns into L* closedness. `E` gained exactly the new suffixes, and every suffix of the counterexample is a column. The earlier main prefixes stay in place, no prefix is lost, and every new prefix extends a main row by one symbol |
| ObservationTables.Refined | main.py:145-147 | One refinement round as a function: `E` gains exactly the new suffixes of the counterexample. What it yields on a valid table is stated by `Refine` |
| ObservationTables.RoundPrefixes | main.py:145-147 | Over a refinement round, no prefix is lost, and every prefix that is new extends a main row by one symbol |
| Serialization.SerializeTableToJson | main.py:10-22 | The table field has `|S| * |E|` characters, each `'0'` or `'1'`, and reads back as exactly the rows `T`, in row order |
| Serialization.SerializedFieldsReadBack | main.py:11-20 | When prefixes and suffixes hold no space: splitting `main_prefixes` gives the main prefixes, with `""` written as `e`. Splitting `suffixes` gives the suffixes, with `""` as `e`. Splitting `complementary_prefixes` gives the pending prefixes. With no pending prefix, that field is `""` and splits into `[""]` |
| Serialization.SplitJoin | main.py:18-20 | Splitting on single spaces undoes joining with single spaces, for one or more words without spaces |
| Serialization.FlattenReadBack | main.py:15 | Rows of width `w` flatten to `|rows| * w` digits, which cut back into the same rows |
| Serialization.JoinSpaces | main.py:18-20 | Joining no word gives `""` and joining one word gives that word; `SplitJoin` shows the join reads back |
| Serialization.Digit | main.py:15 | A cell is written `'1'` when true and `'0'` when false |
| Serialization.Digits | main.py:15 | One digit per cell, in column order |
| Serialization.Flatten | main.py:15 | The rows' cells written row after row; the text holds only `'0'` and `'1'` (that it cuts back into the rows is `FlattenReadBack`) |

## Left out

- Network and I/O are not modelled:
  - the HTTP session (main.py:8);
  - maze generation (main.py:24-36);
  - the transport in the equivalence and membership calls (main.py:38-69);
  - the printing.

  The membership oracle is the constant `mem: string -> bool` of the table. Its `1`/`0` answers are `true`/`false`.
- The `""` value returned when a membership query fails (main.py:69) is not modelled; `mem` is total.
- The text rendering `__str__` (main.py:130-135) is not modelled; it is display only.
- The learning loop (main.py:137-148) is modelled as one refinement round, `Refine`:
  - The loop has no bound and depends on the equivalence oracle.
  - The initial `expand_table` after construction is covered by the constructor, which gives a valid, closed table, and by `ExpandTable`.
- numpy storage is not modelled: string widths, reallocation by `np.append`, and `np.array_equal`. They are sequence append and sequence equality.
- `_T` is a sequence of rows. The dictionary's keys are always `0..|S|-1`, and its iteration order is insertion order. No operation inserts a key out of order, so `_T.values()` is row order.
- The JSON encoding of the request body is not modelled; the model stops at the four text fields.
- Serialization.SerializedFieldsReadBack: assumes that no prefix or suffix holds a space. Such words would not read back, and the model states nothing about them.
- Serialization.SerializeTableToJson: requires the table invariant. The source applies it to any table object, but every reachable table satisfies the invariant.
- ObservationTableObject.ObservationTable.MoveToMainTable: requires `mainEnd <= r`. Its only caller, the alignment scan, passes such an `r`. For `r < mainEnd` the source skips the shift (main.py:119) and writes a copy of row `r` into slot `main_table_end` (main.py:126-127). That slot is the first pending row, so that row is lost and main row `r` appears twice in the main region. When `main_table_end == len(S)`, main.py:126 adds a new `_T` key and main.py:127 raises an `IndexError`.
- Cell `(0, 0)` is `0` without a query, as in the source. The invariant states nothing about `mem("")`.
- ObservationTables.Expand: the loop condition also stops once the main region exceeds `2^|E|` rows, which lets the definition terminate on any snapshot. A valid table never reaches that cap (`MainRowsBounded`), so on every table the class holds it is the source's `row_pointer < main_table_end` loop.
- ObservationTables.Expand: its own contract states only that `E` is kept; its results on valid tables are stated by `ObservationTable.ExpandTable`, which returns exactly `Expand` of the old table.
- ObservationTables.Refined: its own contract states only the new suffix list; validity, closedness and the prefix facts are stated by `ObservationTable.Refine`, which returns exactly `Refined` of the old table.
- Sequences.NewSuffixes: its own contract states only a length bound; which suffixes it lists, and their order, are the lemmas `NewSuffixesProperties`, `NoNewSuffixes` and `SuffixesShortestFirst`.
- Sequences.Rotate: its own contract states only the length; where each entry lands is `RotateEntries`, and that it permutes is `RotatePermutes`.
