# Date-interval consolidation and DDL generation

This project models two parts of an ETL pipeline that loads tables into Netezza.

The first part is the consolidation of date intervals in
`src/post_processing/standardize_date_intervals.py`:
- The rows of a table are grouped by entity id, or the table is treated as one group when
  there is no id column.
- Within each group, rows are folded into a working list in priority order: ascending
  `(start, -ordinal(end))`.
- Each incoming row always wins. Every earlier row it overlaps is removed, trimmed at its end,
  removed for losing its start, or split in two, so the list never holds two overlapping
  half-open intervals `[start, end)`.
- Every original or derived interval is labelled in a status map keyed by
  `(id, start, end)`. The labels are 'Added/Retained', 'Trimmed Start', 'Trimmed End',
  'Removed (Fully Subsumed)' and 'Removed (Overlapped Start)'. A later write to the same key
  overwrites the earlier one.

The second part is the text the pipeline generates in `src/utils.py`:
- the mapping from a pandas dtype name to a SQL column type;
- the `CREATE TABLE` statement;
- the `CREATE EXTERNAL TABLE` statement.

Modules:
- `Rows` (rows.dfy): records, working rows, labels and status keys. Dates are integer day ordinals.
- `Comparator` (comparator.dfy): the overlap test, overlap range, subsumption test and priority key. Also the priority order, as a sorted permutation.
- `Resolver` (resolver.dfy): one entity's fold.
  - Specification functions: `Kept`, `Pieces` and `Relabel` describe one existing row; `Step` describes one record; `Fold` describes the whole sequence.
  - Methods that mirror the source's procedures: `HandleFullySubsumed`, `HandlePartialOverlap`, `ResolveExisting`, `FoldIn` and `ProcessIntervalsForId`. Each is proved equal to its specification function.
  - `FoldIn` walks a list that grows while it is walked, as the source's loop does.
- `Coverage` (coverage.dfy): the invariants of the fold.
  - Each day is held by exactly the record that wins it.
  - Records outside the incoming span are untouched.
  - The list stays pairwise non-overlapping.
- `Audit` (audit.dfy): what the status map holds, the no-overlap case, and three worked examples.
- `Grouping` (grouping.dfy): grouping by id, the driver loop over the groups, and the concatenation of the groups' tables. It also holds the driver as written (see Findings).
- `Ddl` (ddl.dfy): `infer_sql_type` and the two statement builders.

Every row carries the 'priority' column that the source adds before sorting. Right fragments copy it from the row they are cut from, so a row's tag names its original record: its id, its priority key (which holds the record's original start and end) and its other columns.

Rows are values. The source mutates row dictionaries in place. No two list entries share a dictionary, because `to_dict()` and `dict(...)` both make fresh ones. So an update through `existing` is modelled as replacing that element of the sequence.

Two behaviours of the status map follow from the code and are easy to miss:
- A later write to a key overwrites the earlier one. For two records with equal bounds, the later 'Added/Retained' replaces the earlier 'Removed (Fully Subsumed)' under the same key (`Audit.SubsumedExample`).
- A 'Trimmed End' label is written under the key of the row's bounds before the trim (`Audit.RelabelPreTrimKey`).

Where the code and its docstrings disagree, the model follows the code: the docstrings of both statement builders show a `TIMESTAMP` column, but the code maps datetime dtypes to `DATE`, and so does the model.

## Model

| member | source | states |
|---|---|---|
| Rows.PriorityLatestStart | src/post_processing/standardize_date_intervals.py:19-20 | computes the priority key (start, -end) of a record |
| Rows.Admit | src/post_processing/standardize_date_intervals.py:127-129 | computes the row a record becomes when it is folded in: its columns and priority key, 'Added/Retained', unflagged; that this row ends up in the list is `Coverage.StepKeepsDisjoint` |
| Rows.TagIdentifiesRecord | src/post_processing/standardize_date_intervals.py:98 | two records have the same tag (id, priority key, other columns) exactly when the records are equal: same id, bounds and other columns |
| Comparator.Overlaps | src/post_processing/standardize_date_intervals.py:22-26 | computes the overlap test `not (end_a <= start_b or start_a >= end_b)` |
| Comparator.FullySubsumes | src/post_processing/standardize_date_intervals.py:35-40 | computes the subsumption test: the overlap starts no later and ends no earlier than the existing interval |
| Comparator.OverlapsSymmetric | src/post_processing/standardize_date_intervals.py:22-26 | the overlap test gives the same answer with its two intervals swapped |
| Comparator.OverlapsIffSharedDay | src/post_processing/standardize_date_intervals.py:22-26 | for non-empty intervals, the test holds exactly when some day lies in both half-open ranges |
| Comparator.OverlapsIffMaxBelowMin | src/post_processing/standardize_date_intervals.py:22-33 | for non-empty intervals, the test holds exactly when the later start is before the earlier end |
| Comparator.OverlapRange | src/post_processing/standardize_date_intervals.py:28-33 | the range starts at one of the two starts, no earlier than either; it ends at one of the two ends, no later than either; it is non-empty when the intervals are non-empty and overlap |
| Comparator.SubsumesIffContains | src/post_processing/standardize_date_intervals.py:35-40 | applied to the overlap with an existing interval, the subsumption test holds exactly when the new interval contains the existing one |
| Comparator.PriorityOrder | src/post_processing/standardize_date_intervals.py:19-20 | the key orders by start; among equal starts the later end comes first; key order "not greater" holds exactly for an earlier start, or an equal start and a later-or-equal end |
| Comparator.InsertByPriority | src/post_processing/standardize_date_intervals.py:98-100 | inserting into a key-sorted sequence keeps it sorted and adds exactly the one record |
| Comparator.SortByPriority | src/post_processing/standardize_date_intervals.py:98-100 | the fold order is sorted by ascending key and is a permutation of the rows |
| Comparator.FoldOrder | src/post_processing/standardize_date_intervals.py:98-100 | in fold order, starts never decrease, and among equal starts ends never increase |
| Resolver.Kept | src/post_processing/standardize_date_intervals.py:111-121 | computes an existing row as it stands after the incoming record is checked against it: unchanged, removed as subsumed, trimmed or removed at its start |
| Resolver.Pieces | src/post_processing/standardize_date_intervals.py:75-84 | computes the right fragment, if any, that the check appends |
| Resolver.Relabel | src/post_processing/standardize_date_intervals.py:42-84 | computes the status writes of one check, in the order they happen |
| Resolver.CarveAll | src/post_processing/standardize_date_intervals.py:111-121 | computes every existing row after the inner loop, in list order |
| Resolver.PiecesAll | src/post_processing/standardize_date_intervals.py:84 | computes the fragments appended during the inner loop, in append order |
| Resolver.RelabelAll | src/post_processing/standardize_date_intervals.py:111-121 | computes the status map after the inner loop |
| Resolver.RemoveFlagged | src/post_processing/standardize_date_intervals.py:86-91 | computes the list comprehension that drops the rows flagged for removal |
| Resolver.Step | src/post_processing/standardize_date_intervals.py:105-129 | computes one record folded in: the carved rows and fragments without the flagged ones, then the admitted record; its key is written last |
| Resolver.Fold | src/post_processing/standardize_date_intervals.py:102-131 | computes the fold of a sequence of records from an empty list and an empty status map |
| Resolver.Disposition | src/post_processing/standardize_date_intervals.py:42-84 | see "Resolver.Disposition" below the table |
| Resolver.PiecesAllStartAtEnd | src/post_processing/standardize_date_intervals.py:76-84 | every fragment appended in a step starts where the incoming record ends, is unflagged and is labelled 'Trimmed Start' |
| Resolver.RemoveFlaggedMembers | src/post_processing/standardize_date_intervals.py:86-91 | the filter keeps exactly the rows without the removal flag and never lengthens the list |
| Resolver.RemoveFlaggedAppend | src/post_processing/standardize_date_intervals.py:86-91 | the filter keeps relative order: filtering a concatenation is the concatenation of the filtered parts |
| Resolver.RemoveFlaggedNone | src/post_processing/standardize_date_intervals.py:86-91 | a list with no flagged rows is returned unchanged |
| Resolver.HandleFullySubsumed | src/post_processing/standardize_date_intervals.py:42-52 | the row becomes 'Removed (Fully Subsumed)' and is flagged, no other row changes, and the label is written under the row's current bounds |
| Resolver.HandlePartialOverlap | src/post_processing/standardize_date_intervals.py:54-84 | see "Resolver.HandlePartialOverlap" below the table |
| Resolver.ResolveExisting | src/post_processing/standardize_date_intervals.py:111-121 | one visit to a list position leaves the list and status map that the step specification (`Kept`, `Pieces`, `Relabel`) gives for that row |
| Resolver.FoldIn | src/post_processing/standardize_date_intervals.py:105-129 | see "Resolver.FoldIn" below the table |
| Resolver.ProcessIntervalsForId | src/post_processing/standardize_date_intervals.py:93-131 | the result of one entity is the fold of its rows in priority order |
| Coverage.Winner | src/post_processing/standardize_date_intervals.py:105-129 | computes the tag of the last record in fold order whose span contains a day, the reference the fold's result is compared with |
| Coverage.CarveOneCoverage | src/post_processing/standardize_date_intervals.py:42-84 | the fragments of one existing row that survive a step hold every day the row held, except the days of the incoming record, which they never hold |
| Coverage.PartialCoverage | src/post_processing/standardize_date_intervals.py:54-84 | the same holds for the left and right pieces of a partial overlap |
| Coverage.CarveAllCoverage | src/post_processing/standardize_date_intervals.py:111-124 | after the inner loop and the filter, each day outside the incoming record is held by the same records as before, and each day inside it is held by none of them |
| Coverage.StepCoverage | src/post_processing/standardize_date_intervals.py:105-129 | see "Coverage.StepCoverage" below the table |
| Coverage.FoldCoverage | src/post_processing/standardize_date_intervals.py:93-131 | after the fold, each day is held by exactly the last record in fold order whose span contains it, and by nothing if there is none |
| Coverage.DisjointHoldsOnce | src/post_processing/standardize_date_intervals.py:105-129 | a pairwise non-overlapping list holds every day at most once |
| Coverage.HeldOnceDisjoint | src/post_processing/standardize_date_intervals.py:105-129 | a list of non-empty rows that holds every day at most once is pairwise non-overlapping |
| Coverage.CarvedWellFormed | src/post_processing/standardize_date_intervals.py:60-84 | surviving trimmed rows and appended fragments are non-empty intervals |
| Coverage.StepKeepsDisjoint | src/post_processing/standardize_date_intervals.py:105-129 | see "Coverage.StepKeepsDisjoint" below the table |
| Coverage.FoldDisjoint | src/post_processing/standardize_date_intervals.py:93-131 | for records with start before end, the consolidated list is pairwise non-overlapping, its rows are non-empty, and none is flagged |
| Audit.RelabelAllKeepsKeys | src/post_processing/standardize_date_intervals.py:111-121 | the inner loop only adds or overwrites status keys; it never drops one |
| Audit.FoldStatusComplete | src/post_processing/standardize_date_intervals.py:127-128 | every record folded in has a status entry under its own (id, start, end) key |
| Audit.RelabelPreTrimKey | src/post_processing/standardize_date_intervals.py:64-83 | see "Audit.RelabelPreTrimKey" below the table |
| Audit.Untouched | src/post_processing/standardize_date_intervals.py:111-113 | when the incoming record overlaps no row, the inner loop leaves the list and the status map as they are |
| Audit.NoOverlapNoChange | src/post_processing/standardize_date_intervals.py:105-129 | when no two records overlap, the result is every record admitted unchanged, in fold order, and every status is 'Added/Retained' |
| Audit.SplitExample | src/post_processing/standardize_date_intervals.py:63-84 | [1,20) and then [5,10) leave [1,5) 'Trimmed End', [10,20) 'Trimmed Start' and [5,10) 'Added/Retained', with the trim recorded under the key (1,20) |
| Audit.SubsumedExample | src/post_processing/standardize_date_intervals.py:42-52 | two records with equal bounds leave only the later one, and its 'Added/Retained' overwrites the earlier 'Removed (Fully Subsumed)' under the shared key |
| Audit.ReversedRecordOverlaps | src/post_processing/standardize_date_intervals.py:22-84 | the fold does not check start < end: [1,10) and then [5,3) leave the overlapping rows [1,5) and [3,10), so the result is not pairwise disjoint |
| Audit.OverlappedStartExample | src/post_processing/standardize_date_intervals.py:69-84 | [1,10) and then [1,5) remove the older row at (1,10) as 'Removed (Overlapped Start)' and keep its right piece [5,10) as 'Trimmed Start' |
| Grouping.InsertId | src/post_processing/standardize_date_intervals.py:137-138 | inserting an id into a strictly increasing sequence keeps it strictly increasing and adds exactly that id |
| Grouping.SortedIds | src/post_processing/standardize_date_intervals.py:137-138 | the group keys are strictly increasing and are exactly the ids that occur in the table |
| Grouping.GroupOfAppend | src/post_processing/standardize_date_intervals.py:137-138 | grouping distributes over concatenation of tables |
| Grouping.GroupOfMembers | src/post_processing/standardize_date_intervals.py:137-138 | a group holds exactly the table's rows with that id |
| Grouping.OtherEntitiesIrrelevant | src/post_processing/standardize_date_intervals.py:137-157 | adding rows of other entities, before or after, leaves an entity's group, and so its fold, unchanged |
| Grouping.GroupOf | src/post_processing/standardize_date_intervals.py:138 | computes the rows of one id, in table order |
| Grouping.GroupsMeaning | src/post_processing/standardize_date_intervals.py:137-141 | with an id column: one group per id of the table, keyed Some(id), keys strictly increasing, each group holding exactly the rows with its id; without one, the single group (None, whole table) |
| Grouping.RowsOfAppend | src/post_processing/standardize_date_intervals.py:163 | selecting an entity's rows distributes over concatenation |
| Grouping.FoldKeepsId | src/post_processing/standardize_date_intervals.py:93-131 | folding rows of one entity yields rows of that entity only |
| Grouping.GroupResultOfEntity | src/post_processing/standardize_date_intervals.py:155-157 | the table of an entity's group holds rows of that entity only |
| Grouping.Concat | src/post_processing/standardize_date_intervals.py:163 | computes the concatenation of the group tables in order |
| Grouping.Gather | src/post_processing/standardize_date_intervals.py:154-159 | computes the driver loop's state: the tables appended in group order and each status map stored under its group key |
| Grouping.RowsOfConcat | src/post_processing/standardize_date_intervals.py:163 | in the concatenation of per-entity tables, the rows of an entity are exactly its own table, or none when no group has its id |
| Grouping.GatherKeys | src/post_processing/standardize_date_intervals.py:159 | the driver's status map has exactly the group keys as keys |
| Grouping.GatherStatusAt | src/post_processing/standardize_date_intervals.py:159 | with distinct keys, each group key maps to its own group's status map |
| Grouping.FoldGroups | src/post_processing/standardize_date_intervals.py:154-159 | the driver loop produces the per-group tables in group order and the status maps keyed by group key |
| Grouping.GatherById | src/post_processing/standardize_date_intervals.py:137-164 | with an id column, each entity's rows in the result are that entity's own fold, the map has one key per id, and each key maps to that entity's statuses |
| Grouping.GatherNoId | src/post_processing/standardize_date_intervals.py:140-164 | without an id column, the result is the fold of the whole table, and its statuses sit under the key None |
| Grouping.DriverDisjoint | src/post_processing/standardize_date_intervals.py:133-164 | for records with start before end, every entity's consolidated rows, and the whole consolidated table without an id column, are pairwise non-overlapping |
| Grouping.ProcessIntervalsSinglethread | src/post_processing/standardize_date_intervals.py:133-164 | the driver's result: with an id column, each entity's rows are its own fold and the statuses are keyed by the table's ids; without one, the whole table is one fold keyed None; for records with start before end, no two rows of one entity overlap |
| Grouping.StatusKeyAsWritten | src/post_processing/standardize_date_intervals.py:127-128 | computes the status key as written: the id column's value, or KeyError when there is no id column |
| Grouping.GatherAsWritten | src/post_processing/standardize_date_intervals.py:144-158 | computes the driver loop as written: each group's status key lookup, then the append to the container the code starts from |
| Grouping.DictGatherFails | src/post_processing/standardize_date_intervals.py:144-158 | with an id column and at least one group, the loop as written fails with AttributeError |
| Grouping.AsWrittenFails | src/post_processing/standardize_date_intervals.py:137-158 | as written, the driver fails on every non-empty table: with AttributeError when there is an id column, with KeyError when there is none |
| Grouping.NoIdColumnKey | src/post_processing/standardize_date_intervals.py:127-128 | without an id column, the key lookup as written fails with KeyError; the corrected key puts None in the id place |
| Grouping.GatherIntoList | src/post_processing/standardize_date_intervals.py:154-160 | gathered into a list, the loop returns every group's table in group order |
| Ddl.Lower | src/utils.py:57 | computes `str(dtype).lower()` on ASCII letters |
| Ddl.Contains | src/utils.py:57 | computes Python's substring test `t in s` |
| Ddl.LowerUnchanged | src/utils.py:57 | lower-casing leaves a text without capitals unchanged |
| Ddl.ContainsIffHas | src/utils.py:57-61 | the substring test holds exactly when the word occurs as a contiguous piece of the text |
| Ddl.InferSqlType | src/utils.py:51-64 | the type is always one of INT, FLOAT, DATE or VARCHAR(255) |
| Ddl.InferSqlTypeCases | src/utils.py:57-64 | see "Ddl.InferSqlTypeCases" below the table |
| Ddl.InferSqlTypeIgnoresCase | src/utils.py:57-61 | upper-casing the dtype name does not change the type |
| Ddl.IntExamples | src/utils.py:52-58 | "int64", "Int32" and "uint8" give INT |
| Ddl.FloatExample | src/utils.py:59-60 | "float64" gives FLOAT |
| Ddl.DatetimeExample | src/utils.py:61-62 | "datetime64[ns]" gives DATE |
| Ddl.ObjectExample | src/utils.py:63-64 | "object" gives VARCHAR(255) |
| Ddl.IntervalDtypeIsInt | src/utils.py:57-60 | "interval[float64, right]" gives INT and not FLOAT: "interval" itself contains "int", and that test comes before the float test |
| Ddl.Join | src/utils.py:82 | computes `sep.join(parts)` |
| Ddl.JoinLength | src/utils.py:82 | the joined text is as long as the parts plus one separator between each two |
| Ddl.JoinPartAt | src/utils.py:82 | each part stands at its offset in the joined text |
| Ddl.JoinSepAfter | src/utils.py:82 | the separator follows every part but the last |
| Ddl.ColumnDef | src/utils.py:78-79 | computes `f"{col} {col_type}"` |
| Ddl.ColumnDefShape | src/utils.py:78-79 | a column definition is the column's own name, one space and one of the four types |
| Ddl.Defs | src/utils.py:76-80 | there is one definition per column |
| Ddl.ColumnDefs | src/utils.py:76-80 | the loop builds one definition per column, in column order |
| Ddl.GenerateCreateTableSql | src/utils.py:66-84 | the statement is "CREATE TABLE name (", a new line and two spaces, the definitions joined by ",\n  ", then a new line and ")" |
| Ddl.GenerateCreateExtTableSql | src/utils.py:86-114 | see "Ddl.GenerateCreateExtTableSql" below the table |
| Ddl.CreateTableSql | src/utils.py:82-83 | computes the CREATE TABLE text over a list of column definitions |
| Ddl.CreateExtTableSql | src/utils.py:102-113 | computes the CREATE EXTERNAL TABLE text over a list of column definitions |
| Ddl.CreateTableFrame | src/utils.py:83 | the CREATE TABLE statement starts with its head naming the table and ends with a new line and ")" |
| Ddl.ExtTableFrame | src/utils.py:103-113 | the external-table statement starts with the head naming name_EXT and ends with the USING clause |
| Ddl.CreateTableColumnAt | src/utils.py:82-83 | column definition i appears in the CREATE TABLE statement at its place in column order |
| Ddl.CreateTableSeparatorAfter | src/utils.py:82-83 | every column definition but the last is followed by ",\n  " |
| Ddl.ExtTableColumnAt | src/utils.py:102-105 | column definition i appears in the external-table statement at its place in column order |
| Ddl.ExtTableSeparatorAfter | src/utils.py:102-105 | every column definition but the last is followed there by ",\n  " |

The rows marked "see below" state more than fits in a cell:

- **Resolver.Disposition**
  - Against an overlapping record:
    - An existing row the record contains becomes 'Removed (Fully Subsumed)', with no fragment.
    - Otherwise, a left piece that is kept in place exists exactly when the row starts before the record. When it does not, the row becomes 'Removed (Overlapped Start)' and is flagged.
    - A right piece [record end, row end) exists exactly when the row ends after the record. It keeps the payload, is unflagged and is labelled 'Trimmed Start'.
  - In the non-subsumed case, at least one piece survives, and no surviving piece overlaps the record.
- **Resolver.HandlePartialOverlap**
  - When the overlap starts after the row, the row is cut back to the overlap start and labelled 'Trimmed End' under its pre-trim key.
  - Otherwise, it is labelled 'Removed (Overlapped Start)' under its key and flagged.
  - When the overlap ends before the row, a right piece copying the row is appended, labelled 'Trimmed Start' under its own key.
- **Resolver.FoldIn**: one record folded in. This covers:
  - the walk over a list that grows while it is walked;
  - the filter;
  - the admitted record.
  
  It yields exactly the step specification `Step`: the removed, trimmed and split rows, the rows the record does not touch, and the status map.
- **Coverage.StepCoverage**
  - A step leaves each day inside the incoming record held by that record alone.
  - Each other day is held by exactly the records that held it before.
  - No flagged row remains.
- **Coverage.StepKeepsDisjoint**
  - A step keeps a non-overlapping list of non-empty, unflagged rows that way.
  - The list ends with the admitted record (`Admit`): its own bounds, columns and priority key, 'Added/Retained'.
  - Its key maps to 'Added/Retained'.
- **Audit.RelabelPreTrimKey**: against an overlapping record, the row's label is written under its pre-trim key, and a right piece's 'Trimmed Start' is written under the piece's own key. No other key is written.
- **Ddl.InferSqlTypeCases**
  - INT exactly when the lower-cased name contains "int".
  - FLOAT exactly when it does not, and contains "float" or "double".
  - DATE exactly when it contains none of those and contains "datetime".
  - VARCHAR(255) exactly when it contains none of the four.
- **Ddl.GenerateCreateExtTableSql**
  - The statement names the table name_EXT.
  - It uses the same column definitions as CREATE TABLE, joined by ",\n  ".
  - It reads the file path inside DATAOBJECT ('...') as comma-delimited text, skipping one header row, via REMOTESOURCE 'ODBC'.

## Left out

- Database and file I/O are not part of this model:
  - the fetch of the table in `standardize_date_intervals`;
  - the `pd.to_datetime` conversion;
  - the one-day shift of the end date before writing;
  - the write-back.
  
  Likewise `db_conn`, `db_exec`, `db_get`, `db_write`, `file_write` and `load_function` in `src/utils.py` are not part of this model. The fold receives its rows as a parameter, and the DDL builders return text.
- The pandas and tqdm machinery (`groupby`, `apply`, `sort_values`, `iterrows`, `concat`, the progress bar) is modelled by its effect on sequences of rows:
  - grouping yields ascending id order;
  - sorting is a sorted permutation;
  - concatenation keeps order.
  
  Logging is left out.
- Comparator.SortByPriority: `sort_values` uses an unstable quicksort. The model uses a stable insertion sort, so among records with identical keys the fold order is the input order. The source's order among such ties is not specified, and the model does not capture it.
- The `reverse_sort` path is not modelled. Its wrapper takes one argument but is called with three, and it negates a tuple, so it cannot run. It is also unclear whether combining it with the descending sort was meant to cancel out or to reverse the order.
- Ddl.InferSqlType: lower-casing is ASCII-only. Python's `str.lower()` also folds non-ASCII letters. No dtype name contains them.
- A pandas DataFrame is modelled in `src/utils.py` as a sequence of (column name, dtype name) pairs. A dtype is modelled by its text, as `str(dtype)` gives it.
- Grouping.ProcessIntervalsSinglethread: with an id column and an empty table, the model returns an empty table. `pd.concat` of an empty collection raises ValueError, and that failure is not modelled.
- `groupby` drops rows whose id is missing (NaN). Ids are integers in the model, so there are no missing ids.
- The source mutates row dictionaries and the status dictionary in place. The model passes them as values. There is no aliasing to lose, because every list entry is its own dictionary.
- Dates are whole day numbers. A missing date (NaT) makes `toordinal()` fail in the priority key, and that failure is not modelled. The source's overlap tests compare full timestamps, while its priority key compares only the end's calendar day. The model has no time of day, so it does not capture how rows whose ends differ only in the time of day are ordered.
- Duplicate column names are not modelled. With a repeated name, `df[col]` in the DDL builders is a table, and `.dtype` raises AttributeError. Defs and both builders accept any list of columns.
- The source never states or checks that a record has `start < end`, and the fold accepts one that does not. Such a record breaks the result: `Audit.ReversedRecordOverlaps` shows [1,10) and then [5,3) leaving the overlapping rows [1,5) and [3,10). The coverage and non-overlap lemmas (`Coverage.FoldCoverage`, `Coverage.FoldDisjoint`, `Grouping.DriverDisjoint`) therefore require `start < end` for every record, and promise nothing without it.

## Findings

| source | as written | input that shows it | evidently intended | confidence | as-written member | corrected member |
|---|---|---|---|---|---|---|
| src/post_processing/standardize_date_intervals.py:144-158 | `final_results` starts as an empty dict and then gets `.append(...)`, which a dict does not have | any table with an id column and at least one row | `final_results` starts as a list; the tables are appended in group order and concatenated | high (not executed) | Grouping.AsWrittenFails | Grouping.ProcessIntervalsSinglethread |
| src/post_processing/standardize_date_intervals.py:127-128 | with no id column, the status key reads `new_line[id_col]` with `id_col` None, and a row has no such column | any non-empty table processed without an id column | the key's id part is None when there is no id column | high (not executed) | Grouping.NoIdColumnKey | Grouping.ProcessIntervalsSinglethread |
