# Column-count hooks of dbt-checkpoint

This model covers the rule-evaluation kernel shared by two dbt-checkpoint
pre-commit hooks. Each hook gets a list of roots: the changed models in one
hook and the source tables in the other. For each root it takes the entities
the manifest graph walk returns, keeps only the `Column` entities and groups
them by `column_name` into a dictionary. It then checks a policy against the
groups and accumulates a status code plus one diagnostic per violation.

- `check_model_has_columns_by_name` requires that, for each required pair
  `(name, n)`, every changed model has the name and has at least `n` columns
  of that name.
- `check_source_has_columns_by_group` counts how many names of a column group
  have at least one column, and reports each source table where that count is
  below `column_cnt`.

The files are:

- `grouping.dfy` (module `Grouping`) holds the pure grouping step: the
  `isinstance(column, Column)` filter, Python's `str` ordering, the stable
  `sorted` by name, `itertools.groupby` as maximal runs, and the dict
  comprehension. It also proves the grouping law: each key maps to exactly
  the columns of that name, and its size is the number of times the name
  occurs.
- `model_has_columns_by_name.dfy` (module `ModelColumnsByName`) holds the
  loops of the first hook as methods. They are proved against `Expected` and
  `RuleViolations`, reference definitions stated on the raw children.
- `source_has_columns_by_group.dfy` (module `SourceColumnsByGroup`) holds the
  second hook: the intended single counter as a method proved against
  `RuleFailures`, and the hook as written, which raises instead of counting.

Graph-walk results are inputs. A model is `ModelNode(model_name, childs)`,
a table is `SourceTable(source_name, table_name, childs)`, and each child is
`Col(column_name)` or `Other`. The requirement dictionary is an ordered
sequence of `(name, count)` pairs, because Python dicts iterate in insertion
order. Diagnostics are returned as records (`Violation`, `GroupViolation`)
instead of being printed.

## Model

| member | source | states |
|---|---|---|
| Grouping.Columns | dbt_checkpoint/check_model_has_columns_by_name.py:46 | The filter keeps only Column children, so each name occurs as often as among all the children, and the result is no longer than the input. |
| Grouping.ColumnsAppend | dbt_checkpoint/check_model_has_columns_by_name.py:46 | The filter keeps the order of the children. Filtering a concatenation gives the concatenation of the filtered parts. |
| Grouping.ColumnsDropOther | dbt_checkpoint/check_model_has_columns_by_name.py:46 | A non-Column child is ignored wherever it stands. |
| Grouping.NameLeq | dbt_checkpoint/check_model_has_columns_by_name.py:48 | Python's `<=` on the `str` sort key, compared code point by code point with a proper prefix first. Its properties as an order are stated by NameLeqTotal, NameLeqReflexive, NameLeqAntisymmetric and NameLeqTransitive. |
| Grouping.NameLeqTotal | dbt_checkpoint/check_model_has_columns_by_name.py:48 | Python's `str` order, which `sorted` uses on the key, is total: any two names compare one way or the other. |
| Grouping.NameLeqReflexive | dbt_checkpoint/check_model_has_columns_by_name.py:48 | Every name is `<=` itself. |
| Grouping.NameLeqAntisymmetric | dbt_checkpoint/check_model_has_columns_by_name.py:48 | Two names that are each `<=` the other are equal. |
| Grouping.NameLeqTransitive | dbt_checkpoint/check_model_has_columns_by_name.py:48 | The `str` order is transitive. |
| Grouping.InsertByName | dbt_checkpoint/check_model_has_columns_by_name.py:48 | Inserting into a list sorted by name keeps it sorted, and adds exactly the inserted column to the multiset. |
| Grouping.SortByName | dbt_checkpoint/check_model_has_columns_by_name.py:48 | `sorted(columns, key=column_name)` gives a list sorted by name that is a permutation of the input. |
| Grouping.SortedPermutationUnique | dbt_checkpoint/check_model_has_columns_by_name.py:48 | Two sorted permutations of the same list are equal, so insertion sort yields exactly what Python's sort yields. |
| Grouping.SortedContiguous | dbt_checkpoint/check_model_has_columns_by_name.py:47-49 | In a sorted list, equal names sit next to each other. This is why `groupby` after `sorted` sees each name in one run. |
| Grouping.GroupRuns | dbt_checkpoint/check_model_has_columns_by_name.py:47-49 | `itertools.groupby` keyed on `column_name`, as maximal runs of consecutive equal names. Its contract is stated by GroupRunsFlatten (the runs give back the input), GroupRunsShape (non-empty, one name each, neighbours differ), GroupRunsKeys and SortedRunsHaveDistinctKeys. |
| Grouping.GroupRunsFlatten | dbt_checkpoint/check_model_has_columns_by_name.py:47-49 | Laying the `groupby` runs end to end gives back the sorted list. The first run's key is the first name. |
| Grouping.GroupRunsShape | dbt_checkpoint/check_model_has_columns_by_name.py:47-49 | Every run is non-empty and holds only columns of its key. Neighbouring runs have different keys. |
| Grouping.GroupRunsKeys | dbt_checkpoint/check_model_has_columns_by_name.py:47-49 | Every key `groupby` yields is the name of a column of the input. |
| Grouping.SortedRunsHaveDistinctKeys | dbt_checkpoint/check_model_has_columns_by_name.py:47-49 | Grouping a sorted list never yields the same key twice. |
| Grouping.ToDict | dbt_checkpoint/check_model_has_columns_by_name.py:50 | The dict comprehension's keys are exactly the run keys. |
| Grouping.ToDictLaw | dbt_checkpoint/check_model_has_columns_by_name.py:50 | When run keys are distinct and runs are uniform, each key maps to a non-empty group of only that name. Its size is the number of columns of that name. A name that is not a key has no columns. |
| Grouping.ToDictTotal | dbt_checkpoint/check_model_has_columns_by_name.py:50 | When run keys are distinct, the group sizes add up to the total number of run members. |
| Grouping.GroupByName | dbt_checkpoint/check_model_has_columns_by_name.py:47-50 | Builds `column_dict` by sorting, grouping and collecting. Its contract is stated by GroupByNameLaw, GroupByNameOrderFree and GroupSizeOfChildren. |
| Grouping.GroupByNameLaw | dbt_checkpoint/check_model_has_columns_by_name.py:47-50 | The keys of `column_dict` are exactly the names present, and every group is non-empty. Each group holds only its name, and its size is the name's number of occurrences. The sizes add up to the number of columns. |
| Grouping.GroupByNameOrderFree | dbt_checkpoint/check_model_has_columns_by_name.py:47-50 | `column_dict` depends only on which columns occur, not on their input order. |
| Grouping.GroupSizeOfChildren | dbt_checkpoint/check_model_has_columns_by_name.py:46-53 | `len(column_dict.get(name, []))` for a root's children is the number of Column children named `name`. The name is a key iff such a child exists. |
| ModelColumnsByName.Fails | dbt_checkpoint/check_model_has_columns_by_name.py:52-54 | The branch test `not col or required_cnt > col_cnt` on `column_dict.get(required_col, [])`. FailsIffUnmet states it on the raw children. |
| ModelColumnsByName.FailsIffUnmet | dbt_checkpoint/check_model_has_columns_by_name.py:51-54 | The branch test `not col or required_cnt > col_cnt` holds iff the name is absent from the children or occurs fewer than the required times. `col_cnt` is its number of occurrences. |
| ModelColumnsByName.AbsentNameAlwaysFails | dbt_checkpoint/check_model_has_columns_by_name.py:54 | An absent required name is a violation even when its required count is 0 or negative. |
| ModelColumnsByName.ExpectedExact | dbt_checkpoint/check_model_has_columns_by_name.py:51-60 | A model's violations are exactly its unmet requirements. Each one carries the model name, the found count, the required name and the required count. |
| ModelColumnsByName.ExpectedStep | dbt_checkpoint/check_model_has_columns_by_name.py:51-60 | A definitional step of Expected, used by the loop proof in CheckRequirements: one more requirement appends its violation if it is unmet, and nothing otherwise. |
| ModelColumnsByName.ExpectedAtMostOnePerRequirement | dbt_checkpoint/check_model_has_columns_by_name.py:51-60 | A model gets at most one message per requirement. |
| ModelColumnsByName.ExpectedCount | dbt_checkpoint/check_model_has_columns_by_name.py:51-60 | A model gets exactly as many messages as it has unmet requirement positions: one message per unmet requirement. |
| ModelColumnsByName.RuleViolationsAppend | dbt_checkpoint/check_model_has_columns_by_name.py:37 | Messages come in model order: the messages for two lists of models, one after the other, are the two lists of messages concatenated. |
| ModelColumnsByName.NothingToCheckNoViolations | dbt_checkpoint/check_model_has_columns_by_name.py:30-37 | With no models, or an empty requirement map, no message is emitted. |
| ModelColumnsByName.RuleViolationsEmptyIff | dbt_checkpoint/check_model_has_columns_by_name.py:37-55 | There is no message iff every model meets every requirement. |
| ModelColumnsByName.RuleViolationsExample | dbt_checkpoint/check_model_has_columns_by_name.py:51-60 | Concrete case: a model with columns id, id, name is checked against id≥2, name≥2, email≥0. The result is exactly "1 name columns, 2 required" and "0 email columns, 0 required". |
| ModelColumnsByName.CheckRequirements | dbt_checkpoint/check_model_has_columns_by_name.py:51-60 | The inner loop appends exactly the model's expected violations in requirement order. It sets the status to 1 iff there is at least one, and otherwise leaves it unchanged. |
| ModelColumnsByName.CheckModel | dbt_checkpoint/check_model_has_columns_by_name.py:38-60 | One iteration of the model loop groups the model's columns and has the same effect as the inner loop on them. |
| ModelColumnsByName.CheckColumnCnt | dbt_checkpoint/check_model_has_columns_by_name.py:21-61 | Messages are exactly the violations in model order and then requirement order. The status is 0 or 1, and it is 0 iff every model meets every requirement. |
| SourceColumnsByGroup.Present | dbt_checkpoint/check_source_has_columns_by_group.py:48 | Whether `column_dict.get(column)` is truthy, meaning the name has a non-empty group. PresentIffColumn states it on the raw children. |
| SourceColumnsByGroup.PresentCount | dbt_checkpoint/check_source_has_columns_by_group.py:46-49 | The intended counter after scanning the group. PresentCountIsFound, PresentCountAtMostGroupSize, PresentCountAppend and DuplicatesCountTwice state its contract. |
| SourceColumnsByGroup.PresentIffColumn | dbt_checkpoint/check_source_has_columns_by_group.py:40-48 | `column_dict.get(column)` is truthy iff the table has a Column child of that name. |
| SourceColumnsByGroup.PresentCountIsFound | dbt_checkpoint/check_source_has_columns_by_group.py:46-49 | The intended counter equals the number of group positions whose name has a column. Names with no column add nothing. |
| SourceColumnsByGroup.FoundSnoc | dbt_checkpoint/check_source_has_columns_by_group.py:47-49 | Listing one more name adds one to the found count exactly when that name has a column. |
| SourceColumnsByGroup.PresentCountAtMostGroupSize | dbt_checkpoint/check_source_has_columns_by_group.py:47-49 | The found count is at most the length of the column group. |
| SourceColumnsByGroup.PresentCountAppend | dbt_checkpoint/check_source_has_columns_by_group.py:47-49 | Scanning two groups one after the other adds their counts. |
| SourceColumnsByGroup.DuplicatesCountTwice | dbt_checkpoint/check_source_has_columns_by_group.py:47-49 | A present name listed twice is counted twice, so repeating the whole group doubles the count. |
| SourceColumnsByGroup.RuleFailuresEmptyIff | dbt_checkpoint/check_source_has_columns_by_group.py:51-56 | There is no message iff no table's found count is below `column_cnt`. |
| SourceColumnsByGroup.RuleFailuresExact | dbt_checkpoint/check_source_has_columns_by_group.py:51-56 | A table is reported exactly when it fails. The message names its source, its table, its found count and the group. |
| SourceColumnsByGroup.NonPositiveThresholdPasses | dbt_checkpoint/check_source_has_columns_by_group.py:51 | With `column_cnt <= 0`, no table fails. |
| SourceColumnsByGroup.CheckTable | dbt_checkpoint/check_source_has_columns_by_group.py:31-56 | One iteration of the schema loop counts the listed names that have a column. It appends one message and sets the status to 1 iff the count is below the threshold. |
| SourceColumnsByGroup.CheckColumnCnt | dbt_checkpoint/check_source_has_columns_by_group.py:18-57 | The intended hook returns a mapping whose only key is `status_code`. The status is 0 or 1, and it is 0 iff no table fails. The messages are exactly the failing tables in order. |
| SourceColumnsByGroup.CheckColumnCntAsWritten | dbt_checkpoint/check_source_has_columns_by_group.py:18-57 | The hook as written returns only status 0. When it raises, it does so at line 49 or line 54, on one of the given tables. The exact conditions are stated by AsWrittenOnlyReturnsZero. |
| SourceColumnsByGroup.AsWrittenOnlyReturnsZero | dbt_checkpoint/check_source_has_columns_by_group.py:46-57 | As written, the hook returns only status 0. It returns iff there are no tables, or the threshold is at most 0 and no listed name has a column in any table. Otherwise it raises. |
| SourceColumnsByGroup.AsWrittenAgreesWhenItReturns | dbt_checkpoint/check_source_has_columns_by_group.py:46-57 | Whenever the hook as written returns, the intended hook reports nothing either. |
| SourceColumnsByGroup.AsWrittenCrashesOnPresentColumn | dbt_checkpoint/check_source_has_columns_by_group.py:46-54 | Concrete case: a table with columns a, b, c is checked against the group [a, b, d] with threshold 2. As written the hook raises at line 49. The intended counter finds 2, so the table passes threshold 2 and fails threshold 3. |

## Left out

- The `main` functions are not modelled: argument parsing, `ParseDict`, the `int(cnt)` cast with `parser.error`, the exit codes, and `__main__` (`check_model_has_columns_by_name.py:64-125`, `check_source_has_columns_by_group.py:59-111`). This is command-line plumbing. `main` in the model hook also passes `required_tests=` to a parameter named `required_cols` (line 103), so that call raises `TypeError` before any check runs.
- `get_dbt_manifest` and the `JsonOpenError` path are left out because they are file and JSON I/O.
- The helpers in `dbt_checkpoint/utils.py` are not part of this model: `get_missing_file_paths`, `get_model_sqls`, `get_models`, `get_parent_childs`, `get_source_schemas`. Their results are inputs: the sequence of roots, each with its names and child entities.
- `Path(...)` construction (`check_source_has_columns_by_group.py:25`) is a filesystem abstraction and is left out.
- `time.time()` and `dbtCheckpointTracking` telemetry are left out because they are clock and external side effects.
- `print` is not modelled. Each diagnostic is a returned record with the fields the f-string interpolates, not rendered text with Python's list `repr`.
- A `Column` carries only its `column_name`. Its owning entity id and its tests are not modelled, because the hooks read only the name and the size of each group. As a result, columns in one group are interchangeable, and the order inside a group is not observable.
- Python's Timsort is replaced by insertion sort. `SortedPermutationUnique` shows that both give the same list.
- Requirement names are not forced to be distinct. A dict cannot hold a name twice; the ordered sequence can, and then each copy is checked.
- `column_group` is a list of names, as `main` passes `args.columns`, although its annotation says `Dict[str, int]`.
- Python's `UnboundLocalError` is modelled only by where it is raised (`Crash` with the line). The exception object and the traceback are not modelled.

## Findings

| source | as written | input that shows it | evidently intended | confidence | as-written member | corrected member |
|---|---|---|---|---|---|---|
| dbt_checkpoint/check_source_has_columns_by_group.py:46-54 | Line 46 sets `required_column_count = 0`, but lines 49 and 54 use `required_test_count`. Because line 49 assigns that name inside the function, Python treats it as an unassigned local. The hook raises at line 49 as soon as a listed name has a column, and, for a table where no listed name has a column, at line 54 when `column_cnt > 0`. It never returns status 1. | One table with columns a, b, c, group [a, b, d] and `column_cnt` 2 raises at line 49. | One counter, incremented once for each listed name that has a column, compared with `column_cnt` and printed in the message. | high, not executed | SourceColumnsByGroup.CheckColumnCntAsWritten (shown by SourceColumnsByGroup.AsWrittenCrashesOnPresentColumn and SourceColumnsByGroup.AsWrittenOnlyReturnsZero) | SourceColumnsByGroup.CheckColumnCnt |
