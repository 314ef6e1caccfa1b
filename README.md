# Transfer-filter decoder

A Dafny model of the decoder that turns a compact encoded filter string into
per-table query clauses, parsed and prepared for calculating transfer
statistics.

An encoded filter looks like `%,gender%=male%=female%,account_balance%>10`.
The decoder works in four steps:

1. It splits the string on `%`.
2. It skips empty tokens. In every other token, the first character is the
   symbol and the rest is the subject.
3. `,` starts a new key name. Only names in the filter catalogue
   (`TRANSFER_FILTERS`) become the active key. `=`, `<` and `>` add a
   comparator entry to the list being collected. Any other symbol has no
   effect.
4. When a new key name starts, and again when the input ends, the collected
   entries are flushed. A flush appends one handler result to the list kept
   under the key's table.

The handler is chosen by table first and kind second:
- Every key of the custom-attribute table (only `gender`) uses the
  custom-attribute handler, even though `gender` is declared DISCRETE.
- Other keys use the boolean-mapping handler, the discrete handler or the
  range handler (`handle_other_types`), according to their kind.

The project has three modules:
- `TransferFilterTypes` (`transfer_filter_types.dfy`): the catalogue,
  comparators, clauses and the result dictionary type.
- `TransferFilterHandlers` (`transfer_filter_handlers.dfy`): each handler as
  an imperative method with its loop, proved equal to a specification
  function, plus lemmas about the custom-attribute handler's run-and-skip
  behaviour.
- `TransferFilterProcess` (`transfer_filter_process.dfy`):
  - splitting on `%`, with its `Join` partner;
  - the flush as a function, and a `FilterSet` class whose method updates
    the dictionary in place;
  - the token loop as a method, proved against a left fold `Scan` over the
    tokens;
  - lemmas about which tokens can and cannot affect the result.

The comment above `process_transfer_filters` sketches tuples such as
`(gender, =, male)`. The code builds `(keyname, "EQ", [values])`,
`(keyname, "GT", value)` and `(value, "EQ", True)` instead. The model
follows the code.

## Model

| member | source | states |
|---|---|---|
| TransferFilterTypes.OnlyGenderIsCustomAttribute | app/server/utils/transfer_filter.py:24-43 | a catalogue key lives in the custom-attribute table exactly when it is `gender`, and `gender`'s declared kind is DISCRETE |
| TransferFilterTypes.ComparatorOf | app/server/utils/transfer_filter.py:75-79 | the symbols `=`, `<`, `>` are read one-to-one as the comparators Eq, Lt, Gt |
| TransferFilterHandlers.BooleanMapped | app/server/utils/transfer_filter.py:136-143 | one `(value, EQ, True)` clause per entry, in input order, whatever the comparator; output length equals input length |
| TransferFilterHandlers.HandleBooleanMapping | app/server/utils/transfer_filter.py:136-143 | the `for` loop yields exactly one `(value, EQ, True)` clause per entry, in order, and equals BooleanMapped |
| TransferFilterHandlers.DiscreteClauses | app/server/utils/transfer_filter.py:145-155 | always a single `(keyname, EQ, values)` clause whose values are all subjects in order, comparators ignored |
| TransferFilterHandlers.HandleDiscrete | app/server/utils/transfer_filter.py:145-155 | the `while` loop collects every subject in order into one EQ clause, equal to DiscreteClauses |
| TransferFilterHandlers.RangeClauses | app/server/utils/transfer_filter.py:162-176 | None exactly when some entry is `=`; otherwise one GT/LT clause per entry, in order, on the converted subject |
| TransferFilterHandlers.HandleOtherTypes | app/server/utils/transfer_filter.py:157-176 | the loop returns None at the first `=` (exactly when one exists); otherwise one GT/LT clause per entry, equal to RangeClauses |
| TransferFilterHandlers.EqRunLengthIsRun | app/server/utils/transfer_filter.py:109-114 | the inner loop's run: every entry before the run length is `=` and the entry at it, if any, is not |
| TransferFilterHandlers.CustomClauses | app/server/utils/transfer_filter.py:100-125 | the custom-attribute handler never yields more clauses than it is given entries |
| TransferFilterHandlers.HandleCustomUserStorageFilter | app/server/utils/transfer_filter.py:100-125 | the nested index loops, including the extra `i += 1` after a run, compute exactly CustomClauses |
| TransferFilterHandlers.CustomWithoutEquals | app/server/utils/transfer_filter.py:116-124 | with no `=` entries, every entry yields its own GT/LT clause on its raw subject, in order |
| TransferFilterHandlers.CustomAllEquals | app/server/utils/transfer_filter.py:108-117 | a non-empty list of `=` entries yields exactly one EQ clause listing all subjects in order |
| TransferFilterHandlers.CustomSkipsEntryAfterRun | app/server/utils/transfer_filter.py:108-124 | the entry directly after a run of `=` entries is consumed with no output: run, then that entry, then the rest yields the run's EQ clause followed by the rest's clauses |
| TransferFilterHandlers.CustomStrictHead | app/server/utils/transfer_filter.py:116-124 | a `<`/`>` entry at the head of the list (not directly after a run) becomes its own GT/LT clause on its raw subject, followed by the clauses of the rest |
| TransferFilterHandlers.CustomAgreesWithDiscreteOnEquals | app/server/utils/transfer_filter.py:100-155 | on non-empty `=`-only input the custom-attribute and discrete handlers give the same result |
| TransferFilterHandlers.Dispatched | app/server/utils/transfer_filter.py:127-134 | boolean-mapping keys use the boolean mapping, discrete keys the discrete handler, both range kinds the range handler |
| TransferFilterHandlers.HandleFilter | app/server/utils/transfer_filter.py:127-134 | the dispatch method returns what Dispatched specifies |
| TransferFilterProcess.Split | app/server/utils/transfer_filter.py:57 | splitting always yields at least one token |
| TransferFilterProcess.SplitJoin | app/server/utils/transfer_filter.py:57 | joining the tokens with `%` gives back the input, and no token contains `%` |
| TransferFilterProcess.JoinSplit | app/server/utils/transfer_filter.py:57 | splitting a `%`-join of `%`-free tokens gives back those tokens, so the tokens are determined by the two facts above |
| TransferFilterProcess.Flush | app/server/utils/transfer_filter.py:86-97 | with an active key and at least one entry, exactly one entry is appended under that key's table and every other table is unchanged; with no entries or no key, the dictionary is unchanged |
| TransferFilterProcess.RoutedByTableBeforeKind | app/server/utils/transfer_filter.py:87-96 | `gender` (kind DISCRETE) goes to the custom-attribute handler; every other key goes through the kind dispatch |
| TransferFilterProcess.RepeatedKeyAddsEntry | app/server/utils/transfer_filter.py:90-96 | flushing the same key twice appends two entries instead of merging them |
| TransferFilterProcess.FilterSet.constructor | app/server/utils/transfer_filter.py:58 | the dictionary starts empty |
| TransferFilterProcess.FilterSet.HandleFiltersPerKeyname | app/server/utils/transfer_filter.py:86-97 | the in-place update leaves the dictionary equal to Flush of its old value |
| TransferFilterProcess.Step | app/server/utils/transfer_filter.py:62-79 | a single token never makes a non-catalogue name the active key |
| TransferFilterProcess.Scan | app/server/utils/transfer_filter.py:59-79 | after any tokens, the active key is either absent or a catalogue key |
| TransferFilterProcess.ProcessTransferFilters | app/server/utils/transfer_filter.py:55-84 | the token loop followed by the final flush returns Decode of the input |
| TransferFilterProcess.IgnoredTokenHasNoEffect | app/server/utils/transfer_filter.py:62-79 | an empty token, or one whose symbol is not `,`, `=`, `<` or `>`, can be removed anywhere without changing the loop state |
| TransferFilterProcess.UnkeyedTokensAreDropped | app/server/utils/transfer_filter.py:66-87 | while no catalogue key is active, tokens that do not name one (comparators among them) can be removed without changing the output |
| TransferFilterProcess.LeadingComparatorsAreDropped | app/server/utils/transfer_filter.py:59-75 | comparators before the first catalogue key never reach the output |
| TransferFilterProcess.UnknownKeyComparatorsAreDropped | app/server/utils/transfer_filter.py:66-74 | comparators after a key name outside the catalogue never reach the output |
| TransferFilterProcess.UnknownKeyActsAsEnd | app/server/utils/transfer_filter.py:66-71 | a key name outside the catalogue still flushes the active key's pending comparators: with only non-catalogue tokens after it, the output is that of the tokens before it |
| TransferFilterProcess.KeyCollectsComparators | app/server/utils/transfer_filter.py:66-79 | a catalogue key first flushes the earlier entries, then becomes active with exactly the following comparators, in order |
| TransferFilterProcess.TrailingKeyProducesOneEntry | app/server/utils/transfer_filter.py:81-97 | a key followed by comparators up to the end decodes to the earlier tokens' output flushed once more under that key: one entry appended under its table, every other table unchanged |
| TransferFilterProcess.DecodeExample | app/server/utils/transfer_filter.py:55-84 | `%,gender%=male%=female%,account_balance%>10` decodes to `gender EQ [male, female]` under the custom-attribute table and `account_balance GT 10` under the transfer-account table |

## Left out

- Value conversion in `handle_other_types` is not modelled. The source
  keeps the subject for DATETIME columns and applies `float(val)` otherwise,
  using SQLAlchemy column metadata. The model writes the converted value as
  `Converted(subject)` and leaves its meaning abstract. A `ValueError` from
  `float` is not modelled.
- Table lookup is not modelled. `get_class_by_tablename` reflects over the
  ORM registry, and `getattr(table, keyname)` reads the column. Tables are
  the constructors of `Table`, because the table-name strings come from
  model classes that are not part of this model.
- The `print` calls write to the console only, so they are left out.
- The final `else: return` in `handle_custom_user_storage_filter` has no
  counterpart. `Comparator` has only the three values the token loop
  collects, so that branch cannot be reached from the decoder.
- In `handle_filters_per_keyname`, `TRANSFER_FILTERS[key_name]` raises
  `KeyError` for a key outside the catalogue. The model requires a catalogue
  key instead. The token loop never passes any other key.
- The `isinstance(..., list)` test is always true, because the dictionary
  only ever holds lists. The `item is not None` test is always true for
  tokens of a split.
- The per-table list is updated in place in the source. The model replaces
  the map entry instead. No other reference to the list exists, so the
  result is the same.
- TransferFilterHandlers.CustomClauses: its own contract only bounds the
  output length. Its exact behaviour is stated case by case: CustomStrictHead
  for a leading `<`/`>` entry, CustomAllEquals for a list of `=` entries only,
  CustomSkipsEntryAfterRun for a run of `=` followed by another entry, and
  CustomWithoutEquals for a list with no `=`, and the length bound for the
  empty list. HandleCustomUserStorageFilter proves the loop equal to it.
- TransferFilterProcess.DecodeExample: it states the example input as the
  `%`-join of its six tokens rather than as one string literal.
- The order of the result dictionary's keys is not modelled. A Python dict
  keeps the order in which tables were first added, but `Filters` is an
  unordered map. Nothing in the decoder depends on that order: the clauses
  are AND-ed together, and each table's list keeps its order as a `seq`.
- The USSD state machine is not part of this model.
- `app/client/components/filter.jsx` is a React UI component and is not
  modelled.
- `app/server/api2/geolocation_api.py` holds Flask handlers over ORM
  queries and is not modelled.
- The database migrations are schema definitions with no logic.
- `test/unit/files/test_files.py` does filesystem and S3 sync and is not
  modelled.
