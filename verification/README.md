# Sorting engine and sorting server, modelled in Dafny

This project models two parts of the `threads_sockets` sales-analysis code.

- **The hand-written sorting engine** of `threads_sockets/threading_ed2.py`:
  - `bubble_sort`: an optimised bubble sort. It copies the table, exchanges neighbours whose keys are strictly out of order, and stops after a pass that exchanges nothing.
  - `quick_sort`: a three-way quick sort around the row in the middle position.
  - `timeit`: the decorator that pairs a result with the time the call took.
- **The per-connection loop of the sorting server** (`ClientThread.run` in `threads_sockets/server_side.py`). The loop:
  - reads messages;
  - ends silently on a closed connection or `bye`;
  - dispatches each request on the algorithm name (`bubble`, `quick`, `merge`, `heap`);
  - answers with the sorted data, or with a single error that also ends the session.

A data frame is a `Table`: a sequence of rows, where each row maps column names to values of a totally ordered type (`int`). The default sort column is `FECHA_VENTA`, the sale date.

Files:

- `seqs.dfy` (module `Seqs`): proof hints, facts about sequences and multisets stated once for any element type.
- `wrappers.dfy` (module `Wrappers`): `Option` and `Result`.
- `tables.dfy` (module `Tables`): rows, tables and the vocabulary both parts share:
  - `Select` is the boolean-mask selection `df[df[c] < pivot]` and its `==` and `>` variants.
  - `Sorted` is sortedness on a column.
  - `Stable` is stability: rows with equal keys keep their relative order.
  - The central fact is that a sorted, stable rearrangement is unique (`StableSortUnique`).
- `engine.dfy` (module `Engine`):
  - bubble sort is a method over an array copy, with loop invariants;
  - quick sort is a recursive function with lemmas;
  - the code as written, with its recursion on the wrong column, is modelled next to the corrected sort;
  - `timeit` becomes the `Timed` pair.
- `server.dfy` (module `Server`):
  - `Handle` handles one decoded request, and `Reply` handles one message.
  - `Session` is the whole conversation, as a function.
  - `Run` is the loop itself, as a method proved equal to `Session`.

Bubble sort and quick sort are both proved to return sorted, stable permutations of their input. By uniqueness, they return the same table (`Engine.BubbleSort` ensures `sorted == QuickSort(df, column)`). `bubble_sort` takes its table by value and sorts a fresh copy, so the caller's table cannot change.

## Model

| member | source | states |
|---|---|---|
| Tables.SideOf | threads_sockets/threading_ed2.py:36-38 | the three masks `< pivot`, `== pivot`, `> pivot` partition the keys: the side is Below, At or Above exactly when the comparison holds |
| Tables.Select | threads_sockets/threading_ed2.py:36-38 | a mask selection keeps only rows on the requested side of the pivot, is no longer than the table, and takes each row at most as often as the table holds it |
| Tables.PartitionSplits | threads_sockets/threading_ed2.py:36-38 | the three selections together hold exactly the rows of the table (as a multiset), and their lengths add up to the table's |
| Tables.SelectOfSelect | threads_sockets/threading_ed2.py:36-39 | taking the rows with key k from one side's selection gives all rows of the table with key k, in order, if k is on that side, and none otherwise |
| Tables.SwapNeighboursStable | threads_sockets/threading_ed2.py:23-24 | exchanging two neighbouring rows with different keys keeps the rows and, for every key, the order of the rows with that key |
| Tables.SortedDeterminedBySelections | threads_sockets/threading_ed2.py:15-39 | two tables sorted on a column, with the same rows for every key in the same order, are equal |
| Tables.StableSortUnique | threads_sockets/threading_ed2.py:15-39 | any two sorted, stable rearrangements of a table are the same table |
| Engine.TimeIt | threads_sockets/threading_ed2.py:6-13 | the decorated call returns the wrapped result unchanged, paired with the difference of the two clock readings |
| Engine.BubbleSort | threads_sockets/threading_ed2.py:15-28 | the result holds the rows of the input, is non-decreasing on the column, keeps rows with equal keys in input order, and equals the quick sort of the input |
| Engine.Pass | threads_sockets/threading_ed2.py:20-27 | one outer pass keeps a stable rearrangement, never touches the placed suffix, and places the next-largest key at the end of the unsorted prefix; a pass that exchanges nothing leaves the table exactly as it was, and that table is sorted (the early exit is sound) |
| Engine.ExchangeNeighbours | threads_sockets/threading_ed2.py:23-25 | the exchange of positions j and j+1 touches only those two positions, keeps a stable rearrangement and the placed suffix, and carries the prefix maximum to j+1 |
| Engine.RearrangedBySwap | threads_sockets/threading_ed2.py:23-24 | exchanging neighbours whose keys differ keeps the table a stable rearrangement of the input |
| Engine.SwapKeepsOrder | threads_sockets/threading_ed2.py:20-24 | an exchange inside the unsorted prefix keeps the largest keys in place at the end and moves the larger key up |
| Engine.PassEnd | threads_sockets/threading_ed2.py:20-27 | at the end of pass i the last i+1 positions hold the largest keys in order, and a prefix walked without exchanges makes the whole table sorted |
| Engine.QuickSort | threads_sockets/threading_ed2.py:30-39 | the corrected quick sort returns a table holding exactly the rows of its input, all of which carry the column |
| Engine.PivotGroupNonEmpty | threads_sockets/threading_ed2.py:35-38 | the pivot row is in the middle group, so both outer groups are strictly shorter than the table (the recursion terminates), and the three groups hold the table's rows |
| Engine.QuickSortSortsStably | threads_sockets/threading_ed2.py:33-39 | the quick sort's result is non-decreasing on the column and keeps rows with equal keys in input order |
| Engine.QuickSortFixesSorted | threads_sockets/threading_ed2.py:33-39 | a table already sorted on the column comes back unchanged |
| Engine.QuickSortIdempotent | threads_sockets/threading_ed2.py:30-39 | sorting twice is sorting once |
| Engine.QuickSortAsWritten | threads_sockets/threading_ed2.py:30-39 | the code as written, whose recursive calls sort on the default column, still returns exactly the rows of its input |
| Engine.AsWrittenAgreesOnDefault | threads_sockets/threading_ed2.py:31-39 | on the default column FECHA_VENTA the code as written is the corrected sort, hence sorted and stable |
| Engine.AsWrittenMissorts | threads_sockets/threading_ed2.py:39 | on any other column, rows x, y, z with y the pivot and x below z on that column but dated after z come back as y, z, x, which is not sorted on the column |
| Engine.AsWrittenMissortsSales | threads_sockets/threading_ed2.py:39 | three concrete sales with quantities 2, 1, 3 and dates 9, 1, 0, sorted by CANTIDAD, come back with quantities 1, 3, 2 |
| Engine.TimedBubbleSort | threads_sockets/threading_ed2.py:15-28 | the decorated bubble_sort returns a sorted, stable permutation of its input and the clock difference |
| Engine.TimedQuickSort | threads_sockets/threading_ed2.py:30-39 | the decorated (corrected) quick_sort returns a sorted, stable permutation of its input and the clock difference |
| Server.Name | threads_sockets/server_side.py:36-43 | the name a client sends for each algorithm selects that algorithm |
| Server.Named | threads_sockets/server_side.py:36-45 | a name selects an algorithm exactly when it is one of bubble, quick, merge, heap |
| Server.NamedIsInverse | threads_sockets/server_side.py:36-45 | names and algorithms correspond one to one, in both directions |
| Server.Handle | threads_sockets/server_side.py:28-59 | a missing data or algorithm key, data that is a plain string, or an unknown name each gives the matching error; for a list of records and a known name, the sort's result gives the success response with the requested name, the sort's time and its sorted rows, and the sort's exception gives the error with its message; every success arises that way; with a sort that sorts, the sorted data is a sorted permutation of the request's data |
| Server.Reply | threads_sockets/server_side.py:16-60 | a message gets no response exactly when the connection closed or it is bye; a message that fails to decode gets that decoding error; a decoded request gets the response Handle gives it |
| Server.Session | threads_sockets/server_side.py:15-60 | a session never sends more responses than it reads messages |
| Server.Run | threads_sockets/server_side.py:13-62 | the loop sends exactly the session's responses; each response answers the message at its position; every message read before the last continued the session; if the loop stopped early, the last message read ended it |
| Server.SessionAnswersInOrder | threads_sockets/server_side.py:47-60 | the i-th response is the reply to the i-th message, and every response but the last is a success |
| Server.SessionEndsAt | threads_sockets/server_side.py:15-60 | once a message ends the session (closed connection, bye or an error), nothing after it is answered; the session sends one response per earlier message, plus the error if there is one |
| Server.SessionAnswersAll | threads_sockets/server_side.py:15-55 | when no message ends the session, n messages get n responses |
| Server.SortableSessionAnswersAll | threads_sockets/server_side.py:15-55 | n requests that each carry records, name a known algorithm and whose sorts succeed get n success responses, in order, each with its request's algorithm name, the sort's time and the sorted rows |
| Server.UnknownAlgorithmEndsSession | threads_sockets/server_side.py:36-60 | a request naming an unknown algorithm gets exactly the single error "Algoritmo no soportado", and nothing after it is answered |

## Left out

- `merge_sort`, `heap_sort` and the `SortingThread` classes of `threading_ed2.py`: a pandas outer join, a call to `sort_values`, and thread wrappers. None of them has algorithmic content of its own.
- `threads_sockets/sorting_algorithms.py`: the sorts the server actually calls are one-line pandas wrappers. They are the `LibrarySort` parameter. `Honours` states what the model assumes of them: success means a sorted permutation on `FECHA_VENTA`. Their exceptions, including the effect of `kind='bubble'`, are whatever error message the parameter returns.
- Sockets, the listener, the accept loop and thread spawning. The messages are an input sequence and the responses an output sequence. A receive is modelled whole: the 16384-byte buffer limit is not modelled. Sends are assumed to succeed, so an exception raised by `sendall` is not modelled.
- JSON decoding and encoding, and UTF-8 decoding of the received bytes. Each text message carries the request it decodes to, or the message of the exception decoding raised.
- Data shapes other than a list of records or a plain string (for example a dict of columns) are not modelled. Neither are JSON values other than strings for the algorithm name; such names count as unknown.
- Clock readings are parameters of `TimeIt`, so elapsed times are not modelled. The `time` of a response is whatever the chosen sort returned.
- Values are integers, standing in for the dates, numbers and strings of the real columns. The pandas index labels kept by `pd.concat` are not modelled.
- Missing values. A data frame is rectangular: a record without some key becomes a row with a NaN cell in that column, and reading that cell raises nothing. `HasColumn(t, c)` stands for "column c is in the frame and none of its cells is NaN". Frames with NaN keys are not modelled. On them `quick_sort` loses rows: a NaN key fails all three masks at `threading_ed2.py:36-38`, and a NaN pivot gives an empty result.
- A row exchange `sorted_df.iloc[j], sorted_df.iloc[j+1] = ...` is modelled as a true swap of two rows. This is what pandas does when the row accessors return copies (mixed column types, as in the sales data).
- `socket_manager.py`, `sql_connection.py`, `client_side.py`, `data_exporter.py` and `analyzer.py`: network, database and file I/O, and floating-point statistics.
- Engine.BubbleSort: requires the column in every row with no NaN cell. The source raises a KeyError only when the column is absent from the whole frame and the frame has two rows or more (the read at `threading_ed2.py:23`); that error path and NaN keys are not modelled.
- Engine.QuickSort: requires the column in every row with no NaN cell. The source raises a KeyError only when the column is absent from the whole frame and the frame has two rows or more (`threading_ed2.py:35`); that error path and the row loss on NaN keys are not modelled.
- Engine.QuickSortAsWritten: requires both the column and `FECHA_VENTA` in every row with no NaN cell. The source reads the default column only in outer groups with two rows or more.
- Server.Honours: assumes that every record of a request has the same keys. `pd.DataFrame(records)` followed by `to_dict('records')` (`server_side.py:33,51`) fills a key that some records lack with NaN in the others, so the sorted data is a permutation of the request's records only when all records share one schema.
- Server.Handle: the promise that the sorted data is a sorted permutation holds only when every row carries `FECHA_VENTA` and the sort parameter satisfies `Honours`.

## Findings

| source | as written | input that shows it | evidently intended | confidence | as-written member | corrected member |
|---|---|---|---|---|---|---|
| threads_sockets/threading_ed2.py:39 | the recursive calls `quick_sort(left)` and `quick_sort(right)` pass no column, so the outer groups are sorted on the default `FECHA_VENTA`, not on the requested column | three rows sorted by `CANTIDAD`: quantities 2, 1, 3 with dates 9, 1, 0; the result has quantities 1, 3, 2 | pass `column` down to both recursive calls, so the result is sorted on the requested column | not executed | Engine.AsWrittenMissorts | Engine.QuickSortSortsStably |
