# simple_database table engine in Dafny

This project models the in-memory columnar table of `simple_database`
(`Table` in `simple_database/main.py`). A table keeps three parallel
lists:

- `headers`: the column names;
- `types`: the declared type of each column, `int`, `str` or `bool`;
- `data`: one list of stored text per column.

It also keeps the caller's schema list itself (`config`) and rewrites its
file after each successful insert.

Modules, one per concern of that file:

- `Values` (values.dfy): the runtime values an insert or query receives
  (`IntV`, `StrV`, `BoolV`) and their exact runtime type (`TypeOf`).
  It also models Python's `==` between them (`PyEq`, where `True == 1`),
  the text a value is stored as (`Encode`, Python's `str`) and the decoder
  `convert_string` (`Decode`). The round trips between the last two are
  proved here.
- `Results` (results.dfy): the errors the engine raises and a `Result`
  wrapper. `ValidationError` comes in two kinds, wrong arity and wrong
  type. `IndexError`, `AttributeError` and `TypeError` are the errors
  that reading, querying and sorting can raise.
- `Ordering` (ordering.dfy): the order `sorted` compares keys by
  (numbers, with bools as 0 and 1, and strings compared lexicographically
  by code point). It also holds a stable insertion sort of row positions,
  proved to return a permutation in key order, with ties kept in storage
  order.
- `Rows` (rows.dfy): the row views built from `headers` and `data`. `Record`
  is `Column(**dict(zip(...)))`. `QueryRows` is `query`, which scans raw
  text and returns undecoded rows. `AllRows` is `all`, which decodes every
  cell. `SortRows` is `sort`.
- `Tables` (table.dfy): the `Table` class. Its fields are `name`,
  `headers`, `types`, `data`, `config` and `stored`, the document the last
  `write` left in the table's file. `Insert` is a loop that appends in
  place, as the source does. `Count`, `Query`, `All`, `Sort` and `Describe`
  read the current fields. `Describe` returns `config`. `Create` and
  `Insert` state that `config` is the schema as supplied and that the
  table's own operations never change it.

The model follows the code as written, including where it departs from an
all-or-nothing, decode-on-read table:

- `insert` is not all-or-nothing. Columns before the failing value have
  already been appended when the type error is raised
  (`FailedInsertBreaksRectangle`).
- `query` compares the caller's value with the stored, undecoded text, so
  only a `str` equal to that text matches (`Matches`, `QueryNonTextIsEmpty`).
  The rows it returns hold raw text.
- The type error names the column of the first value `==` to the failing
  one, not the failing column (`ErrorColumn`, `ErrorColumnMisattributed`).
- Columns of unequal length are reachable. A type error at position k > 0
  leaves them so in memory, and reconnecting to a table does not check its
  columns. On such a table:
  - `all` and `sort` raise `IndexError` only when some column is shorter
    than the first;
  - `query` raises it only when a matching position is past the end of some
    column, so `query(k=v)` can still succeed.

  The model returns `IndexOutOfRange` in exactly those cases.

## Model

| member | source | states |
|---|---|---|
| `Values.PyEq` | simple_database/main.py:67 | Python `==` on values: values of one exact type are equal exactly when identical, a string never equals a number or bool, and between bools and ints equality is equality of the numbers they stand for (True as 1, False as 0) |
| `Values.Encode` | simple_database/main.py:65 | `str(value)` of an int is digit text exactly when the int is non-negative, and starts with '-' otherwise; a bool's text is never digit text; `RoundTrip` and `NegativeIntReadsAsText` say what reading that text back gives |
| `Values.Decode` | simple_database/main.py:124-134 | `convert_string` gives an int exactly for non-empty ASCII-digit text, and that int is `int(s)`; a bool exactly for "True"/"False", true for "True"; and returns any other text unchanged; the float branch is proved unreachable |
| `Values.NatToStringParses` | simple_database/main.py:124-134 | the decimal text of any natural number is digit text that `int()` parses back to the same number |
| `Values.RoundTrip` | simple_database/main.py:124-134 | `convert_string(str(v)) == v` holds exactly for non-negative ints, bools, and strings that are neither digit text nor "True"/"False" (`str` is line 65) |
| `Values.NegativeIntReadsAsText` | simple_database/main.py:124-134 | a negative int is stored as "-n" and reads back as that string, not as an int |
| `Values.DigitTextReadsAsInt` | simple_database/main.py:124-128 | a `str` value made of digits reads back as the int it spells, whatever its column's declared type |
| `Values.TextRoundTrip` | simple_database/main.py:124-134 | decoding stored text and storing the result again gives the same text, except for digit text with a leading zero |
| `Ordering.KeyOfMatchesEquality` | simple_database/main.py:114-122 | two values have the same sort key exactly when Python's `==` holds of them |
| `Ordering.KeyLessStrictTotal` | simple_database/main.py:114-122 | the key order `sorted` uses is irreflexive, total and transitive |
| `Ordering.InsertPosition` | simple_database/main.py:120-122 | inserting one position into a list of positions adds exactly that position |
| `Ordering.InsertPositionSorted` | simple_database/main.py:120-122 | inserting a later position into a stably sorted list keeps every pair in stable order |
| `Ordering.SortPrefix` | simple_database/main.py:120-122 | sorting the first n positions yields a permutation of 0 .. n-1 in which every pair is in stable key order |
| `Ordering.SortOrder` | simple_database/main.py:120-122 | the order `sorted` returns is a permutation of the row positions, every pair ordered by key, equal keys in their original order |
| `Rows.Record` | simple_database/main.py:136-139 | the row view `Column(**dict(zip(names, values)))` has exactly the names as attributes, and each name that is not repeated later maps to its own value |
| `Rows.FirstIndex` | simple_database/main.py:96 | `headers.index(key)` is the first position holding the key |
| `Rows.Matches` | simple_database/main.py:97 | a query cell matches exactly when the caller's value is a `str` equal to the stored text |
| `Rows.MatchIndices` | simple_database/main.py:97 | the matching positions are increasing, each matches, and every matching position of the column is among them |
| `Rows.NoMatchNoIndices` | simple_database/main.py:97 | a column with no matching cell yields no positions |
| `Rows.QueryRows` | simple_database/main.py:91-101 | `query` fails with `IndexError` exactly when a matching position is past the end of some column; otherwise one row per matching position, each header mapped to that row's raw stored text |
| `Rows.QueryNonTextIsEmpty` | simple_database/main.py:97-99 | querying with an int or bool returns no rows |
| `Rows.QueryOnRectangular` | simple_database/main.py:94-99 | on equal-length columns a query succeeds and finds exactly the positions whose stored text equals the string, in increasing order |
| `Rows.AllRows` | simple_database/main.py:106-112 | `all` fails with `IndexError` exactly when some column is shorter than the first; otherwise `len(data[0])` rows in storage order, row i mapping each header to the decoded cell `convert_string(data[j][i])` |
| `Rows.SortKeyIsStoredCell` | simple_database/main.py:116-122 | on a table where no column is shorter than the first, the key `sort` uses for row i is `convert_string` of the stored cell of the column named by the attribute, passed through `key_func` when one is given |
| `Rows.SortByKeys` | simple_database/main.py:120-122 | `sorted(rows, key=...)`: a `TypeError` when numbers meet strings, otherwise the rows arranged by `SortOrder` of their keys |
| `Rows.SortByKeysOrdered` | simple_database/main.py:120-122 | sorted rows are in key order: no row's key is smaller than that of a row before it |
| `Rows.SortRows` | simple_database/main.py:114-122 | `sort` propagates the `IndexError` of `all`; a missing attribute on a non-empty table is an `AttributeError`; number-against-string keys are a `TypeError`; otherwise the rows of `all` arranged by `SortOrder` of their keys |
| `Rows.SortedRowsAreOrdered` | simple_database/main.py:114-122 | in a successful sort no row's key is smaller than that of a row before it |
| `Tables.FirstMismatch` | simple_database/main.py:61-64 | the first position whose value's exact runtime type differs from its column's declared type: every earlier value fits, that one does not |
| `Tables.FirstEqual` | simple_database/main.py:67 | `args.index(value)`: the first position `==` to the value, every earlier one differs |
| `Tables.ErrorColumn` | simple_database/main.py:67-69 | the column a type error names is at or before the failing one and holds an `==` value; it is the failing column exactly when no earlier value is `==` to the failing one |
| `Tables.ErrorColumnMisattributed` | simple_database/main.py:67-69 | with two `int` columns, inserting `(1, True)` fails at the second value but names the first column |
| `Tables.InsertGrowsEveryColumn` | simple_database/main.py:61-65 | a full insert appends each value's text to its own column, so equal lengths stay equal and the count rises by one |
| `Tables.FailedInsertBreaksRectangle` | simple_database/main.py:61-69 | a type error at position k > 0 leaves the columns with unequal lengths |
| `Tables.InsertedRowReadsLast` | simple_database/main.py:106-112 | after a full insert, `all` returns the old rows unchanged followed by one row of the decoded inserted values |
| `Tables.InsertedRowRoundTrips` | simple_database/main.py:58-70 | when every inserted value survives storage, the last row read back maps each header to the value inserted under it |
| `Tables.Table.Create` | simple_database/main.py:41-54 | a new table takes headers and types from the schema, has one empty column per entry, keeps the schema as config and is written immediately |
| `Tables.Table.Open` | simple_database/main.py:72-77 | a reconnected table takes headers, types and data from its stored document and config from the caller |
| `Tables.Table.Write` | simple_database/main.py:79-86 | the stored document becomes headers, types, data and config as they are now |
| `Tables.Table.Insert` | simple_database/main.py:58-70 | wrong arity: `InvalidAmount`, nothing changed, nothing written; otherwise columns before the first type mismatch are appended; on full success the table is written, on a mismatch the error names `headers[ErrorColumn]` with the given and declared types, and nothing is written |
| `Tables.Table.Describe` | simple_database/main.py:103-104 | `describe()` returns the config; `Create` ensures that this is the schema as supplied, `Insert` ensures it never changes, and while the table is as last written it is the config of the stored document |
| `Tables.Table.Count` | simple_database/main.py:88-89 | while the columns have equal length, the count is the length of every column |
| `Tables.Table.Query` | simple_database/main.py:91-101 | on equal-length columns a query never fails; a non-string value matches nothing |
| `Tables.Table.All` | simple_database/main.py:106-112 | on equal-length columns `all` succeeds with `count()` rows |
| `Tables.Table.Sort` | simple_database/main.py:114-122 | on equal-length columns a successful sort by a header returns `count()` rows; a missing attribute on a non-empty table is an `AttributeError` |

## Left out

- `Database`, `create_database` and `connect_database` (main.py:7-34 and
  141-147) are left out. They create directories, list files and attach
  tables with `setattr`, which is filesystem plumbing.
- JSON and the file itself are not modelled. `write` records the
  `{headers, types, data, config}` document in the field `stored`, and
  reconnecting takes that document as a parameter. The table's `path` and
  `BASE_DB_FILE_PATH` (from a configuration module that is not part of this
  model) are left out.
- `Tables.Table.Open` requires a document whose headers, types and data
  have equal lengths. `write` only produces such documents. A hand-edited
  file with mismatched lists is not modelled.
- The `exec`-based type lookup is replaced by the closed set {int, str,
  bool}. That lookup can resolve any global name, and a declared type
  outside this set is not modelled. The unused `string_to_type` dictionary
  is left out.
- Floats are left out. The float branch of `convert_string` is kept only
  to show that it is unreachable.
- `str.isdigit` is modelled for ASCII digits only, and other Unicode digits
  are left out. For Unicode decimal digits such as "٣" or a fullwidth "３",
  `convert_string` returns the int they spell, where `Decode` returns the
  text. Superscript digits pass `isdigit` but make `int()` raise.
- The error message text is not modelled. A type error carries the header
  it names, the given type and the declared type.
- `Rows.SortRows` models `key_func` as a total function from a value to a
  value. A key function that raises, or that returns other kinds of
  objects, is not modelled. Nor is `getattr` on attributes every Python
  object has, such as `__class__`.
- Crash paths are preconditions:
  - `query` on an unknown column fails on an unbound local, so it
    requires `key in headers`;
  - `count` and `sort` on a table with no columns raise `IndexError`,
    and so does the first `next()` on the generator `all` returns; they
    require at least one column.
- `query` with several keyword arguments uses only the first. The model
  takes that one name and value. `query()` with no keyword argument raises
  `IndexError` when it takes the first argument, and is not modelled.
- `Rows.Record` builds a row for any header names. A header named `self`
  makes `Column(**...)` raise `TypeError`, because `self` receives two
  values. That happens for every row built by `query` or `all`, and the
  model does not raise it.
- `Tables.Table.Describe`: the source keeps the caller's `columns` list
  itself as `config`, without a copy, and `describe` returns that same
  object. A change the caller makes through either reference alters what
  `describe` returns and what the next `write` saves, while `headers` and
  `types` stay as they were. The model holds `config` as a value that only
  `Create` and `Open` set, so this aliasing is not modelled.
- `config` keeps the caller's column dictionaries verbatim, extra keys
  included, and `describe` returns them. `ColumnSpec` keeps only the name
  and the type, so extra keys are not modelled.
- `Values.Encode` and `Values.ParseDigits` accept numbers of any size. Since
  CPython 3.11, `str()` and `int()` raise `ValueError` for integers of more
  than 4300 decimal digits, by default. That limit is not modelled.
- `all` is a generator. It is modelled as the list it yields. Calling it
  runs nothing: it reads the columns, and raises, only at the first
  `next()`, so the rows reflect the table as it is when iteration starts,
  and an `IndexError` (from a table with no columns or a short column)
  comes at that first `next()`, before any row is yielded.
