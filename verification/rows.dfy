/** Row views over a table's columns: the record `Column(**dict(zip(headers,
    values)))` builds, the linear-scan query, the decoded scan of every row
    and the stable sort of that scan. Each works on a snapshot of the table's
    `headers` and `data`. */
module Rows {
  import opened Values
  import opened Results
  import opened Ordering

  /** A row view: attribute name to value. */
  type Row<T> = map<string, T>

  /** All columns have the length of the first one. */
  predicate Rectangular<T>(data: seq<seq<T>>) {
    forall j :: 0 <= j < |data| ==> |data[j]| == |data[0]|
  }

  /** No later header repeats headers[j], so the row view keeps column j. */
  predicate LastOccurrence(names: seq<string>, j: int)
    requires 0 <= j < |names|
  {
    forall k :: j < k < |names| ==> names[k] != names[j]
  }

  /** `dict(zip(names, vals))`: a later duplicate name overwrites an earlier one. */
  function Record<T>(names: seq<string>, vals: seq<T>): (r: Row<T>)
    requires |names| == |vals|
    ensures forall n :: n in r <==> n in names
    ensures forall j :: 0 <= j < |names| && LastOccurrence(names, j) ==> r[names[j]] == vals[j]
  {
    if |names| == 0 then map[]
    else
      var m := |names| - 1;
      assert forall j :: 0 <= j < m ==> names[..m][j] == names[j];
      Record(names[..m], vals[..m])[names[m] := vals[m]]
  }

  /** `headers.index(key)`: the first position holding key. */
  function FirstIndex(names: seq<string>, key: string): (r: nat)
    requires key in names
    ensures r < |names| && names[r] == key
    ensures forall j :: 0 <= j < r ==> names[j] != key
  {
    if names[0] == key then 0 else 1 + FirstIndex(names[1..], key)
  }

  /** `value == col_value` in query: the caller's value against the stored,
      undecoded text. Only a string with exactly that text matches. */
  function Matches(value: Value, cell: string): (m: bool)
    ensures m <==> value == StrV(cell)
  {
    PyEq(value, StrV(cell))
  }

  /** The positions of the cells that match value, in increasing order. */
  function MatchIndices(col: seq<string>, value: Value): (idx: seq<nat>)
    ensures forall t :: 0 <= t < |idx| ==> idx[t] < |col| && Matches(value, col[idx[t]])
    ensures forall a, b :: 0 <= a < b < |idx| ==> idx[a] < idx[b]
    ensures forall i :: 0 <= i < |col| && Matches(value, col[i]) ==> i in idx
  {
    if |col| == 0 then []
    else
      var n := |col| - 1;
      assert forall i :: 0 <= i < n ==> col[..n][i] == col[i];
      MatchIndices(col[..n], value) + (if Matches(value, col[n]) then [n] else [])
  }

  /** A column with no matching cell yields no positions. */
  lemma {:induction false} NoMatchNoIndices(col: seq<string>, value: Value)
    requires forall i :: 0 <= i < |col| ==> !Matches(value, col[i])
    ensures MatchIndices(col, value) == []
  {
    if |col| > 0 {
      NoMatchNoIndices(col[..|col| - 1], value);
    }
  }

  /** The cells of every column at row i. */
  function CellsAt(data: seq<seq<string>>, i: nat): (r: seq<string>)
    requires forall j :: 0 <= j < |data| ==> i < |data[j]|
    ensures |r| == |data|
  {
    seq(|data|, j requires 0 <= j < |data| => data[j][i])
  }

  /** The cells of every column at row i, each decoded. */
  function DecodedAt(data: seq<seq<string>>, i: nat): (r: seq<Value>)
    requires forall j :: 0 <= j < |data| ==> i < |data[j]|
    ensures |r| == |data|
  {
    seq(|data|, j requires 0 <= j < |data| => Decode(data[j][i]))
  }

  /** Every column has a cell at each of the positions idx. */
  predicate Present(data: seq<seq<string>>, idx: seq<nat>) {
    forall t, j :: 0 <= t < |idx| && 0 <= j < |data| ==> idx[t] < |data[j]|
  }

  /** `query(key=value)`: a scan of column `key` comparing raw text, then one
      undecoded row view per matching position. Reading a position past the
      end of a shorter column is an IndexError. */
  function QueryRows(headers: seq<string>, data: seq<seq<string>>, key: string, value: Value)
    : (r: Result<seq<Row<string>>>)
    requires |headers| == |data| && key in headers
    ensures var idx := MatchIndices(data[FirstIndex(headers, key)], value);
      && (r.Ok? <==> Present(data, idx))
      && (r.Err? ==> r.error == IndexOutOfRange)
      && (r.Ok? ==>
            && |r.value| == |idx|
            && (forall t, n :: 0 <= t < |idx| ==> (n in r.value[t] <==> n in headers))
            && (forall t, j :: 0 <= t < |idx| && 0 <= j < |data| && LastOccurrence(headers, j) ==>
                  headers[j] in r.value[t] && r.value[t][headers[j]] == data[j][idx[t]]))
  {
    var idx := MatchIndices(data[FirstIndex(headers, key)], value);
    if Present(data, idx) then
      Ok(seq(|idx|, t requires 0 <= t < |idx| => Record(headers, CellsAt(data, idx[t]))))
    else
      Err(IndexOutOfRange)
  }

  /** Querying with a value that is not a string finds nothing, since stored
      cells are compared as text. */
  lemma QueryNonTextIsEmpty(headers: seq<string>, data: seq<seq<string>>, key: string, value: Value)
    requires |headers| == |data| && key in headers && !value.StrV?
    ensures QueryRows(headers, data, key, value) == Ok([])
  {
    NoMatchNoIndices(data[FirstIndex(headers, key)], value);
  }

  /** On equal-length columns a query never fails and finds exactly the rows
      whose stored text in column key equals the value, in storage order. */
  lemma QueryOnRectangular(headers: seq<string>, data: seq<seq<string>>, key: string, cell: string)
    requires |headers| == |data| && key in headers && Rectangular(data)
    ensures var r := QueryRows(headers, data, key, StrV(cell));
      var c := FirstIndex(headers, key);
      var idx := MatchIndices(data[c], StrV(cell));
      && r.Ok?
      && (forall i :: 0 <= i < |data[c]| ==> (data[c][i] == cell <==> i in idx))
      && forall a, b :: 0 <= a < b < |idx| ==> idx[a] < idx[b]
  {
    var c := FirstIndex(headers, key);
    var idx := MatchIndices(data[c], StrV(cell));
    forall t, j | 0 <= t < |idx| && 0 <= j < |data| ensures idx[t] < |data[j]| {
      assert idx[t] < |data[c]|;
    }
  }

  /** `all()`: one decoded row view per position of the first column, in
      storage order. A column shorter than the first is an IndexError. */
  function AllRows(headers: seq<string>, data: seq<seq<string>>): (r: Result<seq<Row<Value>>>)
    requires |headers| == |data| > 0
    ensures r.Ok? <==> forall j :: 0 <= j < |data| ==> |data[j]| >= |data[0]|
    ensures r.Err? ==> r.error == IndexOutOfRange
    ensures r.Ok? ==>
      && |r.value| == |data[0]|
      && (forall i, n :: 0 <= i < |r.value| ==> (n in r.value[i] <==> n in headers))
      && (forall i, j :: 0 <= i < |r.value| && 0 <= j < |data| && LastOccurrence(headers, j) ==>
            headers[j] in r.value[i] && r.value[i][headers[j]] == Decode(data[j][i]))
  {
    if exists j :: 0 <= j < |data| && |data[j]| < |data[0]| then Err(IndexOutOfRange)
    else Ok(seq(|data[0]|, i requires 0 <= i < |data[0]| => Record(headers, DecodedAt(data, i))))
  }

  /** The key `sorted` uses for a row: the attribute, through key_func if given. */
  function RowKey(row: Row<Value>, attr: string, keyFunc: Option<Value -> Value>): Key
    requires attr in row
  {
    KeyOf(if keyFunc.Some? then keyFunc.value(row[attr]) else row[attr])
  }

  /** The keys of a list of rows, one per row. */
  function RowKeys(rows: seq<Row<Value>>, attr: string, keyFunc: Option<Value -> Value>): (keys: seq<Key>)
    requires forall i :: 0 <= i < |rows| ==> attr in rows[i]
    ensures |keys| == |rows|
  {
    seq(|rows|, i requires 0 <= i < |rows| => RowKey(rows[i], attr, keyFunc))
  }

  /** The key `sort` uses for row i is the decoded stored cell of the column
      named attr (the last column of that name), through key_func if given. */
  lemma SortKeyIsStoredCell(headers: seq<string>, data: seq<seq<string>>, attr: string,
                            keyFunc: Option<Value -> Value>, j: nat)
    requires |headers| == |data| > 0
    requires forall c :: 0 <= c < |data| ==> |data[c]| >= |data[0]|
    requires j < |headers| && headers[j] == attr && LastOccurrence(headers, j)
    ensures AllRows(headers, data).Ok?
    ensures var rows := AllRows(headers, data).value;
      && (forall i :: 0 <= i < |rows| ==> attr in rows[i])
      && var keys := RowKeys(rows, attr, keyFunc);
         forall i :: 0 <= i < |data[0]| ==>
           keys[i] == KeyOf(if keyFunc.Some? then keyFunc.value(Decode(data[j][i])) else Decode(data[j][i]))
  {
    var rows := AllRows(headers, data).value;
    forall i | 0 <= i < |data[0]|
      ensures rows[i][attr] == Decode(data[j][i])
    {
      assert rows[i][headers[j]] == Decode(data[j][i]);
    }
  }

  /** All keys are numbers or all are strings. */
  predicate SameKind(keys: seq<Key>) {
    forall a, b :: 0 <= a < |keys| && 0 <= b < |keys| ==> keys[a].Num? == keys[b].Num?
  }

  /** `sorted(rows, key=...)` once every row has the attribute: a TypeError
      when numbers meet strings, otherwise the rows in stable key order. */
  function SortByKeys(rows: seq<Row<Value>>, attr: string, keyFunc: Option<Value -> Value>)
    : (r: Result<seq<Row<Value>>>)
    requires forall i :: 0 <= i < |rows| ==> attr in rows[i]
    ensures var keys := RowKeys(rows, attr, keyFunc);
      var p := SortOrder(keys);
      && (!SameKind(keys) ==> r == Err(Incomparable))
      && (SameKind(keys) ==>
            && r.Ok? && |r.value| == |rows|
            && (forall t :: 0 <= t < |rows| ==> r.value[t] == rows[p[t]]))
  {
    var keys := RowKeys(rows, attr, keyFunc);
    if !SameKind(keys) then Err(Incomparable)
    else
      var p := SortOrder(keys);
      Ok(seq(|p|, t requires 0 <= t < |p| => rows[p[t]]))
  }

  /** `sort(attr, key_func)`: `sorted(all(), key=...)`. Every key is computed
      before any comparison, so a missing attribute fails first; comparing a
      number with a string is a TypeError; otherwise the rows of `all()` in
      stable key order. */
  function SortRows(headers: seq<string>, data: seq<seq<string>>, attr: string,
                    keyFunc: Option<Value -> Value>): (r: Result<seq<Row<Value>>>)
    requires |headers| == |data| > 0
    ensures AllRows(headers, data).Err? ==> r == Err(IndexOutOfRange)
    ensures AllRows(headers, data).Ok? ==>
      var rows := AllRows(headers, data).value;
      && (|rows| > 0 && attr !in headers ==> r == Err(MissingAttribute))
      && ((|rows| == 0 || attr in headers) ==>
            var keys := RowKeys(rows, attr, keyFunc);
            var p := SortOrder(keys);
            && (!SameKind(keys) ==> r == Err(Incomparable))
            && (SameKind(keys) ==>
                  && r.Ok? && |r.value| == |rows|
                  && (forall t :: 0 <= t < |rows| ==> r.value[t] == rows[p[t]])))
  {
    var all := AllRows(headers, data);
    if all.Err? then Err(IndexOutOfRange)
    else
      var rows := all.value;
      if |rows| > 0 && attr !in headers then Err(MissingAttribute)
      else
        assert forall i :: 0 <= i < |rows| ==> attr in rows[i];
        SortByKeys(rows, attr, keyFunc)
  }

  /** Sorted rows are in key order: no row's key is smaller than the key of
      a row before it. */
  lemma SortByKeysOrdered(rows: seq<Row<Value>>, attr: string, keyFunc: Option<Value -> Value>)
    requires forall i :: 0 <= i < |rows| ==> attr in rows[i]
    ensures var r := SortByKeys(rows, attr, keyFunc);
      r.Ok? ==>
        && (forall t :: 0 <= t < |r.value| ==> attr in r.value[t])
        && forall a, b :: 0 <= a < b < |r.value| ==>
             !KeyLess(RowKey(r.value[b], attr, keyFunc), RowKey(r.value[a], attr, keyFunc))
  {
    var r := SortByKeys(rows, attr, keyFunc);
    if r.Ok? {
      var out := r.value;
      var keys := RowKeys(rows, attr, keyFunc);
      var p := SortOrder(keys);
      forall a, b | 0 <= a < b < |out|
        ensures !KeyLess(RowKey(out[b], attr, keyFunc), RowKey(out[a], attr, keyFunc))
      {
        assert Before(keys, p[a], p[b]);
        KeyLessStrictTotal(keys[p[a]], keys[p[b]], keys[p[a]]);
      }
    }
  }

  /** A successful `sort` returns the rows of `all()` ordered by key: no row's
      key is smaller than the key of a row before it. */
  lemma SortedRowsAreOrdered(headers: seq<string>, data: seq<seq<string>>, attr: string,
                             keyFunc: Option<Value -> Value>)
    requires |headers| == |data| > 0
    ensures var r := SortRows(headers, data, attr, keyFunc);
      r.Ok? ==>
        && (forall t :: 0 <= t < |r.value| ==> attr in r.value[t])
        && forall a, b :: 0 <= a < b < |r.value| ==>
             !KeyLess(RowKey(r.value[b], attr, keyFunc), RowKey(r.value[a], attr, keyFunc))
  {
    var all := AllRows(headers, data);
    if all.Ok? && (|all.value| == 0 || attr in headers) {
      SortByKeysOrdered(all.value, attr, keyFunc);
    }
  }
}
