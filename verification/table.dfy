/** The table object: the column names, their declared types, one list of
    stored text per column, the schema as supplied, and the document last
    written for the table. `insert` validates and appends in place; the
    readers delegate to the row views of module Rows. */
module Tables {
  import opened Values
  import opened Results
  import opened Rows

  /** One schema entry as the caller supplies it: `{'name': ..., 'type': ...}`. */
  datatype ColumnSpec = ColumnSpec(name: string, typ: TypeTag)

  /** What `write` persists: the four fields of the table, as one document. */
  datatype Document = Document(
    headers: seq<string>,
    types: seq<TypeTag>,
    data: seq<seq<string>>,
    config: seq<ColumnSpec>)

  /** The columns after `insert` appended the text of args[0..k-1] to
      columns 0..k-1 and left the others alone. */
  function AppendFirst(data: seq<seq<string>>, args: seq<Value>, k: nat): (r: seq<seq<string>>)
    requires k <= |args| && k <= |data|
    ensures |r| == |data|
  {
    seq(|data|, j requires 0 <= j < |data| => if j < k then data[j] + [Encode(args[j])] else data[j])
  }

  /** The first position whose value's exact type differs from its column's
      declared type, or |args| when every value fits. */
  function FirstMismatch(args: seq<Value>, types: seq<TypeTag>): (k: nat)
    requires |args| == |types|
    ensures k <= |args|
    ensures forall j :: 0 <= j < k ==> TypeOf(args[j]) == types[j]
    ensures k < |args| ==> TypeOf(args[k]) != types[k]
  {
    if |args| == 0 then 0
    else if TypeOf(args[0]) != types[0] then 0
    else 1 + FirstMismatch(args[1..], types[1..])
  }

  /** `args.index(value)`: the first position whose value is `==` to x. */
  function FirstEqual(args: seq<Value>, x: Value): (r: nat)
    ensures r <= |args|
    ensures r < |args| ==> PyEq(args[r], x)
    ensures r == |args| ==> forall j :: 0 <= j < |args| ==> !PyEq(args[j], x)
    ensures forall j :: 0 <= j < r ==> !PyEq(args[j], x)
  {
    if |args| == 0 then 0
    else if PyEq(args[0], x) then 0
    else 1 + FirstEqual(args[1..], x)
  }

  /** The column an `insert` type error names: the first value equal to the
      failing one, which may sit before the failing position. */
  function ErrorColumn(args: seq<Value>, k: nat): (c: nat)
    requires k < |args|
    ensures c <= k && PyEq(args[c], args[k])
    ensures (c == k) <==> forall j :: 0 <= j < k ==> !PyEq(args[j], args[k])
  {
    FirstEqual(args, args[k])
  }

  /** A full insert grows every column by the text of its value, so equal
      column lengths stay equal and the row count rises by one. */
  lemma InsertGrowsEveryColumn(data: seq<seq<string>>, args: seq<Value>)
    requires |args| == |data| > 0 && Rectangular(data)
    ensures var d := AppendFirst(data, args, |args|);
      && Rectangular(d)
      && |d[0]| == |data[0]| + 1
      && forall j :: 0 <= j < |data| ==> d[j] == data[j] + [Encode(args[j])]
  {
  }

  /** An insert that fails at position k > 0 leaves the first k columns one
      longer than the rest: the columns no longer have equal length. */
  lemma FailedInsertBreaksRectangle(data: seq<seq<string>>, args: seq<Value>, k: nat)
    requires |args| == |data| && Rectangular(data) && 0 < k < |args|
    ensures !Rectangular(AppendFirst(data, args, k))
  {
    var d := AppendFirst(data, args, k);
    assert |d[0]| == |data[0]| + 1 && |d[k]| == |data[0]|;
  }

  /** After a full insert the scan of all rows is the old scan followed by one
      row: the decoded text of the inserted values. */
  lemma InsertedRowReadsLast(headers: seq<string>, data: seq<seq<string>>, args: seq<Value>)
    requires |headers| == |data| == |args| > 0 && Rectangular(data)
    ensures var before := AllRows(headers, data);
      var after := AllRows(headers, AppendFirst(data, args, |args|));
      && before.Ok? && after.Ok?
      && |after.value| == |before.value| + 1
      && after.value[..|before.value|] == before.value
      && after.value[|before.value|] ==
           Record(headers, seq(|args|, j requires 0 <= j < |args| => Decode(Encode(args[j]))))
  {
    var d := AppendFirst(data, args, |args|);
    var n := |data[0]|;
    var before := AllRows(headers, data).value;
    var after := AllRows(headers, d).value;
    forall i | 0 <= i < n ensures after[i] == before[i] {
      assert DecodedAt(d, i) == DecodedAt(data, i);
    }
    assert DecodedAt(d, n) == seq(|args|, j requires 0 <= j < |args| => Decode(Encode(args[j])));
  }

  /** When every inserted value survives storage, the last row read back maps
      each header to the value inserted under it. */
  lemma InsertedRowRoundTrips(headers: seq<string>, data: seq<seq<string>>, args: seq<Value>)
    requires |headers| == |data| == |args| > 0 && Rectangular(data)
    requires forall j :: 0 <= j < |args| ==> SurvivesStorage(args[j])
    ensures var after := AllRows(headers, AppendFirst(data, args, |args|));
      after.Ok? && after.value[|data[0]|] == Record(headers, args)
  {
    InsertedRowReadsLast(headers, data, args);
    forall j | 0 <= j < |args| ensures Decode(Encode(args[j])) == args[j] {
      RoundTrip(args[j]);
    }
    assert seq(|args|, j requires 0 <= j < |args| => Decode(Encode(args[j]))) == args;
  }

  /** With columns 'a' and 'b' both declared 'int', inserting (1, True)
      fails at 'b' but the error names 'a', because `True == 1`. */
  lemma ErrorColumnMisattributed()
    ensures var args := [IntV(1), BoolV(true)];
      FirstMismatch(args, [IntType, IntType]) == 1 && ErrorColumn(args, 1) == 0
  {
  }

  class Table {
    var name: string
    var headers: seq<string>
    var types: seq<TypeTag>
    var data: seq<seq<string>>
    var config: seq<ColumnSpec>
    /** The document the table's file holds after the last `write`. */
    var stored: Document

    /** One declared type and one column per header. */
    predicate Valid()
      reads this
    {
      |headers| == |types| == |data|
    }

    function Snapshot(): Document
      reads this
    {
      Document(headers, types, data, config)
    }

    /** A new table: names and types from the schema, an empty column per
      entry, the schema kept as config, and the empty table written at once. */
    constructor Create(tableName: string, columns: seq<ColumnSpec>)
      ensures Valid() && name == tableName && config == columns
      ensures |headers| == |columns|
      ensures forall j :: 0 <= j < |columns| ==>
                headers[j] == columns[j].name && types[j] == columns[j].typ && data[j] == []
      ensures stored == Snapshot()
      ensures Describe() == columns
    {
      name := tableName;
      headers := seq(|columns|, j requires 0 <= j < |columns| => columns[j].name);
      types := seq(|columns|, j requires 0 <= j < |columns| => columns[j].typ);
      data := seq(|columns|, _ => []);
      config := columns;
      new;
      Write();
    }

    /** A table reconnected to its file: config is the schema the caller
      passes, headers, types and data come from the stored document. */
    constructor Open(tableName: string, columns: seq<ColumnSpec>, file: Document)
      requires |file.headers| == |file.types| == |file.data|
      ensures Valid() && name == tableName && config == columns
      ensures headers == file.headers && types == file.types && data == file.data
      ensures stored == file
    {
      name := tableName;
      config := columns;
      stored := file;
      headers := file.headers;
      types := file.types;
      data := file.data;
    }

    /** `write`: the stored document becomes the table's current state. */
    method Write()
      modifies this`stored
      ensures stored == Snapshot()
    {
      stored := Document(headers, types, data, config);
    }

    /** `insert(*args)`. A wrong number of values changes nothing. Otherwise
      the values are checked left to right against the exact declared type,
      each passing value's text appended to its column as it goes; the first
      failing value stops the loop with earlier columns already appended and
      nothing written. Only a full pass writes the table. */
    method Insert(args: seq<Value>) returns (r: Result<()>)
      requires Valid()
      modifies this
      ensures Valid()
      ensures name == old(name) && headers == old(headers) && types == old(types)
      ensures config == old(config) && Describe() == old(Describe())
      ensures |args| != |old(data)| ==>
        r == Err(InvalidAmount) && data == old(data) && stored == old(stored)
      ensures |args| == |old(data)| ==>
        var k := FirstMismatch(args, types);
        && data == AppendFirst(old(data), args, k)
        && (k == |args| ==> r == Ok(()) && stored == Snapshot())
        && (k < |args| ==>
              && r == Err(InvalidType(headers[ErrorColumn(args, k)], TypeOf(args[k]), types[k]))
              && stored == old(stored))
    {
      if |args| != |data| {
        return Err(InvalidAmount);
      }
      var i := 0;
      while i < |args|
        invariant 0 <= i <= |args| == |data| == |types| == |headers|
        invariant forall j :: 0 <= j < i ==> TypeOf(args[j]) == types[j]
        invariant data == AppendFirst(old(data), args, i)
        invariant name == old(name) && headers == old(headers) && types == old(types)
        invariant config == old(config) && stored == old(stored)
      {
        if TypeOf(args[i]) == types[i] {
          data := data[i := data[i] + [Encode(args[i])]];
        } else {
          assert FirstMismatch(args, types) == i;
          var ind := FirstEqual(args, args[i]);
          return Err(InvalidType(headers[ind], TypeOf(args[i]), types[i]));
        }
        i := i + 1;
      }
      assert FirstMismatch(args, types) == |args|;
      Write();
      r := Ok(());
    }

    /** `count()`: the length of the first column, which is the length of
      every column while they are equal. */
    function Count(): (n: nat)
      reads this
      requires |data| > 0
      ensures Rectangular(data) ==> forall j :: 0 <= j < |data| ==> |data[j]| == n
    {
      |data[0]|
    }

    /** `query(key=value)` on the current columns. Equal-length columns never
      fail, and a value that is not a string matches nothing. */
    function Query(key: string, value: Value): (r: Result<seq<Row<string>>>)
      reads this
      requires Valid() && key in headers
      ensures Rectangular(data) ==> r.Ok?
      ensures !value.StrV? ==> r == Ok([])
    {
      if !value.StrV? then QueryNonTextIsEmpty(headers, data, key, value); QueryRows(headers, data, key, value)
      else if Rectangular(data) then QueryOnRectangular(headers, data, key, value.s); QueryRows(headers, data, key, value)
      else QueryRows(headers, data, key, value)
    }

    /** `all()` on the current columns: one row per counted row when the
      columns have equal length. */
    function All(): (r: Result<seq<Row<Value>>>)
      reads this
      requires Valid() && |data| > 0
      ensures Rectangular(data) ==> r.Ok? && |r.value| == Count()
    {
      AllRows(headers, data)
    }

    /** `sort(attr, key_func)` on the current columns. */
    function Sort(attr: string, keyFunc: Option<Value -> Value>): (r: Result<seq<Row<Value>>>)
      reads this
      requires Valid() && |data| > 0
      ensures Rectangular(data) && attr in headers && r.Ok? ==> |r.value| == Count()
      ensures Rectangular(data) && Count() > 0 && attr !in headers ==> r == Err(MissingAttribute)
    {
      SortRows(headers, data, attr, keyFunc)
    }

    /** `describe()`: the schema as supplied when the table was created (see
      Create), kept by Insert, and the config of the document last written
      while nothing has changed since. */
    function Describe(): (r: seq<ColumnSpec>)
      reads this
      ensures stored == Snapshot() ==> r == stored.config
    {
      config
    }
  }
}
