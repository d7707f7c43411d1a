/**
 * The JSON load path of the backend scanner: the type each column is loaded as, the check
 * that tells newline-delimited JSON from a JSON array, the rules that fill one chunk row from a
 * JSON object (with and without JSON paths), the rollback of a row that fails, and the size
 * checks on a file read through a broker.
 */
module JsonScanners {
  import opened Wrappers
  import opened BeStatus
  import opened Strings

  // ---------------------------------------------------------------------------------------
  // Load types
  // ---------------------------------------------------------------------------------------

  datatype LogicalType =
    | TypeArray | TypeStruct | TypeMap
    | TypeFloat | TypeDouble | TypeBigInt | TypeInt | TypeSmallInt | TypeTinyInt
    | TypeBoolean | TypeChar | TypeVarchar | TypeJson
    | TypeOther(name: string)   // any other type: LARGEINT, DECIMAL, DATE, DATETIME, HLL, ...

  /** A column type: `len` is the declared length (absent when not set), `children` the element,
   *  field or key and value types of a complex type. */
  datatype TypeDescriptor = TypeDescriptor(ty: LogicalType, len: Option<int>, fieldNames: seq<string>,
                                           children: seq<TypeDescriptor>)

  predicate IsComplex(ty: LogicalType) {
    ty.TypeArray? || ty.TypeStruct? || ty.TypeMap?
  }

  /** The scalar types JSON values are loaded as directly. */
  predicate LoadedAsIs(ty: LogicalType) {
    !IsComplex(ty) && !ty.TypeOther?
  }

  /** A type the recursion can walk: an array has its element type, a map its key and value types. */
  predicate WellFormed(t: TypeDescriptor)
    decreases t
  {
    match t.ty
    case TypeArray => |t.children| >= 1 && WellFormed(t.children[0])
    case TypeMap => |t.children| >= 2 && WellFormed(t.children[0]) && WellFormed(t.children[1])
    case TypeStruct => forall i :: 0 <= i < |t.children| ==> WellFormed(t.children[i])
    case _ => true
  }

  /**
   * A type JSON values can be loaded as: every leaf is one of the directly loaded scalar types,
   * an array has one element type and a map one key and one value type, and no complex type
   * carries a length (nor, unless it is a struct, field names).
   */
  predicate Loadable(t: TypeDescriptor)
    decreases t
  {
    match t.ty
    case TypeArray => t.len.None? && t.fieldNames == [] && |t.children| == 1 && Loadable(t.children[0])
    case TypeMap =>
      t.len.None? && t.fieldNames == [] && |t.children| == 2 && Loadable(t.children[0]) && Loadable(t.children[1])
    case TypeStruct => t.len.None? && forall i :: 0 <= i < |t.children| ==> Loadable(t.children[i])
    case TypeOther(_) => false
    case _ => true
  }

  function VarcharType(len: int): TypeDescriptor {
    TypeDescriptor(TypeVarchar, Some(len), [], [])
  }

  /**
   * `construct_json_type`: complex types are rebuilt around the load types of their children
   * (a struct keeping its field names), the directly loaded scalars are kept, and every other
   * type is read as a VARCHAR of the maximum length.
   */
  function JsonType(t: TypeDescriptor, maxVarcharLength: int): (r: TypeDescriptor)
    requires WellFormed(t)
    ensures WellFormed(r) && Loadable(r)
    decreases t
  {
    match t.ty
    case TypeArray => TypeDescriptor(TypeArray, None, [], [JsonType(t.children[0], maxVarcharLength)])
    case TypeStruct =>
      TypeDescriptor(TypeStruct, None, t.fieldNames,
                     seq(|t.children|, i requires 0 <= i < |t.children| => JsonType(t.children[i], maxVarcharLength)))
    case TypeMap =>
      TypeDescriptor(TypeMap, None, [],
                     [JsonType(t.children[0], maxVarcharLength), JsonType(t.children[1], maxVarcharLength)])
    case TypeOther(_) => VarcharType(maxVarcharLength)
    case _ => t
  }

  /** The directly loaded scalars map to themselves and every other scalar to the longest VARCHAR. */
  lemma JsonTypeOfScalar(t: TypeDescriptor, maxVarcharLength: int)
    requires !IsComplex(t.ty)
    ensures LoadedAsIs(t.ty) ==> JsonType(t, maxVarcharLength) == t
    ensures !LoadedAsIs(t.ty) ==> JsonType(t, maxVarcharLength) == VarcharType(maxVarcharLength)
  {
  }

  /** Arrays, structs and maps keep their kind, a struct its field names, and the children are mapped in place. */
  lemma JsonTypeOfComplex(t: TypeDescriptor, maxVarcharLength: int)
    requires WellFormed(t) && IsComplex(t.ty)
    ensures var r := JsonType(t, maxVarcharLength);
      && r.ty == t.ty
      && |r.children| == (match t.ty case TypeArray => 1 case TypeMap => 2 case _ => |t.children|)
      && (forall i :: 0 <= i < |r.children| ==> r.children[i] == JsonType(t.children[i], maxVarcharLength))
      && (t.ty.TypeStruct? ==> r.fieldNames == t.fieldNames)
  {
  }

  /** A type that can already be loaded is its own load type. */
  lemma {:induction false} JsonTypeOfLoadable(t: TypeDescriptor, maxVarcharLength: int)
    requires Loadable(t)
    ensures WellFormed(t) && JsonType(t, maxVarcharLength) == t
    decreases t
  {
    match t.ty
    case TypeArray =>
      JsonTypeOfLoadable(t.children[0], maxVarcharLength);
      assert [t.children[0]] == t.children;
    case TypeMap =>
      JsonTypeOfLoadable(t.children[0], maxVarcharLength);
      JsonTypeOfLoadable(t.children[1], maxVarcharLength);
      assert [t.children[0], t.children[1]] == t.children;
    case TypeStruct =>
      forall i | 0 <= i < |t.children|
        ensures WellFormed(t.children[i]) && JsonType(t.children[i], maxVarcharLength) == t.children[i]
      {
        JsonTypeOfLoadable(t.children[i], maxVarcharLength);
      }
      var cs := seq(|t.children|, i requires 0 <= i < |t.children| => JsonType(t.children[i], maxVarcharLength));
      assert cs == t.children;
    case _ =>
  }

  /** Mapping a type twice changes nothing more. */
  lemma JsonTypeIdempotent(t: TypeDescriptor, maxVarcharLength: int)
    requires WellFormed(t)
    ensures JsonType(JsonType(t, maxVarcharLength), maxVarcharLength) == JsonType(t, maxVarcharLength)
  {
    JsonTypeOfLoadable(JsonType(t, maxVarcharLength), maxVarcharLength);
  }

  /** `_construct_json_types`: the load type of every slot, none for an absent slot. */
  function JsonTypes(slotTypes: seq<Option<TypeDescriptor>>, maxVarcharLength: int): (r: seq<Option<TypeDescriptor>>)
    requires forall i :: 0 <= i < |slotTypes| && slotTypes[i].Some? ==> WellFormed(slotTypes[i].value)
    ensures |r| == |slotTypes|
    ensures forall i :: 0 <= i < |r| ==> (r[i].Some? <==> slotTypes[i].Some?)
    ensures forall i :: 0 <= i < |r| && r[i].Some? ==> Loadable(r[i].value)
  {
    seq(|slotTypes|, i requires 0 <= i < |slotTypes| =>
      if slotTypes[i].Some? then Some(JsonType(slotTypes[i].value, maxVarcharLength)) else None)
  }

  // ---------------------------------------------------------------------------------------
  // Newline-delimited JSON or a JSON array
  // ---------------------------------------------------------------------------------------

  /** The insignificant whitespace of JSON (section 2 of RFC 8259): space, tab, line feed, carriage return. */
  predicate IsJsonWhitespace(c: char) {
    c == ' ' || c == '\t' || c == '\n' || c == '\r'
  }

  /** The index of the first character that is not JSON whitespace, or the length when there is none. */
  function SkipWhitespace(s: seq<char>): (k: nat)
    ensures k <= |s|
    ensures forall i :: 0 <= i < k ==> IsJsonWhitespace(s[i])
    ensures k < |s| ==> !IsJsonWhitespace(s[k])
    decreases |s|
  {
    if s == [] || !IsJsonWhitespace(s[0]) then 0 else 1 + SkipWhitespace(s[1..])
  }

  function IllegalStart(c: char): string {
    "illegal json started with " + [c]
  }

  /** What `_check_ndjson` returns: an error for any first significant character other than `[` or `{`. */
  function NdjsonStatus(payload: seq<char>): Status {
    var k := SkipWhitespace(payload);
    if k == |payload| || payload[k] == '[' || payload[k] == '{' then OK
    else Error(DataQualityError, IllegalStart(payload[k]))
  }

  /** The first significant character opens an object: the payload is newline-delimited JSON. */
  predicate StartsWithObject(payload: seq<char>) {
    var k := SkipWhitespace(payload);
    k < |payload| && payload[k] == '{'
  }

  /** A payload of JSON whitespace only passes the check and is not taken as newline-delimited. */
  lemma BlankPayload(payload: seq<char>)
    requires forall i :: 0 <= i < |payload| ==> IsJsonWhitespace(payload[i])
    ensures NdjsonStatus(payload) == OK && !StartsWithObject(payload)
  {
  }

  /**
   * After any run of JSON whitespace, `{` makes the payload newline-delimited, `[` a JSON array,
   * and any other character is a data quality error naming it.
   */
  lemma FirstSignificant(blank: seq<char>, rest: seq<char>)
    requires forall i :: 0 <= i < |blank| ==> IsJsonWhitespace(blank[i])
    requires rest != [] && !IsJsonWhitespace(rest[0])
    ensures rest[0] == '{' ==> NdjsonStatus(blank + rest) == OK && StartsWithObject(blank + rest)
    ensures rest[0] == '[' ==> NdjsonStatus(blank + rest) == OK && !StartsWithObject(blank + rest)
    ensures rest[0] != '{' && rest[0] != '[' ==>
      NdjsonStatus(blank + rest) == Error(DataQualityError, IllegalStart(rest[0])) && !StartsWithObject(blank + rest)
  {
    var s := blank + rest;
    assert s[|blank|] == rest[0];
    assert forall i :: 0 <= i < |blank| ==> IsJsonWhitespace(s[i]);
    assert SkipWhitespace(s) == |blank|;
  }

  // ---------------------------------------------------------------------------------------
  // Columns, slots and the key dictionary
  // ---------------------------------------------------------------------------------------

  /** One value of a chunk column: a null, the `0` filled into a missing `__op`, or a loaded JSON value. */
  datatype Cell = Null | OpDefault | Value(text: string)

  /** One key and (raw) value of a JSON object, in document order. */
  datatype Field = Field(key: string, value: string)

  /** A remembered key of the previous object and its column, negative when the key has no column. */
  datatype Position = Position(key: string, column: int)

  const OpColumnName := "__op"

  /** The names of the present slots, in order: one chunk column each. */
  function Names(slots: seq<Option<string>>): (r: seq<string>)
    ensures |r| <= |slots|
    decreases |slots|
  {
    if slots == [] then []
    else
      var last := slots[|slots| - 1];
      Names(slots[..|slots| - 1]) + (if last.Some? then [last.value] else [])
  }

  /** The chunk column of slot `i`: the number of present slots before it. */
  function SlotColumn(slots: seq<Option<string>>, i: nat): nat
    requires i <= |slots|
  {
    |Names(slots[..i])|
  }

  /** A present slot has a column within the chunk, and a later present slot has a later one. */
  lemma SlotColumnBound(slots: seq<Option<string>>, i: nat)
    requires i < |slots| && slots[i].Some?
    ensures SlotColumn(slots, i) < |Names(slots)|
    ensures Names(slots[..i + 1]) == Names(slots[..i]) + [slots[i].value]
  {
    assert slots[..i + 1][..i] == slots[..i];
    NamesPrefix(slots, i + 1);
  }

  lemma {:induction false} NamesPrefix(slots: seq<Option<string>>, n: nat)
    requires n <= |slots|
    ensures |Names(slots[..n])| <= |Names(slots)|
    decreases |slots| - n
  {
    if n < |slots| {
      NamesPrefix(slots, n + 1);
      assert slots[..n + 1][..n] == slots[..n];
    } else {
      assert slots[..n] == slots;
    }
  }

  /** The column of each column name: the first column of that name (a repeated name does not replace it). */
  function SlotDict(names: seq<string>): (d: map<string, nat>)
    decreases |names|
  {
    if names == [] then map[]
    else
      var d := SlotDict(names[..|names| - 1]);
      var last := names[|names| - 1];
      if last in d then d else d[last := |names| - 1]
  }

  /** The dictionary holds exactly the column names, each at its first column. */
  lemma {:induction false} SlotDictMeans(names: seq<string>)
    ensures forall k :: k in SlotDict(names) <==> k in names
    ensures forall k :: k in SlotDict(names) ==>
      SlotDict(names)[k] < |names| && names[SlotDict(names)[k]] == k &&
      forall j :: 0 <= j < SlotDict(names)[k] ==> names[j] != k
    decreases |names|
  {
    if names != [] {
      var prefix := names[..|names| - 1];
      SlotDictMeans(prefix);
      assert names == prefix + [names[|names| - 1]];
    }
  }

  /** `_op_col_index`: the column of the last `__op` column, or -1 when there is none. */
  function OpIndex(names: seq<string>): (op: int)
    ensures -1 <= op < |names|
    ensures op == -1 <==> OpColumnName !in names
    ensures op >= 0 ==> names[op] == OpColumnName && forall j :: op < j < |names| ==> names[j] != OpColumnName
    decreases |names|
  {
    if names == [] then -1
    else if names[|names| - 1] == OpColumnName then |names| - 1
    else
      var prefix := names[..|names| - 1];
      assert names == prefix + [names[|names| - 1]];
      OpIndex(prefix)
  }

  /** The column a key fills, if any. */
  function ColumnOf(dict: map<string, nat>, key: string): Option<nat> {
    if key in dict then Some(dict[key]) else None
  }

  // ---------------------------------------------------------------------------------------
  // Filling a row without JSON paths
  // ---------------------------------------------------------------------------------------

  /** The value of the first field of `row` whose key fills column `c`. */
  function FirstValue(dict: map<string, nat>, row: seq<Field>, c: nat): Option<string>
    decreases |row|
  {
    if row == [] then None
    else
      match FirstValue(dict, row[..|row| - 1], c)
      case Some(v) => Some(v)
      case None => if ColumnOf(dict, row[|row| - 1].key) == Some(c) then Some(row[|row| - 1].value) else None
  }

  /**
   * Column `c` takes the value of the first field whose key fills it; every later field for
   * the same column is ignored.
   */
  lemma {:induction false} FirstValueMeans(dict: map<string, nat>, row: seq<Field>, c: nat)
    ensures FirstValue(dict, row, c).None? <==> forall j :: 0 <= j < |row| ==> ColumnOf(dict, row[j].key) != Some(c)
    ensures FirstValue(dict, row, c).Some? ==> exists j :: FirstAt(dict, row, c, j)
    decreases |row|
  {
    if row != [] {
      var prefix := row[..|row| - 1];
      FirstValueMeans(dict, prefix, c);
      assert forall j :: 0 <= j < |prefix| ==> prefix[j] == row[j];
      if FirstValue(dict, prefix, c).Some? {
        var j :| FirstAt(dict, prefix, c, j);
        assert FirstAt(dict, row, c, j);
      } else if FirstValue(dict, row, c).Some? {
        assert FirstAt(dict, row, c, |row| - 1);
      }
    }
  }

  /** Field `j` is the first to fill column `c`, and `FirstValue` is its value. */
  predicate FirstAt(dict: map<string, nat>, row: seq<Field>, c: nat, j: int) {
    && 0 <= j < |row|
    && ColumnOf(dict, row[j].key) == Some(c)
    && (forall i :: 0 <= i < j ==> ColumnOf(dict, row[i].key) != Some(c))
    && FirstValue(dict, row, c) == Some(row[j].value)
  }

  /**
   * The status of filling a row: the failure of the first field that is the first for its
   * column and whose value does not load into it, or OK.
   */
  function RowStatus(dict: map<string, nat>, row: seq<Field>, convert: (nat, string) -> Option<Failure>): Status
    decreases |row|
  {
    if row == [] then OK
    else
      var prefix := row[..|row| - 1];
      var last := row[|row| - 1];
      var s := RowStatus(dict, prefix, convert);
      if s != OK then s
      else
        match ColumnOf(dict, last.key)
        case None => OK
        case Some(c) =>
          if FirstValue(dict, prefix, c).Some? then OK
          else match convert(c, last.value)
            case Some(f) => f
            case None => OK
  }

  /** A row that fills without error has every value it takes load into its column. */
  lemma {:induction false} RowStatusOk(dict: map<string, nat>, row: seq<Field>, convert: (nat, string) -> Option<Failure>,
                                       c: nat)
    requires RowStatus(dict, row, convert) == OK && FirstValue(dict, row, c).Some?
    ensures convert(c, FirstValue(dict, row, c).value).None?
    decreases |row|
  {
    var prefix := row[..|row| - 1];
    var last := row[|row| - 1];
    assert RowStatus(dict, prefix, convert) == OK;
    if FirstValue(dict, prefix, c).Some? {
      RowStatusOk(dict, prefix, convert, c);
    } else {
      assert ColumnOf(dict, last.key) == Some(c);
      match convert(c, last.value)
      case Some(f) => assert f.Error?;
      case None =>
    }
  }

  /** A row that fails has a column whose first value does not load. */
  lemma {:induction false} RowStatusFails(dict: map<string, nat>, row: seq<Field>, convert: (nat, string) -> Option<Failure>)
    requires RowStatus(dict, row, convert) != OK
    ensures exists c: nat :: FirstValue(dict, row, c).Some? && convert(c, FirstValue(dict, row, c).value).Some?
    decreases |row|
  {
    var prefix := row[..|row| - 1];
    var last := row[|row| - 1];
    if RowStatus(dict, prefix, convert) != OK {
      RowStatusFails(dict, prefix, convert);
      var c: nat :| FirstValue(dict, prefix, c).Some? && convert(c, FirstValue(dict, prefix, c).value).Some?;
      assert FirstValue(dict, row, c) == FirstValue(dict, prefix, c);
    } else {
      var c := ColumnOf(dict, last.key).value;
      assert FirstValue(dict, prefix, c).None? && convert(c, last.value).Some?;
      assert FirstValue(dict, row, c) == Some(last.value);
    }
  }

  /** A row fills without error exactly when every value taken loads into its column. */
  lemma RowStatusMeans(dict: map<string, nat>, row: seq<Field>, convert: (nat, string) -> Option<Failure>)
    ensures RowStatus(dict, row, convert) == OK <==>
      forall c: nat :: FirstValue(dict, row, c).Some? ==> convert(c, FirstValue(dict, row, c).value).None?
  {
    if RowStatus(dict, row, convert) == OK {
      forall c: nat | FirstValue(dict, row, c).Some?
        ensures convert(c, FirstValue(dict, row, c).value).None?
      {
        RowStatusOk(dict, row, convert, c);
      }
    } else {
      RowStatusFails(dict, row, convert);
    }
  }

  /** Once a prefix of the row has failed, the row fails the same way. */
  lemma {:induction false} RowStatusPrefix(dict: map<string, nat>, row: seq<Field>, k: nat,
                                           convert: (nat, string) -> Option<Failure>)
    requires k <= |row| && RowStatus(dict, row[..k], convert) != OK
    ensures RowStatus(dict, row, convert) == RowStatus(dict, row[..k], convert)
    decreases |row| - k
  {
    if k < |row| {
      assert row[..k + 1][..k] == row[..k];
      RowStatusPrefix(dict, row, k + 1, convert);
    } else {
      assert row[..k] == row;
    }
  }

  /** What column `c` receives from a row: its first value, or `0` for `__op`, or a null. */
  function CellFor(dict: map<string, nat>, op: int, row: seq<Field>, c: nat): Cell {
    match FirstValue(dict, row, c)
    case Some(v) => Value(v)
    case None => if c == op then OpDefault else Null
  }

  /** The columns after a row is filled: each column grows by exactly one cell. */
  function Filled(dict: map<string, nat>, op: int, columns: seq<seq<Cell>>, row: seq<Field>): (r: seq<seq<Cell>>)
    ensures |r| == |columns|
  {
    seq(|columns|, c requires 0 <= c < |columns| => columns[c] + [CellFor(dict, op, row, c)])
  }

  /** `after` keeps every column of `before` as a prefix. */
  ghost predicate Extends(before: seq<seq<Cell>>, after: seq<seq<Cell>>) {
    |after| == |before| &&
    forall c :: 0 <= c < |before| ==> |before[c]| <= |after[c]| && after[c][..|before[c]|] == before[c]
  }

  /** Every column holds `n` cells. */
  ghost predicate Rectangular(columns: seq<seq<Cell>>, n: nat) {
    forall c :: 0 <= c < |columns| ==> |columns[c]| == n
  }

  /** The cells a partly filled row has given column `c` so far. */
  function Partial(dict: map<string, nat>, row: seq<Field>, c: nat): seq<Cell> {
    match FirstValue(dict, row, c)
    case Some(v) => [Value(v)]
    case None => []
  }

  /** A remembered position agrees with the dictionary. */
  predicate PositionValid(dict: map<string, nat>, p: Position) {
    (p.column >= 0 ==> p.key in dict && dict[p.key] == p.column) && (p.column < 0 ==> p.key !in dict)
  }

  /** The position list after remembering `p` at `k`: replaced, or appended when the list is that short. */
  function Remember(prev: seq<Position>, k: nat, p: Position): (r: seq<Position>)
    requires k <= |prev|
    ensures |r| == if k < |prev| then |prev| else k + 1
    ensures r[k] == p && forall i :: 0 <= i < |r| && i != k ==> r[i] == prev[i]
  {
    if k < |prev| then prev[k := p] else prev + [p]
  }

  /** Reading one more field: an ignored field changes no column's value and no status. */
  lemma IgnoredField(dict: map<string, nat>, row: seq<Field>, k: nat, convert: (nat, string) -> Option<Failure>)
    requires k < |row| && RowStatus(dict, row[..k], convert) == OK
    requires ColumnOf(dict, row[k].key).None? || FirstValue(dict, row[..k], ColumnOf(dict, row[k].key).value).Some?
    ensures forall c: nat :: FirstValue(dict, row[..k + 1], c) == FirstValue(dict, row[..k], c)
    ensures RowStatus(dict, row[..k + 1], convert) == OK
  {
    assert row[..k + 1][..k] == row[..k];
  }

  /** Reading one more field that is the first for its column: that column takes its value. */
  lemma TakenField(dict: map<string, nat>, row: seq<Field>, k: nat, convert: (nat, string) -> Option<Failure>)
    requires k < |row| && RowStatus(dict, row[..k], convert) == OK
    requires ColumnOf(dict, row[k].key).Some? && FirstValue(dict, row[..k], ColumnOf(dict, row[k].key).value).None?
    ensures var c0 := ColumnOf(dict, row[k].key).value;
      && FirstValue(dict, row[..k + 1], c0) == Some(row[k].value)
      && (forall c: nat :: c != c0 ==> FirstValue(dict, row[..k + 1], c) == FirstValue(dict, row[..k], c))
      && RowStatus(dict, row[..k + 1], convert) == (match convert(c0, row[k].value) case Some(f) => f case None => OK)
  {
    assert row[..k + 1][..k] == row[..k];
  }

  /** Every column cut back to its first `n` cells. */
  function CutBack(columns: seq<seq<Cell>>, n: nat): (r: seq<seq<Cell>>)
    requires forall c :: 0 <= c < |columns| ==> n <= |columns[c]|
    ensures |r| == |columns| && forall c :: 0 <= c < |r| ==> |r[c]| == n && r[c] == columns[c][..n]
  {
    seq(|columns|, c requires 0 <= c < |columns| => columns[c][..n])
  }

  /** Cutting every column of an extension back to the old row count restores the old columns. */
  lemma Rollback(before: seq<seq<Cell>>, after: seq<seq<Cell>>, n: nat)
    requires Rectangular(before, n) && Extends(before, after)
    ensures CutBack(after, n) == before
  {
    forall c | 0 <= c < |after|
      ensures CutBack(after, n)[c] == before[c]
    {
      assert before[c] <= after[c];
    }
  }

  // ---------------------------------------------------------------------------------------
  // Filling a row through JSON paths
  // ---------------------------------------------------------------------------------------

  /** What evaluating the JSON path of a slot on the current object gives. */
  datatype Extracted = Found(text: string) | NotFound | Failed(failure: Failure)

  /** The cell a column receives when the object gives it nothing: `0` for `__op`, a null otherwise. */
  function DefaultCell(name: string): (cell: Cell)
    ensures cell == OpDefault <==> name == OpColumnName
    ensures cell == Null <==> name != OpColumnName
  {
    if name == OpColumnName then OpDefault else Null
  }

  /**
   * The cell present slot `i` adds, or the failure that stops the row: a slot without a path
   * and a path not found take the default cell, a value found loads into the slot's column,
   * and any other outcome of the extraction is returned.
   */
  function SlotCell(slots: seq<Option<string>>, pathCount: nat, i: nat, extract: nat -> Extracted,
                    convert: (nat, string) -> Option<Failure>): (r: Result<Cell, Failure>)
    requires i < |slots| && slots[i].Some?
    ensures i >= pathCount ==> r == Ok(DefaultCell(slots[i].value))
    ensures i < pathCount && extract(i).NotFound? ==> r == Ok(DefaultCell(slots[i].value))
    ensures i < pathCount && extract(i).Failed? ==> r == Err(extract(i).failure)
    ensures r.Ok? && r.value.Value? ==> i < pathCount && extract(i) == Found(r.value.text)
  {
    if i >= pathCount then Ok(DefaultCell(slots[i].value))
    else match extract(i)
      case Found(text) =>
        (match convert(SlotColumn(slots, i), text)
         case Some(f) => Err(f)
         case None => Ok(Value(text)))
      case NotFound => Ok(DefaultCell(slots[i].value))
      case Failed(f) => Err(f)
  }

  /** `columns` with `cell` appended to column `c`. */
  function Append(columns: seq<seq<Cell>>, c: nat, cell: Cell): (r: seq<seq<Cell>>)
    requires c < |columns|
    ensures |r| == |columns| && r[c] == columns[c] + [cell]
    ensures forall j :: 0 <= j < |r| && j != c ==> r[j] == columns[j]
  {
    columns[c := columns[c] + [cell]]
  }

  /** The columns after the first `k` slots have been visited, or the failure that stopped the row. */
  function PathRow(slots: seq<Option<string>>, pathCount: nat, columns: seq<seq<Cell>>, k: nat,
                   extract: nat -> Extracted, convert: (nat, string) -> Option<Failure>): (r: Result<seq<seq<Cell>>, Failure>)
    requires k <= |slots| && |columns| == |Names(slots)|
    ensures r.Ok? ==> |r.value| == |columns|
    decreases k
  {
    if k == 0 then Ok(columns)
    else match PathRow(slots, pathCount, columns, k - 1, extract, convert)
      case Err(f) => Err(f)
      case Ok(cols) =>
        if slots[k - 1].None? then Ok(cols)
        else
          SlotColumnBound(slots, k - 1);
          match SlotCell(slots, pathCount, k - 1, extract, convert)
          case Err(f) => Err(f)
          case Ok(cell) => Ok(Append(cols, SlotColumn(slots, k - 1), cell))
  }

  /** A slot after another that is present has a later column. */
  lemma {:induction false} SlotColumnMono(slots: seq<Option<string>>, i: nat, j: nat)
    requires i < j <= |slots|
    ensures SlotColumn(slots, i) + (if slots[i].Some? then 1 else 0) <= SlotColumn(slots, j)
    decreases j - i
  {
    NamesStep(slots, i);
    if i + 1 < j {
      SlotColumnMono(slots, i + 1, j);
    }
  }

  /** The row goes through exactly when every present slot visited has a cell. */
  lemma {:induction false} PathRowOk(slots: seq<Option<string>>, pathCount: nat, columns: seq<seq<Cell>>, k: nat,
                                     extract: nat -> Extracted, convert: (nat, string) -> Option<Failure>)
    requires k <= |slots| && |columns| == |Names(slots)|
    ensures PathRow(slots, pathCount, columns, k, extract, convert).Ok? <==>
      forall i :: 0 <= i < k && slots[i].Some? ==> SlotCell(slots, pathCount, i, extract, convert).Ok?
    decreases k
  {
    if k > 0 {
      PathRowOk(slots, pathCount, columns, k - 1, extract, convert);
    }
  }

  /**
   * Visiting the first `k` slots adds exactly one cell to the column of each present slot among
   * them, and leaves the later columns alone.
   */
  lemma {:induction false} PathRowGrows(slots: seq<Option<string>>, pathCount: nat, columns: seq<seq<Cell>>, k: nat,
                                        extract: nat -> Extracted, convert: (nat, string) -> Option<Failure>)
    requires k <= |slots| && |columns| == |Names(slots)|
    ensures var r := PathRow(slots, pathCount, columns, k, extract, convert);
      r.Ok? ==> forall c :: 0 <= c < |columns| ==>
        && (c < SlotColumn(slots, k) ==> |r.value[c]| == |columns[c]| + 1 && r.value[c][..|columns[c]|] == columns[c])
        && (c >= SlotColumn(slots, k) ==> r.value[c] == columns[c])
    decreases k
  {
    if k == 0 {
      assert slots[..0] == [];
    } else {
      PathRowGrows(slots, pathCount, columns, k - 1, extract, convert);
      NamesStep(slots, k - 1);
      if slots[k - 1].Some? {
        SlotColumnBound(slots, k - 1);
      }
    }
  }

  /** Present slot `i` puts its own cell in its own column. */
  lemma {:induction false} PathRowCell(slots: seq<Option<string>>, pathCount: nat, columns: seq<seq<Cell>>, k: nat,
                                       i: nat, extract: nat -> Extracted, convert: (nat, string) -> Option<Failure>)
    requires i < k <= |slots| && |columns| == |Names(slots)| && slots[i].Some?
    ensures var c := SlotColumn(slots, i); var r := PathRow(slots, pathCount, columns, k, extract, convert);
      && c < |columns|
      && (r.Ok? ==> SlotCell(slots, pathCount, i, extract, convert).Ok?)
      && (r.Ok? ==> r.value[c] == columns[c] + [SlotCell(slots, pathCount, i, extract, convert).value])
    decreases k
  {
    SlotColumnBound(slots, i);
    if i == k - 1 {
      PathRowGrows(slots, pathCount, columns, k - 1, extract, convert);
    } else {
      PathRowCell(slots, pathCount, columns, k - 1, i, extract, convert);
      if slots[k - 1].Some? {
        SlotColumnMono(slots, i, k - 1);
      }
    }
  }

  /** Once the row has failed, the later slots do not change the failure. */
  lemma {:induction false} PathRowErr(slots: seq<Option<string>>, pathCount: nat, columns: seq<seq<Cell>>, k: nat,
                                      extract: nat -> Extracted, convert: (nat, string) -> Option<Failure>)
    requires k <= |slots| && |columns| == |Names(slots)|
    requires PathRow(slots, pathCount, columns, k, extract, convert).Err?
    ensures PathRow(slots, pathCount, columns, |slots|, extract, convert) == PathRow(slots, pathCount, columns, k, extract, convert)
    decreases |slots| - k
  {
    if k < |slots| {
      PathRowErr(slots, pathCount, columns, k + 1, extract, convert);
    }
  }

  /**
   * A row read through JSON paths that goes through adds exactly one cell to every column,
   * and each present slot's column receives that slot's cell.
   */
  lemma PathRowFills(slots: seq<Option<string>>, pathCount: nat, columns: seq<seq<Cell>>,
                     extract: nat -> Extracted, convert: (nat, string) -> Option<Failure>)
    requires |columns| == |Names(slots)|
    requires PathRow(slots, pathCount, columns, |slots|, extract, convert).Ok?
    ensures var r := PathRow(slots, pathCount, columns, |slots|, extract, convert).value;
      forall c :: 0 <= c < |columns| ==> |r[c]| == |columns[c]| + 1 && r[c][..|columns[c]|] == columns[c]
  {
    PathRowGrows(slots, pathCount, columns, |slots|, extract, convert);
    assert slots[..|slots|] == slots;
  }

  /** A slot whose cell is a failure ends the row with that failure, the columns so far extending the old ones. */
  lemma PathRowStops(slots: seq<Option<string>>, pathCount: nat, columns: seq<seq<Cell>>, i: nat,
                     extract: nat -> Extracted, convert: (nat, string) -> Option<Failure>, current: seq<seq<Cell>>)
    requires i < |slots| && |columns| == |Names(slots)| && slots[i].Some?
    requires PathRow(slots, pathCount, columns, i, extract, convert) == Ok(current)
    requires SlotCell(slots, pathCount, i, extract, convert).Err?
    ensures PathRow(slots, pathCount, columns, |slots|, extract, convert) == Err(SlotCell(slots, pathCount, i, extract, convert).error)
    ensures Extends(columns, current)
  {
    PathRowErr(slots, pathCount, columns, i + 1, extract, convert);
    PathRowGrows(slots, pathCount, columns, i, extract, convert);
  }

  /** The extraction of the JSON paths of the slots on one object. */
  function Paths(extract: (seq<Field>, nat) -> Extracted, row: seq<Field>): nat -> Extracted {
    (i: nat) => extract(row, i)
  }

  /** A document the parser yields: an object, or the failure met in its place. */
  datatype Document = Object(fields: seq<Field>) | Broken(failure: Failure)

  /** The parser's answer once every document has been read. */
  const Exhausted: Failure := Error(EndOfFile, "")

  /** What reading rows leaves: its status, the columns, the counters and the position in the documents. */
  datatype LoadState = LoadState(status: Status, columns: seq<seq<Cell>>, filtered: nat, cursor: nat, rowsRead: int)

  // ---------------------------------------------------------------------------------------
  // The chunk and the reader
  // ---------------------------------------------------------------------------------------

  /** The chunk a reader fills: one column of cells per present slot. */
  class Chunk {
    var columns: seq<seq<Cell>>

    constructor (columnCount: nat)
      ensures columns == seq(columnCount, _ => [])
    {
      columns := seq(columnCount, _ => []);
    }

    /** `num_rows`: the length of the first column, 0 without columns. */
    function NumRows(): nat
      reads this
    {
      if columns == [] then 0 else |columns[0]|
    }

    /** Every column holds the same number of cells. */
    ghost predicate Valid()
      reads this
    {
      Rectangular(columns, NumRows())
    }

    /** `set_num_rows`: every column cut back to `n` cells. */
    method SetNumRows(n: nat)
      requires forall c :: 0 <= c < |columns| ==> n <= |columns[c]|
      modifies this
      ensures columns == CutBack(old(columns), n)
    {
      columns := CutBack(columns, n);
    }
  }

  class JsonReader {
    /** The column name of each slot, none for an absent slot. */
    const slots: seq<Option<string>>
    /** `_slot_desc_dict`, composed with the chunk's slot-to-column index: key to column. */
    const dict: map<string, nat>
    /** `_op_col_index`. */
    const opColumn: int
    /** The bytes read, with `_payload_size` as their count. */
    var payload: seq<char>
    var isNdjson: bool
    /** `_prev_parsed_position`: the keys of the previous object, in order, with their columns. */
    var prev: seq<Position>
    /** `_parsed_columns`: the columns the current object has filled. */
    var parsed: seq<bool>
    /** The scanner counter `num_rows_filtered`. */
    var filtered: nat
    /** The position of the parser among the documents of the payload. */
    var cursor: nat
    /** `_file_broker_buffer_capacity`. */
    var brokerCapacity: nat
    /** `_file_broker_buffer_size`. */
    var brokerSize: nat

    /** The dictionary and `__op` column are those of the slots, and every remembered position agrees with the dictionary. */
    ghost predicate Valid()
      reads this
    {
      Indexed() && CacheValid()
    }

    /** The dictionary and the `__op` column are those the slots define. */
    ghost predicate Indexed() {
      dict == SlotDict(Names(slots)) && opColumn == OpIndex(Names(slots))
    }

    /** Every remembered position agrees with the dictionary. */
    ghost predicate CacheValid()
      reads this
    {
      forall i :: 0 <= i < |prev| ==> PositionValid(dict, prev[i])
    }

    /**
     * The reader's constructor: each present slot takes the next column, its name maps to its
     * column unless an earlier slot had that name, and `__op` marks its column.
     */
    constructor (slots: seq<Option<string>>)
      ensures this.slots == slots && Valid()
      ensures payload == [] && !isNdjson && prev == [] && parsed == [] && filtered == 0 && cursor == 0
      ensures brokerCapacity == 0 && brokerSize == 0
    {
      var index := 0;
      var d: map<string, nat> := map[];
      var op := -1;
      for i := 0 to |slots|
        invariant index == |Names(slots[..i])|
        invariant d == SlotDict(Names(slots[..i]))
        invariant op == OpIndex(Names(slots[..i]))
      {
        NamesStep(slots, i);
        if slots[i].None? {
          assert Names(slots[..i + 1]) == Names(slots[..i]);
          continue;
        }
        var name := slots[i].value;
        assert Names(slots[..i + 1]) == Names(slots[..i]) + [name];
        DictSnoc(Names(slots[..i]), name);
        OpIndexSnoc(Names(slots[..i]), name);
        if name == OpColumnName {
          op := index;
        }
        index := index + 1;
        if name !in d {
          d := d[name := index - 1];
        }
      }
      assert slots[..|slots|] == slots;
      this.slots := slots;
      dict := d;
      opColumn := op;
      payload := [];
      isNdjson := false;
      prev := [];
      parsed := [];
      filtered := 0;
      cursor := 0;
      brokerCapacity := 0;
      brokerSize := 0;
    }

    /**
     * `_check_ndjson`: skips JSON whitespace; a first `{` marks the payload as newline-delimited
     * JSON, a first `[` leaves the flag as it was, any other character is a data quality error,
     * and a blank payload passes.
     */
    method CheckNdjson() returns (st: Status)
      modifies this`isNdjson
      ensures st == NdjsonStatus(payload)
      ensures isNdjson == (old(isNdjson) || StartsWithObject(payload))
    {
      for i := 0 to |payload|
        invariant forall j :: 0 <= j < i ==> IsJsonWhitespace(payload[j])
        invariant isNdjson == old(isNdjson)
      {
        var c := payload[i];
        if c == ' ' || c == '\t' || c == '\r' || c == '\n' {
          continue;
        }
        SkipWhitespaceAt(payload, i);
        if c == '[' {
          return OK;
        } else if c == '{' {
          isNdjson := true;
          return OK;
        } else {
          return Error(DataQualityError, IllegalStart(c));
        }
      }
      SkipWhitespaceAt(payload, |payload|);
      return OK;
    }

    /**
     * `_construct_row_without_jsonpath`: each key finds its column (through the positions
     * remembered from the previous object when the key sits at the same place, through the
     * dictionary otherwise), a key without a column or for a column already filled is skipped,
     * and the value loads into its column; then every column not filled receives a null, or
     * `0` for `__op`. A value that does not load stops the row with its failure.
     */
    method ConstructRowWithoutJsonpath(row: seq<Field>, chunk: Chunk, convert: (nat, string) -> Option<Failure>)
      returns (st: Status)
      requires Valid() && |chunk.columns| == |Names(slots)|
      modifies this`prev, this`parsed, chunk
      ensures Valid()
      ensures st == RowStatus(dict, row, convert)
      ensures st == OK ==> chunk.columns == Filled(dict, opColumn, old(chunk.columns), row)
      ensures st != OK ==> Extends(old(chunk.columns), chunk.columns)
    {
      SlotDictMeans(Names(slots));
      assert ColumnsBelow(dict, |chunk.columns|);
      parsed := seq(|chunk.columns|, _ => false);
      for k := 0 to |row|
        invariant Scanned(row, k, chunk, old(chunk.columns), convert)
      {
        var failure := ParseField(row, k, chunk, convert, old(chunk.columns));
        if failure.Some? {
          RowStatusPrefix(dict, row, k + 1, convert);
          return failure.value;
        }
      }
      assert row[..|row|] == row;
      FillMissing(row, chunk, old(chunk.columns));
      return OK;
    }

    /**
     * The invariant of the loop over the keys of an object: the first `k` fields have been read,
     * without a failure, each column has grown by the first value the fields gave it, and
     * `parsed` marks the columns so filled.
     */
    ghost predicate Scanned(row: seq<Field>, k: nat, chunk: Chunk, base: seq<seq<Cell>>,
                            convert: (nat, string) -> Option<Failure>)
      reads this, chunk
    {
      && k <= |row| && CacheValid() && |prev| >= k && ColumnsBelow(dict, |base|)
      && |parsed| == |base| && |chunk.columns| == |base|
      && (forall c :: 0 <= c < |base| ==> (parsed[c] <==> FirstValue(dict, row[..k], c).Some?))
      && (forall c :: 0 <= c < |base| ==> chunk.columns[c] == base[c] + Partial(dict, row[..k], c))
      && RowStatus(dict, row[..k], convert) == OK
    }

    /**
     * One turn of that loop: field `k` finds its column, through the position remembered at `k`
     * when it holds the same key and through the dictionary otherwise (remembering what it
     * found); a field without a column or for a filled column is skipped, and any other loads
     * its value, or returns the failure of that load.
     */
    method ParseField(row: seq<Field>, k: nat, chunk: Chunk, convert: (nat, string) -> Option<Failure>,
                      ghost base: seq<seq<Cell>>)
      returns (failure: Option<Failure>)
      requires k < |row| && Scanned(row, k, chunk, base, convert)
      modifies this`prev, this`parsed, chunk
      ensures failure.None? ==> Scanned(row, k + 1, chunk, base, convert)
      ensures failure.Some? ==> CacheValid() && RowStatus(dict, row[..k + 1], convert) == failure.value
      ensures failure.Some? ==> Extends(base, chunk.columns)
    {
      var column := FindColumn(row[k].key, k);
      if column < 0 {
        IgnoredField(dict, row, k, convert);
        return None;
      }
      if parsed[column] {
        IgnoredField(dict, row, k, convert);
        return None;
      }
      parsed := parsed[column := true];
      TakenField(dict, row, k, convert);
      failure := convert(column, row[k].value);
      if failure.Some? {
        ExtendsPartial(dict, row[..k], base, chunk.columns);
        return;
      }
      ghost var before := chunk.columns;
      chunk.columns := chunk.columns[column := chunk.columns[column] + [Value(row[k].value)]];
      TakenColumns(dict, row, k, base, before, column);
    }

    /**
     * The column of the key at place `k` of the object: the position remembered at `k` when it
     * holds the same key, the dictionary's otherwise, remembered for the next object; -1 for a
     * key without a column.
     */
    method FindColumn(key: string, k: nat) returns (column: int)
      requires CacheValid() && |prev| >= k
      modifies this`prev
      ensures CacheValid() && |prev| == (if k < |old(prev)| then |old(prev)| else k + 1)
      ensures prev[k] == Position(key, column)
      ensures forall j :: 0 <= j < |prev| && j != k ==> prev[j] == old(prev)[j]
      ensures column >= 0 ==> ColumnOf(dict, key) == Some(column)
      ensures column < 0 ==> ColumnOf(dict, key).None?
    {
      if |prev| > k && prev[k].key == key {
        return prev[k].column;
      }
      if key !in dict {
        prev := Remember(prev, k, Position(key, -1));
        return -1;
      }
      column := dict[key];
      prev := Remember(prev, k, Position(key, column));
    }

    /** The loop that gives each column the current object left unfilled a null, or `0` for `__op`. */
    method FillMissing(row: seq<Field>, chunk: Chunk, ghost base: seq<seq<Cell>>)
      requires |parsed| == |chunk.columns| == |base|
      requires forall c :: 0 <= c < |parsed| ==> (parsed[c] <==> FirstValue(dict, row, c).Some?)
      requires forall c :: 0 <= c < |base| ==> chunk.columns[c] == base[c] + Partial(dict, row, c)
      modifies chunk
      ensures chunk.columns == Filled(dict, opColumn, base, row)
    {
      var n := |parsed|;
      for c := 0 to n
        invariant |chunk.columns| == n
        invariant forall j :: 0 <= j < c ==> chunk.columns[j] == base[j] + [CellFor(dict, opColumn, row, j)]
        invariant forall j :: c <= j < n ==> chunk.columns[j] == base[j] + Partial(dict, row, j)
      {
        if !parsed[c] {
          var cell := if c == opColumn then OpDefault else Null;
          chunk.columns := chunk.columns[c := chunk.columns[c] + [cell]];
        }
      }
    }

    /**
     * `_construct_row_with_jsonpath`: each present slot adds one cell to its column, the
     * default cell when it has no path or its path is not found and the loaded value when its
     * path is found; a value that does not load, or an extraction that fails otherwise, stops
     * the row with that failure.
     */
    method ConstructRowWithJsonpath(chunk: Chunk, pathCount: nat, extract: nat -> Extracted,
                                    convert: (nat, string) -> Option<Failure>) returns (st: Status)
      requires |chunk.columns| == |Names(slots)|
      modifies chunk
      ensures var r := PathRow(slots, pathCount, old(chunk.columns), |slots|, extract, convert);
        && (st == OK <==> r.Ok?)
        && (r.Ok? ==> chunk.columns == r.value)
        && (r.Err? ==> st == r.error && Extends(old(chunk.columns), chunk.columns))
    {
      for i := 0 to |slots|
        invariant PathRow(slots, pathCount, old(chunk.columns), i, extract, convert) == Ok(chunk.columns)
      {
        if slots[i].None? {
          continue;
        }
        var name := slots[i].value;
        SlotColumnBound(slots, i);
        var column := SlotColumn(slots, i);
        var cell: Cell;
        if i >= pathCount {
          cell := DefaultCell(name);
        } else {
          match extract(i)
          case Found(text) =>
            var failure := convert(column, text);
            if failure.Some? {
              PathRowStops(slots, pathCount, old(chunk.columns), i, extract, convert, chunk.columns);
              return failure.value;
            }
            cell := Value(text);
          case NotFound =>
            cell := DefaultCell(name);
          case Failed(f) =>
            PathRowStops(slots, pathCount, old(chunk.columns), i, extract, convert, chunk.columns);
            return f;
        }
        chunk.columns := Append(chunk.columns, column, cell);
      }
      return OK;
    }

    /**
     * The columns after one object is read, or none when it fails: through the dictionary when
     * there are no JSON paths, through the paths otherwise. Either way every column grows by
     * exactly one cell.
     */
    function RowResult(row: seq<Field>, columns: seq<seq<Cell>>, pathCount: nat,
                       extract: (seq<Field>, nat) -> Extracted, convert: (nat, string) -> Option<Failure>)
      : (r: Option<seq<seq<Cell>>>)
      requires |columns| == |Names(slots)|
      ensures r.Some? ==> |r.value| == |columns|
      ensures r.Some? ==> forall c :: 0 <= c < |columns| ==> |r.value[c]| == |columns[c]| + 1 && r.value[c][..|columns[c]|] == columns[c]
    {
      if pathCount == 0 then
        if RowStatus(dict, row, convert) == OK then
          var r := Filled(dict, opColumn, columns, row);
          assert forall c :: 0 <= c < |columns| ==> r[c][..|columns[c]|] == columns[c];
          Some(r)
        else None
      else
        match PathRow(slots, pathCount, columns, |slots|, Paths(extract, row), convert)
        case Ok(r) =>
          PathRowFills(slots, pathCount, columns, Paths(extract, row), convert);
          Some(r)
        case Err(_) => None
    }

    /** `_construct_row`: without JSON paths the keys of the object are matched, with them the paths. */
    method ConstructRow(row: seq<Field>, chunk: Chunk, pathCount: nat, extract: (seq<Field>, nat) -> Extracted,
                        convert: (nat, string) -> Option<Failure>) returns (st: Status)
      requires Valid() && |chunk.columns| == |Names(slots)|
      modifies this`prev, this`parsed, chunk
      ensures Valid()
      ensures var r := RowResult(row, old(chunk.columns), pathCount, extract, convert);
        && (st == OK <==> r.Some?)
        && (r.Some? ==> chunk.columns == r.value)
        && (r.None? ==> Extends(old(chunk.columns), chunk.columns))
    {
      if pathCount == 0 {
        st := ConstructRowWithoutJsonpath(row, chunk, convert);
      } else {
        st := ConstructRowWithJsonpath(chunk, pathCount, Paths(extract, row), convert);
      }
    }

    /**
     * What `_read_rows` does from document `cursor` on: it stops with OK once `rowsToRead` rows
     * are read, with the parser's failure when the current document is broken (counting it as
     * filtered unless it is the end of the input), and after each object, which either adds
     * one row or is counted as filtered and leaves the columns as they were, it moves on and
     * stops at the end of the input.
     */
    function Load(docs: seq<Document>, cursor: nat, columns: seq<seq<Cell>>, filtered: nat, rowsToRead: int,
                  rowsRead: int, pathCount: nat, extract: (seq<Field>, nat) -> Extracted,
                  convert: (nat, string) -> Option<Failure>): (r: LoadState)
      requires |columns| == |Names(slots)|
      ensures |r.columns| == |columns|
      decreases rowsToRead - rowsRead
    {
      if rowsRead >= rowsToRead then LoadState(OK, columns, filtered, cursor, rowsRead)
      else if cursor >= |docs| then LoadState(Exhausted, columns, filtered, cursor, rowsRead)
      else match docs[cursor]
        case Broken(f) =>
          LoadState(f, columns, if f.code == EndOfFile then filtered else filtered + 1, cursor, rowsRead)
        case Object(row) =>
          var next := RowResult(row, columns, pathCount, extract, convert);
          var cols := if next.Some? then next.value else columns;
          var filt := if next.Some? then filtered else filtered + 1;
          if cursor + 1 >= |docs| then LoadState(Exhausted, cols, filt, cursor + 1, rowsRead + 1)
          else Load(docs, cursor + 1, cols, filt, rowsToRead, rowsRead + 1, pathCount, extract, convert)
    }

    /**
     * One object of `_read_rows`: it fills a row of the chunk, or it is counted as filtered and
     * the chunk is cut back to the rows it had before.
     */
    method ReadObject(row: seq<Field>, chunk: Chunk, pathCount: nat, extract: (seq<Field>, nat) -> Extracted,
                      convert: (nat, string) -> Option<Failure>)
      requires Valid() && chunk.Valid() && |chunk.columns| == |Names(slots)|
      modifies this`prev, this`parsed, this`filtered, chunk
      ensures Valid() && chunk.Valid()
      ensures var next := RowResult(row, old(chunk.columns), pathCount, extract, convert);
        && chunk.columns == (if next.Some? then next.value else old(chunk.columns))
        && filtered == (if next.Some? then old(filtered) else old(filtered) + 1)
    {
      var rowsBefore := chunk.NumRows();
      var rowStatus := ConstructRow(row, chunk, pathCount, extract, convert);
      if rowStatus != OK {
        filtered := filtered + 1;
        Rollback(old(chunk.columns), chunk.columns, rowsBefore);
        chunk.SetNumRows(rowsBefore);
      } else {
        SuccessKeepsRectangular(old(chunk.columns), chunk.columns, rowsBefore);
      }
    }

    /**
     * `_read_rows`: reads objects into the chunk until `rowsToRead` rows are read or the
     * documents run out; an object that does not fill is counted as filtered and its partial
     * row is cut off the chunk before reading goes on.
     */
    method ReadRows(chunk: Chunk, docs: seq<Document>, rowsToRead: int, rowsRead: int, pathCount: nat,
                    extract: (seq<Field>, nat) -> Extracted, convert: (nat, string) -> Option<Failure>)
      returns (st: Status, read: int)
      requires Valid() && chunk.Valid() && |chunk.columns| == |Names(slots)|
      modifies this`prev, this`parsed, this`filtered, this`cursor, chunk
      ensures Valid() && chunk.Valid()
      ensures LoadState(st, chunk.columns, filtered, cursor, read)
        == Load(docs, old(cursor), old(chunk.columns), old(filtered), rowsToRead, rowsRead, pathCount, extract, convert)
    {
      read := rowsRead;
      while read < rowsToRead
        invariant Valid() && chunk.Valid() && |chunk.columns| == |Names(slots)|
        invariant Load(docs, cursor, chunk.columns, filtered, rowsToRead, read, pathCount, extract, convert)
          == Load(docs, old(cursor), old(chunk.columns), old(filtered), rowsToRead, rowsRead, pathCount, extract, convert)
        decreases rowsToRead - read
      {
        if cursor >= |docs| {
          return Exhausted, read;
        }
        match docs[cursor]
        case Broken(f) =>
          if f.code != EndOfFile {
            filtered := filtered + 1;
          }
          return f, read;
        case Object(row) =>
          ReadObject(row, chunk, pathCount, extract, convert);
          read := read + 1;
          cursor := cursor + 1;
          if cursor >= |docs| {
            return Exhausted, read;
          }
      }
      return OK, read;
    }

    /** The shape of what `Load` leaves: counters, the position in the documents, and the status. */
    lemma {:induction false} LoadCounts(docs: seq<Document>, cursor: nat, columns: seq<seq<Cell>>, filtered: nat,
                                        rowsToRead: int, rowsRead: int, pathCount: nat,
                                        extract: (seq<Field>, nat) -> Extracted, convert: (nat, string) -> Option<Failure>)
      requires |columns| == |Names(slots)|
      ensures var r := Load(docs, cursor, columns, filtered, rowsToRead, rowsRead, pathCount, extract, convert);
        && rowsRead <= r.rowsRead
        && r.cursor - cursor == r.rowsRead - rowsRead
        && filtered <= r.filtered <= filtered + (r.rowsRead - rowsRead) + 1
        && (r.status == OK ==> r.rowsRead >= rowsToRead)
        && (rowsRead < rowsToRead ==> r.rowsRead <= rowsToRead)
      decreases rowsToRead - rowsRead
    {
      if rowsRead < rowsToRead && cursor < |docs| && docs[cursor].Object? && cursor + 1 < |docs| {
        var row := docs[cursor].fields;
        var next := RowResult(row, columns, pathCount, extract, convert);
        var cols := if next.Some? then next.value else columns;
        var filt := if next.Some? then filtered else filtered + 1;
        LoadCounts(docs, cursor + 1, cols, filt, rowsToRead, rowsRead + 1, pathCount, extract, convert);
      }
    }

    /**
     * The columns `Load` leaves extend those it started from, and stay of one length: a failed
     * object leaves no partial row behind.
     */
    lemma {:induction false} LoadColumns(docs: seq<Document>, cursor: nat, columns: seq<seq<Cell>>, filtered: nat,
                                         rowsToRead: int, rowsRead: int, pathCount: nat,
                                         extract: (seq<Field>, nat) -> Extracted, convert: (nat, string) -> Option<Failure>,
                                         n: nat)
      requires |columns| == |Names(slots)| && Rectangular(columns, n)
      ensures var r := Load(docs, cursor, columns, filtered, rowsToRead, rowsRead, pathCount, extract, convert);
        && Extends(columns, r.columns)
        && exists m :: n <= m && Rectangular(r.columns, m)
      decreases rowsToRead - rowsRead
    {
      var r := Load(docs, cursor, columns, filtered, rowsToRead, rowsRead, pathCount, extract, convert);
      if rowsRead < rowsToRead && cursor < |docs| && docs[cursor].Object? {
        var row := docs[cursor].fields;
        var next := RowResult(row, columns, pathCount, extract, convert);
        var cols := if next.Some? then next.value else columns;
        var filt := if next.Some? then filtered else filtered + 1;
        var m := if next.Some? then n + 1 else n;
        assert Extends(columns, cols) && Rectangular(cols, m);
        if cursor + 1 < |docs| {
          LoadColumns(docs, cursor + 1, cols, filt, rowsToRead, rowsRead + 1, pathCount, extract, convert, m);
          var m' :| m <= m' && Rectangular(r.columns, m');
          ExtendsTrans(columns, cols, r.columns);
        } else {
          assert Rectangular(r.columns, m);
        }
      } else {
        assert Rectangular(r.columns, n);
      }
    }

    /**
     * `_read_file_broker`: a file of size 0 is the end of the input, a file at or over the size
     * limit is refused, the buffer is reallocated when the file and the parser's padding do not
     * fit, and a read of no bytes is the end of the input; otherwise the bytes read become the
     * payload, with the padding available behind them.
     */
    method ReadFileBroker(size: Result<int, Failure>, limit: int, padding: nat, read: Result<seq<char>, Failure>)
      returns (st: Status)
      requires size.Ok? && read.Ok? ==> |read.value| <= size.value
      modifies this`payload, this`brokerCapacity, this`brokerSize
      ensures size.Err? ==> st == size.error
      ensures size == Ok(0) ==> st == Error(EndOfFile, EndOfReadingFile)
      ensures size.Ok? && size.value != 0 && size.value >= limit ==>
        st == Error(MemoryLimitExceeded, FileTooLarge(size.value, limit))
      ensures size.Ok? && size.value != 0 && size.value < limit ==>
        && brokerCapacity == (if size.value + padding > old(brokerCapacity) then size.value + padding else old(brokerCapacity))
        && (read.Err? ==> st == read.error)
        && (read.Ok? ==> brokerSize == |read.value|)
        && (read == Ok([]) ==> st == Error(EndOfFile, EndOfReadingFile))
      ensures st == OK <==> size.Ok? && size.value != 0 && size.value < limit && read.Ok? && read.value != []
      ensures st == OK ==> payload == read.value && brokerSize == |payload| && |payload| + padding <= brokerCapacity
      ensures !(size.Ok? && size.value != 0 && size.value < limit) ==>
        payload == old(payload) && brokerCapacity == old(brokerCapacity) && brokerSize == old(brokerSize)
      ensures size.Ok? && read.Err? && size.value + padding <= old(brokerCapacity) ==> brokerSize == old(brokerSize)
      ensures size.Ok? && read.Err? && size.value + padding > old(brokerCapacity) && size.value != 0 && size.value < limit ==>
        brokerSize == 0
      ensures st != OK ==> payload == old(payload)
    {
      if size.Err? {
        return size.error;
      }
      var sz := size.value;
      if sz == 0 {
        return Error(EndOfFile, EndOfReadingFile);
      }
      if sz >= limit {
        return Error(MemoryLimitExceeded, FileTooLarge(sz, limit));
      }
      if sz + padding > brokerCapacity {
        brokerCapacity := sz + padding;
        brokerSize := 0;
      }
      if read.Err? {
        return read.error;
      }
      brokerSize := |read.value|;
      if |read.value| <= 0 {
        return Error(EndOfFile, EndOfReadingFile);
      }
      payload := read.value;
      return OK;
    }
  }

  /** One more slot adds its name, if present, to the names. */
  lemma NamesStep(slots: seq<Option<string>>, i: nat)
    requires i < |slots|
    ensures Names(slots[..i + 1]) == Names(slots[..i]) + (if slots[i].Some? then [slots[i].value] else [])
  {
    assert slots[..i + 1][..i] == slots[..i];
  }

  /** One more name enters the dictionary unless it is there already. */
  lemma DictSnoc(names: seq<string>, name: string)
    ensures SlotDict(names + [name]) == if name in SlotDict(names) then SlotDict(names) else SlotDict(names)[name := |names|]
  {
    assert (names + [name])[..|names|] == names;
  }

  /** One more name moves the `__op` column to it when it is `__op`. */
  lemma OpIndexSnoc(names: seq<string>, name: string)
    ensures OpIndex(names + [name]) == if name == OpColumnName then |names| else OpIndex(names)
  {
    assert (names + [name])[..|names|] == names;
  }

  /** Extending is transitive. */
  lemma ExtendsTrans(a: seq<seq<Cell>>, b: seq<seq<Cell>>, c: seq<seq<Cell>>)
    requires Extends(a, b) && Extends(b, c)
    ensures Extends(a, c)
  {
    forall k | 0 <= k < |a|
      ensures c[k][..|a[k]|] == a[k]
    {
      assert c[k][..|a[k]|] == c[k][..|b[k]|][..|a[k]|];
    }
  }

  /** The message for a broker file at or over the size limit. */
  function FileTooLarge(size: int, limit: int): string {
    "The file size " + IntToString(size) + " exceeds the limit " + IntToString(limit) + AdjustLimit
  }

  const AdjustLimit := ", adjust the FE configuration json_file_size_limit if you are sure you want to perform the operation"

  /** The message of the end of a broker file. */
  const EndOfReadingFile := "EOF of reading file"

  /** Columns of `n` cells that each grew by one cell hold `n + 1` cells each. */
  lemma SuccessKeepsRectangular(before: seq<seq<Cell>>, after: seq<seq<Cell>>, n: nat)
    requires Rectangular(before, n) && |after| == |before|
    requires forall c :: 0 <= c < |before| ==> |after[c]| == |before[c]| + 1
    ensures Rectangular(after, n + 1)
    ensures after == [] || |after[0]| == n + 1
  {
  }

  /** Every column the dictionary names is below `n`. */
  predicate ColumnsBelow(dict: map<string, nat>, n: nat) {
    forall key :: key in dict ==> dict[key] < n
  }

  /** Columns that grew by what the object gave them extend the columns they started from. */
  lemma ExtendsPartial(dict: map<string, nat>, row: seq<Field>, base: seq<seq<Cell>>, columns: seq<seq<Cell>>)
    requires |columns| == |base|
    requires forall c :: 0 <= c < |base| ==> columns[c] == base[c] + Partial(dict, row, c)
    ensures Extends(base, columns)
  {
    forall c | 0 <= c < |base|
      ensures columns[c][..|base[c]|] == base[c]
    {
      assert columns[c] == base[c] + Partial(dict, row, c);
    }
  }

  /** Appending the value of a field that is the first for its column keeps every column at its partial row. */
  lemma TakenColumns(dict: map<string, nat>, row: seq<Field>, k: nat, base: seq<seq<Cell>>,
                     before: seq<seq<Cell>>, column: nat)
    requires k < |row| && |before| == |base| && column < |before|
    requires ColumnOf(dict, row[k].key) == Some(column) && FirstValue(dict, row[..k], column).None?
    requires forall c :: 0 <= c < |base| ==> before[c] == base[c] + Partial(dict, row[..k], c)
    ensures var after := before[column := before[column] + [Value(row[k].value)]];
      forall c :: 0 <= c < |base| ==> after[c] == base[c] + Partial(dict, row[..k + 1], c)
  {
    assert row[..k + 1][..k] == row[..k];
    assert FirstValue(dict, row[..k + 1], column) == Some(row[k].value);
  }

  /** The loop of `_check_ndjson` stops at the first character that is not JSON whitespace. */
  lemma {:induction false} SkipWhitespaceAt(s: seq<char>, i: nat)
    requires i <= |s| && forall j :: 0 <= j < i ==> IsJsonWhitespace(s[j])
    requires i < |s| ==> !IsJsonWhitespace(s[i])
    ensures SkipWhitespace(s) == i
    decreases i
  {
    if i > 0 {
      SkipWhitespaceAt(s[1..], i - 1);
    }
  }
}
