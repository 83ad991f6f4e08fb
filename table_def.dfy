/**
 * `TableDef`: a table's name and fields, and the record size
 * `calculateRecordSize` derives from the fields by aligning each INT and
 * VARCHAR field to 4 bytes. `recordSize` is a 64-bit `size_t`, so the
 * arithmetic wraps modulo 2^64.
 */
module TableDefs {
  /**
   * The field types. DATETIME and BOOL are not declared in the header the
   * record size comes from, but the table manager reads and writes them.
   */
  datatype FieldType = INT | VARCHAR | FLOAT | DOUBLE | DATETIME | BOOL

  const SIZE_T_MOD: nat := 0x1_0000_0000_0000_0000
  type SizeT = x: nat | x < SIZE_T_MOD

  /** sizeof(int). */
  const INT_SIZE: nat := 4

  /** A field: name, type and declared size; `isKey` and `defaultValue` are the table manager's. */
  datatype FieldDef = FieldDef(name: string, fieldType: FieldType, size: SizeT, isKey: bool, defaultValue: string)

  /** `x` as a `size_t`. */
  function Wrap(x: int): SizeT {
    x % SIZE_T_MOD
  }

  /** `(x + 3) & ~3`: x + 3 wrapped, with its two low bits cleared. */
  function AlignUp(x: SizeT): (r: SizeT)
    ensures r % 4 == 0
  {
    var y := Wrap(x + 3);
    y - y % 4
  }

  /** The step of the loop for one field: INT and VARCHAR align, then add their size; the rest add nothing. */
  function FieldStep(acc: SizeT, fd: FieldDef): SizeT {
    match fd.fieldType
    case INT => Wrap(AlignUp(acc) + INT_SIZE)
    case VARCHAR => Wrap(AlignUp(acc) + fd.size)
    case _ => acc
  }

  /** The running size after the loop has seen `fields`. */
  function Layout(fields: seq<FieldDef>): SizeT {
    if fields == [] then 0 else FieldStep(Layout(fields[..|fields| - 1]), fields[|fields| - 1])
  }

  /** The record size `calculateRecordSize` computes: the layout, aligned once more; a multiple of 4, and 0 without fields. */
  function RecordSize(fields: seq<FieldDef>): (r: SizeT)
    ensures r % 4 == 0
    ensures fields == [] ==> r == 0
  {
    AlignUp(Layout(fields))
  }

  /** The bytes the fields hold: 4 per INT, the declared size per VARCHAR, nothing for the rest. */
  function DataSize(fields: seq<FieldDef>): nat {
    if fields == [] then 0
    else
      var fd := fields[|fields| - 1];
      DataSize(fields[..|fields| - 1]) + (match fd.fieldType case INT => INT_SIZE case VARCHAR => fd.size case _ => 0)
  }

  /** Whether a field takes room in the record. */
  predicate Stored(fd: FieldDef) {
    fd.fieldType == INT || fd.fieldType == VARCHAR
  }

  /** The fields that take room, in order. */
  function StoredFields(fields: seq<FieldDef>): (r: seq<FieldDef>)
    ensures forall fd | fd in r :: Stored(fd)
  {
    if fields == [] then []
    else StoredFields(fields[..|fields| - 1]) + (if Stored(fields[|fields| - 1]) then [fields[|fields| - 1]] else [])
  }

  /**
   * While no sum wraps, the layout lies between the fields' data size and
   * that size plus 3 bytes of padding per field.
   */
  lemma {:induction false} LayoutBounds(fields: seq<FieldDef>)
    requires DataSize(fields) + 3 * |fields| + 3 < SIZE_T_MOD
    ensures DataSize(fields) <= Layout(fields) <= DataSize(fields) + 3 * |fields|
    decreases |fields|
  {
    if fields != [] {
      var init := fields[..|fields| - 1];
      var fd := fields[|fields| - 1];
      var add := FieldData(fd);
      assert DataSize(fields) == DataSize(init) + add;
      LayoutBounds(init);
      StepBounds(Layout(init), fd);
    }
  }

  /** The bytes one field holds. */
  function FieldData(fd: FieldDef): nat {
    match fd.fieldType case INT => INT_SIZE case VARCHAR => fd.size case _ => 0
  }

  /** Without wrap-around, one step adds the field's bytes and at most 3 bytes of padding. */
  lemma StepBounds(acc: SizeT, fd: FieldDef)
    requires acc + FieldData(fd) + 3 < SIZE_T_MOD
    ensures acc + FieldData(fd) <= FieldStep(acc, fd) <= acc + FieldData(fd) + 3
  {
    if Stored(fd) {
      AlignUpNoWrap(acc);
      assert FieldStep(acc, fd) == Wrap(AlignUp(acc) + FieldData(fd));
    }
  }

  /** Without wrap-around, aligning adds at most 3. */
  lemma AlignUpNoWrap(x: SizeT)
    requires x + 3 < SIZE_T_MOD
    ensures x <= AlignUp(x) <= x + 3
  {
    assert Wrap(x + 3) == x + 3;
  }

  /**
   * While no sum wraps, the record size is at least the sum of the INT and
   * VARCHAR sizes and at most that sum plus 3 bytes of padding per field and
   * 3 at the end.
   */
  lemma RecordSizeBounds(fields: seq<FieldDef>)
    requires DataSize(fields) + 3 * |fields| + 3 < SIZE_T_MOD
    ensures DataSize(fields) <= RecordSize(fields) <= DataSize(fields) + 3 * |fields| + 3
  {
    LayoutBounds(fields);
    AlignUpNoWrap(Layout(fields));
  }

  /** FLOAT, DOUBLE, DATETIME and BOOL fields change nothing: the size is that of the stored fields alone. */
  lemma {:induction false} OnlyStoredFieldsCount(fields: seq<FieldDef>)
    ensures Layout(fields) == Layout(StoredFields(fields))
    ensures RecordSize(fields) == RecordSize(StoredFields(fields))
    decreases |fields|
  {
    if fields != [] {
      var init := fields[..|fields| - 1];
      var fd := fields[|fields| - 1];
      OnlyStoredFieldsCount(init);
      if Stored(fd) {
        var s := StoredFields(init) + [fd];
        assert StoredFields(fields) == s;
        assert s[..|s| - 1] == StoredFields(init) && s[|s| - 1] == fd;
        assert Layout(s) == FieldStep(Layout(StoredFields(init)), fd);
      } else {
        assert StoredFields(fields) == StoredFields(init);
      }
    }
  }

  class TableDef {
    var tableName: string
    var fields: seq<FieldDef>
    var recordSize: SizeT

    constructor (tableName: string, fields: seq<FieldDef>)
      ensures this.tableName == tableName && this.fields == fields && recordSize == 0
    {
      this.tableName := tableName;
      this.fields := fields;
      recordSize := 0;
    }

    /** `calculateRecordSize`: one pass over the fields, then a final alignment. */
    method CalculateRecordSize()
      modifies this`recordSize
      ensures recordSize == RecordSize(fields)
    {
      recordSize := 0;
      var i := 0;
      while i < |fields|
        invariant 0 <= i <= |fields|
        invariant recordSize == Layout(fields[..i])
      {
        assert fields[..i + 1][..i] == fields[..i];
        var fd := fields[i];
        match fd.fieldType {
          case INT =>
            recordSize := AlignUp(recordSize);
            recordSize := Wrap(recordSize + INT_SIZE);
          case VARCHAR =>
            recordSize := AlignUp(recordSize);
            recordSize := Wrap(recordSize + fd.size);
          case _ =>
        }
        i := i + 1;
      }
      assert fields[..i] == fields;
      recordSize := AlignUp(recordSize);
    }
  }
}
