/** Row normalisation: the fixed renaming of spreadsheet columns to the
    fields of a locale record, applied to every row in order
    (scripts/update.js, lines 100-103 and 111-123). */
module Normalize {
  import opened Values

  /** The eleven fields of a normalised record. */
  datatype Field =
    | AreaName | AreaCode | DistrictName | DistrictNo | DeliveryZipcode
    | LocaleName | PhysicalDeliveryAddress | PhysicalCity | PhysicalState
    | PhysicalZip | PhysicalZip4

  /** One locale record, as written to the JSON output. The fields are
      written under the keys `area_name`, `area_code`, `district_name`,
      `district_no`, `delivery_zipcode`, `locale_name`,
      `physical_delivery_address`, `physical_city`, `physical_state`,
      `physical_zip` and `physical_zip4`, in this order. */
  datatype LocaleRecord = LocaleRecord(
    areaName: Cell,
    areaCode: Cell,
    districtName: Cell,
    districtNo: Cell,
    deliveryZipcode: Cell,
    localeName: Cell,
    physicalDeliveryAddress: Cell,
    physicalCity: Cell,
    physicalState: Cell,
    physicalZip: Cell,
    physicalZip4: Cell)

  /** The value a record holds in a field. */
  function Get(r: LocaleRecord, f: Field): Cell {
    match f
    case AreaName => r.areaName
    case AreaCode => r.areaCode
    case DistrictName => r.districtName
    case DistrictNo => r.districtNo
    case DeliveryZipcode => r.deliveryZipcode
    case LocaleName => r.localeName
    case PhysicalDeliveryAddress => r.physicalDeliveryAddress
    case PhysicalCity => r.physicalCity
    case PhysicalState => r.physicalState
    case PhysicalZip => r.physicalZip
    case PhysicalZip4 => r.physicalZip4
  }

  /** One entry of the column contract: which header feeds which field. */
  datatype ColumnRule = ColumnRule(column: string, field: Field)

  /** The column contract, exact in case and spacing. */
  const ColumnMap: seq<ColumnRule> := [
    ColumnRule("AREA NAME", AreaName),
    ColumnRule("AREA CODE", AreaCode),
    ColumnRule("DISTRICT NAME", DistrictName),
    ColumnRule("DISTRICT NO", DistrictNo),
    ColumnRule("DELIVERY ZIPCODE", DeliveryZipcode),
    ColumnRule("LOCALE NAME", LocaleName),
    ColumnRule("PHYSICAL DELV ADDR", PhysicalDeliveryAddress),
    ColumnRule("PHYSICAL CITY", PhysicalCity),
    ColumnRule("PHYSICAL STATE", PhysicalState),
    ColumnRule("PHYSICAL ZIP", PhysicalZip),
    ColumnRule("PHYSICAL ZIP 4", PhysicalZip4)
  ]

  /** The record literal built for one row. */
  function NormalizeRow(row: Row): LocaleRecord {
    LocaleRecord(
      Lookup(row, "AREA NAME"),
      Lookup(row, "AREA CODE"),
      Lookup(row, "DISTRICT NAME"),
      Lookup(row, "DISTRICT NO"),
      Lookup(row, "DELIVERY ZIPCODE"),
      Lookup(row, "LOCALE NAME"),
      Lookup(row, "PHYSICAL DELV ADDR"),
      Lookup(row, "PHYSICAL CITY"),
      Lookup(row, "PHYSICAL STATE"),
      Lookup(row, "PHYSICAL ZIP"),
      Lookup(row, "PHYSICAL ZIP 4"))
  }

  /** `rows.map(...)`: one record per row, same length, same order. */
  function NormalizeRows(rows: seq<Row>): (out: seq<LocaleRecord>)
    ensures |out| == |rows|
    ensures forall i :: 0 <= i < |rows| ==> out[i] == NormalizeRow(rows[i])
  {
    seq(|rows|, i requires 0 <= i < |rows| => NormalizeRow(rows[i]))
  }

  /** Every field of a normalised row holds exactly the cell of the column
      that the contract assigns to it. */
  lemma NormalizeRowFollowsColumnMap(row: Row, i: nat)
    requires i < |ColumnMap|
    ensures Get(NormalizeRow(row), ColumnMap[i].field) == Lookup(row, ColumnMap[i].column)
  {
    match i
    case 0 => case 1 => case 2 => case 3 => case 4 => case 5 =>
    case 6 => case 7 => case 8 => case 9 => case 10 =>
  }

  /** Some entry of the contract fills field `f`. */
  predicate IsFilled(f: Field) {
    exists i :: 0 <= i < |ColumnMap| && ColumnMap[i].field == f
  }

  /** The contract fills every field, and no two entries fill the same one. */
  lemma ColumnMapFillsEachFieldOnce()
    ensures forall f: Field :: IsFilled(f)
    ensures forall i, j :: 0 <= i < j < |ColumnMap| ==> ColumnMap[i].field != ColumnMap[j].field
  {
    forall f: Field ensures IsFilled(f) {
      match f
      case AreaName => assert ColumnMap[0].field == f;
      case AreaCode => assert ColumnMap[1].field == f;
      case DistrictName => assert ColumnMap[2].field == f;
      case DistrictNo => assert ColumnMap[3].field == f;
      case DeliveryZipcode => assert ColumnMap[4].field == f;
      case LocaleName => assert ColumnMap[5].field == f;
      case PhysicalDeliveryAddress => assert ColumnMap[6].field == f;
      case PhysicalCity => assert ColumnMap[7].field == f;
      case PhysicalState => assert ColumnMap[8].field == f;
      case PhysicalZip => assert ColumnMap[9].field == f;
      case PhysicalZip4 => assert ColumnMap[10].field == f;
    }
  }

  /** No header feeds two fields. */
  lemma ColumnMapColumnsDistinct()
    ensures forall i, j :: 0 <= i < j < |ColumnMap| ==> ColumnMap[i].column != ColumnMap[j].column
  {
  }

  /** A column the sheet does not have leaves its field undefined, and a
      blank cell (filled with the `null` default) leaves it null. */
  lemma MissingOrBlankColumn(row: Row, i: nat)
    requires i < |ColumnMap|
    ensures ColumnMap[i].column !in row ==> Get(NormalizeRow(row), ColumnMap[i].field) == Undefined
    ensures ColumnMap[i].column in row && row[ColumnMap[i].column] == Null ==>
      Get(NormalizeRow(row), ColumnMap[i].field) == Null
  {
    NormalizeRowFollowsColumnMap(row, i);
  }

  /** Only the eleven contract columns matter: rows that agree on them give
      the same record, whatever else they hold. */
  lemma NormalizeRowIgnoresOtherColumns(row1: Row, row2: Row)
    requires forall i :: 0 <= i < |ColumnMap| ==>
      Lookup(row1, ColumnMap[i].column) == Lookup(row2, ColumnMap[i].column)
    ensures NormalizeRow(row1) == NormalizeRow(row2)
  {
    assert Lookup(row1, ColumnMap[0].column) == Lookup(row2, ColumnMap[0].column);
    assert Lookup(row1, ColumnMap[1].column) == Lookup(row2, ColumnMap[1].column);
    assert Lookup(row1, ColumnMap[2].column) == Lookup(row2, ColumnMap[2].column);
    assert Lookup(row1, ColumnMap[3].column) == Lookup(row2, ColumnMap[3].column);
    assert Lookup(row1, ColumnMap[4].column) == Lookup(row2, ColumnMap[4].column);
    assert Lookup(row1, ColumnMap[5].column) == Lookup(row2, ColumnMap[5].column);
    assert Lookup(row1, ColumnMap[6].column) == Lookup(row2, ColumnMap[6].column);
    assert Lookup(row1, ColumnMap[7].column) == Lookup(row2, ColumnMap[7].column);
    assert Lookup(row1, ColumnMap[8].column) == Lookup(row2, ColumnMap[8].column);
    assert Lookup(row1, ColumnMap[9].column) == Lookup(row2, ColumnMap[9].column);
    assert Lookup(row1, ColumnMap[10].column) == Lookup(row2, ColumnMap[10].column);
  }

  /** Normalising is applied row by row: normalising a concatenation is
      concatenating the normalised parts, so order is kept. */
  lemma NormalizeRowsAppend(a: seq<Row>, b: seq<Row>)
    ensures NormalizeRows(a + b) == NormalizeRows(a) + NormalizeRows(b)
  {
    var l, r := NormalizeRows(a + b), NormalizeRows(a) + NormalizeRows(b);
    assert |l| == |r|;
    forall i | 0 <= i < |l| ensures l[i] == r[i] {
      if i < |a| { assert (a + b)[i] == a[i]; } else { assert (a + b)[i] == b[i - |a|]; }
    }
  }
}
