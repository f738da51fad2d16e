/** The data columns of the items of the reading-list side bar (`ListItem` and
    its kinds `SpecialListItem`, `LabelItem` and `ReadingListItem`): a list of
    variants read and written by column number, every access guarded by the
    number of columns present. */
module ListItems {

  /** A `QVariant` as the items use it: empty, a string, or an integer. */
  datatype Variant = Null | Text(text: string) | Int(value: int)

  const ULongModulus: nat := 0x1_0000_0000_0000_0000

  /** `QVariant::toString()` on the kinds the columns hold. */
  function ToText(v: Variant): string
  {
    match v
    case Text(t) => t
    case _ => ""
  }

  /** `QVariant::toInt()` on the kinds the columns hold. */
  function ToInt(v: Variant): int
  {
    match v
    case Int(i) => i
    case _ => 0
  }

  /** `QVariant::toULongLong()`: the integer taken modulo 2^64. */
  function ToULongLong(v: Variant): (r: nat)
    ensures r < ULongModulus
    ensures v.Int? && 0 <= v.value < ULongModulus ==> r == v.value
  {
    match v
    case Int(i) => i % ULongModulus
    case _ => 0
  }

  /** The column numbers `Id`, `Name` and `Ordering`. Their values are
      not part of this model, so nothing here depends on them or on their
      being distinct. */
  const IdColumn: nat
  const NameColumn: nat
  const OrderingColumn: nat

  /** `ListItem::columnCount()`. */
  function ColumnCount(data: seq<Variant>): nat
  {
    |data|
  }

  /** `ListItem::data(column)`: `QList::at`, defined only for a column present. */
  function Data(data: seq<Variant>, column: int): (v: Variant)
    requires 0 <= column < ColumnCount(data)
    ensures v == data[column]
    ensures v in data
  {
    data[column]
  }

  /** A text column, or "" when the data is too short to hold it. */
  function TextColumn(data: seq<Variant>, c: nat): string
  {
    if |data| > c then ToText(data[c]) else ""
  }

  /** An `int` column, or 0 when the data is too short to hold it. */
  function IntColumn(data: seq<Variant>, c: nat): int
  {
    if |data| > c then ToInt(data[c]) else 0
  }

  /** A `qulonglong` column, or 0 when the data is too short to hold it. */
  function ULongColumn(data: seq<Variant>, c: nat): nat
  {
    if |data| > c then ToULongLong(data[c]) else 0
  }

  /** `itemData[c] = v` guarded by `itemData.count() > c`: a short list is left alone. */
  function WithColumn(data: seq<Variant>, c: nat, v: Variant): (r: seq<Variant>)
    ensures |r| == |data|
    ensures |data| > c ==> r[c] == v
    ensures forall i :: 0 <= i < |data| && i != c ==> r[i] == data[i]
    ensures |data| <= c ==> r == data
  {
    if |data| > c then data[c := v] else data
  }

  /** Writing a name then reading it gives the name back when the column is
      present, and "" (the unchanged short list) when it is not. */
  lemma TextRoundTrip(data: seq<Variant>, c: nat, s: string)
    ensures TextColumn(WithColumn(data, c, Text(s)), c) == if |data| > c then s else ""
  {
  }

  /** Writing an integer then reading it gives it back when the column is present. */
  lemma IntRoundTrip(data: seq<Variant>, c: nat, i: int)
    ensures IntColumn(WithColumn(data, c, Int(i)), c) == if |data| > c then i else 0
  {
  }

  /** A write to one column leaves every reading of every other column as it was. */
  lemma OtherColumnsUnchanged(data: seq<Variant>, c: nat, v: Variant, other: nat)
    requires other != c
    ensures TextColumn(WithColumn(data, c, v), other) == TextColumn(data, other)
    ensures IntColumn(WithColumn(data, c, v), other) == IntColumn(data, other)
    ensures ULongColumn(WithColumn(data, c, v), other) == ULongColumn(data, other)
  {
  }

  /** `SpecialListItem`: a fixed entry of the side bar (reading, favourites, ...). */
  class SpecialListItem {
    var itemData: seq<Variant>

    constructor (data: seq<Variant>)
      ensures itemData == data
    {
      itemData := data;
    }

    /** `getType()`: the `Id` column as the special-list code, 0 when absent. */
    function GetType(): (t: int)
      reads this
      ensures |itemData| > IdColumn ==> t == ToInt(itemData[IdColumn])
      ensures |itemData| <= IdColumn ==> t == 0
    {
      IntColumn(itemData, IdColumn)
    }

    /** `ListItem::getId()`, which a special list does not override. */
    function GetId(): (id: nat)
      ensures id == 0
    {
      0
    }
  }

  /** `LabelItem`: a coloured label of the side bar. */
  class LabelItem {
    var itemData: seq<Variant>

    constructor (data: seq<Variant>)
      ensures itemData == data
    {
      itemData := data;
    }

    /** `colorid()`: the colour code, stored in the `Ordering` column. */
    function ColorId(): (color: int)
      reads this
      ensures |itemData| > OrderingColumn ==> color == ToInt(itemData[OrderingColumn])
      ensures |itemData| <= OrderingColumn ==> color == 0
    {
      IntColumn(itemData, OrderingColumn)
    }

    function Name(): (name: string)
      reads this
      ensures |itemData| > NameColumn ==> name == ToText(itemData[NameColumn])
      ensures |itemData| <= NameColumn ==> name == ""
    {
      TextColumn(itemData, NameColumn)
    }

    method SetName(name: string)
      modifies this
      ensures itemData == WithColumn(old(itemData), NameColumn, Text(name))
      ensures Name() == if |old(itemData)| > NameColumn then name else ""
      ensures forall c :: c != NameColumn ==>
                TextColumn(itemData, c) == TextColumn(old(itemData), c) && IntColumn(itemData, c) == IntColumn(old(itemData), c)
    {
      TextRoundTrip(itemData, NameColumn, name);
      forall c | c != NameColumn
        ensures TextColumn(WithColumn(itemData, NameColumn, Text(name)), c) == TextColumn(itemData, c)
        ensures IntColumn(WithColumn(itemData, NameColumn, Text(name)), c) == IntColumn(itemData, c)
      {
        OtherColumnsUnchanged(itemData, NameColumn, Text(name), c);
      }
      if |itemData| > NameColumn {
        itemData := itemData[NameColumn := Text(name)];
      }
    }

    /** `getId()` as the source writes it: the id passes through the
        `LabelColors` enumeration, whose 32-bit representation keeps only the
        low 32 bits (read as a signed int, then widened back to 64 bits). The
        enumeration is not part of this model: both its width and its
        signedness are assumed; with an unsigned representation, values in
        [2^31, 2^32) would come back unchanged instead. */
    function GetIdAsWritten(): (id: nat)
      reads this
      ensures id < ULongModulus
    {
      if |itemData| > IdColumn then ThroughLabelColors(ToULongLong(itemData[IdColumn])) else 0
    }

    /** `getId()` as intended: the `Id` column as a `qulonglong`, 0 when absent. */
    function GetId(): (id: nat)
      reads this
      ensures |itemData| > IdColumn ==> id == ToULongLong(itemData[IdColumn])
      ensures |itemData| <= IdColumn ==> id == 0
      ensures |itemData| > IdColumn && itemData[IdColumn].Int? && 0 <= itemData[IdColumn].value < ULongModulus ==> id == itemData[IdColumn].value
    {
      ULongColumn(itemData, IdColumn)
    }
  }

  /** A `qulonglong` cast to an enumeration held in a signed 32-bit int and
      back (signedness assumed, see `LabelItem.GetIdAsWritten`). */
  function ThroughLabelColors(x: nat): (r: nat)
    requires x < ULongModulus
    ensures r < ULongModulus
    ensures x < 0x8000_0000 ==> r == x
  {
    var low := x % 0x1_0000_0000;
    if low < 0x8000_0000 then low else ULongModulus - 0x1_0000_0000 + low
  }

  /** The id 2^32 stored in a label comes back as 0 from the as-written
      `getId()`, while the intended one gives it back. */
  lemma LabelIdTruncated(item: LabelItem)
    requires |item.itemData| > IdColumn && item.itemData[IdColumn] == Int(0x1_0000_0000)
    ensures item.GetIdAsWritten() == 0
    ensures item.GetId() == 0x1_0000_0000
  {
  }

  /** Every id below 2^31 survives the as-written cast, so the two agree there. */
  lemma LabelIdAgreesBelow2To31(item: LabelItem)
    requires |item.itemData| > IdColumn && item.itemData[IdColumn].Int? && 0 <= item.itemData[IdColumn].value < 0x8000_0000
    ensures item.GetIdAsWritten() == item.GetId() == item.itemData[IdColumn].value
  {
  }
}
