// Rows and row types as the union operator sees them: a row type is an ordered list of
// field types, and a row is either a base row carrying its own values or a masquerading
// row that reports another row type while forwarding every value to the row it wraps.

module Rows {
  import opened Wrappers

  /** A field's scalar type (type class plus nullability); only equality matters here. */
  datatype TInstance = TInstance(typeClass: string, nullable: bool)

  /** A field type of a row type; None is a field whose type is unknown (a Java null). */
  type FieldType = Option<TInstance>

  /** A row type. `typeId` stands for the object's identity: two row types are the same
      object exactly when they are equal values, so `==` here is Java's reference `==`. */
  datatype RowType = RowType(typeId: nat, fields: seq<FieldType>)
  {
    function NFields(): nat { |fields| }

    function TypeInstanceAt(i: nat): FieldType
      requires i < NFields()
    {
      fields[i]
    }
  }

  /** A field value as a row hands it out. */
  datatype ValueSource = NullValue | LongValue(n: int) | StringValue(s: string)

  /** A row: a base row from some input, or a MasqueradingRow(rowType, delegate). */
  datatype Row =
    | BaseRow(baseType: RowType, values: seq<ValueSource>)
    | MasqueradingRow(outputType: RowType, delegate: Row)
  {
    /** rowType(): a masquerading row reports its own type, not its delegate's. */
    function RowTypeOf(): RowType {
      match this
      case BaseRow(t, _) => t
      case MasqueradingRow(t, _) => t
    }

    /** Every value of the row, read through any chain of delegation. */
    function Values(): seq<ValueSource> {
      match this
      case BaseRow(_, vs) => vs
      case MasqueradingRow(_, d) => d.Values()
    }

    /** value(index). */
    function Value(index: nat): (v: ValueSource)
      requires index < |Values()|
      ensures v == Values()[index]
    {
      match this
      case BaseRow(_, vs) => vs[index]
      case MasqueradingRow(_, d) => d.Value(index)
    }
  }

  /** A MasqueradingRow reports the type it was given and returns its delegate's value at
      every index — the type changes and the values do not. */
  lemma MasqueradingRowDelegates(t: RowType, row: Row)
    ensures MasqueradingRow(t, row).RowTypeOf() == t
    ensures MasqueradingRow(t, row).Values() == row.Values()
    ensures forall i :: 0 <= i < |row.Values()| ==> MasqueradingRow(t, row).Value(i) == row.Value(i)
  {
  }
}
