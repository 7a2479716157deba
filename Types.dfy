/**
 * Value types shared by the storage layer, the execution operators and the
 * optimizer: fields, schemas, record identifiers and tuples, together with the
 * bounds of a Java `int`.
 */
module Types {

  datatype Option<+T> = None | Some(value: T)

  datatype Result<+T, +E> = Ok(value: T) | Err(error: E)

  /** Integer.MIN_VALUE and Integer.MAX_VALUE. */
  const IntMin: int := -0x8000_0000
  const IntMax: int := 0x7fff_ffff

  predicate IsJavaInt(x: int) {
    IntMin <= x <= IntMax
  }

  /** The two column types of the engine (Type.INT_TYPE, Type.STRING_TYPE). */
  datatype Type = IntType | StringType

  /** A schema: the column types, in order. Field names play no part in schema equality here. */
  type TupleDesc = seq<Type>

  datatype Field = IntField(value: int) | StringField(text: string)

  predicate FieldHasType(f: Field, t: Type) {
    match t
    case IntType => f.IntField? && IsJavaInt(f.value)
    case StringType => f.StringField?
  }

  /** A page of a table: the table's identifier and the page number within its file. */
  datatype PageId = PageId(tableId: int, pageNo: nat)

  /** Where a stored tuple lives: its page and its slot on that page. */
  datatype RecordId = RecordId(pid: PageId, slot: nat)

  /** A tuple carries its schema, its field values and, once stored, its record id. */
  datatype Tuple = Tuple(desc: TupleDesc, fields: seq<Field>, rid: Option<RecordId>)

  /** The fields of `t` have the number and the types that `td` lists. */
  predicate Conforms(t: Tuple, td: TupleDesc) {
    && |t.fields| == |td|
    && forall i :: 0 <= i < |td| ==> FieldHasType(t.fields[i], td[i])
  }

  /** A tuple whose fields match its own schema. */
  predicate WellFormed(t: Tuple) {
    Conforms(t, t.desc)
  }
}
