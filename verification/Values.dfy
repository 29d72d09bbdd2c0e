/** Configuration values and the entries that carry them. Floats are not modelled. */
module Values {
  import opened Options

  datatype ValueType =
    InvalidType | StringType | IntType | FloatType | BoolType | SchemaType | ListType | PairType

  /** The fields of a GConfSchema. */
  datatype Schema = Schema(
    kind: ValueType, listType: ValueType, carType: ValueType, cdrType: ValueType,
    owner: Option<string>, locale: Option<string>,
    shortDesc: Option<string>, longDesc: Option<string>, defaultValue: Option<Value>)

  datatype Value =
    | IntValue(i: int)
    | BoolValue(b: bool)
    | StringValue(s: string)
    | ListValue(elemType: ValueType, elems: seq<Value>)
    | PairValue(car: Option<Value>, cdr: Option<Value>)
    | SchemaValue(schema: Schema)

  function TypeOf(v: Value): ValueType {
    match v
    case IntValue(_) => IntType
    case BoolValue(_) => BoolType
    case StringValue(_) => StringType
    case ListValue(_, _) => ListType
    case PairValue(_, _) => PairType
    case SchemaValue(_) => SchemaType
  }

  /** What a client keeps of a key: its value, if any, and the three attributes beside it. */
  datatype Entry = Entry(value: Option<Value>, isDefault: bool, isWritable: bool, schemaName: Option<string>)
}
