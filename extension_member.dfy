/**
 * Unknown members and the values the codec decodes them into: a nested object (a nested
 * ExtensionData, whose members sit at positions 0, 1, ...), a list, a string, a decimal, a
 * boolean or null.
 */
module ExtensionMembers {

  datatype Value =
    | ObjectValue(members: seq<ExtensionMember>)   // members[i] is the member stored under key i
    | ListValue(items: seq<Value>)
    | StringValue(s: string)
    | NumberValue(n: real)
    | BoolValue(b: bool)
    | NullValue

  /** Index: the member's position in the serialised object; Name: its original name. */
  datatype ExtensionMember = ExtensionMember(index: int, name: string, value: Value)

  /** Every nested object keeps each member under a key equal to its Index. */
  predicate WellIndexed(v: Value)
    decreases v
  {
    match v
    case ObjectValue(ms) => forall i :: 0 <= i < |ms| ==> ms[i].index == i && WellIndexed(ms[i].value)
    case ListValue(items) => forall i :: 0 <= i < |items| ==> WellIndexed(items[i])
    case _ => true
  }

  /** A value with no null anywhere inside it. */
  predicate NullFree(v: Value)
    decreases v
  {
    match v
    case ObjectValue(ms) => forall i :: 0 <= i < |ms| ==> NullFree(ms[i].value)
    case ListValue(items) => forall i :: 0 <= i < |items| ==> NullFree(items[i])
    case NullValue => false
    case _ => true
  }
}
