/** JSON values as the tools hold them in memory.

    An integer literal and a floating-point literal are different numbers to the
    JSON reader even when they denote the same value, so both forms are kept. */
module JsonValues {

  datatype Number = Int(n: int) | Float(x: real)

  datatype Json =
    | Null
    | Bool(b: bool)
    | Num(number: Number)
    | Str(s: string)
    | Arr(items: seq<Json>)
    | Obj(fields: map<string, Json>)
}
