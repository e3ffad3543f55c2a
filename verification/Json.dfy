/** JSON values. Object keys are unordered; numbers keep their spelling. */
module Json {
  datatype Json =
    | Obj(fields: map<string, Json>)
    | Arr(items: seq<Json>)
    | Str(text: string)
    | Num(lexeme: string)
    | Bool(flag: bool)
    | Null
}
