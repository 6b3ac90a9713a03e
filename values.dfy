/** Python values as far as the adapters look at them. */
module Values {

  /** `None`, a bool, an int, a str, or any other object (known by its identity only). */
  datatype Value = NoneV | BoolV(b: bool) | IntV(i: int) | StrV(s: string) | ObjV(id: nat)
}
