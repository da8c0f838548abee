module Common {
  datatype Option<+T> = None | Some(value: T)

  /** The list without the first occurrence of x. */
  function Unlink<T(==)>(list: seq<T>, x: T): seq<T> {
    if list == [] then [] else if list[0] == x then list[1..] else [list[0]] + Unlink(list[1..], x)
  }
}
