/** Histories of calls made on a peripheral, kept as lists that grow at
    their end. The two-wire bus records its line-driver calls in one, and
    the devices on the bus are modelled as a function of such a history. */
module Logs {

  datatype Log<T> = Empty | Then(init: Log<T>, last: T)

  /** The calls of a history, oldest first. */
  function Items<T>(l: Log<T>): seq<T>
  {
    match l
    case Empty => []
    case Then(init, x) => Items(init) + [x]
  }

  lemma AppendAssoc<T>(a: seq<T>, b: seq<T>, c: seq<T>)
    ensures (a + b) + c == a + (b + c)
  {
  }
}
