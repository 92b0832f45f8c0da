/** Sub-messages held by reference, and deep copies of them. */
module Cells {

  /** A label map, a nested message or a list that a message points to; a nil one reads as the empty value. */
  class Cell<T> {
    var value: T

    constructor (value: T)
      ensures this.value == value
    {
      this.value := value;
    }
  }

  function Read<T>(c: Cell?<T>, empty: T): T
    reads c
  {
    if c == null then empty else c.value
  }

  method CloneCell<T>(c: Cell?<T>) returns (d: Cell?<T>)
    ensures d == null <==> c == null
    ensures d != null ==> fresh(d) && d.value == c.value
  {
    if c == null {
      return null;
    }
    d := new Cell(c.value);
  }
}
