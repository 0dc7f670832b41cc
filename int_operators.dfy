/**
 * The class INT (src/1_9_4.cpp): an int with prefix and postfix increment
 * and decrement and a dereference operator.
 *
 * The value is an unbounded int; the stream insertion operator, which
 * writes the value in brackets, is left to the caller.
 */
module IntOperators {

  class Int {
    var data: int

    /** INT(dat). */
    constructor (dat: int)
      ensures data == dat
    {
      data := dat;
    }

    /** Prefix operator++: one more, the object itself returned. */
    method PreIncrement() returns (self: Int)
      modifies this
      ensures data == old(data) + 1 && self == this
    {
      data := data + 1;
      self := this;
    }

    /** Postfix operator++: a copy of the old value returned, the object one more. */
    method PostIncrement() returns (temp: Int)
      modifies this
      ensures fresh(temp) && temp.data == old(data)
      ensures data == old(data) + 1
    {
      temp := new Int(data);
      var _ := PreIncrement();
    }

    /** Prefix operator--: one less, the object itself returned. */
    method PreDecrement() returns (self: Int)
      modifies this
      ensures data == old(data) - 1 && self == this
    {
      data := data - 1;
      self := this;
    }

    /** Postfix operator--: a copy of the old value returned, the object one less. */
    method PostDecrement() returns (temp: Int)
      modifies this
      ensures fresh(temp) && temp.data == old(data)
      ensures data == old(data) - 1
    {
      temp := new Int(data);
      var _ := PreDecrement();
    }

    /** operator*: the stored int. */
    function Deref(): (v: int)
      reads this
      ensures v == data
    {
      data
    }
  }

  /**
   * The source's main from INT(5): the values written for newData++,
   * ++newData, newData--, --newData and *newData.
   */
  method Scenario() returns (written: seq<int>)
    ensures written == [5, 7, 7, 5, 5]
  {
    var newData := new Int(5);
    var a := newData.PostIncrement();
    var b := newData.PreIncrement();
    var bv := b.data;
    var c := newData.PostDecrement();
    var d := newData.PreDecrement();
    var dv := d.data;
    written := [a.data, bv, c.data, dv, newData.Deref()];
  }
}
