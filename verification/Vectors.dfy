/** The growable array under the task queue and the descriptor table (kernel/include/Vector.h), refined to a `seq`. */
module Vectors {

  const VECTOR_DEFAULT_CAPACITY: nat := 1

  ghost function RemovedAt<T>(s: seq<T>, index: nat): seq<T>
    requires index < |s|
  {
    s[..index] + s[index + 1..]
  }

  class Vector<T(0)> {
    var buffer: array<T>
    var capacity: nat
    var length: nat

    ghost predicate Valid()
      reads this
    {
      0 < capacity == buffer.Length && length <= capacity
    }

    ghost function Elements(): (s: seq<T>)
      requires Valid()
      reads this, buffer
      ensures |s| == length
    {
      buffer[..length]
    }

    constructor ()
      ensures Valid() && Elements() == [] && fresh(buffer)
    {
      capacity := VECTOR_DEFAULT_CAPACITY;
      buffer := new T[VECTOR_DEFAULT_CAPACITY];
      length := 0;
    }

    /** The copy owns a buffer of its own. */
    constructor Copy(original: Vector<T>)
      requires original.Valid()
      ensures Valid() && Elements() == original.Elements() && capacity == original.capacity && fresh(buffer)
    {
      capacity := original.capacity;
      length := original.length;
      buffer := new T[original.capacity];
      new;
      CopyElements(original.buffer, length, buffer);
    }

    method CopyElements(from: array<T>, count: nat, to: array<T>)
      requires count <= from.Length && count <= to.Length && from != to
      modifies to
      ensures to[..count] == from[..count]
    {
      var i := 0;
      while i < count
        invariant 0 <= i <= count && to[..i] == from[..i]
      {
        to[i] := from[i];
        i := i + 1;
      }
    }

    method Push(value: T) returns (index: nat)
      requires Valid()
      modifies this, buffer
      ensures Valid() && Elements() == old(Elements()) + [value] && index == old(length)
      ensures buffer == old(buffer) || fresh(buffer)
      ensures old(length < capacity) ==> buffer == old(buffer)
      ensures capacity == if old(length == capacity) then 2 * old(capacity) else old(capacity)
    {
      if length == capacity {
        capacity := capacity * 2;
        var newBuffer := new T[capacity];
        CopyElements(buffer, length, newBuffer);
        buffer := newBuffer;
      }
      index := length;
      buffer[index] := value;
      length := length + 1;
    }

    method PopLast() returns (value: T)
      requires Valid() && length > 0
      modifies this`length
      ensures Valid() && old(Elements()) == Elements() + [value]
    {
      value := buffer[length - 1];
      length := length - 1;
    }

    /** Pop(index): the later elements move down by one and keep their order. */
    method Pop(index: nat) returns (value: T)
      requires Valid() && index < length
      modifies this`length, buffer
      ensures Valid() && value == old(Elements())[index] && Elements() == RemovedAt(old(Elements()), index)
    {
      ghost var elements := Elements();
      value := buffer[index];
      length := length - 1;
      var i := index;
      while i < length
        invariant index <= i <= length == |elements| - 1 && Valid()
        invariant forall k :: 0 <= k < i ==> buffer[k] == RemovedAt(elements, index)[k]
        invariant forall k :: i < k < |elements| ==> buffer[k] == elements[k]
      {
        buffer[i] := buffer[i + 1];
        i := i + 1;
      }
    }

    /** The assignment operator; assigning a vector to itself changes nothing. */
    method Assign(newVector: Vector<T>)
      requires Valid() && newVector.Valid()
      modifies this
      ensures Valid() && Elements() == old(newVector.Elements())
      ensures newVector != this ==> fresh(buffer)
    {
      if newVector != this {
        length := newVector.length;
        capacity := newVector.capacity;
        buffer := new T[newVector.capacity];
        CopyElements(newVector.buffer, length, buffer);
      }
    }
  }

  /** After a copy, pushing to one vector leaves the other alone. */
  method CopiesAreIndependent<T(0)>(original: Vector<T>, value: T) returns (copy: Vector<T>)
    requires original.Valid()
    modifies original, original.buffer
    ensures copy.Valid() && copy.Elements() == old(original.Elements()) && original.Valid()
    ensures original.Elements() == old(original.Elements()) + [value]
  {
    copy := new Vector<T>.Copy(original);
    var _ := original.Push(value);
  }
}
