/** An append-only array of owned name strings (`NameArray`). */
module NameArrays {
  import opened Common

  /** Initial physical size when no positive hint is given. */
  const StartSize: int := 1
  /** Factor by which the physical size grows when the array is full. */
  const GrowFactor: int := 2

  class NameArray {
    /** `array_`: the physical slots; only the first `length` hold names. */
    var slots: array<string>
    /** `size_`: physical size. */
    var size: int
    /** `length_`: logical size. */
    var length: int

    /** The names stored so far, index 0 first. */
    ghost var Contents: seq<string>
    ghost var Repr: set<object>

    ghost predicate Valid()
      reads this, Repr
    {
      && Repr == {this, slots}
      && size == slots.Length
      && 1 <= size
      && 0 <= length <= size
      && Contents == slots[..length]
    }

    /** An empty array; the hint only chooses the first allocation. */
    constructor (maxEntriesHint: int)
      ensures Valid() && fresh(Repr)
      ensures Contents == []
      ensures size == if maxEntriesHint > 0 then maxEntriesHint else StartSize
    {
      size := if maxEntriesHint > 0 then maxEntriesHint else StartSize;
      length := 0;
      slots := new string[if maxEntriesHint > 0 then maxEntriesHint else StartSize];
      Contents := [];
      Repr := {this, slots};
    }

    /** Stores a copy of `name` after the existing names and returns its
        index; repeated values are not checked for.  A full array doubles
        its physical size first, keeping every stored name. */
    method Append(name: string) returns (index: int)
      requires Valid()
      modifies Repr
      ensures Valid() && fresh(Repr - old(Repr))
      ensures index == |old(Contents)|
      ensures Contents == old(Contents) + [name]
      ensures size == if old(length) >= old(size) then old(size) * GrowFactor else old(size)
    {
      if length >= size {
        var oldSize := size;
        size := size * GrowFactor;
        var tmp := slots;
        slots := new string[size];
        forall k | 0 <= k < oldSize {
          slots[k] := tmp[k];
        }
        assert slots[..length] == tmp[..length];
      }
      slots[length] := name;
      length := length + 1;
      index := length - 1;
      Contents := Contents + [name];
      Repr := {this, slots};
    }

    /** `operator[]`: the name at `index`, or nothing when `index` is outside
        `[0, Length())`. */
    function At(index: int): (r: Option<string>)
      requires Valid()
      reads Repr
      ensures 0 <= index < |Contents| ==> r == Some(Contents[index])
      ensures !(0 <= index < |Contents|) ==> r == None
    {
      if index < length && index >= 0 then Some(slots[index]) else None
    }

    /** The number of names stored. */
    function Length(): (n: int)
      requires Valid()
      reads Repr
      ensures n == |Contents|
    {
      length
    }
  }
}
