/** Two-way mapping between names and dense indices (`NameIndexMap`): an
    append-only `NameArray` plus a hash table of chained links. */
module Registry {
  import opened Common
  import opened Hashing
  import opened NameArrays

  /** Table size when no positive hint is given. */
  const DefaultTableSize: int := 521
  /** Result of `Add` for a name already present, and of `Lookup` for an absent one. */
  const BadIndex: int := -1

  /** One link of a hash chain: a name and its index in the array. */
  datatype Link = Link(name: string, index: int)

  /** `find`: walks `chain` from its head and returns the position of the
      first link holding `name`, or -1 when no link does. */
  method Find(chain: seq<Link>, name: string) returns (k: int)
    ensures -1 <= k < |chain|
    ensures k >= 0 ==> chain[k].name == name
    ensures k >= 0 ==> forall j :: 0 <= j < k ==> chain[j].name != name
    ensures k == -1 <==> forall j :: 0 <= j < |chain| ==> chain[j].name != name
  {
    var p := 0;
    while p < |chain| && chain[p].name != name
      invariant 0 <= p <= |chain|
      invariant forall j :: 0 <= j < p ==> chain[j].name != name
    {
      p := p + 1;
    }
    k := if p < |chain| then p else -1;
  }

  class NameIndexMap {
    /** `d_array`: the names in index order. */
    var names: NameArray
    /** `d_table_p`: one chain per slot, newest link first. */
    var table: array<seq<Link>>
    /** `d_tableSize`. */
    var tableSize: int

    /** The registered names; the index of a name is its position here. */
    ghost var Names: seq<string>
    ghost var Repr: set<object>

    ghost predicate Valid()
      reads this, Repr
    {
      && this in Repr && table in Repr && names in Repr
      && names.Repr <= Repr && this !in names.Repr && table !in names.Repr
      && names.Valid()
      && Names == names.Contents
      && tableSize == table.Length && tableSize > 0
      && Distinct(Names)
      && LinksSound()
      && LinksComplete()
    }

    /** Every link sits in the slot of its name and points at that name. */
    ghost predicate LinksSound()
      reads this, table
    {
      && table.Length > 0
      && forall s, k :: 0 <= s < table.Length && 0 <= k < |table[s]| ==>
           && 0 <= table[s][k].index < |Names|
           && Names[table[s][k].index] == table[s][k].name
           && SlotOf(table[s][k].name, table.Length) == s
    }

    /** Every registered name has a link in its slot. */
    ghost predicate LinksComplete()
      reads this, table
    {
      && table.Length > 0
      && forall i :: 0 <= i < |Names| ==> Link(Names[i], i) in table[SlotOf(Names[i], table.Length)]
    }

    /** An empty mapping; the hint sizes both the array and the table. */
    constructor (maxEntriesHint: int)
      ensures Valid() && fresh(Repr)
      ensures Names == []
      ensures tableSize == if maxEntriesHint > 0 then maxEntriesHint else DefaultTableSize
    {
      names := new NameArray(maxEntriesHint);
      tableSize := if maxEntriesHint > 0 then maxEntriesHint else DefaultTableSize;
      table := new seq<Link>[if maxEntriesHint > 0 then maxEntriesHint else DefaultTableSize](_ => []);
      Names := [];
      new;
      Repr := {this, table} + names.Repr;
    }

    /** `findSlot`: the bucket of `name`. */
    method FindSlot(name: string) returns (slot: int)
      requires Valid()
      ensures slot == SlotOf(name, table.Length)
    {
      var h := Hash(name);
      slot := h % tableSize;
    }

    /** The one position a present name can have in its chain. */
    lemma FindsPresent(name: string, slot: int, k: int)
      requires Valid() && slot == SlotOf(name, table.Length)
      requires k == -1 <==> forall j :: 0 <= j < |table[slot]| ==> table[slot][j].name != name
      ensures k == -1 <==> name !in Names
    {
      if name in Names {
        var i := IndexOf(Names, name);
        assert Link(Names[i], i) in table[slot];
      }
    }

    /** `insert`: appends a copy of `name` to the array and links it at the
        head of chain `slot`. */
    method Insert(slot: int, name: string) returns (index: int)
      requires Valid() && slot == SlotOf(name, table.Length)
      requires name !in Names
      modifies Repr
      ensures Valid() && fresh(Repr - old(Repr))
      ensures tableSize == old(tableSize)
      ensures index == |old(Names)| && Names == old(Names) + [name]
      ensures table == old(table) && table[slot] == [Link(name, index)] + old(table[slot])
      ensures forall s :: 0 <= s < table.Length && s != slot ==> table[s] == old(table[s])
    {
      index := names.Append(name);
      var copy := names.At(index);
      table[slot] := [Link(copy.value, index)] + table[slot];
      Names := Names + [name];
      Repr := Repr + names.Repr;
      assert LinksSound() by {
        forall s, k | 0 <= s < table.Length && 0 <= k < |table[s]|
          ensures 0 <= table[s][k].index < |Names| && Names[table[s][k].index] == table[s][k].name
        {
          if s == slot && k > 0 { assert table[s][k] == old(table[slot])[k - 1]; }
        }
      }
      assert Distinct(Names);
      assert LinksComplete() by {
        forall i | 0 <= i < |Names|
          ensures Link(Names[i], i) in table[SlotOf(Names[i], table.Length)]
        {
          if i < |Names| - 1 {
            assert Link(Names[i], i) in old(table[SlotOf(Names[i], table.Length)]);
          }
        }
      }
    }

    /** `Add`: registers `name` and returns its new index only when it is
        absent; otherwise returns -1 and changes nothing. */
    method Add(name: string) returns (r: int)
      requires Valid()
      modifies Repr
      ensures Valid() && fresh(Repr - old(Repr))
      ensures name in old(Names) ==> r == BadIndex && Names == old(Names)
      ensures name !in old(Names) ==> r == |old(Names)| && Names == old(Names) + [name]
    {
      var slot := FindSlot(name);
      var k := Find(table[slot], name);
      FindsPresent(name, slot, k);
      if k >= 0 {
        r := BadIndex;
      } else {
        r := Insert(slot, name);
      }
    }

    /** `Entry`: the index of `name`, registering it first when absent; the
        result is always a valid index and the mapping grows by at most one. */
    method Entry(name: string) returns (r: int)
      requires Valid()
      modifies Repr
      ensures Valid() && fresh(Repr - old(Repr))
      ensures Names == if name in old(Names) then old(Names) else old(Names) + [name]
      ensures 0 <= r < |Names| && Names[r] == name
      ensures name in old(Names) ==> r == IndexOf(old(Names), name)
      ensures name !in old(Names) ==> r == |old(Names)|
    {
      var slot := FindSlot(name);
      var k := Find(table[slot], name);
      FindsPresent(name, slot, k);
      if k >= 0 {
        r := table[slot][k].index;
        IndexOfDistinct(Names, r);
      } else {
        r := Insert(slot, name);
      }
    }

    /** `Lookup`: the index of `name`, or -1 when it is absent. */
    method Lookup(name: string) returns (r: int)
      requires Valid()
      ensures r == IndexOf(Names, name)
      ensures r == BadIndex <==> name !in Names
      ensures r != BadIndex ==> 0 <= r < |Names| && Names[r] == name
    {
      var slot := FindSlot(name);
      var k := Find(table[slot], name);
      FindsPresent(name, slot, k);
      if k >= 0 {
        r := table[slot][k].index;
        IndexOfDistinct(Names, r);
      } else {
        r := BadIndex;
      }
    }

    /** `operator[]`: the name at `index`, or nothing outside `[0, Length())`. */
    function At(index: int): (r: Option<string>)
      requires Valid()
      reads Repr
      ensures 0 <= index < |Names| ==> r == Some(Names[index])
      ensures !(0 <= index < |Names|) ==> r == None
    {
      names.At(index)
    }

    /** The number of distinct names registered. */
    function Length(): (n: int)
      requires Valid()
      reads Repr
      ensures n == |Names|
    {
      names.Length()
    }
  }

  /** The registry is a bijection between its names and `[0, |Names|)`:
      looking any stored name up gives back its own index. */
  lemma LookupInverse(m: NameIndexMap, i: int)
    requires m.Valid() && 0 <= i < |m.Names|
    ensures IndexOf(m.Names, m.Names[i]) == i
  {
    IndexOfDistinct(m.Names, i);
  }
}
