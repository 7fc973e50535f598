/** The alias table (`AliasTable`): a hash table of chained links from an
    alias to the original name it stands for, and `AliasTableIterator`
    over its pairs. */
module AliasTables {
  import opened Common
  import opened Hashing

  /** Table size when no positive hint is given. */
  const DefaultTableSize: int := 521

  /** The results of `add`. */
  const FoundDifferent: int := -1
  const NotFound: int := 0
  const FoundIdentical: int := 1

  /** `idep_AliasTableLink`: one alias and its original name. */
  datatype AliasLink = AliasLink(alias: string, originalName: string)

  /** The chain walk of `add` and `lookup`: the position of the first link
      of `chain` for `alias`, or -1 when there is none. */
  method FindAlias(chain: seq<AliasLink>, alias: string) returns (k: int)
    ensures -1 <= k < |chain|
    ensures k >= 0 ==> chain[k].alias == alias
    ensures k == -1 <==> forall j :: 0 <= j < |chain| ==> chain[j].alias != alias
  {
    var p := 0;
    while p < |chain| && chain[p].alias != alias
      invariant 0 <= p <= |chain|
      invariant forall j :: 0 <= j < p ==> chain[j].alias != alias
    {
      p := p + 1;
    }
    k := if p < |chain| then p else -1;
  }

  /** The links of `chains`, slot after slot, each chain from its head. */
  function Flatten(chains: seq<seq<AliasLink>>): (r: seq<AliasLink>)
    decreases |chains|
  {
    if chains == [] then [] else chains[0] + Flatten(chains[1..])
  }

  /** A link is listed exactly when it is in one of the chains. */
  lemma {:induction false} FlattenMembers(chains: seq<seq<AliasLink>>, l: AliasLink)
    ensures l in Flatten(chains) <==> exists s :: 0 <= s < |chains| && l in chains[s]
    decreases |chains|
  {
    if chains != [] {
      FlattenMembers(chains[1..], l);
      if exists s :: 1 <= s < |chains| && l in chains[s] {
        var s :| 1 <= s < |chains| && l in chains[s];
        assert l in chains[1..][s - 1];
      }
      if exists s :: 0 <= s < |chains[1..]| && l in chains[1..][s] {
        var s :| 0 <= s < |chains[1..]| && l in chains[1..][s];
        assert l in chains[s + 1];
      }
    }
  }

  /** The links from slot `i` on are those of slot `i`, then the rest. */
  lemma FlattenStep(chains: seq<seq<AliasLink>>, i: int)
    requires 0 <= i < |chains|
    ensures Flatten(chains[i..]) == chains[i] + Flatten(chains[i + 1..])
  {
    assert chains[i..][1..] == chains[i + 1..];
  }

  /** No alias has two links, in one chain or in two. */
  ghost predicate AliasesApart(chains: seq<seq<AliasLink>>)
  {
    forall s, j, t, k ::
      0 <= s < |chains| && 0 <= j < |chains[s]| && 0 <= t < |chains| && 0 <= k < |chains[t]| && (s, j) != (t, k) ==>
        chains[s][j].alias != chains[t][k].alias
  }

  /** When no alias has two links, no alias is listed twice. */
  lemma {:induction false} FlattenApart(chains: seq<seq<AliasLink>>)
    requires AliasesApart(chains)
    ensures forall i, j :: 0 <= i < j < |Flatten(chains)| ==> Flatten(chains)[i].alias != Flatten(chains)[j].alias
    decreases |chains|
  {
    if chains != [] {
      var head, tail := chains[0], Flatten(chains[1..]);
      assert AliasesApart(chains[1..]) by {
        forall s, j, t, k | 0 <= s < |chains[1..]| && 0 <= j < |chains[1..][s]| && 0 <= t < |chains[1..]|
          && 0 <= k < |chains[1..][t]| && (s, j) != (t, k)
          ensures chains[1..][s][j].alias != chains[1..][t][k].alias
        {
          assert chains[1..][s] == chains[s + 1] && chains[1..][t] == chains[t + 1];
        }
      }
      FlattenApart(chains[1..]);
      forall i, j | 0 <= i < |head| && 0 <= j < |tail|
        ensures head[i].alias != tail[j].alias
      {
        FlattenMembers(chains[1..], tail[j]);
        var t :| 0 <= t < |chains[1..]| && tail[j] in chains[1..][t];
        var k :| 0 <= k < |chains[t + 1]| && chains[t + 1][k] == tail[j];
        assert (0, i) != (t + 1, k);
      }
      assert Flatten(chains) == head + tail;
    }
  }

  /** The table `m` after adding `originalName` for `alias`: an alias that
      is present keeps its original name. */
  function Added(m: map<string, string>, alias: string, originalName: string): (r: map<string, string>)
    ensures alias in r && r[alias] == (if alias in m then m[alias] else originalName)
    ensures forall a :: a in m ==> a in r && r[a] == m[a]
    ensures r.Keys == m.Keys + {alias}
  {
    if alias in m then m else m[alias := originalName]
  }

  /** The table `m` after adding the links `ls` in order. */
  function AddedAll(m: map<string, string>, ls: seq<AliasLink>): map<string, string>
    decreases |ls|
  {
    if ls == [] then m else AddedAll(Added(m, ls[0].alias, ls[0].originalName), ls[1..])
  }

  /** The first link of `ls` for `alias`; there must be one. */
  function FirstFor(ls: seq<AliasLink>, alias: string): (r: string)
    requires exists k :: 0 <= k < |ls| && ls[k].alias == alias
    ensures exists k :: 0 <= k < |ls| && ls[k].alias == alias && ls[k].originalName == r
                        && forall j :: 0 <= j < k ==> ls[j].alias != alias
    decreases |ls|
  {
    if ls[0].alias == alias then ls[0].originalName
    else
      assert exists k :: 0 <= k < |ls[1..]| && ls[1..][k].alias == alias by {
        var k :| 0 <= k < |ls| && ls[k].alias == alias;
        assert ls[1..][k - 1].alias == alias;
      }
      var r := FirstFor(ls[1..], alias);
      assert exists k :: 0 <= k < |ls| && ls[k].alias == alias && ls[k].originalName == r
                        && forall j :: 0 <= j < k ==> ls[j].alias != alias by {
        var k :| 0 <= k < |ls[1..]| && ls[1..][k].alias == alias && ls[1..][k].originalName == r
                 && forall j :: 0 <= j < k ==> ls[1..][j].alias != alias;
        assert ls[k + 1] == ls[1..][k];
        assert forall j :: 0 <= j < k + 1 ==> ls[j].alias != alias by {
          forall j | 0 <= j < k + 1 ensures ls[j].alias != alias {
            if j > 0 { assert ls[j] == ls[1..][j - 1]; }
          }
        }
      }
      r
  }

  /** No alias is ever overwritten: after a run of additions an alias
      stands for what it stood for before, or else for the original name
      of its first addition; the aliases are those present before and
      those added. */
  lemma {:induction false} FirstAddWins(m: map<string, string>, ls: seq<AliasLink>, a: string)
    ensures a in AddedAll(m, ls) <==> a in m || exists k :: 0 <= k < |ls| && ls[k].alias == a
    ensures a in m ==> AddedAll(m, ls)[a] == m[a]
    ensures a !in m && (exists k :: 0 <= k < |ls| && ls[k].alias == a) ==> AddedAll(m, ls)[a] == FirstFor(ls, a)
    decreases |ls|
  {
    if ls != [] {
      var m1 := Added(m, ls[0].alias, ls[0].originalName);
      FirstAddWins(m1, ls[1..], a);
      if exists k :: 0 <= k < |ls[1..]| && ls[1..][k].alias == a {
        var k :| 0 <= k < |ls[1..]| && ls[1..][k].alias == a;
        assert ls[k + 1].alias == a;
      }
      if exists k :: 0 <= k < |ls| && ls[k].alias == a {
        var k :| 0 <= k < |ls| && ls[k].alias == a;
        if k > 0 { assert ls[1..][k - 1].alias == a; }
      }
    }
  }

  class AliasTable {
    /** `d_table_p`: one chain per slot, newest link first. */
    var table: array<seq<AliasLink>>
    /** `d_size`. */
    const size: int
    /** The aliases and the original names they stand for. */
    ghost var Map: map<string, string>
    ghost var Repr: set<object>

    ghost predicate Valid()
      reads this, Repr
    {
      && Repr == {this, table} && table.Length == size && size > 0
      && Sound() && Complete()
    }

    /** Every link sits in the slot of its alias and holds the original
        name of that alias, and no chain has two links for one alias. */
    ghost predicate Sound()
      reads this, table
    {
      && table.Length > 0
      && (forall s, k :: 0 <= s < table.Length && 0 <= k < |table[s]| ==>
            && table[s][k].alias in Map && Map[table[s][k].alias] == table[s][k].originalName
            && SlotOf(table[s][k].alias, table.Length) == s)
      && (forall s, j, k :: 0 <= s < table.Length && 0 <= j < k < |table[s]| ==>
            table[s][j].alias != table[s][k].alias)
    }

    /** Every alias has its link in its slot. */
    ghost predicate Complete()
      reads this, table
    {
      && table.Length > 0
      && forall a :: a in Map ==> AliasLink(a, Map[a]) in table[SlotOf(a, table.Length)]
    }

    /** An empty table of `sizeHint` slots, or of the default size. */
    constructor (sizeHint: int)
      ensures Valid() && fresh(Repr) && Map == map[]
      ensures size == if sizeHint > 0 then sizeHint else DefaultTableSize
    {
      size := if sizeHint > 0 then sizeHint else DefaultTableSize;
      table := new seq<AliasLink>[if sizeHint > 0 then sizeHint else DefaultTableSize](_ => []);
      Map := map[];
      new;
      Repr := {this, table};
    }

    /** The bucket of `alias`. */
    method SlotFor(alias: string) returns (slot: int)
      requires Valid()
      ensures slot == SlotOf(alias, table.Length)
    {
      var h := Hash(alias);
      slot := h % size;
    }

    /** What the walk of the chain of an alias finds. */
    lemma Located(alias: string, slot: int, k: int)
      requires Valid() && slot == SlotOf(alias, table.Length)
      requires -1 <= k < |table[slot]| && (k >= 0 ==> table[slot][k].alias == alias)
      requires k == -1 <==> forall j :: 0 <= j < |table[slot]| ==> table[slot][j].alias != alias
      ensures k == -1 <==> alias !in Map
      ensures k >= 0 ==> table[slot][k].originalName == Map[alias]
    {
      if alias in Map {
        assert AliasLink(alias, Map[alias]) in table[slot];
      }
    }

    /** `add`: links a new alias at the head of its chain and returns 0;
        an alias already present is left as it is, and 1 or -1 says
        whether its original name is `originalName`. */
    method Add(alias: string, originalName: string) returns (r: int)
      requires Valid()
      modifies Repr
      ensures Valid() && Repr == old(Repr)
      ensures alias !in old(Map) ==> r == NotFound && Map == old(Map)[alias := originalName]
      ensures alias !in old(Map) ==> table[SlotOf(alias, table.Length)] == [AliasLink(alias, originalName)] + old(table[SlotOf(alias, table.Length)])
      ensures alias in old(Map) ==> Map == old(Map) && table[..] == old(table[..])
      ensures forall s :: 0 <= s < table.Length && s != SlotOf(alias, table.Length) ==> table[s] == old(table[s])
      ensures alias in old(Map) && old(Map)[alias] == originalName ==> r == FoundIdentical
      ensures alias in old(Map) && old(Map)[alias] != originalName ==> r == FoundDifferent
    {
      var slot := SlotFor(alias);
      var k := FindAlias(table[slot], alias);
      Located(alias, slot, k);
      if k < 0 {
        Link(slot, alias, originalName);
        r := NotFound;
      } else if table[slot][k].originalName == originalName {
        r := FoundIdentical;
      } else {
        r := FoundDifferent;
      }
    }

    /** The new link of `add`, at the head of chain `slot`. */
    method Link(slot: int, alias: string, originalName: string)
      requires Valid() && slot == SlotOf(alias, table.Length) && alias !in Map
      modifies Repr
      ensures Valid() && Repr == old(Repr) && Map == old(Map)[alias := originalName]
      ensures table[slot] == [AliasLink(alias, originalName)] + old(table[slot])
      ensures forall s :: 0 <= s < table.Length && s != slot ==> table[s] == old(table[s])
    {
      table[slot] := [AliasLink(alias, originalName)] + table[slot];
      Map := Map[alias := originalName];
      assert Sound() by {
        forall s, k | 0 <= s < table.Length && 0 <= k < |table[s]|
          ensures table[s][k].alias in Map && Map[table[s][k].alias] == table[s][k].originalName
        {
          if s == slot && k > 0 { assert table[s][k] == old(table[slot])[k - 1]; }
        }
        forall s, j, k | 0 <= s < table.Length && 0 <= j < k < |table[s]|
          ensures table[s][j].alias != table[s][k].alias
        {
          if s == slot {
            assert table[s][k] == old(table[slot])[k - 1];
            if j > 0 { assert table[s][j] == old(table[slot])[j - 1]; }
          }
        }
      }
      assert Complete() by {
        forall a | a in Map
          ensures AliasLink(a, Map[a]) in table[SlotOf(a, table.Length)]
        {
          if a != alias {
            assert AliasLink(a, Map[a]) in old(table[SlotOf(a, table.Length)]);
          }
        }
      }
    }

    /** `Lookup`: the original name `alias` stands for, or nothing. */
    method Lookup(alias: string) returns (r: Option<string>)
      requires Valid()
      ensures r == if alias in Map then Some(Map[alias]) else None
    {
      var slot := SlotFor(alias);
      var k := FindAlias(table[slot], alias);
      Located(alias, slot, k);
      r := if k >= 0 then Some(table[slot][k].originalName) else None;
    }

    /** The pairs in the order the iterator visits them. */
    ghost function Pairs(): seq<AliasLink>
      reads this, table
    {
      Flatten(table[..])
    }

    /** The iteration order lists every pair of the table exactly once. */
    lemma PairsExact()
      requires Valid()
      ensures forall l :: l in Pairs() <==> l.alias in Map && Map[l.alias] == l.originalName
      ensures forall i, j :: 0 <= i < j < |Pairs()| ==> Pairs()[i].alias != Pairs()[j].alias
    {
      var cs := table[..];
      forall l
        ensures l in Pairs() <==> l.alias in Map && Map[l.alias] == l.originalName
      {
        FlattenMembers(cs, l);
        if l.alias in Map && Map[l.alias] == l.originalName {
          assert l in cs[SlotOf(l.alias, table.Length)];
        }
        if l in Pairs() {
          var s :| 0 <= s < |cs| && l in cs[s];
          var k :| 0 <= k < |cs[s]| && cs[s][k] == l;
          assert table[s][k] == l;
        }
      }
      assert AliasesApart(cs) by {
        forall s, j, t, k | 0 <= s < |cs| && 0 <= j < |cs[s]| && 0 <= t < |cs| && 0 <= k < |cs[t]| && (s, j) != (t, k)
          ensures cs[s][j].alias != cs[t][k].alias
        {
          assert table[s][j] == cs[s][j] && table[t][k] == cs[t][k];
          if s == t {
            if j < k { assert table[s][j].alias != table[s][k].alias; }
            else { assert table[s][k].alias != table[s][j].alias; }
          }
        }
      }
      FlattenApart(cs);
    }
  }

  /** The pairs an iterator still has to visit when it is at slot
      `index` of `chains` with `link` left of that slot's chain. */
  function RestOf(chains: seq<seq<AliasLink>>, index: int, link: seq<AliasLink>): seq<AliasLink>
    requires -1 <= index <= |chains|
  {
    link + (if index < |chains| then Flatten(chains[index + 1..]) else [])
  }

  /** Moving on from an empty link to the head of the next slot keeps the
      pairs still to visit. */
  lemma NextSlotKeeps(chains: seq<seq<AliasLink>>, index: int)
    requires -1 <= index < |chains|
    ensures index + 1 < |chains| ==> RestOf(chains, index + 1, chains[index + 1]) == RestOf(chains, index, [])
    ensures index + 1 == |chains| ==> RestOf(chains, index + 1, []) == RestOf(chains, index, [])
  {
    if index + 1 < |chains| {
      FlattenStep(chains, index + 1);
    } else {
      assert chains[index + 1..] == [];
    }
  }

  /** Moving past the current link drops the first pair still to visit. */
  lemma PastLink(chains: seq<seq<AliasLink>>, index: int, link: seq<AliasLink>)
    requires -1 <= index <= |chains| && link != []
    ensures RestOf(chains, index, link[1..]) == RestOf(chains, index, link)[1..]
  {
  }

  /** `AliasTableIterator`: the pairs of a table, slot by slot and, within
      a slot, newest first. */
  class AliasTableIterator {
    /** `d_table`. */
    const table: AliasTable
    /** `d_link_p`: the links of the current chain from the current one
        on; empty for NULL. */
    var link: seq<AliasLink>
    /** `d_index`: the current slot, -1 before the first. */
    var index: int
    /** The chains of the table, slot by slot. */
    ghost var chains: seq<seq<AliasLink>>

    ghost predicate Valid()
      reads this, table, table.Repr
    {
      table.Valid() && Placed() && chains == table.table[..]
    }

    /** The slot index is in range and the link cursor points into the
        chain of the current slot. */
    ghost predicate Placed()
      reads this
    {
      && -1 <= index <= |chains|
      && (0 <= index < |chains| ==>
            |link| <= |chains[index]| && link == chains[index][|chains[index]| - |link|..])
      && (!(0 <= index < |chains|) ==> link == [])
    }

    /** The link cursor is NULL only past the last slot. */
    ghost predicate Positioned()
      reads this
    {
      index < |chains| ==> link != []
    }

    /** The pairs still to come, the current one first. */
    ghost function Rest(): seq<AliasLink>
      requires Placed()
      reads this
    {
      RestOf(chains, index, link)
    }

    /** An iterator on the first pair of `t`. */
    constructor (t: AliasTable)
      requires t.Valid()
      ensures Valid() && Positioned() && table == t
      ensures Rest() == t.Pairs()
    {
      table := t;
      link := [];
      index := -1;
      chains := t.table[..];
      new;
      Reset();
    }

    /** `reset`: back to the first pair. */
    method Reset()
      requires table.Valid()
      modifies this
      ensures Valid() && Positioned()
      ensures Rest() == table.Pairs()
    {
      link := [];
      index := -1;
      chains := table.table[..];
      assert Valid() && Rest() == table.Pairs() by {
        assert chains[index + 1..] == chains;
      }
      Advance();
    }

    /** `operator++`: past the current link, then on to the next slot
        whose chain is not empty, or past the last slot. */
    method Advance()
      requires Valid()
      modifies this
      ensures Valid() && Positioned() && chains == old(chains)
      ensures Rest() == if old(link) == [] then old(Rest()) else old(Rest())[1..]
    {
      if link != [] {
        PastLink(chains, index, link);
        link := link[1..];
      }
      ghost var rest := Rest();
      while link == [] && index < table.size
        invariant Valid() && Rest() == rest && chains == old(chains)
        decreases table.size - index
      {
        NextSlot();
      }
    }

    /** One turn of the loop of `operator++`: on to the head of the next
        slot's chain. */
    method NextSlot()
      requires Valid() && link == [] && index < table.size
      modifies this
      ensures Valid() && index == old(index) + 1 && chains == old(chains)
      ensures Rest() == old(Rest())
    {
      NextSlotKeeps(chains, index);
      index := index + 1;
      if index < table.size {
        link := table.table[index];
      }
    }

    /** `operator const void *`: a pair is at hand. */
    predicate IsValid()
      reads this, table
    {
      index < table.size
    }

    /** `alias()`: the alias of the pair at hand. */
    function Alias(): (r: string)
      requires Valid() && Positioned() && IsValid()
      reads this, table, table.Repr
      ensures r == Rest()[0].alias
    {
      link[0].alias
    }

    /** `originalName()`: the original name of the pair at hand. */
    function OriginalName(): (r: string)
      requires Valid() && Positioned() && IsValid()
      reads this, table, table.Repr
      ensures r == Rest()[0].originalName
    {
      link[0].originalName
    }

    /** A pair is at hand exactly when pairs remain. */
    lemma AtHand()
      requires Valid() && Positioned()
      ensures IsValid() <==> Rest() != []
    {
    }
  }
}
