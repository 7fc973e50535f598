/** The name orders of `AliasDep::unpaired` and its in-place exchange sort
    of an index map over the names it prints. */
module NameOrder {
  import opened Common
  import Registry

  /** Lexicographic order on strings, in which the end of a string comes
      before every character (`endHigh` false) or after every character
      (`endHigh` true).  With `endHigh` false it is `strcmp(x, y) < 0` on
      NUL-free strings: a proper prefix comes first. */
  predicate Lex(x: string, y: string, endHigh: bool)
    decreases |x|
  {
    if x == [] || y == [] then (if endHigh then x != [] && y == [] else x == [] && y != [])
    else if x[0] != y[0] then x[0] < y[0]
    else Lex(x[1..], y[1..], endHigh)
  }

  lemma {:induction false} LexIrreflexive(x: string, endHigh: bool)
    ensures !Lex(x, x, endHigh)
    decreases |x|
  {
    if x != [] {
      LexIrreflexive(x[1..], endHigh);
    }
  }

  lemma {:induction false} LexTransitive(x: string, y: string, z: string, endHigh: bool)
    requires Lex(x, y, endHigh) && Lex(y, z, endHigh)
    ensures Lex(x, z, endHigh)
    decreases |x|
  {
    if x != [] && y != [] && z != [] && x[0] == y[0] && y[0] == z[0] {
      LexTransitive(x[1..], y[1..], z[1..], endHigh);
    }
  }

  /** Of two different strings one comes first. */
  lemma {:induction false} LexTotal(x: string, y: string, endHigh: bool)
    requires x != y
    ensures Lex(x, y, endHigh) || Lex(y, x, endHigh)
    decreases |x|
  {
    if x != [] && y != [] && x[0] == y[0] {
      assert x == [x[0]] + x[1..] && y == [y[0]] + y[1..];
      LexTotal(x[1..], y[1..], endHigh);
    }
  }

  function Min(a: int, b: int): int
  {
    if a < b then a else b
  }

  /** `strncmp(x, y, len) < 0` and `== 0` for the shorter length `len`. */
  predicate PrefixBelow(x: string, y: string)
  {
    var m := Min(|x|, |y|);
    Lex(x[..m], y[..m], false)
  }

  predicate PrefixSame(x: string, y: string)
  {
    var m := Min(|x|, |y|);
    x[..m] == y[..m]
  }

  /** The swap test without the suffix flag, as written: `(cmp < 0 || 0 ==
      cmp) && li > lj`, which never holds for names of equal length. */
  predicate SwapAsWritten(x: string, y: string)
  {
    (PrefixBelow(x, y) || PrefixSame(x, y)) && |x| > |y|
  }

  /** The swap test the comment above it describes: lexicographic, except
      that of two names one of which starts the other the longer comes
      first, `cmp < 0 || (0 == cmp && li > lj)`. */
  predicate SwapIntended(x: string, y: string)
  {
    PrefixBelow(x, y) || (PrefixSame(x, y) && |x| > |y|)
  }

  /** Whether `x` is to be printed before `y`: `strcmp` order with the
      suffix flag, the intended order without it. */
  predicate Precedes(x: string, y: string, suffixFlag: bool)
  {
    if suffixFlag then Lex(x, y, false) else SwapIntended(x, y)
  }

  /** `x` is printed before `y`, or is `y`. */
  predicate AtMost(x: string, y: string, suffixFlag: bool)
  {
    x == y || Precedes(x, y, suffixFlag)
  }

  /** The intended test is the lexicographic order with the end of a name
      after every character. */
  lemma {:induction false} IntendedIsLex(x: string, y: string)
    ensures SwapIntended(x, y) == Lex(x, y, true)
    decreases |x|
  {
    var m := Min(|x|, |y|);
    if x != [] && y != [] {
      if x[0] == y[0] {
        IntendedIsLex(x[1..], y[1..]);
        assert x[..m] == [x[0]] + x[1..][..m - 1] && y[..m] == [y[0]] + y[1..][..m - 1];
        assert x[..m][1..] == x[1..][..m - 1] && y[..m][1..] == y[1..][..m - 1];
      } else {
        assert x[..m][0] == x[0] && y[..m][0] == y[0];
      }
    } else {
      assert x[..m] == [] && y[..m] == [];
    }
  }

  /** As a relation `Precedes` is a strict total order in both modes. */
  lemma PrecedesIrreflexive(x: string, suffixFlag: bool)
    ensures !Precedes(x, x, suffixFlag)
  {
    IntendedIsLex(x, x);
    LexIrreflexive(x, !suffixFlag);
  }

  lemma PrecedesTransitive(x: string, y: string, z: string, suffixFlag: bool)
    requires Precedes(x, y, suffixFlag) && Precedes(y, z, suffixFlag)
    ensures Precedes(x, z, suffixFlag)
  {
    IntendedIsLex(x, y);
    IntendedIsLex(y, z);
    IntendedIsLex(x, z);
    LexTransitive(x, y, z, !suffixFlag);
  }

  lemma PrecedesTotal(x: string, y: string, suffixFlag: bool)
    requires x != y
    ensures Precedes(x, y, suffixFlag) || Precedes(y, x, suffixFlag)
  {
    IntendedIsLex(x, y);
    IntendedIsLex(y, x);
    LexTotal(x, y, !suffixFlag);
  }

  /** `AtMost` is transitive and, unless `y` precedes `x`, holds. */
  lemma AtMostTransitive(x: string, y: string, z: string, suffixFlag: bool)
    requires AtMost(x, y, suffixFlag) && AtMost(y, z, suffixFlag)
    ensures AtMost(x, z, suffixFlag)
  {
    if x != y && y != z {
      PrecedesTransitive(x, y, z, suffixFlag);
    }
  }

  lemma AtMostUnlessPrecedes(x: string, y: string, suffixFlag: bool)
    requires !Precedes(y, x, suffixFlag)
    ensures AtMost(x, y, suffixFlag)
  {
    if x != y {
      PrecedesTotal(x, y, suffixFlag);
    }
  }

  /** The test as written swaps only where the intended one does. */
  lemma AsWrittenWithinIntended(x: string, y: string)
    requires SwapAsWritten(x, y)
    ensures SwapIntended(x, y)
  {
  }

  /** The test as written never exchanges two names of the same length
      with each other. */
  lemma EqualLengthNeverSwapped(x: string, y: string)
    requires |x| == |y|
    ensures !SwapAsWritten(x, y) && !SwapAsWritten(y, x)
  {
  }

  /** "b" and "a": neither is swapped before the other as written, so they
      are printed in the order they were found, while the intended order
      puts "a" first; "ab" comes before its prefix "a". */
  lemma AsWrittenExample()
    ensures !SwapAsWritten("b", "a") && !SwapAsWritten("a", "b")
    ensures Precedes("a", "b", false) && !Precedes("b", "a", false)
    ensures Precedes("ab", "a", false) && Precedes("a", "ab", true)
  {
    assert "a"[..1] == "a" && "b"[..1] == "b" && "ab"[..1] == "a";
    assert Lex("a", "b", false);
    IntendedIsLex("ab", "a");
    assert Lex("ab"[1..], "a"[1..], true);
  }

  /** One comparison of the inner loop without the suffix flag, with the
      test as written. */
  function PassAsWritten(names: seq<string>, s: seq<int>, i: int, j: int): (r: seq<int>)
    requires Indexes(names, s) && 0 <= i < |s| && 0 <= j < |s|
    ensures Indexes(names, r) && multiset(r) == multiset(s)
  {
    if SwapAsWritten(names[s[i]], names[s[j]]) then Swapped(s, i, j) else s
  }

  /** Columns `j` onwards of row `i`, as written. */
  function RowAsWritten(names: seq<string>, s: seq<int>, i: int, j: int): (r: seq<int>)
    requires Indexes(names, s) && 0 <= i < |s| && 0 <= j <= |s|
    ensures Indexes(names, r) && multiset(r) == multiset(s)
    decreases |s| - j
  {
    if j == |s| then s else RowAsWritten(names, PassAsWritten(names, s, i, j), i, j + 1)
  }

  /** Rows `i` onwards of the exchange sort without the suffix flag, as
      written. */
  function SortAsWritten(names: seq<string>, s: seq<int>, i: int): (r: seq<int>)
    requires Indexes(names, s) && 1 <= i
    ensures Indexes(names, r) && multiset(r) == multiset(s)
    decreases |s| - i
  {
    if i >= |s| then s else SortAsWritten(names, RowAsWritten(names, s, i, 0), i + 1)
  }

  /** As written, two names of the same length are never exchanged with
      each other: "b" and "a" are printed as found, unsorted. */
  lemma AsWrittenKeepsUnsorted()
    ensures Select(["b", "a"], SortAsWritten(["b", "a"], Iota(2), 1)) == ["b", "a"]
  {
    var names := ["b", "a"];
    assert Iota(2) == [0, 1];
    assert PassAsWritten(names, [0, 1], 1, 0) == [0, 1];
    assert PassAsWritten(names, [0, 1], 1, 1) == [0, 1];
    assert RowAsWritten(names, [0, 1], 1, 0) == [0, 1];
  }

  /** Exchanges with a longer name still move names of the same length:
      with "bb" after "b" and "a", "bb" is exchanged with "b", and "a" is
      printed before "b", against the order found. */
  lemma AsWrittenMovesEqualLength()
    ensures Select(["b", "a", "bb"], SortAsWritten(["b", "a", "bb"], Iota(3), 1)) == ["bb", "a", "b"]
  {
    var names := ["b", "a", "bb"];
    assert Iota(3) == [0, 1, 2];
    assert PassAsWritten(names, [0, 1, 2], 1, 0) == [0, 1, 2];
    assert PassAsWritten(names, [0, 1, 2], 1, 1) == [0, 1, 2];
    assert PassAsWritten(names, [0, 1, 2], 1, 2) == [0, 1, 2];
    assert RowAsWritten(names, [0, 1, 2], 1, 0) == [0, 1, 2];
    assert "bb"[..1] == "b"[..1];
    assert PassAsWritten(names, [0, 1, 2], 2, 0) == [2, 1, 0];
    assert PassAsWritten(names, [2, 1, 0], 2, 1) == [2, 1, 0];
    assert PassAsWritten(names, [2, 1, 0], 2, 2) == [2, 1, 0];
    assert RowAsWritten(names, [0, 1, 2], 2, 0) == [2, 1, 0];
  }

  // ---------------------------------------------------------------- the sort

  /** The names are listed in the order they are to be printed. */
  ghost predicate Ordered(lines: seq<string>, suffixFlag: bool)
  {
    forall k, l :: 0 <= k < l < |lines| ==> AtMost(lines[k], lines[l], suffixFlag)
  }

  /** Every entry of `s` indexes `names`. */
  ghost predicate Indexes(names: seq<string>, s: seq<int>)
  {
    forall k :: 0 <= k < |s| ==> 0 <= s[k] < |names|
  }

  /** The names `s` maps `lo..hi` to are in order. */
  ghost predicate InOrder(names: seq<string>, s: seq<int>, lo: int, hi: int, suffixFlag: bool)
    requires Indexes(names, s) && 0 <= lo && hi <= |s|
  {
    forall k, l :: lo <= k < l < hi ==> AtMost(names[s[k]], names[s[l]], suffixFlag)
  }

  /** What the inner loop has achieved for row `i` at column `j`: before
      column `i` the row's candidate is being inserted into the ordered
      prefix; after it the candidate is the greatest name seen so far. */
  ghost predicate Inner(names: seq<string>, s: seq<int>, i: int, j: int, suffixFlag: bool)
    requires Indexes(names, s) && 1 <= i < |s| && 0 <= j <= |s|
  {
    if j <= i then
      && InOrder(names, s, 0, j, suffixFlag)
      && InOrder(names, s, j, i, suffixFlag)
      && (forall k :: 0 <= k < j ==> AtMost(names[s[k]], names[s[i]], suffixFlag))
      && (forall k, l :: 0 <= k < j <= l < i ==> AtMost(names[s[k]], names[s[l]], suffixFlag))
    else
      && InOrder(names, s, 0, i + 1, suffixFlag)
      && (forall k :: i < k < j ==> AtMost(names[s[k]], names[s[i]], suffixFlag))
  }

  /** `s` with the entries at `i` and `j` exchanged. */
  function Swapped(s: seq<int>, i: int, j: int): (r: seq<int>)
    requires 0 <= i < |s| && 0 <= j < |s|
    ensures |r| == |s| && multiset(r) == multiset(s)
  {
    s[i := s[j]][j := s[i]]
  }

  /** One comparison of the inner loop. */
  function Pass(names: seq<string>, s: seq<int>, i: int, j: int, suffixFlag: bool): seq<int>
    requires Indexes(names, s) && 0 <= i < |s| && 0 <= j < |s|
  {
    if Precedes(names[s[i]], names[s[j]], suffixFlag) then Swapped(s, i, j) else s
  }

  lemma PassIndexes(names: seq<string>, s: seq<int>, i: int, j: int, suffixFlag: bool)
    requires Indexes(names, s) && 0 <= i < |s| && 0 <= j < |s|
    ensures Indexes(names, Pass(names, s, i, j, suffixFlag))
  {
  }

  /** A comparison before column `i` keeps `Inner`. */
  lemma InsertStep(names: seq<string>, s: seq<int>, i: int, j: int, suffixFlag: bool)
    requires Indexes(names, s) && 1 <= i < |s| && 0 <= j < i
    requires Inner(names, s, i, j, suffixFlag)
    ensures Indexes(names, Pass(names, s, i, j, suffixFlag))
    ensures Inner(names, Pass(names, s, i, j, suffixFlag), i, j + 1, suffixFlag)
  {
    var t := Pass(names, s, i, j, suffixFlag);
    PassIndexes(names, s, i, j, suffixFlag);
    var x, y := names[s[i]], names[s[j]];
    if Precedes(x, y, suffixFlag) {
      // The candidate moves to column j, and the name at j takes its place.
      assert names[t[j]] == x && names[t[i]] == y;
      forall k | 0 <= k < j + 1
        ensures AtMost(names[t[k]], names[t[i]], suffixFlag)
      {
        if k < j {
          AtMostTransitive(names[s[k]], x, y, suffixFlag);
        }
      }
      forall k, l | 0 <= k < l < j + 1
        ensures AtMost(names[t[k]], names[t[l]], suffixFlag)
      {
      }
      forall k, l | 0 <= k < j + 1 <= l < i
        ensures AtMost(names[t[k]], names[t[l]], suffixFlag)
      {
        if k == j {
          AtMostTransitive(x, y, names[s[l]], suffixFlag);
        }
      }
    } else {
      AtMostUnlessPrecedes(y, x, suffixFlag);
      forall k, l | 0 <= k < l < j + 1
        ensures AtMost(names[t[k]], names[t[l]], suffixFlag)
      {
      }
    }
  }

  /** At column `i` the candidate closes the ordered prefix. */
  lemma DiagonalStep(names: seq<string>, s: seq<int>, i: int, suffixFlag: bool)
    requires Indexes(names, s) && 1 <= i < |s|
    requires Inner(names, s, i, i, suffixFlag)
    ensures Pass(names, s, i, i, suffixFlag) == s
    ensures Inner(names, s, i, i + 1, suffixFlag)
  {
    PrecedesIrreflexive(names[s[i]], suffixFlag);
  }

  /** After column `i` the candidate only grows. */
  lemma MaximumStep(names: seq<string>, s: seq<int>, i: int, j: int, suffixFlag: bool)
    requires Indexes(names, s) && 1 <= i < j < |s|
    requires Inner(names, s, i, j, suffixFlag)
    ensures Indexes(names, Pass(names, s, i, j, suffixFlag))
    ensures Inner(names, Pass(names, s, i, j, suffixFlag), i, j + 1, suffixFlag)
  {
    var t := Pass(names, s, i, j, suffixFlag);
    PassIndexes(names, s, i, j, suffixFlag);
    var x, y := names[s[i]], names[s[j]];
    if Precedes(x, y, suffixFlag) {
      assert names[t[i]] == y && names[t[j]] == x;
      forall k, l | 0 <= k < l < i + 1
        ensures AtMost(names[t[k]], names[t[l]], suffixFlag)
      {
        if l == i {
          AtMostTransitive(names[s[k]], x, y, suffixFlag);
        }
      }
      forall k | i < k < j + 1
        ensures AtMost(names[t[k]], names[t[i]], suffixFlag)
      {
        if k < j {
          AtMostTransitive(names[s[k]], x, y, suffixFlag);
        }
      }
    } else {
      AtMostUnlessPrecedes(y, x, suffixFlag);
    }
  }

  /** The exchange sort of `unpaired` over the names of `printNames`: for
      each row `i` from 1, every column `j` is compared and exchanged when
      the name at `i` is to precede the name at `j`.  It leaves the names
      `smap` maps to in order. */
  method Sort(printNames: Registry.NameIndexMap, smap: array<int>, suffixFlag: bool)
    requires printNames.Valid() && smap !in printNames.Repr
    requires Indexes(printNames.Names, smap[..])
    modifies smap
    ensures Indexes(printNames.Names, smap[..]) && multiset(smap[..]) == multiset(old(smap[..]))
    ensures InOrder(printNames.Names, smap[..], 0, smap.Length, suffixFlag)
  {
    var n := smap.Length;
    var i := 1;
    while i < n
      invariant 1 <= i && (n > 0 ==> i <= n)
      invariant Indexes(printNames.Names, smap[..]) && multiset(smap[..]) == multiset(old(smap[..]))
      invariant InOrder(printNames.Names, smap[..], 0, Min(i, n), suffixFlag)
    {
      Row(printNames, smap, i, suffixFlag);
      i := i + 1;
    }
  }

  /** The inner loop of the sort, on row `i`: afterwards the names of rows
      `0..i` are in order. */
  method Row(printNames: Registry.NameIndexMap, smap: array<int>, i: int, suffixFlag: bool)
    requires printNames.Valid() && smap !in printNames.Repr
    requires Indexes(printNames.Names, smap[..]) && 1 <= i < smap.Length
    requires InOrder(printNames.Names, smap[..], 0, i, suffixFlag)
    modifies smap
    ensures Indexes(printNames.Names, smap[..]) && multiset(smap[..]) == multiset(old(smap[..]))
    ensures InOrder(printNames.Names, smap[..], 0, i + 1, suffixFlag)
  {
    ghost var names := printNames.Names;
    var n := smap.Length;
    var j := 0;
    while j < n
      invariant 0 <= j <= n
      invariant Indexes(names, smap[..]) && multiset(smap[..]) == multiset(old(smap[..]))
      invariant Inner(names, smap[..], i, j, suffixFlag)
    {
      ghost var s := smap[..];
      if j < i {
        InsertStep(names, s, i, j, suffixFlag);
      } else if j == i {
        DiagonalStep(names, s, i, suffixFlag);
      } else {
        MaximumStep(names, s, i, j, suffixFlag);
      }
      Exchange(printNames, smap, i, j, suffixFlag);
      j := j + 1;
    }
    assert Inner(names, smap[..], i, n, suffixFlag);
  }

  /** One comparison: the entries at `i` and `j` are exchanged when the name
      at `i` is to precede the name at `j`. */
  method Exchange(printNames: Registry.NameIndexMap, smap: array<int>, i: int, j: int, suffixFlag: bool)
    requires printNames.Valid() && smap !in printNames.Repr
    requires Indexes(printNames.Names, smap[..]) && 0 <= i < smap.Length && 0 <= j < smap.Length
    modifies smap
    ensures smap[..] == Pass(printNames.Names, old(smap[..]), i, j, suffixFlag)
  {
    var swap := Precedes(printNames.At(smap[i]).value, printNames.At(smap[j]).value, suffixFlag);
    if swap {
      smap[i], smap[j] := smap[j], smap[i];
    }
  }

  // ---------------------------------------------------------------- permutation

  /** `0, 1, ..., n - 1`: the identity map `unpaired` starts from. */
  function Iota(n: nat): (r: seq<int>)
    ensures |r| == n && forall k :: 0 <= k < n ==> r[k] == k
  {
    seq(n, k => k)
  }

  /** The names `s` maps to, in order. */
  function Select(names: seq<string>, s: seq<int>): (r: seq<string>)
    requires Indexes(names, s)
    ensures |r| == |s| && forall k :: 0 <= k < |s| ==> r[k] == names[s[k]]
  {
    seq(|s|, k requires 0 <= k < |s| => names[s[k]])
  }

  /** A list without repeats holds each of its members once. */
  lemma {:induction false} DistinctCounts<T>(a: seq<T>)
    requires Distinct(a)
    ensures forall x :: multiset(a)[x] == if x in a then 1 else 0
    decreases |a|
  {
    if a != [] {
      assert a == [a[0]] + a[1..];
      DistinctCounts(a[1..]);
    }
  }

  /** A value at two places is counted at least twice. */
  lemma TwiceCounted<T>(s: seq<T>, i: int, j: int)
    requires 0 <= i < j < |s| && s[i] == s[j]
    ensures multiset(s)[s[i]] >= 2
  {
    assert s == s[..i] + [s[i]] + s[i + 1..j] + [s[j]] + s[j + 1..];
  }

  /** Rearranging the indices of a list without repeats rearranges the list:
      what `unpaired` prints is a permutation of its names. */
  lemma Rearranged(names: seq<string>, s: seq<int>)
    requires Distinct(names) && multiset(s) == multiset(Iota(|names|))
    ensures Indexes(names, s)
    ensures multiset(Select(names, s)) == multiset(names)
  {
    var n := |names|;
    DistinctCounts(Iota(n));
    forall k | 0 <= k < |s|
      ensures 0 <= s[k] < n
    {
      assert s[k] in multiset(s);
    }
    assert Distinct(s) by {
      forall i, j | 0 <= i < j < |s|
        ensures s[i] != s[j]
      {
        if s[i] == s[j] {
          TwiceCounted(s, i, j);
        }
      }
    }
    var r := Select(names, s);
    assert |s| == n by {
      assert |multiset(s)| == |multiset(Iota(n))|;
    }
    assert Distinct(r);
    forall y | y in names
      ensures y in r
    {
      var m :| 0 <= m < n && names[m] == y;
      assert Iota(n)[m] == m;
      assert m in multiset(Iota(n));
      assert m in s;
      var k :| 0 <= k < |s| && s[k] == m;
      assert r[k] == y;
    }
    DistinctCounts(r);
    DistinctCounts(names);
    assert forall y :: multiset(r)[y] == multiset(names)[y];
  }
}
