/** `AliasDep`: the environment of the alias checker.  It holds the names of
    files to ignore, the alias table and the files to check, and offers the
    three checks `unpaired`, `verify` and `extract`, whose results are stated
    by the functions of `AliasReports`. */
module AliasDeps {
  import opened Common
  import opened Text
  import opened Resolution
  import TokenScan
  import FileDeps
  import Registry
  import AliasTables
  import AliasUtil
  import CompileDeps
  import CompileDepClasses
  import NameOrder
  import opened AliasReports

  /** `zero`: clears every entry of `a`. */
  method Zero(a: array<int>)
    modifies a
    ensures forall k :: 0 <= k < a.Length ==> a[k] == 0
  {
    var i := 0;
    while i < a.Length
      invariant 0 <= i <= a.Length
      invariant forall k :: 0 <= k < i ==> a[k] == 0
    {
      a[i] := 0;
      i := i + 1;
    }
  }

  /** The identity mapping `unpaired` sorts: entry `k` is `k`. */
  method Identity(a: array<int>)
    modifies a
    ensures a[..] == NameOrder.Iota(a.Length)
  {
    var i := 0;
    while i < a.Length
      invariant 0 <= i <= a.Length
      invariant forall k :: 0 <= k < i ==> a[k] == k
    {
      a[i] := i;
      i := i + 1;
    }
  }

  /** The current directive of a scan is the next of all its directives. */
  lemma NextDirective(it: FileDeps.FileDepIterator)
    requires it.Valid() && it.IsValid()
    ensures |it.Seen| < |it.AllDeps| && it.Seen == it.AllDeps[..|it.Seen|]
    ensures it.Name() == Some(it.AllDeps[|it.Seen|])
  {
    it.CurrentIffRemaining();
    assert it.AllDeps == it.Seen + (it.Yielded() + it.Pending());
  }

  /** A scan without a current directive has seen them all. */
  lemma NoDirectiveLeft(it: FileDeps.FileDepIterator)
    requires it.Valid() && !it.IsValid()
    ensures it.Seen == it.AllDeps
  {
    it.CurrentIffRemaining();
    assert it.AllDeps == it.Seen + (it.Yielded() + it.Pending());
  }

  /** The index of the first of `deps` whose canonical name is `c`, or
      `|deps|` when none is. */
  ghost function FirstCanonical(am: map<string, string>, deps: seq<string>, c: string): (r: nat)
    ensures r <= |deps|
  {
    if deps == [] then 0
    else if Canonical(am, deps[0]) == c then 0
    else 1 + FirstCanonical(am, deps[1..], c)
  }

  lemma FirstCanonicalStep(am: map<string, string>, deps: seq<string>, m: nat, c: string)
    requires m < |deps|
    ensures FirstCanonical(am, deps[m..], c)
      == if Canonical(am, deps[m]) == c then 0 else 1 + FirstCanonical(am, deps[m + 1..], c)
  {
    assert deps[m..][1..] == deps[m + 1..];
  }

  /** The scan of `verify` finds the first match of `Judged`. */
  lemma {:induction false} FirstCanonicalMatch(am: map<string, string>, deps: seq<string>, c: string)
    ensures FirstCanonical(am, deps, c) == FirstMatch(Canonicals(am, deps), c)
  {
    if deps != [] {
      var ns := Canonicals(am, deps);
      assert ns[0] == Canonical(am, deps[0]);
      if ns[0] != c {
        var tail := Canonicals(am, deps[1..]);
        FirstCanonicalMatch(am, deps[1..], c);
        assert ns[1..] == tail by {
          forall k | 0 <= k < |tail| ensures ns[1..][k] == tail[k] {
            assert deps[1..][k] == deps[k + 1];
          }
        }
        assert FirstMatch(ns, c) == 1 + FirstMatch(ns[1..], c);
      }
    }
  }

  /** What the arrays of `extract` hold once the guesses `gs` of the first
      `n` files are made, stated on their contents: the unique headers
      `names` in the order they were met, how many files record each in
      `hits`, the index of the header each file records (or -1) in `hmap`,
      and whether its guess was verified in `verified`. */
  ghost predicate Entered(gs: seq<Guess>, names: seq<string>, hits: seq<int>, hmap: seq<int>,
                          verified: seq<int>, n: int)
  {
    Counted(gs, names, hits, n) && Mapped(gs, names, hmap, verified, n)
  }

  /** The headers and their counts after the first `n` files. */
  ghost predicate Counted(gs: seq<Guess>, names: seq<string>, hits: seq<int>, n: int)
  {
    && 0 <= n <= |gs| && n <= |hits|
    && names == AliasReports.Headers(gs[..n]) && |names| <= n
    && (forall k :: 0 <= k < |names| ==> hits[k] == Count(gs[..n], names[k]))
    && (forall k :: |names| <= k < |hits| ==> hits[k] == 0)
  }

  /** Which header each of the first `n` files records, and which were
      verified: the part of `Entered` that the later loops of `extract`
      read. */
  ghost predicate Mapped(gs: seq<Guess>, names: seq<string>, hmap: seq<int>, verified: seq<int>, n: int)
  {
    && 0 <= n <= |gs| && n <= |hmap| && n <= |verified|
    && (forall j :: 0 <= j < n ==> (hmap[j] < 0 <==> HeaderOf(gs[j]).None?))
    && (forall j :: 0 <= j < n && hmap[j] >= 0 ==>
          hmap[j] < |names| && HeaderOf(gs[j]) == Some(names[hmap[j]]))
    && (forall j :: 0 <= j < n ==> verified[j] == if gs[j].Matched? then 1 else 0)
  }

  /** A file whose guess records no header leaves the headers and counts as
      they are and maps to -1. */
  lemma EnterNothing(gs: seq<Guess>, names: seq<string>, hits: seq<int>, hmap: seq<int>,
                     verified: seq<int>, i: int)
    requires Entered(gs, names, hits, hmap, verified, i)
    requires i < |gs| && i < |hits| && i < |hmap| && i < |verified|
    requires HeaderOf(gs[i]).None? && verified[i] == 0
    ensures Entered(gs, names, hits, hmap[i := -1], verified, i + 1)
  {
    assert gs[..i + 1][..i] == gs[..i];
    assert forall k :: 0 <= k < |names| ==> Count(gs[..i + 1], names[k]) == Count(gs[..i], names[k]);
  }

  /** A file whose guess records header `h` enters it among the headers
      (at index `x`, new or not), counts it once more and maps to `x`. */
  lemma EnterHeader(gs: seq<Guess>, names: seq<string>, hits: seq<int>, hmap: seq<int>,
                    verified: seq<int>, i: int, h: string, x: int)
    requires Entered(gs, names, hits, hmap, verified, i)
    requires i < |gs| && i < |hits| && i < |hmap| && i < |verified|
    requires HeaderOf(gs[i]) == Some(h) && verified[i] == (if gs[i].Matched? then 1 else 0)
    requires 0 <= x < |Insert(names, h)| && Insert(names, h)[x] == h
    ensures Entered(gs, Insert(names, h), hits[x := hits[x] + 1], hmap[i := x], verified, i + 1)
  {
    CountHeader(gs, names, hits, i, h, x);
    MapHeader(gs, names, hmap, verified, i, h, x);
  }

  /** The counting half of `EnterHeader`. */
  lemma CountHeader(gs: seq<Guess>, names: seq<string>, hits: seq<int>, i: int, h: string, x: int)
    requires Counted(gs, names, hits, i) && i < |gs| && i < |hits| && HeaderOf(gs[i]) == Some(h)
    requires 0 <= x < |Insert(names, h)| && Insert(names, h)[x] == h
    ensures Counted(gs, Insert(names, h), hits[x := hits[x] + 1], i + 1)
  {
    var names', hits' := Insert(names, h), hits[x := hits[x] + 1];
    HeadersMeaning(gs[..i]);
    SnocHeaders(gs, i);
    assert Distinct(names') && names <= names';
    forall k | 0 <= k < |names'|
      ensures hits'[k] == Count(gs[..i + 1], names'[k])
    {
      SnocCount(gs, i, names'[k]);
      if k == x {
        assert h !in names ==> x == |names| && Count(gs[..i], h) == 0;
      } else {
        assert names'[k] != h && k < |names|;
      }
    }
  }

  /** The mapping half of `EnterHeader`. */
  lemma MapHeader(gs: seq<Guess>, names: seq<string>, hmap: seq<int>, verified: seq<int>,
                  i: int, h: string, x: int)
    requires Mapped(gs, names, hmap, verified, i) && i < |gs| && i < |hmap| && i < |verified|
    requires HeaderOf(gs[i]) == Some(h) && verified[i] == (if gs[i].Matched? then 1 else 0)
    requires 0 <= x < |Insert(names, h)| && Insert(names, h)[x] == h
    ensures Mapped(gs, Insert(names, h), hmap[i := x], verified, i + 1)
  {
    assert names <= Insert(names, h);
  }

  lemma SnocHeaders(gs: seq<Guess>, i: int)
    requires 0 <= i < |gs|
    ensures AliasReports.Headers(gs[..i + 1]) ==
      match HeaderOf(gs[i]) case Some(h) => Insert(AliasReports.Headers(gs[..i]), h) case None => AliasReports.Headers(gs[..i])
  {
    assert gs[..i + 1][..i] == gs[..i];
  }

  lemma SnocCount(gs: seq<Guess>, i: int, y: string)
    requires 0 <= i < |gs|
    ensures Count(gs[..i + 1], y) == Count(gs[..i], y) + (if HeaderOf(gs[i]) == Some(y) then 1 else 0)
  {
    assert gs[..i + 1][..i] == gs[..i];
  }

  /** One turn of the inner loop of the warning of `extract`: file `j`
      claims header `names[i]` exactly when it is mapped to index `i`. */
  lemma ClaimStep(files: seq<string>, gs: seq<Guess>, names: seq<string>, hmap: seq<int>,
                  verified: seq<int>, i: int, j: int)
    requires |files| == |gs| && Mapped(gs, names, hmap, verified, |gs|) && Distinct(names)
    requires 0 <= i < |names| && 0 <= j < |gs|
    ensures Claims(files[..j + 1], gs[..j + 1], names[i]) ==
      Claims(files[..j], gs[..j], names[i]) +
        (if hmap[j] == i then [Claim(verified[j] == 1, StripDir(files[j]))] else [])
  {
    assert gs[..j + 1][..j] == gs[..j] && files[..j + 1][..j] == files[..j];
    assert 0 <= hmap[j] != i ==> names[hmap[j]] != names[i];
  }

  /** One turn of the last loop of `extract`: file `j` gets an alias line
      exactly when its header is recorded but not verified. */
  lemma ProposeStep(files: seq<string>, gs: seq<Guess>, names: seq<string>, hmap: seq<int>,
                    verified: seq<int>, j: int)
    requires |files| == |gs| && Mapped(gs, names, hmap, verified, |gs|) && 0 <= j < |gs|
    ensures Proposals(files[..j + 1], gs[..j + 1]) ==
      Proposals(files[..j], gs[..j]) +
        (if hmap[j] >= 0 && verified[j] == 0 then [AliasLine(names[hmap[j]], RemoveSuffix(files[j]))] else [])
  {
    assert gs[..j + 1][..j] == gs[..j] && files[..j + 1][..j] == files[..j];
    assert hmap[j] >= 0 && verified[j] == 0 ==> gs[j] == Proposed(names[hmap[j]]);
  }

  /** An entry at the front of the tokens still to come moves to the
      entries handed on. */
  lemma EntryStep(all: seq<string>, handled: seq<string>, rest: seq<string>)
    requires all == handled + Entries(rest)
    requires rest != [] && !IsComment(rest[0]) && !IsLineEnd(rest[0])
    ensures all == handled + [rest[0]] + Entries(rest[1..])
  {
    assert Entries(rest) == [rest[0]] + Entries(rest[1..]);
    AppendAssociative(handled, [rest[0]], Entries(rest[1..]));
  }

  class AliasDep {
    /** `d_ignoreNames`, `d_aliases` and `d_fileNames`. */
    const ignoreNames: Registry.NameIndexMap
    const aliases: AliasTables.AliasTable
    const fileNames: Registry.NameIndexMap
    ghost var Repr: set<object>

    ghost predicate Valid()
      reads this, Repr
    {
      && this in Repr
      && ignoreNames in Repr && ignoreNames.Repr <= Repr
      && aliases in Repr && aliases.Repr <= Repr
      && fileNames in Repr && fileNames.Repr <= Repr
      && this !in ignoreNames.Repr && this !in aliases.Repr && this !in fileNames.Repr
      && ignoreNames.Repr !! aliases.Repr && ignoreNames.Repr !! fileNames.Repr
      && aliases.Repr !! fileNames.Repr
      && ignoreNames.Valid() && aliases.Valid() && fileNames.Valid()
    }

    /** An environment with nothing to ignore, no aliases and no files. */
    constructor ()
      ensures Valid() && fresh(Repr)
      ensures ignoreNames.Names == [] && aliases.Map == map[] && fileNames.Names == []
    {
      ignoreNames := new Registry.NameIndexMap(0);
      aliases := new AliasTables.AliasTable(0);
      fileNames := new Registry.NameIndexMap(0);
      new;
      Repr := {this} + ignoreNames.Repr + aliases.Repr + fileNames.Repr;
    }

    /** `addIgnoreName`: adds a file to ignore, unless it is there already. */
    method AddIgnoreName(fileName: string)
      requires Valid()
      modifies Repr
      ensures Valid() && fresh(Repr - old(Repr))
      ensures ignoreNames.Names == Insert(old(ignoreNames.Names), fileName)
      ensures aliases.Map == old(aliases.Map) && fileNames.Names == old(fileNames.Names)
    {
      var _ := ignoreNames.Add(fileName);
      Repr := Repr + ignoreNames.Repr;
    }

    /** `addFileName`: adds a file to check, unless it is there already. */
    method AddFileName(fileName: string)
      requires Valid()
      modifies Repr
      ensures Valid() && fresh(Repr - old(Repr))
      ensures fileNames.Names == Insert(old(fileNames.Names), fileName)
      ensures aliases.Map == old(aliases.Map) && ignoreNames.Names == old(ignoreNames.Names)
    {
      var _ := fileNames.Add(fileName);
      Repr := Repr + fileNames.Repr;
    }

    /** `addAlias`: enters `alias` for `component`; when the alias already
        stands for another component, the table keeps that one and it is
        returned. */
    method AddAlias(alias: string, component: string) returns (previous: Option<string>)
      requires Valid()
      modifies Repr
      ensures Valid() && Repr == old(Repr)
      ensures aliases.Map == AliasTables.Added(old(aliases.Map), alias, component)
      ensures previous == if alias in old(aliases.Map) && old(aliases.Map)[alias] != component
                          then Some(old(aliases.Map)[alias]) else None
      ensures ignoreNames.Names == old(ignoreNames.Names) && fileNames.Names == old(fileNames.Names)
    {
      var added := aliases.Add(alias, component);
      if added < 0 {
        previous := aliases.Lookup(alias);
      } else {
        previous := None;
      }
    }

    /** `readAliases`: the alias file read by `AliasUtil.ReadAliases`. */
    method ReadAliases(file: Option<string>) returns (r: int, notices: seq<AliasUtil.Notice>)
      requires Valid()
      modifies Repr
      ensures Valid() && Repr == old(Repr)
      ensures file.None? ==> r == AliasUtil.IoError && notices == [] && aliases.Map == old(aliases.Map)
      ensures file.Some? ==>
        var rd := AliasUtil.Read(AliasUtil.Initial(old(aliases.Map)), TokenScan.Tokens(file.value));
        r == rd.bad && notices == rd.notices && aliases.Map == rd.aliases
      ensures ignoreNames.Names == old(ignoreNames.Names) && fileNames.Names == old(fileNames.Names)
    {
      r, notices := AliasUtil.ReadAliasesFile(aliases, file);
    }

    /** `readIgnoreNames`: -1, changing nothing, when the file cannot be
        opened or is not all ASCII; otherwise 0, with each entry of the file
        added as a file to ignore. */
    method ReadIgnoreNames(file: Option<string>) returns (r: int)
      requires Valid()
      modifies Repr
      ensures Valid() && fresh(Repr - old(Repr))
      ensures r == 0 <==> file.Some? && IsAscii(file.value)
      ensures r == 0 || r == -1
      ensures ignoreNames.Names ==
        if r == 0 then InsertAll(old(ignoreNames.Names), Entries(TokenScan.Tokens(file.value)))
        else old(ignoreNames.Names)
      ensures aliases.Map == old(aliases.Map) && fileNames.Names == old(fileNames.Names)
    {
      r := LoadFromFile(file, true);
    }

    /** `readFileNames`: as `readIgnoreNames`, for the files to check. */
    method ReadFileNames(file: Option<string>) returns (r: int)
      requires Valid()
      modifies Repr
      ensures Valid() && fresh(Repr - old(Repr))
      ensures r == 0 <==> file.Some? && IsAscii(file.value)
      ensures r == 0 || r == -1
      ensures fileNames.Names ==
        if r == 0 then InsertAll(old(fileNames.Names), Entries(TokenScan.Tokens(file.value)))
        else old(fileNames.Names)
      ensures aliases.Map == old(aliases.Map) && ignoreNames.Names == old(ignoreNames.Names)
    {
      r := LoadFromFile(file, false);
    }

    /** `loadFromFile`: -1 unless the file is readable and all ASCII, else 0
        after its entries were added to the ignored files (`toIgnore`) or to
        the files to check. */
    method LoadFromFile(file: Option<string>, toIgnore: bool) returns (r: int)
      requires Valid()
      modifies Repr
      ensures Valid() && fresh(Repr - old(Repr))
      ensures r == 0 <==> file.Some? && IsAscii(file.value)
      ensures r == 0 || r == -1
      ensures Lists(toIgnore, old(ignoreNames.Names), old(fileNames.Names), old(aliases.Map),
                    if r == 0 then Entries(TokenScan.Tokens(file.value)) else [])
    {
      var ok := CompileDeps.IsAsciiFile(file);
      if !ok {
        return -1;
      }
      LoadFromStream(file.value, toIgnore);
      return 0;
    }

    /** `loadFromStream`: hands the entries of `stream` (see `Entries`) in
        order to `addIgnoreName` or to `addFileName`. */
    method LoadFromStream(stream: string, toIgnore: bool)
      requires Valid()
      modifies Repr
      ensures Valid() && fresh(Repr - old(Repr))
      ensures Lists(toIgnore, old(ignoreNames.Names), old(fileNames.Names), old(aliases.Map),
                    Entries(TokenScan.Tokens(stream)))
    {
      var it := new TokenScan.TokenIterator(stream);
      assert it.Rest() == TokenScan.Tokens(stream);
      Load(it, toIgnore, Entries(TokenScan.Tokens(stream)));
    }

    /** The two lists after the entries `handled` were added to one of them,
        which started as `ignore0` and `files0`; the aliases `map0` stay. */
    ghost predicate Lists(toIgnore: bool, ignore0: seq<string>, files0: seq<string>,
                          map0: map<string, string>, handled: seq<string>)
      reads this, Repr
    {
      && Valid()
      && ignoreNames.Names == (if toIgnore then InsertAll(ignore0, handled) else ignore0)
      && fileNames.Names == (if toIgnore then files0 else InsertAll(files0, handled))
      && aliases.Map == map0
    }

    /** The loop of `loadFromStream` over the iterator `it`, whose entries
        are `all`. */
    method Load(it: TokenScan.TokenIterator, toIgnore: bool, ghost all: seq<string>)
      requires Valid() && CompileDepClasses.CompileDep.Scanning(it, all, []) && it.Repr !! Repr
      modifies Repr, it.Repr
      ensures Valid() && fresh(Repr - old(Repr))
      ensures Lists(toIgnore, old(ignoreNames.Names), old(fileNames.Names), old(aliases.Map), all)
    {
      ghost var ignore0, files0, map0 := ignoreNames.Names, fileNames.Names, aliases.Map;
      ghost var handled: seq<string> := [];
      while it.IsValid()
        invariant Lists(toIgnore, ignore0, files0, map0, handled)
        invariant CompileDepClasses.CompileDep.Scanning(it, all, handled) && it.Repr !! Repr
        invariant fresh(Repr - old(Repr)) && fresh(it.Repr - old(it.Repr))
        decreases |it.Rest()|
      {
        ghost var r0, i0 := Repr, it.Repr;
        handled := PassToken(it, toIgnore, ignore0, files0, map0, all, handled);
        assert fresh(Repr - old(Repr)) by {
          assert Repr - old(Repr) <= (Repr - r0) + (r0 - old(Repr));
        }
        assert fresh(it.Repr - old(it.Repr)) by {
          assert it.Repr - old(it.Repr) <= (it.Repr - i0) + (i0 - old(it.Repr));
        }
      }
      assert all == handled by {
        assert it.Rest() == [];
        assert handled + [] == handled;
      }
    }

    /** One turn of the loop of `loadFromStream`, on the token at `it`. */
    method PassToken(it: TokenScan.TokenIterator, toIgnore: bool, ghost ignore0: seq<string>,
                     ghost files0: seq<string>, ghost map0: map<string, string>,
                     ghost all: seq<string>, ghost handled: seq<string>)
      returns (ghost handled': seq<string>)
      requires Lists(toIgnore, ignore0, files0, map0, handled)
      requires CompileDepClasses.CompileDep.Scanning(it, all, handled) && it.Repr !! Repr && it.IsValid()
      modifies Repr, it.Repr
      ensures Lists(toIgnore, ignore0, files0, map0, handled')
      ensures CompileDepClasses.CompileDep.Scanning(it, all, handled') && it.Repr !! Repr
      ensures fresh(Repr - old(Repr)) && fresh(it.Repr - old(it.Repr)) && |it.Rest()| < |old(it.Rest())|
    {
      var token := it.Current();
      if token[0] == '#' {
        CompileDepClasses.CompileDep.PassComment(it, all, handled, Repr);
        handled' := handled;
      } else if token[0] != '\n' {
        handled' := PassEntry(it, toIgnore, ignore0, files0, map0, all, handled);
      } else {
        CompileDepClasses.CompileDep.PassLineEnd(it, all, handled, Repr);
        handled' := handled;
      }
    }

    /** The body of `loadFromStream` on an entry: `(dep->*add)(token)`, then
        on to the next token. */
    method PassEntry(it: TokenScan.TokenIterator, toIgnore: bool, ghost ignore0: seq<string>,
                     ghost files0: seq<string>, ghost map0: map<string, string>,
                     ghost all: seq<string>, ghost handled: seq<string>)
      returns (ghost handled': seq<string>)
      requires Lists(toIgnore, ignore0, files0, map0, handled)
      requires CompileDepClasses.CompileDep.Scanning(it, all, handled) && it.Repr !! Repr
      requires it.IsValid() && !IsComment(it.Current()) && !IsLineEnd(it.Current())
      modifies Repr, it.Repr
      ensures Lists(toIgnore, ignore0, files0, map0, handled')
      ensures CompileDepClasses.CompileDep.Scanning(it, all, handled') && it.Repr !! Repr
      ensures fresh(Repr - old(Repr)) && fresh(it.Repr - old(it.Repr)) && |it.Rest()| < |old(it.Rest())|
    {
      var token := it.Current();
      ghost var r0 := it.Rest();
      handled' := handled + [token];
      EntryStep(all, handled, r0);
      Take(token, toIgnore, ignore0, files0, map0, handled, it);
      PassTaken(it, all, handled', this, toIgnore, ignore0, files0, map0);
    }

    /** The end of the body of `loadFromStream` on an entry: `++it`, past
        the entry just taken.  Objects `rest` apart from the iterator stay
        apart from it. */
    static method PassTaken(it: TokenScan.TokenIterator, ghost all: seq<string>, ghost handled: seq<string>,
                            ghost dep: AliasDep, ghost toIgnore: bool, ghost ignore0: seq<string>,
                            ghost files0: seq<string>, ghost map0: map<string, string>)
      requires it.Valid() && it.IsValid() && all == handled + Entries(it.Rest()[1..])
      requires dep.Lists(toIgnore, ignore0, files0, map0, handled) && it.Repr !! dep.Repr
      modifies it.Repr
      ensures CompileDepClasses.CompileDep.Scanning(it, all, handled) && it.Repr !! dep.Repr
      ensures dep.Lists(toIgnore, ignore0, files0, map0, handled)
      ensures fresh(it.Repr - old(it.Repr)) && |it.Rest()| < |old(it.Rest())|
    {
      CompileDeps.Next(it);
    }

    /** `(dep->*add)(token)`: adds `token` to the files to ignore or to the
        files to check. */
    method Take(token: string, toIgnore: bool, ghost ignore0: seq<string>, ghost files0: seq<string>,
                ghost map0: map<string, string>, ghost handled: seq<string>, ghost it: TokenScan.TokenIterator)
      requires Lists(toIgnore, ignore0, files0, map0, handled)
      requires it.Valid() && it.IsValid() && it.Repr !! Repr
      modifies Repr
      ensures Lists(toIgnore, ignore0, files0, map0, handled + [token])
      ensures fresh(Repr - old(Repr))
      ensures it.Valid() && it.IsValid() && it.Repr == old(it.Repr) && it.Repr !! Repr
      ensures it.Rest() == old(it.Rest())
    {
      assert (handled + [token])[..|handled|] == handled;
      if toIgnore {
        AddIgnoreName(token);
      } else {
        AddFileName(token);
      }
    }

    // ---------------------------------------------------------------- names

    /** The name `verify` and `extract` compare for `name`: its last segment
        without suffix, or the component that is an alias of in `aliases`. */
    static method Canonicalize(aliases: AliasTables.AliasTable, name: string) returns (r: string)
      requires aliases.Valid()
      ensures r == Canonical(aliases.Map, name)
    {
      var actual := StripDir(RemoveSuffix(name));
      var alias := aliases.Lookup(actual);
      r := if alias.Some? then alias.value else actual;
    }

    // ---------------------------------------------------------------- unpaired

    /** `unpaired`: the components of the files that are not ignored, and of
        those the ones with a single file, printed (as `lines`) in the order
        of `NameOrder.Precedes`: the component names, or with `suffixFlag`
        the file names.  Components of more than two files are warned
        about.  The result is the number of names printed. */
    method Unpaired(suffixFlag: bool) returns (count: int, lines: seq<string>, warnings: seq<ComponentWarning>)
      requires Valid()
      ensures var cs := Filed(aliases.Map, ignoreNames.Names, fileNames.Names);
        var printed := Singles(fileNames.Names, cs, suffixFlag);
        && count == |printed| == |lines|
        && multiset(lines) == multiset(printed)
        && NameOrder.Ordered(lines, suffixFlag)
        && warnings == Crowded(TallyOf(cs), |TallyOf(cs).components|)
    {
      ghost var cs := Filed(aliases.Map, ignoreNames.Names, fileNames.Names);
      TallyMeaning(cs);
      var filed := FileAll(fileNames, ignoreNames, aliases);
      var components, hits, cmap, numComponents := CountFiled(filed);
      var printNames;
      printNames, warnings := PickUnpaired(fileNames, components, hits, cmap, numComponents, suffixFlag,
                                           fileNames.Names, TallyOf(cs));
      lines := SortNames(printNames, suffixFlag);
      count := printNames.Length();
    }

    /** The last part of `unpaired`: the names of `printNames`, sorted
        through the index map `smap` and listed in that order. */
    static method SortNames(printNames: Registry.NameIndexMap, suffixFlag: bool) returns (lines: seq<string>)
      requires printNames.Valid()
      ensures |lines| == |printNames.Names| && multiset(lines) == multiset(printNames.Names)
      ensures NameOrder.Ordered(lines, suffixFlag)
    {
      var numUnpaired := printNames.Length();
      var smap := new int[numUnpaired];
      Identity(smap);
      NameOrder.Sort(printNames, smap, suffixFlag);
      lines := Emit(printNames, smap);
      NameOrder.Rearranged(printNames.Names, smap[..]);
    }

    /** The arrays of the first loop of `unpaired` before file `i` hold
        tally `t`: one entry per component met so far, and no hits beyond
        them. */
    static ghost predicate Tallying(t: Tally, hits: seq<int>, cmap: seq<int>, i: int)
    {
      && |t.components| == |t.hits| == |t.last| <= i <= |hits| == |cmap|
      && hits[..|t.components|] == t.hits && cmap[..|t.components|] == t.last
      && forall k :: |t.components| <= k < |hits| ==> hits[k] == 0
    }

    /** One more file of component `c`, entered at `x`, keeps the arrays
        in step with the tally. */
    static lemma TallyAt(t: Tally, hits: array<int>, cmap: array<int>, hs: seq<int>, ms: seq<int>,
                         i: int, c: string, x: int)
      requires Tallying(t, hs, ms, i) && i < |hs|
      requires x == if c in t.components then IndexOf(t.components, c) else |t.components|
      requires hits.Length == |hs| && cmap.Length == |ms|
      requires hits[x] == hs[x] + 1 && cmap[x] == i
      requires forall k :: 0 <= k < hits.Length && k != x ==> hits[k] == hs[k]
      requires forall k :: 0 <= k < cmap.Length && k != x ==> cmap[k] == ms[k]
      ensures Tallied(t, Some(c), i).components == Insert(t.components, c)
      ensures Tallying(Tallied(t, Some(c), i), hits[..], cmap[..], i + 1)
    {
      var n := |t.components|;
      var r := Tallied(t, Some(c), i);
      if c in t.components {
        assert hits[..n] == hs[..n][x := hs[x] + 1];
        assert cmap[..n] == ms[..n][x := i];
      } else {
        assert hits[..n + 1] == hs[..n] + [1];
        assert cmap[..n + 1] == ms[..n] + [i];
      }
    }

    /** The lookups of the first loop of `unpaired`: the component each
        file is filed under, or nothing for a file to be ignored. */
    static method FileAll(fileNames: Registry.NameIndexMap, ignoreNames: Registry.NameIndexMap,
                          aliases: AliasTables.AliasTable) returns (filed: seq<Option<string>>)
      requires fileNames.Valid() && ignoreNames.Valid() && aliases.Valid()
      ensures filed == Filed(aliases.Map, ignoreNames.Names, fileNames.Names)
    {
      ghost var cs := Filed(aliases.Map, ignoreNames.Names, fileNames.Names);
      var maxLength := fileNames.Length();
      filed := [];
      var i := 0;
      while i < maxLength
        invariant 0 <= i <= maxLength
        invariant filed == cs[..i]
      {
        var c := FiledAs(fileNames, ignoreNames, aliases, i);
        filed := filed + [c];
        i := i + 1;
      }
      assert cs[..maxLength] == cs;
    }

    /** The counting of the first loop of `unpaired`: the components of
        `cs` in the order they are met, the number of files of each and the
        index of its last file. */
    static method CountFiled(cs: seq<Option<string>>)
      returns (components: Registry.NameIndexMap, hits: array<int>, cmap: array<int>, numComponents: int)
      ensures components.Valid() && fresh(components.Repr) && fresh(hits) && fresh(cmap)
      ensures 0 <= numComponents <= hits.Length && numComponents <= cmap.Length
      ensures TallyOf(cs) == Tally(components.Names, hits[..numComponents], cmap[..numComponents])
    {
      var maxLength := |cs|;
      hits := new int[maxLength];
      cmap := new int[maxLength];
      Zero(hits);
      components := new Registry.NameIndexMap(0);
      numComponents := 0;
      var i := 0;
      ghost var t := Tally([], [], []);
      while i < maxLength
        invariant 0 <= i <= maxLength && t == TallyOf(cs[..i])
        invariant Ready(components) && fresh(components.Repr)
        invariant hits.Length == cmap.Length == maxLength
        invariant hits !in components.Repr && cmap !in components.Repr
        invariant numComponents == |components.Names| && components.Names == t.components
        invariant Tallying(t, hits[..], cmap[..], i)
      {
        TallyStep(cs, i);
        if cs[i].Some? {
          numComponents := CountFile(components, hits, cmap, numComponents, cs[i].value, i, t);
        }
        t := Tallied(t, cs[i], i);
        i := i + 1;
      }
      assert i == maxLength && cs[..maxLength] == cs;
    }

    /** The component file `i` is filed under, or nothing when it is to be
        ignored. */
    static method FiledAs(fileNames: Registry.NameIndexMap, ignoreNames: Registry.NameIndexMap,
                          aliases: AliasTables.AliasTable, i: int) returns (c: Option<string>)
      requires fileNames.Valid() && ignoreNames.Valid() && aliases.Valid() && 0 <= i < |fileNames.Names|
      ensures c == Filed(aliases.Map, ignoreNames.Names, fileNames.Names)[i]
    {
      var s := fileNames.At(i).value;
      var ignored := ignoreNames.Lookup(s);
      if ignored >= 0 {
        return None;
      }
      var stem := RemoveSuffix(s);
      var alias := aliases.Lookup(stem);
      c := Some(if alias.Some? then alias.value else stem);
    }

    /** The body of the first loop of `unpaired` for file `i`, filed under
        `componentName`: the tally `t` so far counts one more file. */
    static method CountFile(components: Registry.NameIndexMap, hits: array<int>, cmap: array<int>,
                            numComponents: int, componentName: string, i: int, ghost t: Tally)
      returns (numComponents': int)
      requires Ready(components) && hits != cmap && hits !in components.Repr && cmap !in components.Repr
      requires numComponents == |components.Names| && components.Names == t.components
      requires Tallying(t, hits[..], cmap[..], i) && i < hits.Length
      modifies components.Repr, hits, cmap
      ensures Ready(components) && fresh(components.Repr - old(components.Repr))
      ensures hits !in components.Repr && cmap !in components.Repr
      ensures numComponents' == |components.Names|
      ensures components.Names == Tallied(t, Some(componentName), i).components
      ensures Tallying(Tallied(t, Some(componentName), i), hits[..], cmap[..], i + 1)
    {
      ghost var hs, ms := hits[..], cmap[..];
      var componentIndex := Bump(components, hits, cmap, componentName, i);
      numComponents' := numComponents;
      if components.Length() > numComponents {
        numComponents' := numComponents + 1;
      }
      TallyAt(t, hits, cmap, hs, ms, i, componentName, componentIndex);
    }

    /** `components.Entry(componentName)`, then one more hit for that
        component and file `i` as its last. */
    static method Bump(components: Registry.NameIndexMap, hits: array<int>, cmap: array<int>,
                       componentName: string, i: int)
      returns (x: int)
      requires Ready(components) && hits != cmap && hits !in components.Repr && cmap !in components.Repr
      requires |components.Names| < hits.Length == cmap.Length
      modifies components.Repr, hits, cmap
      ensures Ready(components) && fresh(components.Repr - old(components.Repr))
      ensures hits !in components.Repr && cmap !in components.Repr
      ensures components.Names == Insert(old(components.Names), componentName)
      ensures x == if componentName in old(components.Names)
                   then IndexOf(old(components.Names), componentName) else |old(components.Names)|
      ensures hits[x] == old(hits[x]) + 1 && cmap[x] == i
      ensures forall k :: 0 <= k < hits.Length && k != x ==> hits[k] == old(hits[k])
      ensures forall k :: 0 <= k < cmap.Length && k != x ==> cmap[k] == old(cmap[k])
    {
      x := components.Entry(componentName);
      Last(hits, cmap, x, i);
    }

    /** One more hit for entry `x`, with `j` stored at `x` of `last`. */
    static method Last(hits: array<int>, last: array<int>, x: int, j: int)
      requires hits != last && 0 <= x < hits.Length && x < last.Length
      modifies hits, last
      ensures hits[x] == old(hits[x]) + 1 && last[x] == j
      ensures forall k :: 0 <= k < hits.Length && k != x ==> hits[k] == old(hits[k])
      ensures forall k :: 0 <= k < last.Length && k != x ==> last[k] == old(last[k])
    {
      hits[x] := hits[x] + 1;
      last[x] := j;
    }

    /** The second loop of `unpaired`: the names of the components of tally
        `t` with a single file, and the warnings about those with more than
        two. */
    static method PickUnpaired(fileNames: Registry.NameIndexMap, components: Registry.NameIndexMap,
                               hits: array<int>, cmap: array<int>, numComponents: int, suffixFlag: bool,
                               ghost files: seq<string>, ghost t: Tally)
      returns (printNames: Registry.NameIndexMap, warnings: seq<ComponentWarning>)
      requires fileNames.Valid() && components.Valid() && files == fileNames.Names
      requires 0 <= numComponents <= hits.Length && numComponents <= cmap.Length
      requires t == Tally(components.Names, hits[..numComponents], cmap[..numComponents]) && Fits(t, files)
      ensures printNames.Valid() && fresh(printNames.Repr)
      ensures printNames.Names == Printed(files, t, suffixFlag, |t.components|)
      ensures warnings == Crowded(t, |t.components|)
    {
      printNames := new Registry.NameIndexMap(0);
      warnings := [];
      var i := 0;
      while i < numComponents
        invariant 0 <= i <= numComponents
        invariant printNames.Valid() && fresh(printNames.Repr)
        invariant printNames.Names == Printed(files, t, suffixFlag, i)
        invariant warnings == Crowded(t, i)
      {
        warnings := Pick(fileNames, components, printNames, hits[i], cmap[i], i, suffixFlag, warnings, files, t);
        i := i + 1;
      }
    }

    /** The body of the second loop of `unpaired` for component `i`, of
        `count` files the last of which is file `last`. */
    static method Pick(fileNames: Registry.NameIndexMap, components: Registry.NameIndexMap,
                       printNames: Registry.NameIndexMap, count: int, last: int, i: int, suffixFlag: bool,
                       warnings: seq<ComponentWarning>, ghost files: seq<string>, ghost t: Tally)
      returns (warnings': seq<ComponentWarning>)
      requires fileNames.Valid() && components.Valid() && printNames.Valid() && files == fileNames.Names
      requires Fits(t, files) && 0 <= i < |t.components| == |components.Names|
      requires components.Names[i] == t.components[i] && count == t.hits[i] && last == t.last[i]
      requires printNames.Names == Printed(files, t, suffixFlag, i) && warnings == Crowded(t, i)
      modifies printNames.Repr
      ensures printNames.Valid() && fresh(printNames.Repr - old(printNames.Repr))
      ensures printNames.Names == Printed(files, t, suffixFlag, i + 1)
      ensures warnings' == Crowded(t, i + 1)
    {
      warnings' := warnings;
      if count == 1 {
        var name := if suffixFlag then fileNames.At(last).value else components.At(i).value;
        var _ := printNames.Add(name);
      }
      if count > 2 {
        warnings' := warnings + [LargeComponent(components.At(i).value, count)];
      }
    }

    /** The last loop of `unpaired`: the names in the order `smap` gives. */
    static method Emit(printNames: Registry.NameIndexMap, smap: array<int>) returns (lines: seq<string>)
      requires printNames.Valid() && NameOrder.Indexes(printNames.Names, smap[..])
      ensures lines == NameOrder.Select(printNames.Names, smap[..])
    {
      ghost var names := printNames.Names;
      lines := [];
      var i := 0;
      while i < smap.Length
        invariant 0 <= i <= smap.Length
        invariant |lines| == i && forall k :: 0 <= k < i ==> lines[k] == names[smap[k]]
      {
        lines := lines + [printNames.At(smap[i]).value];
        i := i + 1;
      }
    }

    // ---------------------------------------------------------------- verify

    /** `verify`: for each file that is not ignored, whether its first
        include directive names its component (see `VerdictOf`); the error
        lines, and -1 when a file could not be read, otherwise the number of
        files in error. */
    method Verify(fs: FileSystem) returns (status: int, complaints: seq<Complaint>)
      requires Valid()
      ensures var vs := Verdicts(fs, aliases.Map, ignoreNames.Names, fileNames.Names);
        status == VerifyStatus(vs) && complaints == VerifyComplaints(fileNames.Names, vs)
    {
      ghost var files, am, ignore := fileNames.Names, aliases.Map, ignoreNames.Names;
      ghost var vs: seq<Verdict> := [];
      var ioError := false;
      var errorCount := 0;
      complaints := [];
      var length := fileNames.Length();
      var i := 0;
      while i < length
        invariant 0 <= i <= length && |vs| == i
        invariant forall k :: 0 <= k < i ==> vs[k] == VerdictOf(fs, am, ignore, files[k])
        invariant ioError == (Unreadable in vs) && errorCount == Faults(vs)
        invariant complaints == VerifyComplaints(files[..i], vs)
      {
        var path := fileNames.At(i).value;
        var v := Check(fs, path);
        assert v == VerdictOf(fs, am, ignore, files[i]);
        complaints, ioError, errorCount := Report(files, vs, path, v, complaints, ioError, errorCount);
        vs := vs + [v];
        i := i + 1;
      }
      assert files[..length] == files;
      assert vs == Verdicts(fs, am, ignore, files);
      status := if ioError then -1 else errorCount;
    }

    /** The end of the body of the loop of `verify`: the error line and the
        counts for the verdict `v` on file `path`. */
    static method Report(ghost files: seq<string>, ghost vs: seq<Verdict>, path: string, v: Verdict,
                         complaints: seq<Complaint>, ioError: bool, errorCount: int)
      returns (complaints': seq<Complaint>, ioError': bool, errorCount': int)
      requires |vs| < |files| && path == files[|vs|]
      requires ioError == (Unreadable in vs) && errorCount == Faults(vs)
      requires complaints == VerifyComplaints(files[..|vs|], vs)
      ensures ioError' == (Unreadable in vs + [v]) && errorCount' == Faults(vs + [v])
      ensures complaints' == VerifyComplaints(files[..|vs| + 1], vs + [v])
    {
      assert (vs + [v])[..|vs|] == vs && files[..|vs| + 1][..|vs|] == files[..|vs|];
      complaints', ioError', errorCount' := complaints, ioError, errorCount;
      match v {
        case Unreadable =>
          complaints' := complaints + [CannotOpen(path)];
          ioError' := true;
        case Missing =>
          complaints' := complaints + [NoCorrespondingInclude(path)];
          errorCount' := errorCount + 1;
        case Misplaced(p) =>
          complaints' := complaints + [IncludedAs(path, p)];
          errorCount' := errorCount + 1;
        case _ =>
      }
    }

    /** The body of the loop of `verify` for the file `path`. */
    method Check(fs: FileSystem, path: string) returns (v: Verdict)
      requires Valid()
      ensures v == VerdictOf(fs, aliases.Map, ignoreNames.Names, path)
    {
      var ignored := ignoreNames.Lookup(path);
      if ignored >= 0 {
        return Ignored;
      }
      var component := Canonicalize(aliases, path);
      var isValidFile, found, directiveIndex := Locate(aliases, Open(fs, path), component);
      FirstCanonicalMatch(aliases.Map, DepsOf(fs, path), component);
      if !isValidFile {
        v := Unreadable;
      } else if !found {
        v := Missing;
      } else if directiveIndex != 1 {
        v := Misplaced(directiveIndex);
      } else {
        v := Paired;
      }
    }

    /** The directive loop of `verify`: numbers the directives of `file` up
        to the first whose canonical name is `component`. */
    static method Locate(aliases: AliasTables.AliasTable, file: Option<seq<string>>, component: string)
      returns (isValidFile: bool, found: bool, directiveIndex: int)
      requires aliases.Valid()
      ensures isValidFile == file.Some?
      ensures var deps := FileDeps.NamesOf(if file.Some? then file.value else []);
        var k := FirstCanonical(aliases.Map, deps, component);
        found == (k < |deps|) && directiveIndex == k + (if found then 1 else 0)
    {
      ghost var am := aliases.Map;
      var it := new FileDeps.FileDepIterator(file);
      ghost var all := it.AllDeps;
      directiveIndex := 0;
      found := false;
      while it.IsValid()
        invariant it.Valid() && fresh(it.Repr) && !found && it.AllDeps == all
        invariant aliases.Valid() && aliases.Map == am && it.Repr !! aliases.Repr
        invariant directiveIndex == |it.Seen| <= |all|
        invariant FirstCanonical(am, all, component)
          == |it.Seen| + FirstCanonical(am, all[|it.Seen|..], component)
        decreases |all| - |it.Seen|
      {
        NextDirective(it);
        ghost var m := |it.Seen|;
        FirstCanonicalStep(am, all, m, component);
        var hit := Probe(aliases, it, component, am);
        directiveIndex := directiveIndex + 1;
        if hit {
          found := true;
          break;
        }
      }
      if !found {
        NoDirectiveLeft(it);
      }
      isValidFile := it.IsValidFile();
    }

    /** One turn of the directive loop of `verify`: whether the current
        directive names `component`, and if not, on to the next. */
    static method Probe(aliases: AliasTables.AliasTable, it: FileDeps.FileDepIterator, component: string,
                        ghost am: map<string, string>)
      returns (hit: bool)
      requires it.Valid() && it.IsValid() && aliases.Valid() && aliases.Map == am && it.Repr !! aliases.Repr
      modifies it.Repr
      ensures it.Valid() && aliases.Valid() && aliases.Map == am && it.Repr !! aliases.Repr
      ensures it.Repr == old(it.Repr)
      ensures hit == (Canonical(am, old(it.Name()).value) == component)
      ensures hit ==> it.Seen == old(it.Seen)
      ensures !hit ==> it.Seen == old(it.Seen) + [old(it.Name()).value]
    {
      var header := Canonicalize(aliases, it.Name().value);
      hit := header == component;
      if !hit {
        it.Advance();
      }
    }

    // ---------------------------------------------------------------- extract

    /** `extract`: for each file that is not ignored, a guess at its header
        from its first include directive (see `GuessOf`).  Its output
        `lines` proposes an alias for each file whose header it proposes,
        `crowds` warns about headers that several files name first, and the
        result is -1 when a file could not be read, otherwise the number of
        files without directives. */
    method Extract(fs: FileSystem)
      returns (status: int, lines: seq<AliasLine>, crowds: seq<Crowd>, complaints: seq<Complaint>)
      requires Valid()
      ensures var files := fileNames.Names;
        var gs := Guesses(fs, aliases.Map, ignoreNames.Names, files);
        && status == ExtractStatus(gs)
        && lines == Proposals(files, gs)
        && crowds == Crowds(files, gs, AliasReports.Headers(gs), |AliasReports.Headers(gs)|)
        && complaints == ExtractComplaints(files, gs)
    {
      ghost var gs := Guesses(fs, aliases.Map, ignoreNames.Names, fileNames.Names);
      var uniqueHeaders, hits, hmap, verified, ioError, errorCount;
      uniqueHeaders, hits, hmap, verified, ioError, errorCount, complaints := Sift(fs);
      crowds := Warn(fileNames, uniqueHeaders, hits, hmap, verified, gs);
      lines := Propose(fileNames, uniqueHeaders, hmap, verified, gs);
      status := if ioError then -1 else errorCount;
    }

    /** The arrays of `extract` and its table of unique headers, once the
        guesses `gs` of the first `n` files are made (see `Entered`). */
    static ghost predicate Sifted(gs: seq<Guess>, uniqueHeaders: Registry.NameIndexMap,
                                  hits: array<int>, hmap: array<int>, verified: array<int>, n: int)
      reads uniqueHeaders, uniqueHeaders.Repr, hits, hmap, verified
    {
      Ready(uniqueHeaders) && Entered(gs, uniqueHeaders.Names, hits[..], hmap[..], verified[..], n)
    }

    /** The first loop of `extract`: makes the guess for each file and
        records its header. */
    method Sift(fs: FileSystem)
      returns (uniqueHeaders: Registry.NameIndexMap, hits: array<int>, hmap: array<int>,
               verified: array<int>, ioError: bool, errorCount: int, complaints: seq<Complaint>)
      requires Valid()
      ensures var files := fileNames.Names;
        var gs := Guesses(fs, aliases.Map, ignoreNames.Names, files);
        && fresh(uniqueHeaders.Repr) && fresh(hits) && fresh(hmap) && fresh(verified)
        && hits.Length == hmap.Length == verified.Length == |files|
        && Sifted(gs, uniqueHeaders, hits, hmap, verified, |files|)
        && ioError == (NoFile in gs) && errorCount == Undirected(gs)
        && complaints == ExtractComplaints(files, gs)
    {
      var guesses;
      guesses, ioError, errorCount, complaints := ExamineAll(fs);
      uniqueHeaders, hits, hmap, verified := EnterAll(guesses);
    }

    /** The reading half of the first loop of `extract`: the guess for each
        file, with the complaints about files that cannot be read or have no
        directive. */
    method ExamineAll(fs: FileSystem)
      returns (guesses: seq<Guess>, ioError: bool, errorCount: int, complaints: seq<Complaint>)
      requires Valid()
      ensures var files := fileNames.Names;
        var gs := Guesses(fs, aliases.Map, ignoreNames.Names, files);
        && guesses == gs
        && ioError == (NoFile in gs) && errorCount == Undirected(gs)
        && complaints == ExtractComplaints(files, gs)
    {
      ghost var files, am, ignore := fileNames.Names, aliases.Map, ignoreNames.Names;
      guesses, ioError, errorCount, complaints := [], false, 0, [];
      var length := fileNames.Length();
      var i := 0;
      while i < length
        invariant 0 <= i <= length && |guesses| == i
        invariant forall k :: 0 <= k < i ==> guesses[k] == GuessOf(fs, am, ignore, files[k])
        invariant ioError == (NoFile in guesses) && errorCount == Undirected(guesses)
        invariant complaints == ExtractComplaints(files[..i], guesses)
      {
        var path := fileNames.At(i).value;
        var g := Examine(fs, path);
        assert g == GuessOf(fs, am, ignore, files[i]);
        complaints, ioError, errorCount := Complain(files, guesses, path, g, complaints, ioError, errorCount);
        guesses := guesses + [g];
        i := i + 1;
      }
      assert files[..length] == files;
      assert guesses == Guesses(fs, am, ignore, files);
    }

    /** The error line and the counts of `extract` for the guess `g` on
        file `path`. */
    static method Complain(ghost files: seq<string>, ghost gs: seq<Guess>, path: string, g: Guess,
                           complaints: seq<Complaint>, ioError: bool, errorCount: int)
      returns (complaints': seq<Complaint>, ioError': bool, errorCount': int)
      requires |gs| < |files| && path == files[|gs|]
      requires ioError == (NoFile in gs) && errorCount == Undirected(gs)
      requires complaints == ExtractComplaints(files[..|gs|], gs)
      ensures ioError' == (NoFile in gs + [g]) && errorCount' == Undirected(gs + [g])
      ensures complaints' == ExtractComplaints(files[..|gs| + 1], gs + [g])
    {
      assert (gs + [g])[..|gs|] == gs && files[..|gs| + 1][..|gs|] == files[..|gs|];
      complaints', ioError', errorCount' := complaints, ioError, errorCount;
      if g == NoFile {
        complaints' := complaints + [CannotOpen(path)];
        ioError' := true;
      } else if g == NoIncludes {
        complaints' := complaints + [NoDirectives(path)];
        errorCount' := errorCount + 1;
      }
    }

    /** The recording half of the first loop of `extract`: enters the
        header of each guess in the table and the arrays. */
    static method EnterAll(gs: seq<Guess>)
      returns (uniqueHeaders: Registry.NameIndexMap, hits: array<int>, hmap: array<int>, verified: array<int>)
      ensures fresh(uniqueHeaders.Repr) && fresh(hits) && fresh(hmap) && fresh(verified)
      ensures hits.Length == hmap.Length == verified.Length == |gs|
      ensures Sifted(gs, uniqueHeaders, hits, hmap, verified, |gs|)
    {
      uniqueHeaders := new Registry.NameIndexMap(0);
      var length := |gs|;
      hits := new int[length];
      Zero(hits);
      hmap := new int[length];
      verified := new int[length];
      Zero(verified);
      var i := 0;
      while i < length
        invariant 0 <= i <= length
        invariant fresh(uniqueHeaders.Repr)
        invariant hits !in uniqueHeaders.Repr && hmap !in uniqueHeaders.Repr && verified !in uniqueHeaders.Repr
        invariant Sifted(gs, uniqueHeaders, hits, hmap, verified, i)
        invariant forall j :: i <= j < length ==> verified[j] == 0
      {
        Enter(gs, gs[i], uniqueHeaders, hits, hmap, verified, i);
        i := i + 1;
      }
      assert i == |gs|;
    }

    /** The guess of `extract` for the file `path`. */
    method Examine(fs: FileSystem, path: string) returns (g: Guess)
      requires Valid()
      ensures g == GuessOf(fs, aliases.Map, ignoreNames.Names, path)
    {
      var ignored := ignoreNames.Lookup(path);
      if ignored >= 0 {
        return Exempt;
      }
      var actual := StripDir(RemoveSuffix(path));
      var compAlias := aliases.Lookup(actual);
      var component := if compAlias.Some? then compAlias.value else actual;
      var it := new FileDeps.FileDepIterator(Open(fs, path));
      it.CurrentIffRemaining();
      if !it.IsValidFile() {
        return NoFile;
      }
      if !it.IsValid() {
        return NoIncludes;
      }
      var header := Canonicalize(aliases, it.Name().value);
      if component == header {
        g := Matched(header);
      } else if compAlias.Some? {
        g := AlreadyAliased;
      } else {
        g := Proposed(header);
      }
    }

    /** The part of the first loop of `extract` that records the guess `g`
        of file `i` in the arrays. */
    static method Enter(ghost gs: seq<Guess>, g: Guess, uniqueHeaders: Registry.NameIndexMap,
                        hits: array<int>, hmap: array<int>, verified: array<int>, i: int)
      requires Sifted(gs, uniqueHeaders, hits, hmap, verified, i) && i < |gs| && gs[i] == g
      requires i < hits.Length && i < hmap.Length && i < verified.Length && verified[i] == 0
      requires hits != hmap && hits != verified && hmap != verified
      requires hits !in uniqueHeaders.Repr && hmap !in uniqueHeaders.Repr && verified !in uniqueHeaders.Repr
      modifies uniqueHeaders.Repr, hits, hmap, verified
      ensures Sifted(gs, uniqueHeaders, hits, hmap, verified, i + 1)
      ensures fresh(uniqueHeaders.Repr - old(uniqueHeaders.Repr))
      ensures hits !in uniqueHeaders.Repr && hmap !in uniqueHeaders.Repr && verified !in uniqueHeaders.Repr
      ensures forall j :: i < j < verified.Length ==> verified[j] == old(verified[j])
    {
      ghost var names, hs, hm, vs := uniqueHeaders.Names, hits[..], hmap[..], verified[..];
      hmap[i] := -1;
      match g {
        case Matched(h) =>
          verified[i] := 1;
          var x := Record(uniqueHeaders, hits, hmap, i, h);
          EnterHeaderAt(gs, uniqueHeaders.Names, hits, hmap, verified, names, hs, hm, vs, i, h, x);
        case Proposed(h) =>
          var x := Record(uniqueHeaders, hits, hmap, i, h);
          EnterHeaderAt(gs, uniqueHeaders.Names, hits, hmap, verified, names, hs, hm, vs, i, h, x);
        case _ =>
          EnterNothing(gs, names, hs, hm, vs, i);
      }
    }

    /** `EnterHeader`, on the arrays once they are updated. */
    static lemma EnterHeaderAt(gs: seq<Guess>, names': seq<string>, hits: array<int>, hmap: array<int>,
                               verified: array<int>, names: seq<string>, hs: seq<int>, hm: seq<int>,
                               vs: seq<int>, i: int, h: string, x: int)
      requires Entered(gs, names, hs, hm, vs, i)
      requires i < |gs| && i < |hs| == hits.Length && i < |hm| == hmap.Length && i < |vs| == verified.Length
      requires HeaderOf(gs[i]) == Some(h) && verified[i] == (if gs[i].Matched? then 1 else 0)
      requires forall k :: 0 <= k < verified.Length && k != i ==> verified[k] == vs[k]
      requires names' == Insert(names, h) && 0 <= x < |names'| && names'[x] == h
      requires hits[x] == hs[x] + 1 && forall k :: 0 <= k < hits.Length && k != x ==> hits[k] == hs[k]
      requires hmap[i] == x && forall k :: 0 <= k < hmap.Length && k != i ==> hmap[k] == hm[k]
      ensures Entered(gs, names', hits[..], hmap[..], verified[..], i + 1)
    {
      assert Mapped(gs, names, hm, verified[..], i);
      EnterHeader(gs, names, hs, hm, verified[..], i, h, x);
      assert hits[..] == hs[x := hs[x] + 1] && hmap[..] == hm[i := x];
    }

    /** `u.Valid()`, in one piece. */
    static ghost predicate Ready(u: Registry.NameIndexMap)
      reads u, u.Repr
    {
      u.Valid()
    }

    /** `uniqueHeaders.Entry(header)`, then one more hit for that header and
        file `i` mapped to it. */
    static method Record(uniqueHeaders: Registry.NameIndexMap, hits: array<int>, hmap: array<int>,
                         i: int, h: string)
      returns (x: int)
      requires Ready(uniqueHeaders) && 0 <= i < hmap.Length && hits != hmap
      requires |uniqueHeaders.Names| < hits.Length
      requires hits !in uniqueHeaders.Repr && hmap !in uniqueHeaders.Repr
      modifies uniqueHeaders.Repr, hits, hmap
      ensures Ready(uniqueHeaders) && fresh(uniqueHeaders.Repr - old(uniqueHeaders.Repr))
      ensures hits !in uniqueHeaders.Repr && hmap !in uniqueHeaders.Repr
      ensures uniqueHeaders.Names == Insert(old(uniqueHeaders.Names), h)
      ensures 0 <= x < |uniqueHeaders.Names| && uniqueHeaders.Names[x] == h
      ensures hits[x] == old(hits[x]) + 1 && hmap[i] == x
      ensures forall k :: 0 <= k < hits.Length && k != x ==> hits[k] == old(hits[k])
      ensures forall k :: 0 <= k < hmap.Length && k != i ==> hmap[k] == old(hmap[k])
    {
      x := uniqueHeaders.Entry(h);
      Hit(hits, hmap, x, i);
    }

    /** One more hit for entry `x`, and `x` stored at `j` of `xmap`. */
    static method Hit(hits: array<int>, xmap: array<int>, x: int, j: int)
      requires hits != xmap && 0 <= x < hits.Length && 0 <= j < xmap.Length
      modifies hits, xmap
      ensures hits[x] == old(hits[x]) + 1 && xmap[j] == x
      ensures forall k :: 0 <= k < hits.Length && k != x ==> hits[k] == old(hits[k])
      ensures forall k :: 0 <= k < xmap.Length && k != j ==> xmap[k] == old(xmap[k])
    {
      hits[x] := hits[x] + 1;
      xmap[j] := x;
    }

    /** The second loop of `extract`: a warning for each header that more
        than one file names first, with those files. */
    static method Warn(fileNames: Registry.NameIndexMap, uniqueHeaders: Registry.NameIndexMap,
                       hits: array<int>, hmap: array<int>, verified: array<int>, ghost gs: seq<Guess>)
      returns (crowds: seq<Crowd>)
      requires fileNames.Valid() && uniqueHeaders.Valid()
      requires |gs| == |fileNames.Names| == hmap.Length == verified.Length == hits.Length
      requires Entered(gs, uniqueHeaders.Names, hits[..], hmap[..], verified[..], |gs|)
      ensures crowds == Crowds(fileNames.Names, gs, AliasReports.Headers(gs), |AliasReports.Headers(gs)|)
    {
      assert gs[..|gs|] == gs;
      ghost var hs := AliasReports.Headers(gs);
      assert hs == uniqueHeaders.Names;
      crowds := [];
      var i := 0;
      var numHeaders := uniqueHeaders.Length();
      while i < numHeaders
        invariant 0 <= i <= numHeaders
        invariant crowds == Crowds(fileNames.Names, gs, hs, i)
      {
        assert hits[i] == hits[..][i] == Count(gs, hs[i]);
        if hits[i] > 1 {
          var header := uniqueHeaders.At(i).value;
          var claims := Claimants(fileNames, uniqueHeaders, hmap, verified, gs, i);
          crowds := crowds + [Crowd(header, hits[i], claims)];
        }
        i := i + 1;
      }
    }

    /** The inner loop of the warning: the files whose header is number `i`. */
    static method Claimants(fileNames: Registry.NameIndexMap, uniqueHeaders: Registry.NameIndexMap,
                            hmap: array<int>, verified: array<int>, ghost gs: seq<Guess>, i: int)
      returns (claims: seq<Claim>)
      requires fileNames.Valid() && |gs| == |fileNames.Names| == hmap.Length == verified.Length
      requires uniqueHeaders.Valid() && 0 <= i < |uniqueHeaders.Names|
      requires Mapped(gs, uniqueHeaders.Names, hmap[..], verified[..], |gs|)
      ensures claims == Claims(fileNames.Names, gs, uniqueHeaders.Names[i])
    {
      ghost var files := fileNames.Names;
      ghost var names := uniqueHeaders.Names;
      claims := [];
      var length := fileNames.Length();
      var j := 0;
      while j < length
        invariant 0 <= j <= length
        invariant claims == Claims(files[..j], gs[..j], names[i])
      {
        ClaimStep(files, gs, names, hmap[..], verified[..], i, j);
        if i == hmap[j] {
          claims := claims + [Claim(verified[j] == 1, StripDir(fileNames.At(j).value))];
        }
        j := j + 1;
      }
      assert gs[..length] == gs && files[..length] == files;
    }

    /** The last loop of `extract`: an alias line for each file whose header
        was recorded but not verified. */
    static method Propose(fileNames: Registry.NameIndexMap, uniqueHeaders: Registry.NameIndexMap,
                          hmap: array<int>, verified: array<int>, ghost gs: seq<Guess>)
      returns (lines: seq<AliasLine>)
      requires fileNames.Valid() && |gs| == |fileNames.Names| == hmap.Length == verified.Length
      requires uniqueHeaders.Valid()
      requires Mapped(gs, uniqueHeaders.Names, hmap[..], verified[..], |gs|)
      ensures lines == Proposals(fileNames.Names, gs)
    {
      ghost var files := fileNames.Names;
      ghost var names := uniqueHeaders.Names;
      lines := [];
      var length := fileNames.Length();
      var i := 0;
      while i < length
        invariant 0 <= i <= length
        invariant lines == Proposals(files[..i], gs[..i])
      {
        ProposeStep(files, gs, names, hmap[..], verified[..], i);
        if hmap[i] >= 0 && verified[i] == 0 {
          var header := uniqueHeaders.At(hmap[i]).value;
          lines := lines + [AliasLine(header, RemoveSuffix(fileNames.At(i).value))];
        }
        i := i + 1;
      }
      assert gs[..length] == gs && files[..length] == files;
    }
  }
}
