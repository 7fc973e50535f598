/** What the three checks of `AliasDep` compute, stated on values: the
    component a file is filed under, the tally and the names of `unpaired`,
    the verdict `verify` gives each file and the guess `extract` makes for
    it, with the lemmas that say what those mean. */
module AliasReports {
  import opened Common
  import opened Text
  import opened Resolution

  // ---------------------------------------------------------------- names

  /** `names` with `x` added at its end unless it is already there: what
      `NameIndexMap::Add` and `Entry` do to the names of a map. */
  function Insert(names: seq<string>, x: string): (r: seq<string>)
    ensures x in r && names <= r
    ensures forall y :: y in r <==> y in names || y == x
    ensures Distinct(names) ==> Distinct(r)
  {
    if x in names then names else names + [x]
  }

  /** Each of `xs` inserted in turn. */
  function InsertAll(names: seq<string>, xs: seq<string>): (r: seq<string>)
  {
    if xs == [] then names else Insert(InsertAll(names, xs[..|xs| - 1]), xs[|xs| - 1])
  }

  /** Loading a list adds exactly its names, keeps those already there in
      front, and adds none twice. */
  lemma {:induction false} InsertAllMeaning(names: seq<string>, xs: seq<string>)
    ensures names <= InsertAll(names, xs)
    ensures forall y :: y in InsertAll(names, xs) <==> y in names || y in xs
    ensures Distinct(names) ==> Distinct(InsertAll(names, xs))
    decreases |xs|
  {
    if xs != [] {
      var init := xs[..|xs| - 1];
      InsertAllMeaning(names, init);
      assert xs == init + [xs[|xs| - 1]];
    }
  }

  /** The name `unpaired` files `path` under: the path without its suffix,
      or the component that name is an alias of. */
  function ComponentOf(aliases: map<string, string>, path: string): string
  {
    var s := RemoveSuffix(path);
    if s in aliases then aliases[s] else s
  }

  /** The name `verify` and `extract` compare: the last segment of the name
      without its suffix, or the component that is an alias of. */
  function Canonical(aliases: map<string, string>, name: string): string
  {
    var s := StripDir(RemoveSuffix(name));
    if s in aliases then aliases[s] else s
  }

  // ---------------------------------------------------------------- unpaired

  /** The component `unpaired` files each of `files` under, or nothing for
      a file it ignores. */
  function Filed(aliases: map<string, string>, ignore: seq<string>, files: seq<string>): (cs: seq<Option<string>>)
    ensures |cs| == |files|
    ensures forall i :: 0 <= i < |files| ==>
      cs[i] == if files[i] in ignore then None else Some(ComponentOf(aliases, files[i]))
  {
    seq(|files|, i requires 0 <= i < |files| =>
      if files[i] in ignore then None else Some(ComponentOf(aliases, files[i])))
  }

  /** How many files are filed under `c`. */
  function Hits(cs: seq<Option<string>>, c: string): (n: nat)
    ensures n <= |cs|
  {
    if cs == [] then 0 else Hits(cs[..|cs| - 1], c) + (if cs[|cs| - 1] == Some(c) then 1 else 0)
  }

  /** The arrays of the first loop of `unpaired`: the components in the
      order they were met, the number of files of each, and the index of the
      last of them. */
  datatype Tally = Tally(components: seq<string>, hits: seq<int>, last: seq<int>)

  ghost function TallyOf(cs: seq<Option<string>>): (t: Tally)
    ensures |t.components| == |t.hits| == |t.last| <= |cs|
  {
    if cs == [] then Tally([], [], [])
    else Tallied(TallyOf(cs[..|cs| - 1]), cs[|cs| - 1], |cs| - 1)
  }

  /** The tally after file `i`, filed under `c` (or ignored). */
  ghost function Tallied(t: Tally, c: Option<string>, i: int): (r: Tally)
    requires |t.components| == |t.hits| == |t.last|
    ensures |r.components| == |r.hits| == |r.last| <= |t.components| + 1
  {
    match c
    case None => t
    case Some(c) =>
      var k := IndexOf(t.components, c);
      if k < 0 then Tally(t.components + [c], t.hits + [1], t.last + [i])
      else Tally(t.components, t.hits[k := t.hits[k] + 1], t.last[k := i])
  }

  /** The tally of the first `i + 1` files. */
  lemma TallyStep(cs: seq<Option<string>>, i: int)
    requires 0 <= i < |cs|
    ensures TallyOf(cs[..i + 1]) == Tallied(TallyOf(cs[..i]), cs[i], i)
  {
    assert cs[..i + 1][..i] == cs[..i];
  }

  /** The tally lists each component once, with the number of its files and
      the index of its last file. */
  lemma TallyMeaning(cs: seq<Option<string>>)
    ensures var t := TallyOf(cs);
      && Distinct(t.components)
      && (forall c :: c in t.components <==> Hits(cs, c) > 0)
      && (forall k :: 0 <= k < |t.components| ==> t.hits[k] == Hits(cs, t.components[k]))
      && (forall k :: 0 <= k < |t.components| ==>
            && 0 <= t.last[k] < |cs| && cs[t.last[k]] == Some(t.components[k])
            && forall i :: t.last[k] < i < |cs| ==> cs[i] != Some(t.components[k]))
  {
    TallyCounts(cs);
    TallyLast(cs);
  }

  lemma {:induction false} TallyCounts(cs: seq<Option<string>>)
    ensures var t := TallyOf(cs);
      && Distinct(t.components)
      && (forall c :: c in t.components <==> Hits(cs, c) > 0)
      && (forall k :: 0 <= k < |t.components| ==> t.hits[k] == Hits(cs, t.components[k]))
    decreases |cs|
  {
    if cs != [] {
      TallyCounts(cs[..|cs| - 1]);
    }
  }

  lemma {:induction false} TallyLast(cs: seq<Option<string>>)
    ensures var t := TallyOf(cs);
      forall k :: 0 <= k < |t.components| ==>
        && 0 <= t.last[k] < |cs| && cs[t.last[k]] == Some(t.components[k])
        && forall i :: t.last[k] < i < |cs| ==> cs[i] != Some(t.components[k])
    decreases |cs|
  {
    if cs != [] {
      var i := |cs| - 1;
      var init := cs[..i];
      TallyLast(init);
      TallyCounts(init);
      var t0, t := TallyOf(init), TallyOf(cs);
      assert t == Tallied(t0, cs[i], i);
      forall k | 0 <= k < |t.components|
        ensures 0 <= t.last[k] < |cs| && cs[t.last[k]] == Some(t.components[k])
        ensures forall j :: t.last[k] < j < |cs| ==> cs[j] != Some(t.components[k])
      {
        assert forall j :: 0 <= j < i ==> cs[j] == init[j];
        if cs[i].Some? {
          var k0 := IndexOf(t0.components, cs[i].value);
          if k != k0 && k < |t0.components| {
            assert t.components[k] == t0.components[k] && t.last[k] == t0.last[k];
            assert k0 >= 0 ==> t0.components[k0] != t0.components[k];
          }
        }
      }
    }
  }

  /** Two files filed under `c` make at least two hits. */
  lemma {:induction false} HitsTwo(cs: seq<Option<string>>, c: string, i: int, j: int)
    requires 0 <= i < j < |cs| && cs[i] == Some(c) && cs[j] == Some(c)
    ensures Hits(cs, c) >= 2
    decreases |cs|
  {
    var n := |cs| - 1;
    var init := cs[..n];
    assert init[i] == cs[i];
    if j < n {
      assert init[j] == cs[j];
      HitsTwo(init, c, i, j);
    } else {
      HitsOne(init, c, i);
    }
  }

  lemma {:induction false} HitsOne(cs: seq<Option<string>>, c: string, i: int)
    requires 0 <= i < |cs| && cs[i] == Some(c)
    ensures Hits(cs, c) >= 1
    decreases |cs|
  {
    var n := |cs| - 1;
    if i < n {
      assert cs[..n][i] == cs[i];
      HitsOne(cs[..n], c, i);
    }
  }

  /** Whether the tally fits the files it was made from. */
  ghost predicate Fits(t: Tally, files: seq<string>)
  {
    && |t.components| == |t.hits| == |t.last|
    && forall k :: 0 <= k < |t.last| ==> 0 <= t.last[k] < |files|
  }

  /** The names of the second loop of `unpaired` after `k` components: each
      component with a single file, or that file with the suffix flag. */
  ghost function Printed(files: seq<string>, t: Tally, suffixFlag: bool, k: nat): seq<string>
    requires Fits(t, files) && k <= |t.components|
  {
    if k == 0 then []
    else
      var p := Printed(files, t, suffixFlag, k - 1);
      if t.hits[k - 1] == 1 then Insert(p, if suffixFlag then files[t.last[k - 1]] else t.components[k - 1])
      else p
  }

  /** The names printed for `files` filed under `cs`. */
  ghost function Singles(files: seq<string>, cs: seq<Option<string>>, suffixFlag: bool): seq<string>
    requires |files| == |cs|
  {
    var t := TallyOf(cs);
    TallyMeaning(cs);
    Printed(files, t, suffixFlag, |t.components|)
  }

  /** What `unpaired` prints, in some order. */
  ghost function Unpaired(aliases: map<string, string>, ignore: seq<string>, files: seq<string>,
                          suffixFlag: bool): seq<string>
  {
    Singles(files, Filed(aliases, ignore, files), suffixFlag)
  }

  lemma {:induction false} PrintedMembers(files: seq<string>, t: Tally, suffixFlag: bool, k: nat)
    requires Fits(t, files) && k <= |t.components|
    ensures Distinct(Printed(files, t, suffixFlag, k))
    ensures forall x :: x in Printed(files, t, suffixFlag, k) <==>
      exists m :: 0 <= m < k && t.hits[m] == 1 && x == (if suffixFlag then files[t.last[m]] else t.components[m])
  {
    if k > 0 {
      PrintedMembers(files, t, suffixFlag, k - 1);
    }
  }

  /** Without the suffix flag `unpaired` prints exactly the components that
      have a single file. */
  lemma UnpairedComponents(aliases: map<string, string>, ignore: seq<string>, files: seq<string>)
    ensures Distinct(Unpaired(aliases, ignore, files, false))
    ensures forall c :: c in Unpaired(aliases, ignore, files, false) <==> Hits(Filed(aliases, ignore, files), c) == 1
  {
    var cs := Filed(aliases, ignore, files);
    var t := TallyOf(cs);
    TallyMeaning(cs);
    PrintedMembers(files, t, false, |t.components|);
    forall c | Hits(cs, c) == 1
      ensures c in Unpaired(aliases, ignore, files, false)
    {
      var m := IndexOf(t.components, c);
      assert t.hits[m] == 1;
    }
  }

  /** With the suffix flag the names printed are the files alone under
      their component. */
  lemma PrintedFiles(files: seq<string>, cs: seq<Option<string>>)
    requires |files| == |cs|
    ensures forall x :: x in Singles(files, cs, true) <==>
      exists i :: 0 <= i < |cs| && files[i] == x && cs[i].Some? && Hits(cs, cs[i].value) == 1
  {
    var p := Singles(files, cs, true);
    forall x | x in p
      ensures exists i :: 0 <= i < |cs| && files[i] == x && cs[i].Some? && Hits(cs, cs[i].value) == 1
    {
      PrintedIsAlone(files, cs, x);
    }
    forall i | 0 <= i < |cs| && cs[i].Some? && Hits(cs, cs[i].value) == 1
      ensures files[i] in p
    {
      AloneIsPrinted(files, cs, i);
    }
  }

  lemma PrintedIsAlone(files: seq<string>, cs: seq<Option<string>>, x: string)
    requires |files| == |cs|
    requires x in Singles(files, cs, true)
    ensures exists i :: 0 <= i < |cs| && files[i] == x && cs[i].Some? && Hits(cs, cs[i].value) == 1
  {
    var t := TallyOf(cs);
    TallyMeaning(cs);
    PrintedMembers(files, t, true, |t.components|);
    var m :| 0 <= m < |t.components| && t.hits[m] == 1 && x == files[t.last[m]];
    assert cs[t.last[m]] == Some(t.components[m]);
  }

  lemma AloneIsPrinted(files: seq<string>, cs: seq<Option<string>>, i: int)
    requires |files| == |cs| && 0 <= i < |cs| && cs[i].Some? && Hits(cs, cs[i].value) == 1
    ensures files[i] in Singles(files, cs, true)
  {
    var t := TallyOf(cs);
    var c := cs[i].value;
    HitsOne(cs, c, i);
    TallyCounts(cs);
    TallyLast(cs);
    var m := IndexOf(t.components, c);
    assert t.hits[m] == 1;
    var l := t.last[m];
    assert l == i by {
      assert cs[l] == Some(c);
      if i < l {
        HitsTwo(cs, c, i, l);
      }
    }
    PrintedMembers(files, t, true, |t.components|);
  }

  /** With the suffix flag `unpaired` prints exactly the files that are not
      ignored and are the only file of their component. */
  lemma UnpairedFiles(aliases: map<string, string>, ignore: seq<string>, files: seq<string>)
    ensures Distinct(Unpaired(aliases, ignore, files, true))
    ensures forall x :: x in Unpaired(aliases, ignore, files, true) <==>
      x in files && x !in ignore && Hits(Filed(aliases, ignore, files), ComponentOf(aliases, x)) == 1
  {
    var cs := Filed(aliases, ignore, files);
    var t := TallyOf(cs);
    TallyMeaning(cs);
    PrintedMembers(files, t, true, |t.components|);
    PrintedFiles(files, cs);
    forall x | x in files && x !in ignore && Hits(cs, ComponentOf(aliases, x)) == 1
      ensures x in Unpaired(aliases, ignore, files, true)
    {
      var i :| 0 <= i < |files| && files[i] == x;
      assert cs[i] == Some(ComponentOf(aliases, x));
    }
  }

  /** The warning of `unpaired` about a component of more than two files. */
  datatype ComponentWarning = LargeComponent(component: string, files: int)

  /** The warnings of the second loop of `unpaired` after `k` components. */
  function Crowded(t: Tally, k: nat): seq<ComponentWarning>
    requires |t.components| == |t.hits| && k <= |t.components|
  {
    if k == 0 then []
    else
      var w := Crowded(t, k - 1);
      if t.hits[k - 1] > 2 then w + [LargeComponent(t.components[k - 1], t.hits[k - 1])] else w
  }

  /** A warning names a component and its number of files, exactly when
      that number is more than two. */
  lemma CrowdedMeaning(cs: seq<Option<string>>)
    ensures var t := TallyOf(cs);
      forall c, n :: LargeComponent(c, n) in Crowded(t, |t.components|) <==> n == Hits(cs, c) && n > 2
  {
    var t := TallyOf(cs);
    TallyMeaning(cs);
    CrowdedMembers(t, |t.components|);
    forall c, n | n == Hits(cs, c) && n > 2
      ensures LargeComponent(c, n) in Crowded(t, |t.components|)
    {
      var m := IndexOf(t.components, c);
      assert t.hits[m] == n;
    }
  }

  lemma {:induction false} CrowdedMembers(t: Tally, k: nat)
    requires |t.components| == |t.hits| && k <= |t.components|
    ensures forall w :: w in Crowded(t, k) <==>
      exists m :: 0 <= m < k && t.hits[m] > 2 && w == LargeComponent(t.components[m], t.hits[m])
  {
    if k > 0 {
      CrowdedMembers(t, k - 1);
    }
  }

  // ---------------------------------------------------------------- verify

  /** The index of the first of `names` that is `c`, or `|names|` when none
      is. */
  function FirstMatch(names: seq<string>, c: string): (r: nat)
    ensures r <= |names|
    ensures r < |names| ==> names[r] == c
    ensures forall k :: 0 <= k < r ==> names[k] != c
  {
    if names == [] then 0
    else if names[0] == c then 0
    else 1 + FirstMatch(names[1..], c)
  }

  /** The names `verify` compares for the include names `deps`. */
  function Canonicals(aliases: map<string, string>, deps: seq<string>): (r: seq<string>)
    ensures |r| == |deps|
    ensures forall k :: 0 <= k < |deps| ==> r[k] == Canonical(aliases, deps[k])
  {
    seq(|deps|, k requires 0 <= k < |deps| => Canonical(aliases, deps[k]))
  }

  /** What `verify` finds for one file. */
  datatype Verdict =
    | Ignored
    | Unreadable
    | Missing
      /** the corresponding include is directive number `position` */
    | Misplaced(position: nat)
    | Paired

  /** The verdict on a readable file whose own component is `c` and whose
      directives name `names`, in order. */
  function Judged(c: string, names: seq<string>): Verdict
  {
    var k := FirstMatch(names, c);
    if k == |names| then Missing else if k == 0 then Paired else Misplaced(k + 1)
  }

  function VerdictOf(fs: FileSystem, aliases: map<string, string>, ignore: seq<string>, path: string): Verdict
  {
    if path in ignore then Ignored
    else if path !in fs then Unreadable
    else Judged(Canonical(aliases, path), Canonicals(aliases, DepsOf(fs, path)))
  }

  /** A verdict is `Paired` when the first directive names the file's own
      component, `Misplaced(q + 1)` when directive `q + 1`, a later one, is
      the first that does, and `Missing` when none does. */
  lemma JudgedMeaning(c: string, names: seq<string>)
    ensures Judged(c, names) == Paired <==> names != [] && names[0] == c
    ensures Judged(c, names) == Missing <==> forall k :: 0 <= k < |names| ==> names[k] != c
    ensures forall q: nat :: Judged(c, names) == Misplaced(q + 1) <==>
      1 <= q < |names| && names[q] == c && forall k :: 0 <= k < q ==> names[k] != c
  {
    FirstMatchIs(names, c);
  }

  /** `FirstMatch` is the only index with its two properties. */
  lemma FirstMatchIs(names: seq<string>, c: string)
    ensures forall r: nat :: FirstMatch(names, c) == r <==>
      r <= |names| && (r < |names| ==> names[r] == c) && forall k :: 0 <= k < r ==> names[k] != c
  {
    var f := FirstMatch(names, c);
    forall r: nat | r <= |names| && (r < |names| ==> names[r] == c) && forall k :: 0 <= k < r ==> names[k] != c
      ensures f == r
    {
      assert f < |names| ==> names[f] == c;
      assert r < |names| ==> names[r] == c;
    }
  }

  predicate Faulty(v: Verdict)
  {
    v.Missing? || v.Misplaced?
  }

  /** How many verdicts are faults. */
  function Faults(vs: seq<Verdict>): (n: nat)
    ensures n <= |vs|
  {
    if vs == [] then 0 else Faults(vs[..|vs| - 1]) + (if Faulty(vs[|vs| - 1]) then 1 else 0)
  }

  /** `verify`'s result: -1 when some file could not be read, otherwise the
      number of faulty files. */
  function VerifyStatus(vs: seq<Verdict>): int
  {
    if Unreadable in vs then -1 else Faults(vs)
  }

  /** The verdicts on the files `files`. */
  function Verdicts(fs: FileSystem, aliases: map<string, string>, ignore: seq<string>,
                    files: seq<string>): (vs: seq<Verdict>)
    ensures |vs| == |files|
    ensures forall i :: 0 <= i < |files| ==> vs[i] == VerdictOf(fs, aliases, ignore, files[i])
  {
    seq(|files|, i requires 0 <= i < |files| => VerdictOf(fs, aliases, ignore, files[i]))
  }

  lemma {:induction false} FaultsZero(vs: seq<Verdict>)
    ensures Faults(vs) == 0 <==> forall i :: 0 <= i < |vs| ==> !Faulty(vs[i])
    decreases |vs|
  {
    if vs != [] {
      var init := vs[..|vs| - 1];
      FaultsZero(init);
      assert forall i :: 0 <= i < |init| ==> init[i] == vs[i];
    }
  }

  lemma UnreadableVerdict(fs: FileSystem, aliases: map<string, string>, ignore: seq<string>, path: string)
    ensures VerdictOf(fs, aliases, ignore, path) == Unreadable <==> path !in ignore && path !in fs
  {
  }

  /** `verify` returns -1 exactly when some file that is not ignored cannot
      be read. */
  lemma VerifyStatusUnreadable(fs: FileSystem, aliases: map<string, string>, ignore: seq<string>, files: seq<string>)
    ensures VerifyStatus(Verdicts(fs, aliases, ignore, files)) == -1 <==>
      exists i :: 0 <= i < |files| && files[i] !in ignore && files[i] !in fs
  {
    var vs := Verdicts(fs, aliases, ignore, files);
    forall i | 0 <= i < |files|
      ensures vs[i] == Unreadable <==> files[i] !in ignore && files[i] !in fs
    {
      UnreadableVerdict(fs, aliases, ignore, files[i]);
    }
    assert Unreadable in vs ==> exists i :: 0 <= i < |files| && files[i] !in ignore && files[i] !in fs by {
      if Unreadable in vs {
        var i :| 0 <= i < |vs| && vs[i] == Unreadable;
        assert files[i] !in ignore && files[i] !in fs;
      }
    }
    assert (exists i :: 0 <= i < |files| && files[i] !in ignore && files[i] !in fs) ==> Unreadable in vs by {
      if exists i :: 0 <= i < |files| && files[i] !in ignore && files[i] !in fs {
        var i :| 0 <= i < |files| && files[i] !in ignore && files[i] !in fs;
        assert vs[i] == Unreadable;
      }
    }
  }

  /** `verify` reports success, 0, exactly when every file is ignored or has
      its corresponding include first; it never returns more than the number
      of files. */
  lemma VerifyStatusClean(fs: FileSystem, aliases: map<string, string>, ignore: seq<string>, files: seq<string>)
    ensures var vs := Verdicts(fs, aliases, ignore, files);
      && (VerifyStatus(vs) == 0 <==> forall i :: 0 <= i < |vs| ==> vs[i] == Ignored || vs[i] == Paired)
      && VerifyStatus(vs) <= |files|
  {
    var vs := Verdicts(fs, aliases, ignore, files);
    FaultsZero(vs);
    CleanVerdicts(vs);
  }

  lemma CleanVerdicts(vs: seq<Verdict>)
    ensures VerifyStatus(vs) == 0 <==> forall i :: 0 <= i < |vs| ==> vs[i] == Ignored || vs[i] == Paired
  {
    FaultsZero(vs);
    if VerifyStatus(vs) == 0 {
      forall i | 0 <= i < |vs|
        ensures vs[i] == Ignored || vs[i] == Paired
      {
        assert vs[i] != Unreadable && !Faulty(vs[i]);
      }
    }
  }

  /** An error line of `verify` or `extract`. */
  datatype Complaint =
    | CannotOpen(path: string)
    | NoCorrespondingInclude(path: string)
    | IncludedAs(path: string, position: nat)
    | NoDirectives(path: string)

  /** The error lines of `verify`, file by file. */
  function VerifyComplaints(files: seq<string>, vs: seq<Verdict>): seq<Complaint>
    requires |files| == |vs|
  {
    if vs == [] then []
    else
      var i := |vs| - 1;
      VerifyComplaints(files[..i], vs[..i]) +
        match vs[i]
        case Unreadable => [CannotOpen(files[i])]
        case Missing => [NoCorrespondingInclude(files[i])]
        case Misplaced(p) => [IncludedAs(files[i], p)]
        case _ => []
  }

  // ---------------------------------------------------------------- extract

  /** What `extract` makes of one file. */
  datatype Guess =
    | Exempt
    | NoFile
    | NoIncludes
      /** the first directive names the file's own component */
    | Matched(header: string)
      /** it does not, but the file's name is an alias already */
    | AlreadyAliased
      /** it does not: `header` is proposed as the file's component */
    | Proposed(header: string)

  /** The guess for a readable file `path` whose first include is `first`. */
  function Guessed(aliases: map<string, string>, path: string, first: string): Guess
  {
    var header := Canonical(aliases, first);
    if Canonical(aliases, path) == header then Matched(header)
    else if StripDir(RemoveSuffix(path)) in aliases then AlreadyAliased
    else Proposed(header)
  }

  /** The guess for a readable file `path` with the include names `deps`. */
  function Examined(aliases: map<string, string>, path: string, deps: seq<string>): Guess
  {
    if deps == [] then NoIncludes else Guessed(aliases, path, deps[0])
  }

  function GuessOf(fs: FileSystem, aliases: map<string, string>, ignore: seq<string>, path: string): Guess
  {
    if path in ignore then Exempt
    else if path !in fs then NoFile
    else Examined(aliases, path, DepsOf(fs, path))
  }

  function Guesses(fs: FileSystem, aliases: map<string, string>, ignore: seq<string>,
                   files: seq<string>): (gs: seq<Guess>)
    ensures |gs| == |files|
    ensures forall i :: 0 <= i < |files| ==> gs[i] == GuessOf(fs, aliases, ignore, files[i])
  {
    seq(|files|, i requires 0 <= i < |files| => GuessOf(fs, aliases, ignore, files[i]))
  }

  /** The header a guess records for its file, if any. */
  function HeaderOf(g: Guess): Option<string>
  {
    match g
    case Matched(h) => Some(h)
    case Proposed(h) => Some(h)
    case _ => None
  }

  /** The two checks agree: `verify` pairs a file exactly when `extract`
      finds its first directive naming its component. */
  lemma VerifyAgreesWithExtract(fs: FileSystem, aliases: map<string, string>, ignore: seq<string>, path: string)
    ensures VerdictOf(fs, aliases, ignore, path) == Paired <==> GuessOf(fs, aliases, ignore, path).Matched?
  {
    if path !in ignore && path in fs {
      JudgedMeaning(Canonical(aliases, path), Canonicals(aliases, DepsOf(fs, path)));
    }
  }

  /** A proposal is right in the sense of `verify`: with the file's name
      made an alias of the proposed header, the file's first directive names
      its component. */
  lemma ProposalPairs(aliases: map<string, string>, path: string, first: string, h: string)
    requires Guessed(aliases, path, first) == Proposed(h)
    ensures Guessed(aliases[StripDir(RemoveSuffix(path)) := h], path, first) == Matched(h)
  {
  }

  /** For a name with no directory, the alias line `extract` prints pairs
      the file: the key it prints is the key `verify` looks up. */
  lemma ProposalLinePairs(aliases: map<string, string>, path: string, first: string, h: string)
    requires Guessed(aliases, path, first) == Proposed(h) && '/' !in RemoveSuffix(path)
    ensures Guessed(aliases[RemoveSuffix(path) := h], path, first) == Matched(h)
  {
    assert StripDir(RemoveSuffix(path)) == RemoveSuffix(path);
    ProposalPairs(aliases, path, first, h);
  }

  /** A file in a directory: `extract` proposes "h" for "d/f.cc" and prints
      the alias "d/f", but with that alias added `verify` still looks up "f",
      and the file is proposed again. */
  lemma DirectoryProposalUnpaired()
    ensures Guessed(map[], "d/f.cc", "h.h") == Proposed("h")
    ensures RemoveSuffix("d/f.cc") == "d/f"
    ensures Guessed(map["d/f" := "h"], "d/f.cc", "h.h") == Proposed("h")
  {
    DirectoryNames();
  }

  /** The names of `DirectoryProposalUnpaired`. */
  lemma DirectoryNames()
    ensures RemoveSuffix("d/f.cc") == "d/f" && StripDir("d/f") == "f"
    ensures RemoveSuffix("h.h") == "h" && StripDir("h") == "h"
  {
    assert LastIndexOf("d/f.cc", '.') == 3;
    assert "d/f.cc"[3..] == ".cc" && "d/f.cc"[..3] == "d/f";
    assert LastIndexOf("d/f", '/') == 1 && "d/f"[2..] == "f";
    assert LastIndexOf("h.h", '.') == 1;
    assert "h.h"[1..] == ".h" && "h.h"[..1] == "h";
    assert LastIndexOf("h", '/') == -1;
  }

  /** The unique headers in the order `uniqueHeaders.Entry` meets them. */
  function Headers(gs: seq<Guess>): seq<string>
  {
    if gs == [] then []
    else
      var hs := Headers(gs[..|gs| - 1]);
      match HeaderOf(gs[|gs| - 1])
      case Some(h) => Insert(hs, h)
      case None => hs
  }

  /** How many guesses record `h`. */
  function Count(gs: seq<Guess>, h: string): (n: nat)
    ensures n <= |gs|
  {
    if gs == [] then 0 else Count(gs[..|gs| - 1], h) + (if HeaderOf(gs[|gs| - 1]) == Some(h) then 1 else 0)
  }

  /** The headers form a list without repeats of the headers recorded, no
      longer than the number of files. */
  lemma {:induction false} HeadersMeaning(gs: seq<Guess>)
    ensures Distinct(Headers(gs)) && |Headers(gs)| <= |gs|
    ensures forall h :: h in Headers(gs) <==> Count(gs, h) > 0
    decreases |gs|
  {
    if gs != [] {
      HeadersMeaning(gs[..|gs| - 1]);
    }
  }

  /** One line of the `extract` warning: a file that names the header
      first, marked when it was verified. */
  datatype Claim = Claim(verified: bool, file: string)

  /** The warning of `extract` about a header that several files name first. */
  datatype Crowd = Crowd(header: string, files: int, claims: seq<Claim>)

  /** The files that record `h`, in order. */
  function Claims(files: seq<string>, gs: seq<Guess>, h: string): seq<Claim>
    requires |files| == |gs|
  {
    if gs == [] then []
    else
      var i := |gs| - 1;
      Claims(files[..i], gs[..i], h) +
        (if HeaderOf(gs[i]) == Some(h) then [Claim(gs[i].Matched?, StripDir(files[i]))] else [])
  }

  lemma {:induction false} ClaimsCount(files: seq<string>, gs: seq<Guess>, h: string)
    requires |files| == |gs|
    ensures |Claims(files, gs, h)| == Count(gs, h)
    decreases |gs|
  {
    if gs != [] {
      ClaimsCount(files[..|gs| - 1], gs[..|gs| - 1], h);
    }
  }

  /** The warnings for the first `k` headers of `hs`. */
  function Crowds(files: seq<string>, gs: seq<Guess>, hs: seq<string>, k: nat): seq<Crowd>
    requires |files| == |gs| && k <= |hs|
  {
    if k == 0 then []
    else
      var w := Crowds(files, gs, hs, k - 1);
      var h := hs[k - 1];
      if Count(gs, h) > 1 then w + [Crowd(h, Count(gs, h), Claims(files, gs, h))] else w
  }

  /** There is a warning for exactly the headers that more than one file
      names first, with that number and one claim per such file. */
  lemma CrowdsMeaning(files: seq<string>, gs: seq<Guess>)
    requires |files| == |gs|
    ensures var w := Crowds(files, gs, Headers(gs), |Headers(gs)|);
      forall h, n, cs :: Crowd(h, n, cs) in w <==>
        n == Count(gs, h) > 1 && cs == Claims(files, gs, h) && |cs| == n
  {
    var hs := Headers(gs);
    HeadersMeaning(gs);
    CrowdsMembers(files, gs, hs, |hs|);
    forall h, n, cs | Crowd(h, n, cs) in Crowds(files, gs, hs, |hs|)
      ensures |cs| == n
    {
      ClaimsCount(files, gs, h);
    }
  }

  lemma {:induction false} CrowdsMembers(files: seq<string>, gs: seq<Guess>, hs: seq<string>, k: nat)
    requires |files| == |gs| && k <= |hs|
    ensures forall w :: w in Crowds(files, gs, hs, k) <==>
      exists m :: 0 <= m < k && Count(gs, hs[m]) > 1 && w == Crowd(hs[m], Count(gs, hs[m]), Claims(files, gs, hs[m]))
  {
    if k > 0 {
      CrowdsMembers(files, gs, hs, k - 1);
    }
  }

  /** One line of the output of `extract`: a header and the file name,
      without its suffix, proposed as its alias. */
  datatype AliasLine = AliasLine(header: string, alias: string)

  /** The output of `extract`, file by file. */
  function Proposals(files: seq<string>, gs: seq<Guess>): seq<AliasLine>
    requires |files| == |gs|
  {
    if gs == [] then []
    else
      var i := |gs| - 1;
      Proposals(files[..i], gs[..i]) +
        (match gs[i] case Proposed(h) => [AliasLine(h, RemoveSuffix(files[i]))] case _ => [])
  }

  /** `extract` prints a line for exactly the files whose header it
      proposes, and for no file whose first directive already matches. */
  lemma {:induction false} ProposalsMeaning(files: seq<string>, gs: seq<Guess>)
    requires |files| == |gs|
    ensures forall h, a :: AliasLine(h, a) in Proposals(files, gs) <==>
      exists i :: 0 <= i < |gs| && gs[i] == Proposed(h) && a == RemoveSuffix(files[i])
    decreases |gs|
  {
    if gs != [] {
      var i := |gs| - 1;
      ProposalsMeaning(files[..i], gs[..i]);
      assert forall j :: 0 <= j < i ==> gs[..i][j] == gs[j] && files[..i][j] == files[j];
    }
  }

  /** A line for each proposed header, keyed by the matching entry of `keys`. */
  function LinesFor(keys: seq<string>, gs: seq<Guess>): seq<AliasLine>
    requires |keys| == |gs|
  {
    if gs == [] then []
    else
      var i := |gs| - 1;
      LinesFor(keys[..i], gs[..i]) +
        (match gs[i] case Proposed(h) => [AliasLine(h, keys[i])] case _ => [])
  }

  lemma {:induction false} LinesForMeaning(keys: seq<string>, gs: seq<Guess>)
    requires |keys| == |gs|
    ensures forall h, a :: AliasLine(h, a) in LinesFor(keys, gs) <==>
      exists i :: 0 <= i < |gs| && gs[i] == Proposed(h) && a == keys[i]
    decreases |gs|
  {
    if gs != [] {
      var i := |gs| - 1;
      LinesForMeaning(keys[..i], gs[..i]);
      assert forall j :: 0 <= j < i ==> gs[..i][j] == gs[j] && keys[..i][j] == keys[j];
    }
  }

  /** The names `verify` looks up: each file name without its suffix and
      its directory. */
  function StrippedNames(files: seq<string>): (ks: seq<string>)
    ensures |ks| == |files|
    ensures forall i :: 0 <= i < |files| ==> ks[i] == StripDir(RemoveSuffix(files[i]))
  {
    seq(|files|, i requires 0 <= i < |files| => StripDir(RemoveSuffix(files[i])))
  }

  /** The output `extract` evidently means, stripping the directory as well
      as the suffix from each file name, as its comment says. */
  function IntendedProposals(files: seq<string>, gs: seq<Guess>): seq<AliasLine>
    requires |files| == |gs|
  {
    LinesFor(StrippedNames(files), gs)
  }

  /** The intended output has a line for exactly the files whose header is
      proposed, keyed by the name `verify` looks up. */
  lemma IntendedProposalsMeaning(files: seq<string>, gs: seq<Guess>)
    requires |files| == |gs|
    ensures forall h, a :: AliasLine(h, a) in IntendedProposals(files, gs) <==>
      exists i :: 0 <= i < |gs| && gs[i] == Proposed(h) && a == StripDir(RemoveSuffix(files[i]))
  {
    LinesForMeaning(StrippedNames(files), gs);
  }

  /** A proposed header, made the alias of the file's stripped name, has
      `verify` pair the file. */
  lemma ProposedPairs(fs: FileSystem, aliases: map<string, string>, ignore: seq<string>, path: string, h: string)
    requires GuessOf(fs, aliases, ignore, path) == Proposed(h)
    ensures VerdictOf(fs, aliases[StripDir(RemoveSuffix(path)) := h], ignore, path) == Paired
  {
    var aliases' := aliases[StripDir(RemoveSuffix(path)) := h];
    ProposalPairs(aliases, path, DepsOf(fs, path)[0], h);
    assert GuessOf(fs, aliases', ignore, path) == Matched(h);
    VerifyAgreesWithExtract(fs, aliases', ignore, path);
  }

  /** Every line of the intended output is right in the sense of `verify`:
      with it added to the aliases, `verify` pairs the file it was made for. */
  lemma IntendedProposalsPair(fs: FileSystem, aliases: map<string, string>, ignore: seq<string>,
                              files: seq<string>, h: string, a: string)
    requires AliasLine(h, a) in IntendedProposals(files, Guesses(fs, aliases, ignore, files))
    ensures exists i :: (0 <= i < |files| && a == StripDir(RemoveSuffix(files[i])) &&
                         VerdictOf(fs, aliases[a := h], ignore, files[i]) == Paired)
  {
    var gs := Guesses(fs, aliases, ignore, files);
    IntendedProposalsMeaning(files, gs);
    var i :| 0 <= i < |gs| && gs[i] == Proposed(h) && a == StripDir(RemoveSuffix(files[i]));
    ProposedPairs(fs, aliases, ignore, files[i], h);
  }

  /** How many guesses found no directives. */
  function Undirected(gs: seq<Guess>): (n: nat)
    ensures n <= |gs|
  {
    if gs == [] then 0 else Undirected(gs[..|gs| - 1]) + (if gs[|gs| - 1] == NoIncludes then 1 else 0)
  }

  /** `extract`'s result: -1 when some file could not be read, otherwise the
      number of files without directives. */
  function ExtractStatus(gs: seq<Guess>): int
  {
    if NoFile in gs then -1 else Undirected(gs)
  }

  lemma {:induction false} UndirectedZero(gs: seq<Guess>)
    ensures Undirected(gs) == 0 <==> NoIncludes !in gs
    decreases |gs|
  {
    if gs != [] {
      var init := gs[..|gs| - 1];
      UndirectedZero(init);
      assert gs == init + [gs[|gs| - 1]];
    }
  }

  lemma NoFileGuess(fs: FileSystem, aliases: map<string, string>, ignore: seq<string>, path: string)
    ensures GuessOf(fs, aliases, ignore, path) == NoFile <==> path !in ignore && path !in fs
  {
  }

  /** `extract` returns -1 exactly when a file that is not ignored cannot be
      read. */
  lemma ExtractStatusUnreadable(fs: FileSystem, aliases: map<string, string>, ignore: seq<string>, files: seq<string>)
    ensures ExtractStatus(Guesses(fs, aliases, ignore, files)) == -1 <==>
      exists i :: 0 <= i < |files| && files[i] !in ignore && files[i] !in fs
  {
    var gs := Guesses(fs, aliases, ignore, files);
    forall i | 0 <= i < |files|
      ensures gs[i] == NoFile <==> files[i] !in ignore && files[i] !in fs
    {
      NoFileGuess(fs, aliases, ignore, files[i]);
    }
    assert NoFile in gs ==> exists i :: 0 <= i < |files| && files[i] !in ignore && files[i] !in fs by {
      if NoFile in gs {
        var i :| 0 <= i < |gs| && gs[i] == NoFile;
        assert files[i] !in ignore && files[i] !in fs;
      }
    }
    assert (exists i :: 0 <= i < |files| && files[i] !in ignore && files[i] !in fs) ==> NoFile in gs by {
      if exists i :: 0 <= i < |files| && files[i] !in ignore && files[i] !in fs {
        var i :| 0 <= i < |files| && files[i] !in ignore && files[i] !in fs;
        assert gs[i] == NoFile;
      }
    }
  }

  /** `extract` returns 0 exactly when every file that is not ignored can be
      read and has a directive; it never returns more than the number of
      files. */
  lemma ExtractStatusClean(fs: FileSystem, aliases: map<string, string>, ignore: seq<string>, files: seq<string>)
    ensures var gs := Guesses(fs, aliases, ignore, files);
      && (ExtractStatus(gs) == 0 <==> forall i :: 0 <= i < |gs| ==> gs[i] != NoFile && gs[i] != NoIncludes)
      && ExtractStatus(gs) <= |files|
  {
    var gs := Guesses(fs, aliases, ignore, files);
    UndirectedZero(gs);
  }

  /** A guess is `NoFile` exactly for a file that is not ignored and cannot be
      read, and `NoIncludes` for one that is read and has no directive. */
  lemma GuessFailures(fs: FileSystem, aliases: map<string, string>, ignore: seq<string>, path: string)
    ensures GuessOf(fs, aliases, ignore, path) == NoFile <==> path !in ignore && path !in fs
    ensures GuessOf(fs, aliases, ignore, path) == NoIncludes <==>
      path !in ignore && path in fs && DepsOf(fs, path) == []
  {
  }

  /** The error lines of `extract`, file by file. */
  function ExtractComplaints(files: seq<string>, gs: seq<Guess>): seq<Complaint>
    requires |files| == |gs|
  {
    if gs == [] then []
    else
      var i := |gs| - 1;
      ExtractComplaints(files[..i], gs[..i]) +
        match gs[i]
        case NoFile => [CannotOpen(files[i])]
        case NoIncludes => [NoDirectives(files[i])]
        case _ => []
  }
}
