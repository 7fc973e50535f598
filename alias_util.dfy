/** The alias file reader (`AliasUtil::ReadAliases`): a table-driven state
    machine over the tokens of an alias file that records, for each group,
    the aliases of the group's component in an `AliasTable`. */
module AliasUtil {
  import opened Common
  import Text
  import opened Resolution
  import opened TokenScan
  import opened AliasTables
  import opened CompileDeps

  /** The result of the file overload when the file cannot be opened. */
  const IoError: int := -1

  /** `State`: where the machine is within an alias group. */
  type State = s: int | 0 <= s < 9
  const Start: State := 0        // starting a new alias
  const Continue0: State := 1    // continue - no previous identifiers
  const Ident0: State := 2       // ident - no previous identifiers
  const Continue1: State := 3    // continue - one previous identifier
  const ContinueNL: State := 4   // continue - newline terminated
  const IdentNL: State := 5      // ident - newline terminated
  const NewlineBL: State := 6    // newline - blank line terminated
  const ContinueBL: State := 7   // continue - blank line terminated
  const IdentBL: State := 8      // ident - blank line terminated

  /** `Input`: the kind of a token. */
  type Input = i: int | 0 <= i < 3
  const ContinueInput: Input := 0   // the continuation character by itself
  const NewLineInput: Input := 1    // end of line
  const IdentInput: Input := 2      // any other token

  /** `Action`: what a transition does. */
  type Action = a: int | 0 <= a < 8
  const Nop: Action := 0         // do nothing
  const BegCur: Action := 1      // the component is the current token
  const BegPre: Action := 2      // the component is the previous token
  const BegPreCur: Action := 3   // the component is the previous token; try the current one
  const TryCur: Action := 4      // alias the current token to the component
  const TryPre: Action := 5      // alias the previous token to the component
  const TryPreCur: Action := 6   // alias both tokens to the component
  const End: Action := 7         // no component

  /** `nextStateTable`, one row per state, one column per input. */
  const NextStateTable: seq<seq<State>> := [
    [Continue0,  Start,     Ident0 ],   // Start
    [Continue1,  Start,     IdentNL],   // Continue0
    [Continue1,  NewlineBL, IdentNL],   // Ident0
    [ContinueNL, Ident0,    IdentNL],   // Continue1
    [ContinueNL, IdentNL,   IdentNL],   // ContinueNL
    [ContinueNL, Start,     IdentNL],   // IdentNL
    [ContinueBL, Start,     IdentBL],   // NewlineBL
    [ContinueBL, IdentBL,   IdentBL],   // ContinueBL
    [ContinueBL, NewlineBL, IdentBL]    // IdentBL
  ]

  /** `actionTable`, laid out as `NextStateTable`. */
  const ActionTable: seq<seq<Action>> := [
    [Nop,    Nop, BegCur   ],   // Start
    [BegPre, Nop, BegPreCur],   // Continue0
    [Nop,    Nop, TryCur   ],   // Ident0
    [TryPre, Nop, TryPreCur],   // Continue1
    [TryPre, Nop, TryPreCur],   // ContinueNL
    [Nop,    End, TryCur   ],   // IdentNL
    [Nop,    End, TryCur   ],   // NewlineBL
    [TryPre, Nop, TryPreCur],   // ContinueBL
    [Nop,    Nop, TryCur   ]    // IdentBL
  ]

  function NextState(s: State, i: Input): State
  {
    NextStateTable[s][i]
  }

  function ActionOf(s: State, i: Input): Action
  {
    ActionTable[s][i]
  }

  /** The input a token stands for: a backslash ends a line's group only
      when it is the whole token (the character after it is the NUL that
      ends the token's text). */
  function Classify(t: string): (i: Input)
    ensures i == ContinueInput <==> |t| > 0 && t[0] == '\\' && (|t| == 1 || t[1] == NullChar)
    ensures i == NewLineInput <==> IsLineEnd(t)
  {
    if |t| > 0 && t[0] == '\\' then
      (if |t| == 1 || t[1] == NullChar then ContinueInput else IdentInput)
    else if IsLineEnd(t) then NewLineInput
    else IdentInput
  }

  /** What the reader writes to `orf`, with the line number it names. */
  datatype Notice =
    | TwoNames(line: int, alias: string, previous: string, component: string)
    | UsedAsComponent(line: int, token: string)
    | UsedAsAlias(line: int, token: string)

  /** The reader's variables: the machine state, `componentName`,
      `lastToken`, `lineno`, `numBadAliases`, the aliases of the table and
      what has been written. */
  datatype Reading = Reading(state: State, component: string, lastToken: string, lineno: int,
                             bad: int, aliases: map<string, string>, notices: seq<Notice>)

  /** The reader before the first token, over a table holding `m`. */
  function Initial(m: map<string, string>): Reading
  {
    Reading(Start, "", "", 1, 0, m, [])
  }

  /** `alias` already stands for another name than `component`. */
  predicate Conflict(m: map<string, string>, alias: string, component: string)
  {
    alias in m && m[alias] != component
  }

  /** `TryToAlias` on values: a conflict is counted and reported, anything
      else is added (an alias that is present stays as it is). */
  function Try(r: Reading, alias: string): Reading
  {
    if Conflict(r.aliases, alias, r.component) then
      r.(bad := r.bad + 1, notices := r.notices + [TwoNames(r.lineno, alias, r.aliases[alias], r.component)])
    else
      r.(aliases := Added(r.aliases, alias, r.component))
  }

  /** The action switch of the loop on values. */
  function Act(r: Reading, a: Action, token: string): Reading
  {
    if a == BegCur then r.(component := token)
    else if a == BegPre then
      r.(component := r.lastToken, notices := r.notices + [UsedAsComponent(r.lineno, r.lastToken)])
    else if a == BegPreCur then
      var t := Try(r.(component := r.lastToken), token);
      t.(notices := t.notices + [UsedAsComponent(r.lineno, r.lastToken)])
    else if a == TryCur then Try(r, token)
    else if a == TryPre then
      var t := Try(r, r.lastToken);
      t.(notices := t.notices + [UsedAsAlias(r.lineno, r.lastToken)])
    else if a == TryPreCur then
      var t := Try(Try(r, r.lastToken), token);
      t.(notices := t.notices + [UsedAsAlias(r.lineno, r.lastToken)])
    else if a == End then r.(component := "")
    else r
  }

  /** One token through the machine: act, count the line, remember the
      token, move to the next state. */
  function Step(r: Reading, token: string): Reading
  {
    var input := Classify(token);
    var t := Act(r, ActionOf(r.state, input), token);
    t.(state := NextState(r.state, input), lastToken := token,
       lineno := if input == NewLineInput then t.lineno + 1 else t.lineno)
  }

  /** The reader over the tokens `ts`: a comment token and the tokens after
      it up to the line end are skipped, and the line end is then read; a
      comment with no line end after it ends the input. */
  function Read(r: Reading, ts: seq<string>): Reading
    decreases |ts|
  {
    if ts == [] then r
    else if IsComment(ts[0]) then
      match AfterLineEnd(ts)
      case None => r
      case Some(rest) => Read(Step(r, "\n"), rest)
    else Read(Step(r, ts[0]), ts[1..])
  }

  /** The loop as written: its comment skip has no end-of-input guard, so
      a comment with no line end after it advances the token iterator past
      its end, which fails an assertion.  `None` stands for that case. */
  function ReadAsWritten(r: Reading, ts: seq<string>): Option<Reading>
    decreases |ts|
  {
    if ts == [] then Some(r)
    else if IsComment(ts[0]) then
      match AfterLineEnd(ts)
      case None => None
      case Some(rest) => ReadAsWritten(Step(r, "\n"), rest)
    else ReadAsWritten(Step(r, ts[0]), ts[1..])
  }

  // ---------------------------------------------------------------- properties

  /** How many of `ns` report an alias with two names. */
  function Conflicts(ns: seq<Notice>): nat
    decreases |ns|
  {
    if ns == [] then 0 else Conflicts(ns[..|ns| - 1]) + (if ns[|ns| - 1].TwoNames? then 1 else 0)
  }

  lemma ConflictsSnoc(ns: seq<Notice>, n: Notice)
    ensures Conflicts(ns + [n]) == Conflicts(ns) + (if n.TwoNames? then 1 else 0)
  {
    assert (ns + [n])[..|ns|] == ns;
  }

  /** The reader's count is the number of conflicts it reported. */
  ghost predicate Counted(r: Reading)
  {
    r.bad == Conflicts(r.notices)
  }

  lemma TryCounted(r: Reading, alias: string)
    requires Counted(r)
    ensures Counted(Try(r, alias))
  {
    if Conflict(r.aliases, alias, r.component) {
      ConflictsSnoc(r.notices, TwoNames(r.lineno, alias, r.aliases[alias], r.component));
    }
  }

  /** An action leaves the state, the line number and the last token alone. */
  lemma ActFrame(r: Reading, a: Action, token: string)
    ensures Act(r, a, token).state == r.state && Act(r, a, token).lineno == r.lineno
    ensures Act(r, a, token).lastToken == r.lastToken
  {
  }

  lemma ActCounted(r: Reading, a: Action, token: string)
    requires Counted(r)
    ensures Counted(Act(r, a, token))
  {
    var t := Act(r, a, token);
    if a == BegPre {
      assert t.notices == r.notices + [UsedAsComponent(r.lineno, r.lastToken)] && t.bad == r.bad;
      ConflictsSnoc(r.notices, UsedAsComponent(r.lineno, r.lastToken));
    } else if a == BegPreCur {
      var r1 := r.(component := r.lastToken);
      var t1 := Try(r1, token);
      assert t.notices == t1.notices + [UsedAsComponent(r.lineno, r.lastToken)] && t.bad == t1.bad;
      TryCounted(r1, token);
      ConflictsSnoc(t1.notices, UsedAsComponent(r.lineno, r.lastToken));
    } else if a == TryCur {
      assert t == Try(r, token);
      TryCounted(r, token);
    } else if a == TryPre {
      var t1 := Try(r, r.lastToken);
      assert t.notices == t1.notices + [UsedAsAlias(r.lineno, r.lastToken)] && t.bad == t1.bad;
      TryCounted(r, r.lastToken);
      ConflictsSnoc(t1.notices, UsedAsAlias(r.lineno, r.lastToken));
    } else if a == TryPreCur {
      var t1 := Try(Try(r, r.lastToken), token);
      assert t.notices == t1.notices + [UsedAsAlias(r.lineno, r.lastToken)] && t.bad == t1.bad;
      TryCounted(r, r.lastToken);
      TryCounted(Try(r, r.lastToken), token);
      ConflictsSnoc(t1.notices, UsedAsAlias(r.lineno, r.lastToken));
    } else {
      assert t.notices == r.notices && t.bad == r.bad;
    }
  }

  lemma StepCounted(r: Reading, token: string)
    requires Counted(r)
    ensures Counted(Step(r, token))
  {
    ActCounted(r, ActionOf(r.state, Classify(token)), token);
  }

  /** A token moves the line number on exactly when it is a line end. */
  lemma StepLine(r: Reading, token: string)
    ensures Step(r, token).lineno == r.lineno + (if IsLineEnd(token) then 1 else 0)
  {
    ActFrame(r, ActionOf(r.state, Classify(token)), token);
  }

  /** `numBadAliases` is the number of "two names for alias" errors the
      reader wrote. */
  lemma {:induction false} ReadCounted(r: Reading, ts: seq<string>)
    requires Counted(r)
    ensures Counted(Read(r, ts))
    decreases |ts|
  {
    if ts != [] {
      if IsComment(ts[0]) {
        match AfterLineEnd(ts)
        case None =>
        case Some(rest) =>
          StepCounted(r, "\n");
          ReadCounted(Step(r, "\n"), rest);
      } else {
        StepCounted(r, ts[0]);
        ReadCounted(Step(r, ts[0]), ts[1..]);
      }
    }
  }

  /** The number of line-end tokens of `ts`. */
  function LineEnds(ts: seq<string>): nat
    decreases |ts|
  {
    if ts == [] then 0 else (if IsLineEnd(ts[0]) then 1 else 0) + LineEnds(ts[1..])
  }

  /** Up to and including the first line end there is one line end; with
      none there are none. */
  lemma {:induction false} LineEndsAfter(ts: seq<string>)
    ensures AfterLineEnd(ts).None? ==> LineEnds(ts) == 0
    ensures AfterLineEnd(ts).Some? ==> LineEnds(ts) == 1 + LineEnds(AfterLineEnd(ts).value)
    decreases |ts|
  {
    if ts != [] && !IsLineEnd(ts[0]) {
      LineEndsAfter(ts[1..]);
    }
  }

  /** `lineno` counts the line ends read: one more than the line-end
      tokens of the input by the end (a comment skip never passes one). */
  lemma {:induction false} ReadLines(r: Reading, ts: seq<string>)
    ensures Read(r, ts).lineno == r.lineno + LineEnds(ts)
    decreases |ts|
  {
    if ts != [] {
      LineEndsAfter(ts);
      if IsComment(ts[0]) {
        match AfterLineEnd(ts)
        case None =>
        case Some(rest) =>
          StepLine(r, "\n");
          ReadLines(Step(r, "\n"), rest);
      } else {
        StepLine(r, ts[0]);
        ReadLines(Step(r, ts[0]), ts[1..]);
      }
    }
  }

  /** An action never changes the name an alias stands for, and it adds
      only the current or the previous token. */
  lemma StepAliases(r: Reading, token: string, a: string)
    ensures a in r.aliases ==> a in Step(r, token).aliases && Step(r, token).aliases[a] == r.aliases[a]
    ensures a in Step(r, token).aliases ==> a in r.aliases || a == token || a == r.lastToken
  {
    var act := ActionOf(r.state, Classify(token));
    assert Step(r, token).aliases == Act(r, act, token).aliases;
    if act == BegPreCur {
      TryAliases(r.(component := r.lastToken), token, a);
    } else if act == TryCur {
      TryAliases(r, token, a);
    } else if act == TryPre {
      TryAliases(r, r.lastToken, a);
    } else if act == TryPreCur {
      TryAliases(r, r.lastToken, a);
      TryAliases(Try(r, r.lastToken), token, a);
    }
  }

  lemma TryAliases(r: Reading, alias: string, a: string)
    ensures Try(r, alias).lastToken == r.lastToken
    ensures a in r.aliases ==> a in Try(r, alias).aliases && Try(r, alias).aliases[a] == r.aliases[a]
    ensures a in Try(r, alias).aliases ==> a in r.aliases || a == alias
  {
  }

  /** The tokens after the first line end are tokens of `ts`, and so is
      that line end. */
  lemma PastLineEnd(ts: seq<string>, rest: seq<string>, a: string)
    requires forall k :: 0 <= k < |ts| ==> WellFormedToken(ts[k])
    requires AfterLineEnd(ts) == Some(rest)
    ensures "\n" in ts
    ensures a in rest ==> a in ts
  {
    AfterFirstLineEnd(ts);
    var m := |ts| - |rest| - 1;
    var t := ts[m];
    assert WellFormedToken(t) && IsLineEnd(t);
    assert !Text.NoSpace(t) by {
      assert Text.IsSpace(t[0]);
    }
    InSuffix(ts, m + 1, a);
  }

  lemma InSuffix(ts: seq<string>, n: nat, a: string)
    requires n <= |ts|
    ensures a in ts[n..] ==> a in ts
  {
    if a in ts[n..] {
      var k :| 0 <= k < |ts| - n && ts[n..][k] == a;
      assert ts[n + k] == a;
    }
  }

  /** No alias is ever overwritten, and every alias the reader adds is a
      token of the input (or the token before it). */
  lemma {:induction false} ReadAliasesGrow(r: Reading, ts: seq<string>, a: string)
    requires forall k :: 0 <= k < |ts| ==> WellFormedToken(ts[k])
    ensures a in r.aliases ==> a in Read(r, ts).aliases && Read(r, ts).aliases[a] == r.aliases[a]
    ensures a in Read(r, ts).aliases ==> a in r.aliases || a == r.lastToken || a in ts
    decreases |ts|
  {
    if ts != [] {
      if IsComment(ts[0]) {
        match AfterLineEnd(ts)
        case None =>
        case Some(rest) =>
          StepAliases(r, "\n", a);
          ReadAliasesGrow(Step(r, "\n"), rest, a);
          PastLineEnd(ts, rest, a);
      } else {
        StepAliases(r, ts[0], a);
        ReadAliasesGrow(Step(r, ts[0]), ts[1..], a);
        if a in ts[1..] { assert a in ts; }
      }
    }
  }

  /** Where the loop as written is defined it agrees with `Read`. */
  lemma {:induction false} ReadAsWrittenAgrees(r: Reading, ts: seq<string>)
    ensures ReadAsWritten(r, ts).Some? ==> ReadAsWritten(r, ts).value == Read(r, ts)
    decreases |ts|
  {
    if ts != [] {
      if IsComment(ts[0]) {
        match AfterLineEnd(ts)
        case None =>
        case Some(rest) => ReadAsWrittenAgrees(Step(r, "\n"), rest);
      } else {
        ReadAsWrittenAgrees(Step(r, ts[0]), ts[1..]);
      }
    }
  }

  /** The loop as written fails exactly when some comment has no line end
      after it. */
  lemma {:induction false} ReadAsWrittenUndefined(r: Reading, ts: seq<string>)
    ensures ReadAsWritten(r, ts).None? <==> UnendedComment(ts)
    decreases |ts|
  {
    if ts != [] {
      if IsComment(ts[0]) {
        UnendedAfterLineEnd(ts);
        match AfterLineEnd(ts)
        case None =>
        case Some(rest) => ReadAsWrittenUndefined(Step(r, "\n"), rest);
      } else {
        UnendedAfterToken(ts);
        ReadAsWrittenUndefined(Step(r, ts[0]), ts[1..]);
      }
    }
  }

  /** A component followed by its aliases on one line. */
  lemma OneLineGroup()
    ensures var r := Read(Initial(map[]), ["x", "a", "b", "\n"]);
            r.aliases == map["a" := "x", "b" := "x"] && r.bad == 0 && r.notices == [] && r.lineno == 2
            && r.state == Start && r.component == ""
  {
  }

  /** A component alone on its line takes the aliases of the lines after it,
      up to a blank line. */
  lemma BlankLineGroup()
    ensures var r := Read(Initial(map[]), ["x", "\n", "a", "\n", "b", "\n", "\n", "c"]);
            r.aliases == map["a" := "x", "b" := "x"] && r.bad == 0 && r.lineno == 5 && r.component == "c"
  {
    var r := Step(Step(Initial(map[]), "x"), "\n");
    assert r.state == NewlineBL && r.component == "x";
    var r2 := Step(Step(r, "a"), "\n");
    assert r2.state == NewlineBL && r2.aliases == map["a" := "x"];
    assert Read(Initial(map[]), ["x", "\n", "a", "\n", "b", "\n", "\n", "c"]) == Read(r2, ["b", "\n", "\n", "c"]);
  }

  /** An alias given a second, different component is counted and reported
      with the line it is on; the first name stays. */
  lemma TwoNamesExample()
    ensures var r := Read(Initial(map[]), ["x", "a", "\n", "y", "a", "\n"]);
            r.aliases == map["a" := "x"] && r.bad == 1 && r.notices == [TwoNames(2, "a", "x", "y")]
  {
  }

  /** A comment runs to the end of its line, whose line end is read. */
  lemma CommentExample()
    ensures var r := Read(Initial(map[]), ["#", "c", "\n", "x", "a", "\n"]);
            r.aliases == map["a" := "x"] && r.lineno == 3
  {
    var r := Step(Initial(map[]), "\n");
    assert r == Reading(Start, "", "\n", 2, 0, map[], []);
    SecondLineExample();
    assert AfterLineEnd(["#", "c", "\n", "x", "a", "\n"]) == Some(["x", "a", "\n"]);
    assert Read(Initial(map[]), ["#", "c", "\n", "x", "a", "\n"]) == Read(r, ["x", "a", "\n"]);
  }

  /** The line `x a` after a line end enters `a` and ends line 2. */
  lemma SecondLineExample()
    ensures var r := Read(Reading(Start, "", "\n", 2, 0, map[], []), ["x", "a", "\n"]);
            r.aliases == map["a" := "x"] && r.lineno == 3
  {
    var r := Reading(Start, "", "\n", 2, 0, map[], []);
    var r1 := Step(r, "x");
    var r2 := Step(r1, "a");
    assert r2.aliases == map["a" := "x"] && r2.lineno == 2;
    var r3 := Step(r2, "\n");
    assert r3.aliases == map["a" := "x"] && r3.lineno == 3;
    assert Read(r2, ["\n"]) == r3 by { assert ["\n"][1..] == []; }
    assert Read(r1, ["a", "\n"]) == Read(r2, ["\n"]) by { assert ["a", "\n"][1..] == ["\n"]; }
    assert Read(r, ["x", "a", "\n"]) == Read(r1, ["a", "\n"]) by { assert ["x", "a", "\n"][1..] == ["a", "\n"]; }
  }

  /** A comment with no line end after it ends the reading, where the loop
      as written fails. */
  lemma UnendedCommentExample()
    ensures Read(Initial(map[]), ["x", "a", "#", "c"]).aliases == map["a" := "x"]
    ensures ReadAsWritten(Initial(map[]), ["x", "a", "#", "c"]) == None
  {
    var r := Step(Step(Initial(map[]), "x"), "a");
    assert r.aliases == map["a" := "x"];
    assert AfterLineEnd(["#", "c"]) == None;
    assert Read(Initial(map[]), ["x", "a", "#", "c"]) == Read(r, ["#", "c"]);
    assert ReadAsWritten(Initial(map[]), ["x", "a", "#", "c"]) == ReadAsWritten(r, ["#", "c"]);
  }

  // ---------------------------------------------------------------- the reader

  /** `TryToAlias`: adds `alias` for `componentName`; when the table already
      holds another name for it, reports both names and returns 1, else 0. */
  method TryToAlias(table: AliasTable, lineNumber: int, componentName: string, alias: string)
    returns (r: int, notes: seq<Notice>)
    requires table.Valid()
    modifies table.Repr
    ensures table.Valid() && table.Repr == old(table.Repr)
    ensures r == 1 <==> Conflict(old(table.Map), alias, componentName)
    ensures r == 0 || r == 1
    ensures table.Map == Added(old(table.Map), alias, componentName)
    ensures notes == if r == 1 then [TwoNames(lineNumber, alias, old(table.Map)[alias], componentName)] else []
  {
    var added := table.Add(alias, componentName);
    if added < 0 {
      var previous := table.Lookup(alias);
      return 1, [TwoNames(lineNumber, alias, previous.value, componentName)];
    }
    return 0, [];
  }

  /** What `TryToAlias` reports, as a step of `Try`. */
  lemma TryIs(r: Reading, alias: string, n: int, notes: seq<Notice>, m: map<string, string>)
    requires n == 1 <==> Conflict(r.aliases, alias, r.component)
    requires n == 0 || n == 1
    requires m == Added(r.aliases, alias, r.component)
    requires notes == if n == 1 then [TwoNames(r.lineno, alias, r.aliases[alias], r.component)] else []
    ensures Try(r, alias) == r.(bad := r.bad + n, aliases := m, notices := r.notices + notes)
  {
  }

  /** `numBadAliases += TryToAlias(...)`, with what it writes appended to
      `notices`: one `Try` on the reader's variables. */
  method CountTry(table: AliasTable, alias: string, ghost state: State, ghost lastToken: string,
                  lineno: int, componentName: string, bad: int, notices: seq<Notice>)
    returns (bad': int, notices': seq<Notice>)
    requires table.Valid()
    modifies table.Repr
    ensures table.Valid() && table.Repr == old(table.Repr)
    ensures Reading(state, componentName, lastToken, lineno, bad', table.Map, notices') ==
            Try(Reading(state, componentName, lastToken, lineno, bad, old(table.Map), notices), alias)
  {
    var n, ns := TryToAlias(table, lineno, componentName, alias);
    TryIs(Reading(state, componentName, lastToken, lineno, bad, old(table.Map), notices), alias, n, ns, table.Map);
    bad', notices' := bad + n, notices + ns;
  }

  /** The action switch of the loop: performs `action` on the table and on
      the reader's variables, as `Act` does on values. */
  method Perform(table: AliasTable, action: Action, token: string, ghost state: State,
                 lastToken: string, lineno: int, componentName: string, bad: int, notices: seq<Notice>)
    returns (componentName': string, bad': int, notices': seq<Notice>)
    requires table.Valid()
    modifies table.Repr
    ensures table.Valid() && table.Repr == old(table.Repr)
    ensures Reading(state, componentName', lastToken, lineno, bad', table.Map, notices') ==
            Act(Reading(state, componentName, lastToken, lineno, bad, old(table.Map), notices), action, token)
  {
    componentName', bad', notices' := componentName, bad, notices;
    if action == BegCur {
      componentName' := token;
    } else if action == BegPre {
      componentName' := lastToken;
      notices' := notices' + [UsedAsComponent(lineno, lastToken)];
    } else if action == BegPreCur {
      componentName' := lastToken;
      bad', notices' := CountTry(table, token, state, lastToken, lineno, componentName', bad', notices');
      notices' := notices' + [UsedAsComponent(lineno, lastToken)];
    } else if action == TryCur {
      bad', notices' := CountTry(table, token, state, lastToken, lineno, componentName', bad', notices');
    } else if action == TryPre {
      bad', notices' := CountTry(table, lastToken, state, lastToken, lineno, componentName', bad', notices');
      notices' := notices' + [UsedAsAlias(lineno, lastToken)];
    } else if action == TryPreCur {
      bad', notices' := CountTry(table, lastToken, state, lastToken, lineno, componentName', bad', notices');
      bad', notices' := CountTry(table, token, state, lastToken, lineno, componentName', bad', notices');
      notices' := notices' + [UsedAsAlias(lineno, lastToken)];
    } else if action == End {
      componentName' := "";
    }
  }

  /** Past a comment skip: reading from the comment is reading from the
      line end the skip stopped at, or nothing when it reached the end. */
  lemma ReadSkip(r: Reading, ts0: seq<string>, ts1: seq<string>)
    requires ts0 != [] && IsComment(ts0[0]) && AfterLineEnd(ts1) == AfterLineEnd(ts0)
    requires ts1 != [] ==> ts1[0] == "\n"
    ensures Read(r, ts0) == Read(r, ts1)
  {
  }

  /** One pass of the loop after the comment skip: classifies the current
      token, performs the action and moves the machine and the iterator on. */
  method Consume(table: AliasTable, it: TokenIterator, state: State, componentName: string,
                 lastToken: string, lineno: int, bad: int, notices: seq<Notice>)
    returns (state': State, componentName': string, lastToken': string, lineno': int,
             bad': int, notices': seq<Notice>)
    requires table.Valid() && it.Valid() && it.IsValid() && it.Repr !! table.Repr
    requires !IsComment(it.Current())
    modifies table.Repr, it.Repr
    ensures table.Valid() && table.Repr == old(table.Repr)
    ensures it.Valid() && fresh(it.Repr - old(it.Repr)) && |it.Rest()| < |old(it.Rest())|
    ensures Read(Reading(state', componentName', lastToken', lineno', bad', table.Map, notices'), it.Rest()) ==
            old(Read(Reading(state, componentName, lastToken, lineno, bad, table.Map, notices), it.Rest()))
  {
    ghost var r := Reading(state, componentName, lastToken, lineno, bad, table.Map, notices);
    ghost var ts := it.Rest();
    var t := it.Current();
    var input := Classify(t);
    componentName', bad', notices' :=
      Perform(table, ActionOf(state, input), t, state, lastToken, lineno, componentName, bad, notices);
    lineno' := if input == NewLineInput then lineno + 1 else lineno;
    lastToken' := t;
    state' := NextState(state, input);
    assert Reading(state', componentName', lastToken', lineno', bad', table.Map, notices') == Step(r, t);
    Next(it);
  }

  /** `ReadAliases` over a stream: runs the machine over the stream's tokens
      and returns `numBadAliases` with what it wrote.  A comment with no line
      end after it ends the input. */
  method ReadAliases(table: AliasTable, stream: string) returns (numBadAliases: int, notices: seq<Notice>)
    requires table.Valid()
    modifies table.Repr
    ensures table.Valid() && table.Repr == old(table.Repr)
    ensures var r := Read(Initial(old(table.Map)), Tokens(stream));
            numBadAliases == r.bad && notices == r.notices && table.Map == r.aliases
  {
    var it := new TokenIterator(stream);
    assert it.Rest() == Tokens(stream);
    numBadAliases, notices := Run(table, it);
  }

  /** The loop of `ReadAliases`, from the first token on. */
  method Run(table: AliasTable, it: TokenIterator) returns (numBadAliases: int, notices: seq<Notice>)
    requires table.Valid() && it.Valid() && it.Repr !! table.Repr
    modifies table.Repr, it.Repr
    ensures table.Valid() && table.Repr == old(table.Repr)
    ensures var r := old(Read(Initial(table.Map), it.Rest()));
            numBadAliases == r.bad && notices == r.notices && table.Map == r.aliases
  {
    ghost var goal := Read(Initial(table.Map), it.Rest());
    var state: State, componentName, lastToken, lineno := Start, "", "", 1;
    numBadAliases, notices := 0, [];
    while it.IsValid()
      invariant table.Valid() && table.Repr == old(table.Repr)
      invariant it.Valid() && fresh(it.Repr - old(it.Repr)) && it.Repr !! table.Repr
      invariant Read(Reading(state, componentName, lastToken, lineno, numBadAliases, table.Map, notices),
                     it.Rest()) == goal
      decreases |it.Rest()|
    {
      ghost var r0 := it.Repr;
      state, componentName, lastToken, lineno, numBadAliases, notices :=
        Turn(table, it, state, componentName, lastToken, lineno, numBadAliases, notices);
      assert it.Repr - old(it.Repr) <= (it.Repr - r0) + (r0 - old(it.Repr));
    }
    assert it.Rest() == [];
  }

  /** One pass of the loop: a comment is skipped up to the line end after
      it, which the next pass reads; any other token is read. */
  method Turn(table: AliasTable, it: TokenIterator, state: State, componentName: string,
              lastToken: string, lineno: int, bad: int, notices: seq<Notice>)
    returns (state': State, componentName': string, lastToken': string, lineno': int,
             bad': int, notices': seq<Notice>)
    requires table.Valid() && it.Valid() && it.IsValid() && it.Repr !! table.Repr
    modifies table.Repr, it.Repr
    ensures table.Valid() && table.Repr == old(table.Repr)
    ensures it.Valid() && fresh(it.Repr - old(it.Repr))
    ensures |it.Rest()| < |old(it.Rest())|
    ensures Read(Reading(state', componentName', lastToken', lineno', bad', table.Map, notices'), it.Rest()) ==
            old(Read(Reading(state, componentName, lastToken, lineno, bad, table.Map, notices), it.Rest()))
  {
    if IsComment(it.Current()) {
      Skip(it, Reading(state, componentName, lastToken, lineno, bad, table.Map, notices));
      return state, componentName, lastToken, lineno, bad, notices;
    }
    state', componentName', lastToken', lineno', bad', notices' :=
      Consume(table, it, state, componentName, lastToken, lineno, bad, notices);
  }

  /** The comment skip of the loop: moves from a comment to the line end
      after it, which the next pass reads, or to the end of the input. */
  method Skip(it: TokenIterator, ghost r: Reading)
    requires it.Valid() && it.IsValid() && IsComment(it.Current())
    modifies it.Repr
    ensures it.Valid() && fresh(it.Repr - old(it.Repr))
    ensures |it.Rest()| < |old(it.Rest())|
    ensures Read(r, it.Rest()) == old(Read(r, it.Rest()))
  {
    ghost var ts0 := it.Rest();
    SkipComment(it);
    ghost var ts1 := it.Rest();
    assert AfterLineEnd(ts0) == AfterLineEnd(ts0[1..]);
    if ts1 != [] {
      var t := it.Current();
      assert t == ts1[0] && WellFormedToken(t) && IsLineEnd(t);
      assert !Text.NoSpace(t) by {
        assert Text.IsSpace(t[0]);
      }
      assert AfterLineEnd(ts1) == Some(ts1[1..]);
    }
    ReadSkip(r, ts0, ts1);
  }

  /** The file overload: `IoError` when the file cannot be opened. */
  method ReadAliasesFile(table: AliasTable, file: Option<string>) returns (numBadAliases: int, notices: seq<Notice>)
    requires table.Valid()
    modifies table.Repr
    ensures table.Valid() && table.Repr == old(table.Repr)
    ensures file.None? ==> numBadAliases == IoError && notices == [] && table.Map == old(table.Map)
    ensures file.Some? ==> var r := Read(Initial(old(table.Map)), Tokens(file.value));
            numBadAliases == r.bad && notices == r.notices && table.Map == r.aliases
  {
    if file.None? {
      return IoError, [];
    }
    numBadAliases, notices := ReadAliases(table, file.value);
  }
}
