/** The include-directive scanner (`FileDepIterator`): reads a file line by
    line into a fixed buffer and yields the file name of every line that is
    a preprocessor include directive, in file order. */
module FileDeps {
  import opened Common
  import opened Text

  /** Size of the line buffer, terminator included. */
  const MaxLineLength: int := 2048
  /** The most characters of one line the buffer can hold. */
  const MaxLineChars: int := MaxLineLength - 1
  const NullChar: char := '\0'
  const Keyword: string := "include"

  function Min(a: int, b: int): int
  {
    if a < b then a else b
  }

  // ---------------------------------------------------------------- C strings

  /** Index of the first NUL in `s`, or `|s|` when there is none. */
  function NulIndex(s: string): (z: nat)
    ensures z <= |s|
    ensures forall k :: 0 <= k < z ==> s[k] != NullChar
    ensures z < |s| ==> s[z] == NullChar
  {
    if s == [] || s[0] == NullChar then 0 else 1 + NulIndex(s[1..])
  }

  /** The C string that starts `s`: everything before the first NUL. */
  function CStr(s: string): (r: string)
    ensures r == s[..NulIndex(s)] && NullChar !in r
  {
    s[..NulIndex(s)]
  }

  /** The first NUL is determined by where it is. */
  lemma {:induction false} NulIndexAt(s: string, z: nat)
    requires z <= |s| && NullChar !in s[..z] && (z == |s| || s[z] == NullChar)
    ensures NulIndex(s) == z
    decreases z
  {
    if z > 0 {
      assert s[0] == s[..z][0];
      assert s[1..][..z - 1] == s[..z][1..];
      NulIndexAt(s[1..], z - 1);
    }
  }

  // ---------------------------------------------------------------- lines

  /** Index of the first newline in `s`, or `|s|` when there is none. */
  function LineEnd(s: string): (e: nat)
    ensures e <= |s|
    ensures forall k :: 0 <= k < e ==> s[k] != '\n'
    ensures e < |s| ==> s[e] == '\n'
  {
    if s == [] || s[0] == '\n' then 0 else 1 + LineEnd(s[1..])
  }

  lemma {:induction false} LineEndAt(s: string, e: nat)
    requires e <= |s| && '\n' !in s[..e] && (e == |s| || s[e] == '\n')
    ensures LineEnd(s) == e
    decreases e
  {
    if e > 0 {
      assert s[0] == s[..e][0];
      assert s[1..][..e - 1] == s[..e][1..];
      LineEndAt(s[1..], e - 1);
    }
  }

  /** The outcome of `loadBuf`: -1, 0 and 1 in the source. */
  datatype LoadStatus = EndOfInput | Success | Overflow

  function StatusCode(st: LoadStatus): (c: int)
    ensures c < 0 <==> st == EndOfInput
  {
    match st
    case EndOfInput => -1
    case Success => 0
    case Overflow => 1
  }

  /** One call of the line reader on the unread text: what it reports, the
      line the buffer then holds, and how many characters it consumed. */
  datatype LineRead = LineRead(status: LoadStatus, line: string, consumed: nat)

  /** What the buffer keeps of one line: its first `MaxLineChars` characters. */
  function Cut(l: string): (r: string)
    ensures |r| <= MaxLineChars && r <= l
    ensures |l| <= MaxLineChars ==> r == l
  {
    l[..Min(|l|, MaxLineChars)]
  }

  /** The status `loadBuf` reports for a line. */
  function StatusOf(l: string): (st: LoadStatus)
    ensures st != EndOfInput
    ensures st == Overflow <==> |l| > MaxLineChars
  {
    if |l| > MaxLineChars then Overflow else Success
  }

  /** `loadBuf` as evidently intended: a line that does not fit is cut to
      the buffer, the rest of that line is skipped, and the next call reads
      the following line. */
  function ReadLine(s: string): (r: LineRead)
    ensures r.consumed <= |s|
    ensures r.status == EndOfInput <==> s == []
    ensures r.status != EndOfInput ==> 0 < r.consumed
    ensures |r.line| <= MaxLineChars
    ensures r.status != EndOfInput ==> r.line <= s && (r.consumed < |s| ==> s[r.consumed - 1] == '\n')
  {
    if s == [] then LineRead(EndOfInput, [], 0)
    else
      var e := LineEnd(s);
      LineRead(StatusOf(s[..e]), Cut(s[..e]), if e < |s| then e + 1 else e)
  }

  /** The lines the reader presents, in order. */
  function Lines(s: string): seq<string>
    decreases |s|
  {
    var r := ReadLine(s);
    if r.status == EndOfInput then [] else [r.line] + Lines(s[r.consumed..])
  }

  /** Text made of lines, each followed by a newline. */
  function Unlines(ls: seq<string>): string
  {
    if ls == [] then [] else ls[0] + "\n" + Unlines(ls[1..])
  }

  /** A line followed by a newline is read as that line, cut to the buffer,
      and reading resumes right after the newline. */
  lemma LinesCons(l: string, rest: string)
    requires '\n' !in l
    ensures Lines(l + "\n" + rest) == [Cut(l)] + Lines(rest)
  {
    var s := l + "\n" + rest;
    assert s[..|l|] == l && s[|l|] == '\n';
    LineEndAt(s, |l|);
    assert s[|l| + 1..] == rest;
  }

  /** Every line of `ls`, cut to the buffer. */
  function Cuts(ls: seq<string>): (r: seq<string>)
    ensures |r| == |ls| && forall i :: 0 <= i < |ls| ==> r[i] == Cut(ls[i])
  {
    if ls == [] then [] else [Cut(ls[0])] + Cuts(ls[1..])
  }

  /** Round trip: text made of newline-free lines, each ended by a newline,
      reads back as those lines, each cut to the buffer. */
  lemma {:induction false} LinesUnlines(ls: seq<string>)
    requires forall i :: 0 <= i < |ls| ==> '\n' !in ls[i]
    ensures Lines(Unlines(ls)) == Cuts(ls)
  {
    if ls != [] {
      LinesCons(ls[0], Unlines(ls[1..]));
      LinesUnlines(ls[1..]);
      assert Unlines(ls) == ls[0] + "\n" + Unlines(ls[1..]);
    }
  }

  /** So lines that fit the buffer come back unchanged. */
  lemma LinesUnlinesShort(ls: seq<string>)
    requires forall i :: 0 <= i < |ls| ==> '\n' !in ls[i] && |ls[i]| <= MaxLineChars
    ensures Lines(Unlines(ls)) == ls
  {
    LinesUnlines(ls);
  }

  /** Every line the reader presents fits the buffer and holds no newline. */
  lemma {:induction false} LinesFit(s: string)
    ensures forall i :: 0 <= i < |Lines(s)| ==> '\n' !in Lines(s)[i] && |Lines(s)[i]| <= MaxLineChars
    decreases |s|
  {
    var r := ReadLine(s);
    if r.status != EndOfInput {
      LinesFit(s[r.consumed..]);
      var e := LineEnd(s);
      assert forall k :: 0 <= k < |r.line| ==> r.line[k] == s[k];
    }
  }

  // ---------------------------------------------------------------- loadBuf as written

  /** `loadBuf` as written, under the standard `getline` semantics: a line
      of exactly `MaxLineChars` characters has its newline extracted and yet
      is reported as too long, so the skip loop swallows the next line; a
      longer line makes `getline` fail, which ends the input. */
  function ReadLineAsWritten(s: string): (r: LineRead)
    ensures r.consumed <= |s|
    ensures r.status != EndOfInput ==> 0 < r.consumed
  {
    if s == [] then LineRead(EndOfInput, [], 0)
    else
      var e := LineEnd(s);
      if e < MaxLineChars then
        LineRead(Success, s[..e], if e < |s| then e + 1 else e)
      else if e == MaxLineChars then
        var after := if e < |s| then e + 1 else e;
        var e2 := LineEnd(s[after..]);
        LineRead(Overflow, s[..e], if after + e2 < |s| then after + e2 + 1 else after + e2)
      else
        LineRead(EndOfInput, s[..MaxLineChars], MaxLineChars)
  }

  function LinesAsWritten(s: string): seq<string>
    decreases |s|
  {
    var r := ReadLineAsWritten(s);
    if r.status == EndOfInput then [] else [r.line] + LinesAsWritten(s[r.consumed..])
  }

  function Repeat(c: char, n: nat): (r: string)
    ensures |r| == n && forall k :: 0 <= k < n ==> r[k] == c
  {
    if n == 0 then [] else [c] + Repeat(c, n - 1)
  }

  /** How a line and its newline sit at the front of a text. */
  lemma LineAtFront(l: string, rest: string)
    ensures (l + "\n" + rest)[..|l|] == l
    ensures (l + "\n" + rest)[|l|] == '\n'
    ensures (l + "\n" + rest)[|l| + 1..] == rest
  {
    assert l + "\n" + rest == l + ("\n" + rest);
  }

  lemma Regroup(a: string, b: string)
    ensures a + "\n" + b + "\n" == a + "\n" + (b + "\n")
  {
  }

  /** A line of exactly `MaxLineChars` characters hides the next line from
      the reader as written, while the intended reader presents both. */
  lemma ExactFullLineHidesNext(l: string, next: string)
    requires |l| == MaxLineChars && '\n' !in l && '\n' !in next
    ensures LinesAsWritten(l + "\n" + next + "\n") == [l]
    ensures Lines(l + "\n" + next + "\n") == [l, Cut(next)]
  {
    Regroup(l, next);
    var t := next + "\n";
    var s := l + "\n" + t;
    LineAtFront(l, t);
    LineEndAt(s, |l|);
    assert t == next + "\n" + [];
    LineAtFront(next, []);
    LineEndAt(t, |next|);
    assert s[|l| + 1..][|next| + 1..] == [];
    LinesCons(l, t);
    assert l[..Min(|l|, MaxLineChars)] == l;
    LinesCons(next, []);
  }

  /** A line longer than the buffer ends the input for the reader as
      written, while the intended reader cuts it and goes on. */
  lemma LongLineEndsInput(l: string, rest: string)
    requires |l| > MaxLineChars && '\n' !in l
    ensures LinesAsWritten(l + "\n" + rest) == []
    ensures Lines(l + "\n" + rest) == [l[..MaxLineChars]] + Lines(rest)
  {
    var s := l + "\n" + rest;
    LineAtFront(l, rest);
    LineEndAt(s, |l|);
    LinesCons(l, rest);
  }

  /** Concrete inputs for the two lemmas above. */
  lemma LongLineExamples(n: nat, x: string)
    requires n == MaxLineChars && x == "#include <x>"
    ensures LinesAsWritten(Repeat('a', n) + "\n" + x + "\n") == [Repeat('a', n)]
    ensures Lines(Repeat('a', n) + "\n" + x + "\n") == [Repeat('a', n), x]
    ensures LinesAsWritten(Repeat('a', n + 1) + "\n" + x + "\n") == []
  {
    ExactFullLineHidesNext(Repeat('a', n), x);
    Regroup(Repeat('a', n + 1), x);
    LongLineEndsInput(Repeat('a', n + 1), x + "\n");
  }

  // ---------------------------------------------------------------- include directives

  /** The characters that end a file name (`strcspn` with " \t\">"). */
  predicate IsNameStop(c: char)
  {
    c == ' ' || c == '\t' || c == '"' || c == '>'
  }

  /** The first position at or after `p` that is not whitespace. */
  function SkipSpaces(s: string, p: nat): (q: nat)
    requires p <= |s|
    ensures p <= q <= |s|
    decreases |s| - p
  {
    if p == |s| || !IsSpace(s[p]) then p else SkipSpaces(s, p + 1)
  }

  /** `SkipSpaces` passes over whitespace only, and all of it. */
  lemma {:induction false} SkipSpacesSpec(s: string, p: nat)
    requires p <= |s|
    ensures forall t :: p <= t < SkipSpaces(s, p) ==> IsSpace(s[t])
    ensures SkipSpaces(s, p) < |s| ==> !IsSpace(s[SkipSpaces(s, p)])
    decreases |s| - p
  {
    if p < |s| && IsSpace(s[p]) {
      SkipSpacesSpec(s, p + 1);
    }
  }

  /** Where the file name that starts at `p` ends. */
  function NameEnd(s: string, p: nat): (q: nat)
    requires p <= |s|
    ensures p <= q <= |s|
    decreases |s| - p
  {
    if p == |s| || IsNameStop(s[p]) then p else NameEnd(s, p + 1)
  }

  /** The file name runs up to the first blank, tab, quote or '>'. */
  lemma {:induction false} NameEndSpec(s: string, p: nat)
    requires p <= |s|
    ensures forall t :: p <= t < NameEnd(s, p) ==> !IsNameStop(s[t])
    ensures NameEnd(s, p) < |s| ==> IsNameStop(s[NameEnd(s, p)])
    decreases |s| - p
  {
    if p < |s| && !IsNameStop(s[p]) {
      NameEndSpec(s, p + 1);
    }
  }

  lemma {:induction false} SkipSpacesAt(s: string, p: nat, q: nat)
    requires p <= q <= |s|
    requires forall t :: p <= t < q ==> IsSpace(s[t])
    requires q == |s| || !IsSpace(s[q])
    ensures SkipSpaces(s, p) == q
    decreases q - p
  {
    if p < q {
      SkipSpacesAt(s, p + 1, q);
    }
  }

  lemma {:induction false} NameEndAt(s: string, p: nat, q: nat)
    requires p <= q <= |s|
    requires forall t :: p <= t < q ==> !IsNameStop(s[t])
    requires q == |s| || IsNameStop(s[q])
    ensures NameEnd(s, p) == q
    decreases q - p
  {
    if p < q {
      NameEndAt(s, p + 1, q);
    }
  }

  /** `line` holds "include" at position `i`. */
  predicate KeywordAt(line: string, i: nat)
  {
    i + |Keyword| <= |line| && forall t :: 0 <= t < |Keyword| ==> line[i + t] == Keyword[t]
  }

  /** The points `extractDependency` passes on its way along a line: the
      '#' (step 1 of its comment), the keyword (steps 2 and 3), the '<' or
      '"' (steps 4 and 5) and the file name (steps 6 and 7). */
  datatype Stage = AtHash | AtKeyword | AtOpening | AtName

  function StagesLeft(st: Stage): nat
  {
    match st
    case AtHash => 3
    case AtKeyword => 2
    case AtOpening => 1
    case AtName => 0
  }

  /** The rest of the scan of `line`, standing at position `p` in stage `st`. */
  function ScanFrom(line: string, p: nat, st: Stage): Option<string>
    requires p <= |line|
    decreases StagesLeft(st)
  {
    match st
    case AtHash =>
      if p == |line| || line[p] != '#' then None
      else ScanFrom(line, SkipSpaces(line, p + 1), AtKeyword)
    case AtKeyword =>
      if !KeywordAt(line, p) then None
      else ScanFrom(line, SkipSpaces(line, p + |Keyword|), AtOpening)
    case AtOpening =>
      if p == |line| || (line[p] != '<' && line[p] != '"') then None
      else ScanFrom(line, SkipSpaces(line, p + 1), AtName)
    case AtName =>
      Some(line[p..NameEnd(line, p)])
  }

  /** `extractDependency` on the text of one line: the file name of an
      include directive, or nothing. */
  function IncludeName(line: string): Option<string>
  {
    ScanFrom(line, 0, AtHash)
  }

  /** `line` is an include directive whose file name is `line[k..m]`: a
      '#', whitespace up to `i`, "include", whitespace up to `j`, a '<' or
      '"' at `j`, whitespace up to `k`, then the name, which holds no blank,
      tab, quote or '>' and ends at one of those or at the end of the line. */
  ghost predicate DirectiveAt(line: string, i: int, j: int, k: int, m: int)
  {
    && 0 < |line| && line[0] == '#'
    && 1 <= i && i + |Keyword| <= j < k <= m <= |line|
    && (forall t :: 1 <= t < i ==> IsSpace(line[t]))
    && KeywordAt(line, i)
    && (forall t :: i + |Keyword| <= t < j ==> IsSpace(line[t]))
    && (line[j] == '<' || line[j] == '"')
    && (forall t :: j + 1 <= t < k ==> IsSpace(line[t]))
    && (k == |line| || !IsSpace(line[k]))
    && (forall t :: k <= t < m ==> !IsNameStop(line[t]))
    && (m == |line| || IsNameStop(line[m]))
  }

  /** One stage of the scan taken at a time: what passing it requires. */
  lemma HashStep(line: string)
    requires IncludeName(line).Some?
    ensures 0 < |line| && line[0] == '#'
    ensures IncludeName(line) == ScanFrom(line, SkipSpaces(line, 1), AtKeyword)
  {
  }

  lemma KeywordStep(line: string, p: nat)
    requires p <= |line| && ScanFrom(line, p, AtKeyword).Some?
    ensures KeywordAt(line, p)
    ensures ScanFrom(line, p, AtKeyword) == ScanFrom(line, SkipSpaces(line, p + |Keyword|), AtOpening)
  {
  }

  lemma OpeningStep(line: string, p: nat)
    requires p <= |line| && ScanFrom(line, p, AtOpening).Some?
    ensures p < |line| && (line[p] == '<' || line[p] == '"')
    ensures ScanFrom(line, p, AtOpening) == Some(line[SkipSpaces(line, p + 1)..NameEnd(line, SkipSpaces(line, p + 1))])
  {
  }

  /** The points the scan passes are those of a directive. */
  lemma ScanPoints(line: string, i: nat, j: nat, k: nat, m: nat)
    requires 0 < |line| && line[0] == '#'
    requires i == SkipSpaces(line, 1) && KeywordAt(line, i)
    requires j == SkipSpaces(line, i + |Keyword|) && j < |line| && (line[j] == '<' || line[j] == '"')
    requires k == SkipSpaces(line, j + 1) && m == NameEnd(line, k)
    ensures DirectiveAt(line, i, j, k, m)
  {
    SkipSpacesSpec(line, 1);
    SkipSpacesSpec(line, i + |Keyword|);
    SkipSpacesSpec(line, j + 1);
    NameEndSpec(line, k);
  }

  /** Every name found comes from a line of the directive's shape. */
  lemma IncludeNameSound(line: string)
    requires IncludeName(line).Some?
    ensures exists i, j, k, m :: DirectiveAt(line, i, j, k, m) && line[k..m] == IncludeName(line).value
  {
    HashStep(line);
    var i := SkipSpaces(line, 1);
    KeywordStep(line, i);
    var j := SkipSpaces(line, i + |Keyword|);
    OpeningStep(line, j);
    var k := SkipSpaces(line, j + 1);
    var m := NameEnd(line, k);
    ScanPoints(line, i, j, k, m);
  }

  /** Every line of the directive's shape yields its name. */
  lemma IncludeNameComplete(line: string, i: int, j: int, k: int, m: int)
    requires DirectiveAt(line, i, j, k, m)
    ensures IncludeName(line) == Some(line[k..m])
  {
    assert line[i] == Keyword[0];
    SkipSpacesAt(line, 1, i);
    SkipSpacesAt(line, i + |Keyword|, j);
    SkipSpacesAt(line, j + 1, k);
    NameEndAt(line, k, m);
    assert ScanFrom(line, j, AtOpening) == ScanFrom(line, k, AtName);
    assert ScanFrom(line, i, AtKeyword) == ScanFrom(line, j, AtOpening);
  }

  lemma AngleExample(line: string)
    requires line == "#include <a.h>"
    ensures IncludeName(line) == Some("a.h")
  {
    assert KeywordAt(line, 1);
    IncludeNameComplete(line, 1, 9, 10, 13);
    assert line[10..13] == "a.h";
  }

  /** Blanks may follow '#'; the name ends at the closing quote. */
  lemma QuoteExample(line: string)
    requires line == "# include \"b.h\""
    ensures IncludeName(line) == Some("b.h")
  {
    assert KeywordAt(line, 2);
    IncludeNameComplete(line, 2, 10, 11, 14);
    assert line[11..14] == "b.h";
  }

  /** Nothing between the brackets gives the empty name. */
  lemma EmptyNameExample(line: string)
    requires line == "#include <>"
    ensures IncludeName(line) == Some("")
  {
    assert KeywordAt(line, 1);
    IncludeNameComplete(line, 1, 9, 10, 10);
    assert line[10..10] == "";
  }

  /** The '#' must be the first character, and "include" must follow it. */
  lemma NotDirectiveExamples(indented: string, define: string)
    requires indented == " #include <a.h>" && define == "#define include"
    ensures IncludeName(indented) == None
    ensures IncludeName(define) == None
  {
    assert SkipSpaces(define, 1) == 1;
    assert !KeywordAt(define, 1) by {
      assert define[1] != Keyword[0];
    }
  }

  /** What the scanner finds on one line of the file: the line is cut to
      the buffer and read as a C string. */
  function NameOfLine(l: string): Option<string>
  {
    IncludeName(CStr(Cut(l)))
  }

  /** The scanner's verdict on each line of `ls`. */
  function Verdicts(ls: seq<string>): (r: seq<Option<string>>)
    ensures |r| == |ls| && forall i {:trigger NameOfLine(ls[i])} :: 0 <= i < |ls| ==> r[i] == NameOfLine(ls[i])
  {
    if ls == [] then [] else [NameOfLine(ls[0])] + Verdicts(ls[1..])
  }

  /** The names among a list of verdicts, in order. */
  function Somes(vs: seq<Option<string>>): (r: seq<string>)
    ensures |r| <= |vs|
  {
    if vs == [] then []
    else (match vs[0] case Some(n) => [n] case None => []) + Somes(vs[1..])
  }

  /** The names of the directives among the lines `ls`, in order. */
  function NamesOf(ls: seq<string>): seq<string>
  {
    Somes(Verdicts(ls))
  }

  /** All dependencies of a file's text, in the order of its lines. */
  function Deps(s: string): seq<string>
  {
    NamesOf(Lines(s))
  }

  /** Cutting a line twice keeps what cutting it once keeps. */
  lemma NamesOfCuts(ls: seq<string>)
    ensures NamesOf(Cuts(ls)) == NamesOf(ls)
  {
    assert Verdicts(Cuts(ls)) == Verdicts(ls) by {
      forall i | 0 <= i < |ls| ensures Verdicts(Cuts(ls))[i] == Verdicts(ls)[i] {
        assert Cuts(ls)[i] == Cut(ls[i]);
        assert Cut(Cut(ls[i])) == Cut(ls[i]);
        assert NameOfLine(Cuts(ls)[i]) == NameOfLine(ls[i]);
      }
    }
  }

  /** The scanner over a file given as its lines finds what it finds in the
      text those lines make up. */
  lemma DepsOfLines(ls: seq<string>)
    requires forall i :: 0 <= i < |ls| ==> '\n' !in ls[i]
    ensures Deps(Unlines(ls)) == NamesOf(ls)
  {
    LinesUnlines(ls);
    NamesOfCuts(ls);
  }

  // ---------------------------------------------------------------- the buffer walk

  /** `while (isspace(*p)) ++p;` */
  method SkipSpace(buf: array<char>, p: int) returns (q: int)
    requires 0 <= p <= NulIndex(buf[..]) < buf.Length
    ensures p <= q <= NulIndex(buf[..])
    ensures q == SkipSpaces(CStr(buf[..]), p)
  {
    ghost var line := CStr(buf[..]);
    q := p;
    while IsSpace(buf[q])
      invariant p <= q <= NulIndex(buf[..])
      invariant forall t :: p <= t < q ==> IsSpace(buf[t])
      decreases NulIndex(buf[..]) - q
    {
      q := q + 1;
    }
    assert forall t :: 0 <= t < |line| ==> line[t] == buf[t];
    SkipSpacesAt(line, p, q);
  }

  /** `strncmp(p, "include", 7) == 0`. */
  method MatchKeyword(buf: array<char>, p: int) returns (b: bool)
    requires 0 <= p <= NulIndex(buf[..]) < buf.Length
    ensures b <==> KeywordAt(CStr(buf[..]), p)
  {
    ghost var line := CStr(buf[..]);
    var k := 0;
    while k < |Keyword| && buf[p + k] == Keyword[k]
      invariant 0 <= k <= |Keyword| && p + k <= NulIndex(buf[..])
      invariant forall t :: 0 <= t < k ==> buf[p + t] == Keyword[t]
    {
      k := k + 1;
    }
    b := k == |Keyword|;
    assert forall t :: p <= t < |line| ==> line[t] == buf[t];
    if !b && p + |Keyword| <= |line| {
      assert line[p + k] != Keyword[k];
    }
  }

  /** `strcspn(p, " \t\">")`. */
  method NameLength(buf: array<char>, p: int) returns (n: int)
    requires 0 <= p <= NulIndex(buf[..]) < buf.Length
    ensures 0 <= n && p + n <= NulIndex(buf[..])
    ensures p + n == NameEnd(CStr(buf[..]), p)
  {
    ghost var line := CStr(buf[..]);
    n := 0;
    while buf[p + n] != NullChar && !IsNameStop(buf[p + n])
      invariant 0 <= n && p + n <= NulIndex(buf[..])
      invariant forall t :: p <= t < p + n ==> !IsNameStop(buf[t])
      decreases NulIndex(buf[..]) - p - n
    {
      n := n + 1;
    }
    assert forall t :: 0 <= t < |line| ==> line[t] == buf[t];
    NameEndAt(line, p, p + n);
  }

  /** Steps 1 to 6 of `extractDependency`, which only read the buffer:
      where the file name starts and how long it is, or -1 when the line
      is not an include directive. */
  method FindName(buf: array<char>) returns (k: int, n: int)
    requires NullChar in buf[..]
    ensures k == -1 || (0 <= k && 0 <= n && k + n <= NulIndex(buf[..]))
    ensures IncludeName(CStr(buf[..])) == if k == -1 then None else Some(CStr(buf[..])[k..k + n])
  {
    ghost var line := CStr(buf[..]);
    if buf[0] != '#' {
      assert line == [] || line[0] == buf[0];
      return -1, 0;
    }
    assert line[0] == '#';
    var i := SkipSpace(buf, 1);
    k, n := FindAfterHash(buf, i);
  }

  /** Steps 3 to 6, from the first character after the blanks that follow '#'. */
  method FindAfterHash(buf: array<char>, i: int) returns (k: int, n: int)
    requires 0 <= i <= NulIndex(buf[..]) < buf.Length
    ensures k == -1 || (0 <= k && 0 <= n && k + n <= NulIndex(buf[..]))
    ensures ScanFrom(CStr(buf[..]), i, AtKeyword) == if k == -1 then None else Some(CStr(buf[..])[k..k + n])
  {
    var hasKey := MatchKeyword(buf, i);
    if !hasKey {
      return -1, 0;
    }
    var j := SkipSpace(buf, i + |Keyword|);
    k, n := FindAfterKeyword(buf, j);
  }

  /** Steps 5 and 6, from the first character after the blanks that follow
      the keyword. */
  method FindAfterKeyword(buf: array<char>, j: int) returns (k: int, n: int)
    requires 0 <= j <= NulIndex(buf[..]) < buf.Length
    ensures k == -1 || (0 <= k && 0 <= n && k + n <= NulIndex(buf[..]))
    ensures ScanFrom(CStr(buf[..]), j, AtOpening) == if k == -1 then None else Some(CStr(buf[..])[k..k + n])
  {
    ghost var line := CStr(buf[..]);
    if buf[j] != '<' && buf[j] != '"' {
      assert j == |line| || line[j] == buf[j];
      return -1, 0;
    }
    assert line[j] == buf[j];
    k := SkipSpace(buf, j + 1);
    n := NameLength(buf, k);
  }

  /** `extractDependency`: when the C string in `buf` is an include
      directive, ends the file name in place with a NUL and returns where
      the name starts; otherwise returns -1 and leaves `buf` alone. */
  method ExtractDependency(buf: array<char>) returns (r: int)
    requires NullChar in buf[..]
    modifies buf
    ensures r == -1 <==> IncludeName(CStr(old(buf[..]))) == None
    ensures r != -1 ==> 0 <= r < buf.Length && NullChar in buf[r..]
    ensures r != -1 ==> Some(CStr(buf[r..])) == IncludeName(CStr(old(buf[..])))
    ensures r == -1 ==> buf[..] == old(buf[..])
  {
    ghost var before := buf[..];
    var k, n := FindName(buf);
    assert before == buf[..];
    if k == -1 {
      return -1;
    }
    ghost var name := CStr(before)[k..k + n];
    buf[k + n] := NullChar;
    r := k;
    assert buf[r..][..n] == name by {
      forall t | 0 <= t < n ensures buf[r..][t] == name[t] {
        assert buf[k + t] == before[k + t];
      }
    }
    assert buf[r..][n] == NullChar;
    NulIndexAt(buf[r..], n);
  }

  // ---------------------------------------------------------------- the iterator

  /** A buffer that starts with `l` and a NUL holds the C string of `l`. */
  lemma CStrOfPrefix(s: string, l: string)
    requires |l| < |s| && s[..|l|] == l && s[|l|] == NullChar
    ensures NullChar in s && CStr(s) == CStr(l)
  {
    var z := NulIndex(l);
    assert s[..z] == l[..z];
    if z < |l| {
      assert s[z] == l[z];
    }
    NulIndexAt(s, z);
  }

  class FileDepIterator {
    /** The lines of the file, each without its newline; none when the file
        could not be opened. */
    const lines: seq<string>
    /** `d_isValidFile`. */
    const isValidFile: bool
    /** How many lines of the file have been read. */
    var next: nat
    /** The stream's fail state: set once a read found no line left. */
    var failed: bool
    /** `d_buf`. */
    var buf: array<char>
    /** `d_header_p` as an index into `buf`; -1 is NULL. */
    var header: int

    /** The scanner's verdict on each line: `Verdicts(lines)`. */
    ghost const verdicts: seq<Option<string>>
    /** Every dependency of the file, in order: `NamesOf(lines)`. */
    ghost const AllDeps: seq<string>
    /** The dependencies passed over before the current one. */
    ghost var Seen: seq<string>
    ghost var Repr: set<object>

    /** The representation, whether or not a dependency is loaded. */
    ghost predicate Shape()
      reads this
    {
      && Repr == {this, buf}
      && buf.Length == MaxLineLength
      && next <= |lines|
      && |verdicts| == |lines|
      && (forall i {:trigger NameOfLine(lines[i])} :: 0 <= i < |lines| ==> verdicts[i] == NameOfLine(lines[i]))
      && (!isValidFile ==> lines == [])
      && (failed ==> next == |lines|)
    }

    ghost predicate Valid()
      reads this, Repr
    {
      && Shape()
      && -1 <= header < MaxLineLength
      && (header >= 0 ==> NullChar in buf[header..])
      && (header < 0 <==> failed)
      && AllDeps == Somes(verdicts)
      && Seen + Yielded() + Pending() == AllDeps
    }

    /** The current dependency as a one-element list, or the empty list. */
    ghost function Yielded(): (r: seq<string>)
      reads this, buf
      ensures |r| <= 1
    {
      if 0 <= header < buf.Length then [CStr(buf[header..])] else []
    }

    /** The dependencies still to come after the current one. */
    ghost function Pending(): seq<string>
      reads this
      requires next <= |verdicts|
    {
      Somes(verdicts[next..])
    }

    /** `operator const void *`: whether there is a current dependency. */
    predicate IsValid()
      reads this
    {
      header >= 0
    }

    /** `operator()`: the current dependency, or nothing (NULL). */
    function Name(): (r: Option<string>)
      requires Valid()
      reads Repr
      ensures r.Some? <==> IsValid()
      ensures r.Some? ==> [r.value] == Yielded()
    {
      if header >= 0 then Some(CStr(buf[header..])) else None
    }

    /** `isValidFile`. */
    function IsValidFile(): (b: bool)
      reads this
      ensures b == isValidFile
    {
      isValidFile
    }

    /** Opens `file` (`None` when it cannot be opened) and loads the first
        dependency. */
    constructor (file: Option<seq<string>>)
      ensures Valid() && fresh(Repr)
      ensures isValidFile == file.Some?
      ensures lines == if file.Some? then file.value else []
      ensures Seen == []
      ensures AllDeps == NamesOf(lines)
    {
      var ls := if file.Some? then file.value else [];
      ghost var vs := Verdicts(ls);
      lines := ls;
      isValidFile := file.Some?;
      next := 0;
      failed := false;
      buf := new char[MaxLineLength];
      header := if file.Some? then 0 else -1;
      Seen := [];
      verdicts := vs;
      AllDeps := Somes(vs);
      new;
      Repr := {this, buf};
      assert verdicts[0..] == verdicts;
      Load();
    }

    /** `loadBuf`: reads the next line into the buffer, cut to fit and
        NUL-terminated, and reports -1 at the end of the file, 1 for a cut
        line and 0 otherwise. */
    method LoadBuf() returns (status: int)
      requires Shape()
      modifies this, buf
      ensures Shape() && Repr == old(Repr)
      ensures buf == old(buf) && header == old(header) && Seen == old(Seen)
      ensures old(next) == |lines| ==> status == -1 && next == old(next) && buf[..] == old(buf[..])
      ensures old(next) < |lines| ==>
        var l := Cut(lines[old(next)]);
        && status == StatusCode(StatusOf(lines[old(next)]))
        && next == old(next) + 1
        && buf[..|l| + 1] == l + [NullChar]
      ensures failed <==> status < 0
    {
      if next == |lines| {
        failed := true;
        return -1;
      }
      var l := Cut(lines[next]);
      forall k | 0 <= k < |l| {
        buf[k] := l[k];
      }
      buf[|l|] := NullChar;
      assert buf[..|l| + 1] == l + [NullChar];
      status := StatusCode(StatusOf(lines[next]));
      next := next + 1;
    }

    /** One turn of the loop in `operator++`: loads the next line and
        looks for a directive on it. */
    method ScanLine() returns (status: int)
      requires Shape()
      modifies this, buf
      ensures Shape() && Repr == old(Repr) && Seen == old(Seen) && buf == old(buf)
      ensures failed <==> status < 0
      ensures old(next) == |lines| ==> status < 0 && next == old(next) && header == old(header)
      ensures old(next) < |lines| ==>
        && status >= 0 && next == old(next) + 1
        && -1 <= header < MaxLineLength
        && (header >= 0 ==> NullChar in buf[header..])
        && (header >= 0 <==> NameOfLine(lines[old(next)]).Some?)
        && (header >= 0 ==> Some(CStr(buf[header..])) == NameOfLine(lines[old(next)]))
    {
      ghost var before := next;
      status := LoadBuf();
      if status < 0 {
        return;
      }
      ghost var l := Cut(lines[before]);
      assert buf[..][..|l| + 1] == l + [NullChar];
      assert (l + [NullChar])[..|l|] == l;
      CStrOfPrefix(buf[..], l);
      header := ExtractDependency(buf);
    }

    /** The loop of `operator++`: reads lines until one is a directive or
        none is left. */
    method ScanToDirective()
      requires Shape()
      modifies Repr
      ensures Shape() && Repr == old(Repr) && Seen == old(Seen)
      ensures -1 <= header < MaxLineLength
      ensures header >= 0 ==> NullChar in buf[header..]
      ensures header < 0 <==> failed
      ensures header >= 0 <==> old(Pending()) != []
      ensures Yielded() + Pending() == old(Pending())
    {
      header := -1;
      while true
        invariant Shape() && header == -1
        invariant Pending() == old(Pending())
        invariant Repr == old(Repr) && Seen == old(Seen)
        decreases |lines| - next
      {
        ghost var before := next;
        var status := ScanLine();
        if status < 0 {
          break;
        }
        assert verdicts[before] == NameOfLine(lines[before]);
        assert verdicts[before..][1..] == verdicts[next..];
        if header >= 0 {
          break;
        }
      }
    }

    /** The body of `operator++`, from any state whose dependencies still
        to come are `Pending()`. */
    method Load()
      requires Shape() && AllDeps == Somes(verdicts) && Seen + Pending() == AllDeps
      modifies Repr
      ensures Valid() && Repr == old(Repr) && Seen == old(Seen)
      ensures header >= 0 <==> old(Pending()) != []
    {
      ScanToDirective();
      assert Seen + Yielded() + Pending() == AllDeps;
    }

    /** `operator++`: moves to the next dependency. */
    method Advance()
      requires Valid()
      modifies Repr
      ensures Valid() && Repr == old(Repr)
      ensures Seen == old(Seen) + old(Yielded())
    {
      Seen := Seen + Yielded();
      Load();
    }

    /** `reset` as written: rewinding with `seekg` does nothing once the
        stream has failed, so after a run to the end the iterator stays
        exhausted; before that it starts over from the first dependency. */
    method Reset()
      requires Valid()
      modifies Repr
      ensures Valid() && Repr == old(Repr)
      ensures old(failed) ==> !IsValid() && Seen == old(Seen)
      ensures !old(failed) ==> Seen == []
    {
      if !failed {
        next := 0;
        Seen := [];
        assert verdicts[0..] == verdicts;
      } else {
        assert Seen + Pending() == AllDeps;
      }
      failed := false;
      header := 0;
      Load();
    }

    /** `reset` as evidently intended: always back to the first dependency. */
    method Rewind()
      requires Valid()
      modifies Repr
      ensures Valid() && Repr == old(Repr)
      ensures Seen == []
    {
      next := 0;
      failed := false;
      Seen := [];
      header := 0;
      assert verdicts[0..] == verdicts;
      Load();
    }

    /** There is a current dependency exactly when dependencies remain. */
    lemma CurrentIffRemaining()
      requires Valid()
      ensures IsValid() <==> Yielded() + Pending() != []
      ensures IsValid() ==> Name() == Some((Yielded() + Pending())[0])
    {
      if !IsValid() {
        assert verdicts[next..] == [];
      }
    }
  }

  /** Advances `it` past its last dependency. */
  method RunToEnd(it: FileDepIterator)
    requires it.Valid()
    modifies it.Repr
    ensures it.Valid() && it.Repr == old(it.Repr)
    ensures !it.IsValid() && it.failed
  {
    while it.IsValid()
      invariant it.Valid() && it.Repr == old(it.Repr)
      decreases |it.Yielded()| + |it.Pending()|
    {
      it.Advance();
    }
  }

  /** A one-line file holding one directive. */
  lemma OneDirective(line: string)
    requires line == "#include <x>"
    ensures NamesOf([line]) == ["x"]
  {
    assert CStr(line) == line by {
      NulIndexAt(line, 12);
    }
    assert KeywordAt(line, 1);
    IncludeNameComplete(line, 1, 9, 10, 11);
    assert line[10..11] == "x";
    assert NameOfLine(line) == Some("x");
    assert Verdicts([line]) == [Some("x")];
  }

  /** After a run to the end, `Reset` finds nothing in a file that has a
      dependency, while `Rewind` finds it again. */
  method ResetAfterEnd(line: string) returns (validAfterReset: bool, afterRewind: Option<string>)
    requires line == "#include <x>"
    ensures !validAfterReset && afterRewind == Some("x")
  {
    var it := new FileDepIterator(Some([line]));
    OneDirective(line);
    assert it.AllDeps == ["x"];
    RunToEnd(it);
    it.Reset();
    validAfterReset := it.IsValid();
    it.Rewind();
    assert it.Yielded() + it.Pending() == ["x"] by {
      assert [] + it.Yielded() == it.Yielded();
    }
    it.CurrentIffRemaining();
    assert it.IsValid();
    afterRewind := it.Name();
  }
}
