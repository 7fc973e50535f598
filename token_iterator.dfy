/** The token scanner (`TokenIterator`): splits a character stream into
    maximal whitespace-free words and single newline tokens. */
module TokenScan {
  import opened Text

  const NewLineChar: char := '\n'
  const NullChar: char := '\0'
  /** Initial buffer size and its growth factor. */
  const StartSize: int := 1
  const GrowFactor: int := 2

  /** Length of the run of non-whitespace characters that starts `s`. */
  function WordLength(s: string): (n: nat)
    ensures n <= |s|
    ensures NoSpace(s[..n])
    ensures n < |s| ==> IsSpace(s[n])
  {
    if s == [] || IsSpace(s[0]) then 0
    else
      var m := WordLength(s[1..]);
      assert s[..m + 1] == [s[0]] + s[1..][..m];
      m + 1
  }

  /** The tokens of `s`, in order: each newline is a token of its own, every
      other whitespace character separates, and every maximal whitespace-free
      run is a word token. */
  function Tokens(s: string): seq<string>
    decreases |s|
  {
    if s == [] then []
    else if s[0] == NewLineChar then ["\n"] + Tokens(s[1..])
    else if IsSpace(s[0]) then Tokens(s[1..])
    else
      var n := WordLength(s);
      [s[..n]] + Tokens(s[n..])
  }

  /** A token is either exactly a newline or a non-empty word without whitespace. */
  ghost predicate WellFormedToken(t: string)
  {
    t == "\n" || (t != [] && NoSpace(t))
  }

  lemma {:induction false} TokensWellFormed(s: string)
    ensures forall k :: 0 <= k < |Tokens(s)| ==> WellFormedToken(Tokens(s)[k])
    decreases |s|
  {
    if s == [] {
    } else if s[0] == NewLineChar || IsSpace(s[0]) {
      TokensWellFormed(s[1..]);
    } else {
      TokensWellFormed(s[WordLength(s)..]);
    }
  }

  /** The word length is determined by where the first whitespace is. */
  lemma {:induction false} WordLengthAt(s: string, n: nat)
    requires n <= |s| && NoSpace(s[..n]) && (n == |s| || IsSpace(s[n]))
    ensures WordLength(s) == n
    decreases n
  {
    if n > 0 {
      assert !IsSpace(s[..n][0]);
      assert s[1..][..n - 1] == s[..n][1..];
      WordLengthAt(s[1..], n - 1);
    }
  }

  /** A word that ends at whitespace or at the end of the stream is one token. */
  lemma WordThenRest(s: string, n: nat)
    requires 0 < n <= |s| && NoSpace(s[..n]) && (n == |s| || IsSpace(s[n]))
    ensures Tokens(s) == [s[..n]] + Tokens(s[n..])
  {
    WordLengthAt(s, n);
    assert !IsSpace(s[..n][0]);
  }

  /** The token a separating whitespace character contributes. */
  function Separator(c: char): seq<string>
  {
    if c == NewLineChar then ["\n"] else []
  }

  /** What a single whitespace character in front of `rest` contributes. */
  lemma SpaceThenRest(c: char, rest: string)
    requires IsSpace(c)
    ensures Tokens([c] + rest) == Separator(c) + Tokens(rest)
  {
    assert ([c] + rest)[1..] == rest;
  }

  /** The word in progress, as a token list: nothing when it is empty. */
  function Flush(word: string): seq<string>
  {
    if word == [] then [] else [word]
  }

  /** Tokenizing one character at a time, the way the scanner reads the
      stream: `word` holds the characters of the word in progress. */
  function Lex(s: string, word: string): seq<string>
  {
    if s == [] then Flush(word)
    else if IsSpace(s[0]) then Flush(word) + Separator(s[0]) + Lex(s[1..], [])
    else Lex(s[1..], word + [s[0]])
  }

  /** Reading a run of non-whitespace only extends the word in progress. */
  lemma {:induction false} LexRun(s: string, word: string, n: nat)
    requires n <= |s| && NoSpace(s[..n])
    ensures Lex(s, word) == Lex(s[n..], word + s[..n])
    decreases n
  {
    if n > 0 {
      assert !IsSpace(s[..n][0]);
      assert s[1..][..n - 1] == s[..n][1..];
      LexRun(s[1..], word + [s[0]], n - 1);
      assert s[1..][n - 1..] == s[n..];
      assert word + [s[0]] + s[1..][..n - 1] == word + s[..n];
    } else {
      assert s[0..] == s && word + s[..0] == word;
    }
  }

  /** The one-character-at-a-time reading yields exactly the maximal-run
      tokens. */
  lemma {:induction false} LexTokens(s: string)
    ensures Lex(s, []) == Tokens(s)
    decreases |s|
  {
    if s == [] {
    } else if IsSpace(s[0]) {
      LexTokens(s[1..]);
      SpaceThenRest(s[0], s[1..]);
      assert s == [s[0]] + s[1..];
    } else {
      var n := WordLength(s);
      if n < |s| {
        LexTokens(s[n + 1..]);
      }
      LexWord(s, n);
    }
  }

  /** The step of `LexTokens` for a stream that starts with a word. */
  lemma LexWord(s: string, n: nat)
    requires s != [] && !IsSpace(s[0]) && n == WordLength(s)
    requires n < |s| ==> Lex(s[n + 1..], []) == Tokens(s[n + 1..])
    ensures Lex(s, []) == Tokens(s)
  {
    assert 0 < n by {
      assert n == WordLength(s[1..]) + 1;
    }
    var w, rest := s[..n], s[n..];
    calc {
      Lex(s, []);
    == { LexRun(s, [], n); assert [] + w == w; }
      Lex(rest, w);
    == { LexAfterWord(s, n); }
      [w] + Tokens(rest);
    == { WordThenRest(s, n); }
      Tokens(s);
    }
  }

  /** What follows the word `s[..n]` when it is read one character at a time. */
  lemma LexAfterWord(s: string, n: nat)
    requires 0 < n <= |s| && (n < |s| ==> IsSpace(s[n]))
    requires n < |s| ==> Lex(s[n + 1..], []) == Tokens(s[n + 1..])
    ensures Lex(s[n..], s[..n]) == [s[..n]] + Tokens(s[n..])
  {
    if n < |s| {
      assert s[n..] == [s[n]] + s[n + 1..];
      LexAfterWordSpace(s[n], s[n + 1..], s[..n]);
    } else {
      assert s[n..] == [];
    }
  }

  lemma LexAfterWordSpace(c: char, t: string, w: string)
    requires IsSpace(c) && w != [] && Lex(t, []) == Tokens(t)
    ensures Lex([c] + t, w) == [w] + Tokens([c] + t)
  {
    assert ([c] + t)[0] == c && ([c] + t)[1..] == t;
  }

  /** A non-empty whitespace-free string is exactly one token. */
  lemma SingleWord(w: string)
    requires w != [] && NoSpace(w)
    ensures Tokens(w) == [w]
  {
    assert w[..|w|] == w;
    WordThenRest(w, |w|);
    assert w[|w|..] == [];
  }

  lemma {:induction false} LexSplit(a: string, c: char, b: string, word: string)
    requires IsSpace(c)
    ensures Lex(a + [c] + b, word) == Lex(a, word) + Separator(c) + Lex(b, [])
    decreases |a|
  {
    var s := a + [c] + b;
    if a == [] {
      assert s[0] == c && s[1..] == b;
    } else {
      assert s[0] == a[0] && s[1..] == a[1..] + [c] + b;
      if IsSpace(a[0]) {
        LexSplit(a[1..], c, b, []);
      } else {
        LexSplit(a[1..], c, b, word + [a[0]]);
      }
    }
  }

  /** One whitespace character splits the stream: what comes before it and
      what comes after it are tokenized independently, and the separator
      contributes a token only when it is a newline. */
  lemma TokensSplit(a: string, c: char, b: string)
    requires IsSpace(c)
    ensures Tokens(a + [c] + b) == Tokens(a) + Separator(c) + Tokens(b)
  {
    LexSplit(a, c, b, []);
    LexTokens(a + [c] + b);
    LexTokens(a);
    LexTokens(b);
  }

  /** The characters that survive tokenizing: newlines and non-whitespace. */
  function Kept(s: string): string
  {
    if s == [] then []
    else (if s[0] == NewLineChar || !IsSpace(s[0]) then [s[0]] else []) + Kept(s[1..])
  }

  function Concat(ts: seq<string>): string
  {
    if ts == [] then [] else ts[0] + Concat(ts[1..])
  }

  lemma {:induction false} ConcatAppend(xs: seq<string>, ys: seq<string>)
    ensures Concat(xs + ys) == Concat(xs) + Concat(ys)
    decreases |xs|
  {
    if xs != [] {
      assert (xs + ys)[1..] == xs[1..] + ys;
      ConcatAppend(xs[1..], ys);
    } else {
      assert xs + ys == ys;
    }
  }

  lemma {:induction false} LexKeeps(s: string, word: string)
    ensures Concat(Lex(s, word)) == word + Kept(s)
    decreases |s|
  {
    if s == [] {
      assert Concat(Flush(word)) == word;
    } else {
      assert s == [s[0]] + s[1..];
      if IsSpace(s[0]) {
        LexKeeps(s[1..], []);
        LexKeepsSpace(s[0], s[1..], word);
      } else {
        LexKeeps(s[1..], word + [s[0]]);
        LexKeepsWord(s[0], s[1..], word);
      }
    }
  }

  lemma LexKeepsSpace(c: char, t: string, word: string)
    requires IsSpace(c) && Concat(Lex(t, [])) == Kept(t)
    ensures Concat(Lex([c] + t, word)) == word + Kept([c] + t)
  {
    var s := [c] + t;
    assert s[0] == c && s[1..] == t;
    var sep := if c == NewLineChar then [c] else [];
    calc {
      Concat(Lex(s, word));
      Concat(Flush(word) + Separator(c) + Lex(t, []));
    == { ConcatAppend(Flush(word) + Separator(c), Lex(t, []));
         ConcatAppend(Flush(word), Separator(c)); }
      Concat(Flush(word)) + Concat(Separator(c)) + Concat(Lex(t, []));
    == { assert Concat(Flush(word)) == word; assert Concat(Separator(c)) == sep; }
      word + sep + Kept(t);
      word + (sep + Kept(t));
    }
  }

  lemma LexKeepsWord(c: char, t: string, word: string)
    requires !IsSpace(c) && Concat(Lex(t, word + [c])) == word + [c] + Kept(t)
    ensures Concat(Lex([c] + t, word)) == word + Kept([c] + t)
  {
    LexWordStep(c, t, word);
    KeptWordStep(c, t);
    assert word + [c] + Kept(t) == word + ([c] + Kept(t));
  }

  lemma LexWordStep(c: char, t: string, word: string)
    requires !IsSpace(c)
    ensures Lex([c] + t, word) == Lex(t, word + [c])
  {
    assert ([c] + t)[0] == c && ([c] + t)[1..] == t;
  }

  lemma KeptWordStep(c: char, t: string)
    requires !IsSpace(c)
    ensures Kept([c] + t) == [c] + Kept(t)
  {
    assert ([c] + t)[0] == c && ([c] + t)[1..] == t;
  }

  /** Nothing but whitespace other than newline is lost, and nothing is
      reordered: the tokens spell out exactly the kept characters of `s`. */
  lemma TokensKeepEverything(s: string)
    ensures Concat(Tokens(s)) == Kept(s)
  {
    LexTokens(s);
    LexKeeps(s, []);
  }

  class TokenIterator {
    /** The characters of the stream, `pos` of which have been consumed. */
    const input: string
    var pos: nat
    /** `buf_`, `size_`, `length_`, `newline_flag_`. */
    var buf: array<char>
    var size: int
    var length: int
    var newlineFlag: bool

    /** The tokens passed over before the current one. */
    ghost var Seen: seq<string>
    ghost var Repr: set<object>

    /** The representation, whether or not a token is loaded. */
    ghost predicate Ready()
      reads this, Repr
    {
      && Repr == {this, buf}
      && size == buf.Length && size >= 1
      && pos <= |input|
      && -1 <= length <= size
    }

    /** `operator const void *`: non-zero iff the current token is valid. */
    predicate IsValid()
      reads this
    {
      length >= 0
    }

    /** The tokens still to come after the current one. */
    ghost function Pending(): seq<string>
      reads this
      requires pos <= |input|
    {
      (if newlineFlag then ["\n"] else []) + Lex(input[pos..], [])
    }

    ghost predicate Valid()
      reads this, Repr
    {
      && Ready()
      && length != 0
      && (length > 0 ==> buf[length - 1] == NullChar)
      && Seen + (if length > 0 then [buf[..length - 1]] else []) + Pending() == Tokens(input)
      && (length < 0 ==> Pending() == [])
    }

    /** `operator()`: the current token, without its terminating NUL, which
        the buffer holds right after it. */
    function Current(): (t: string)
      requires Valid() && IsValid()
      reads Repr
      ensures 0 < length && buf[length - 1] == NullChar
      ensures t == buf[..length - 1]
      ensures WellFormedToken(t)
    {
      TokensWellFormed(input);
      assert Tokens(input)[|Seen|] == buf[..length - 1];
      buf[..length - 1]
    }

    /** The current token and those after it, in order: the part of the
        stream's tokens not yet passed over. */
    ghost function Rest(): (r: seq<string>)
      requires Valid()
      reads Repr
      ensures r == [] <==> !IsValid()
      ensures IsValid() ==> r[0] == Current()
    {
      if IsValid() then [Current()] + Pending() else []
    }

    /** Creates the iterator and loads the first token at once. */
    constructor (stream: string)
      ensures Valid() && fresh(Repr)
      ensures input == stream && Seen == []
      ensures IsValid() <==> Tokens(stream) != []
      ensures IsValid() ==> [Current()] + Pending() == Tokens(stream)
    {
      input := stream;
      pos := 0;
      buf := new char[StartSize];
      size := StartSize;
      length := 0;
      newlineFlag := false;
      Seen := [];
      new;
      Repr := {this, buf};
      ghost var p0 := Pending();
      assert p0 == Tokens(input) by {
        assert input[0..] == input;
        LexTokens(input);
      }
      Load();
      assert Seen + (if length > 0 then [buf[..length - 1]] else []) + Pending() == p0 by {
        assert length > 0 ==> [] + [buf[..length - 1]] + Pending() == p0;
      }
    }

    /** `Grow`: doubles the buffer, keeping its contents. */
    method Grow()
      requires Ready()
      modifies this
      ensures Ready() && fresh(buf)
      ensures size == old(size) * GrowFactor
      ensures buf[..old(size)] == old(buf[..])
      ensures length == old(length) && pos == old(pos) && newlineFlag == old(newlineFlag)
      ensures Seen == old(Seen)
    {
      var newSize := size * GrowFactor;
      var tmp := buf;
      buf := new char[newSize];
      forall k | 0 <= k < size {
        buf[k] := tmp[k];
      }
      size := newSize;
      Repr := {this, buf};
    }

    /** `AddChar`: appends `ch` to the token buffer, growing it when full. */
    method AddChar(ch: char)
      requires Ready() && 0 <= length
      modifies Repr
      ensures Ready() && fresh(Repr - old(Repr))
      ensures length == old(length) + 1 && length <= size
      ensures buf[..length] == old(buf[..length]) + [ch]
      ensures pos == old(pos) && newlineFlag == old(newlineFlag) && Seen == old(Seen)
    {
      if length >= size {
        Grow();
      }
      assert length < size;
      buf[length] := ch;
      length := length + 1;
    }

    /** The body of `operator++`: gathers the next token into the buffer and
        terminates it with a NUL, or marks the iterator invalid when the
        stream has no token left. */
    method Load()
      requires Ready() && length >= 0
      modifies Repr
      ensures Ready() && fresh(Repr - old(Repr))
      ensures length != 0 && Seen == old(Seen)
      ensures length > 0 ==> buf[length - 1] == NullChar
      ensures length > 0 <==> old(Pending()) != []
      ensures length > 0 ==> [buf[..length - 1]] + Pending() == old(Pending())
      ensures length < 0 ==> Pending() == []
    {
      length := 0;
      if newlineFlag {
        newlineFlag := false;
        AddChar(NewLineChar);
        assert buf[..length] == "\n";
      } else {
        Scan();
      }
      ghost var tok := buf[..length];
      if length > 0 {
        AddChar(NullChar);
        assert buf[..length - 1] == tok;
      } else {
        length := -1;
      }
    }

    /** The reading loop of `operator++`: skips whitespace other than newline,
        then takes either a newline or a maximal word.  A newline that ends a
        word is held back in `newlineFlag` for the next call. */
    method Scan()
      requires Ready() && length == 0 && !newlineFlag
      modifies Repr
      ensures Ready() && fresh(Repr - old(Repr)) && Seen == old(Seen)
      ensures length >= 0 && pos <= |input|
      ensures length > 0 ==>
        Lex(input[old(pos)..], []) ==
        [buf[..length]] + (if newlineFlag then ["\n"] else []) + Lex(input[pos..], [])
      ensures length == 0 ==> Lex(input[old(pos)..], []) == [] && pos == |input| && !newlineFlag
    {
      var start := pos;
      ghost var found := false;
      while pos < |input|
        invariant Ready() && fresh(Repr - old(Repr))
        invariant start <= pos <= |input| && !newlineFlag && !found
        invariant 0 <= length <= pos - start
        invariant Lex(input[pos..], buf[..length]) == Lex(input[start..], [])
        invariant Seen == old(Seen)
        decreases |input| - pos
      {
        var c := input[pos];
        ghost var word := buf[..length];
        assert input[pos..][0] == c && input[pos..][1..] == input[pos + 1..];
        pos := pos + 1;
        if length > 0 {
          if IsSpace(c) {
            if c == NewLineChar {
              newlineFlag := true;
            }
            found := true;
            break;
          }
          AddChar(c);
        } else {
          if IsSpace(c) {
            if c == NewLineChar {
              AddChar(NewLineChar);
              assert buf[..length] == "\n";
              found := true;
              break;
            }
            continue;
          }
          AddChar(c);
        }
      }
      assert !found ==> input[pos..] == [];
    }

    /** `operator++`: moves to the next token; the current one must be valid. */
    method Advance()
      requires Valid() && IsValid()
      modifies Repr
      ensures Valid() && fresh(Repr - old(Repr))
      ensures Seen == old(Seen) + [old(Current())]
      ensures IsValid() <==> old(Pending()) != []
      ensures IsValid() ==> [Current()] + Pending() == old(Pending())
      ensures !IsValid() ==> Pending() == []
      ensures Rest() == old(Rest())[1..]
    {
      Seen := Seen + [Current()];
      Load();
    }
  }
}
