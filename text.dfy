/** Character classes and the small path-string helpers shared by the
    dependency resolver and the alias tools.  A C string is modelled as the
    sequence of its characters without the terminating NUL. */
module Text {

  /** `isspace` in the "C" locale: space, '\t', '\n', '\v', '\f' and '\r'. */
  predicate IsSpace(c: char)
  {
    c == ' ' || ('\t' <= c <= '\r')
  }

  /** True when `s` has no whitespace character at all. */
  predicate NoSpace(s: string)
  {
    forall k :: 0 <= k < |s| ==> !IsSpace(s[k])
  }

  /** Every character of `s` is a 7-bit ASCII character (`isascii`). */
  predicate IsAscii(s: string)
  {
    forall k :: 0 <= k < |s| ==> s[k] as int < 128
  }

  /** A path is absolute when its first character is '/' (an empty string is not). */
  predicate IsAbsolutePath(s: string)
  {
    |s| > 0 && s[0] == '/'
  }

  /** `s` consists of nothing but "./" pairs. */
  ghost predicate DotSlashes(s: string)
  {
    |s| % 2 == 0 && forall k :: 0 <= k < |s| / 2 ==> s[2 * k] == '.' && s[2 * k + 1] == '/'
  }

  /** `s` with every leading "./" pair removed (see `DotSlashStrippedParts`). */
  function DotSlashStripped(s: string): string
    decreases |s|
  {
    if |s| >= 2 && s[0] == '.' && s[1] == '/' then DotSlashStripped(s[2..]) else s
  }

  /** The stripped name is a suffix that does not start with "./", and what
      was removed is a run of "./" pairs. */
  lemma {:induction false} DotSlashStrippedParts(s: string)
    ensures var r := DotSlashStripped(s);
      && |r| <= |s| && r == s[|s| - |r|..]
      && DotSlashes(s[..|s| - |r|])
      && !(|r| >= 2 && r[0] == '.' && r[1] == '/')
    decreases |s|
  {
    if |s| >= 2 && s[0] == '.' && s[1] == '/' {
      var t := s[2..];
      DotSlashStrippedParts(t);
      var r := DotSlashStripped(t);
      DotSlashesCons(t[..|t| - |r|]);
      assert s[..|s| - |r|] == "./" + t[..|t| - |r|];
      assert s[|s| - |r|..] == t[|t| - |r|..];
    } else {
      assert s[..0] == [] && s[0..] == s;
    }
  }

  lemma DotSlashesCons(p: string)
    requires DotSlashes(p)
    ensures DotSlashes("./" + p)
  {
    var q := "./" + p;
    forall k | 0 <= k < |q| / 2 ensures q[2 * k] == '.' && q[2 * k + 1] == '/' {
      if k > 0 { assert q[2 * k] == p[2 * (k - 1)] && q[2 * k + 1] == p[2 * (k - 1) + 1]; }
    }
  }

  /** The loop of `stripDotSlash`: advance over "./" pairs while there are any. */
  method StripDotSlash(path: string) returns (r: string)
    ensures r == DotSlashStripped(path)
  {
    var i := 0;
    while i + 1 < |path| && path[i] == '.' && path[i + 1] == '/'
      invariant 0 <= i <= |path|
      invariant DotSlashStripped(path[i..]) == DotSlashStripped(path)
      decreases |path| - i
    {
      assert path[i..][2..] == path[i + 2..];
      i := i + 2;
    }
    r := path[i..];
  }

  /** Index of the last occurrence of `c` in `s`, if any (`strrchr`). */
  function LastIndexOf(s: string, c: char): (r: int)
    ensures -1 <= r < |s|
    ensures r >= 0 ==> s[r] == c
    ensures forall k :: r < k < |s| ==> s[k] != c
  {
    if s == [] then -1
    else if s[|s| - 1] == c then |s| - 1
    else LastIndexOf(s[..|s| - 1], c)
  }

  /** `stripDir`: the text after the last '/', or all of `s` when it has none. */
  function StripDir(s: string): (r: string)
    ensures |r| <= |s| && r == s[|s| - |r|..]
    ensures '/' !in r
    ensures |r| < |s| ==> s[|s| - |r| - 1] == '/'
  {
    var k := LastIndexOf(s, '/');
    if k < 0 then s else s[k + 1..]
  }

  /** `removeSuffix`: cut `s` at its last '.', but only when no '/' follows
      that dot (so the dot lies in the final path segment). */
  function RemoveSuffix(s: string): (r: string)
  {
    var k := LastIndexOf(s, '.');
    if k >= 0 && '/' !in s[k..] then s[..k] else s
  }

  lemma RemoveSuffixSpec(s: string)
    ensures |RemoveSuffix(s)| <= |s| && RemoveSuffix(s) == s[..|RemoveSuffix(s)|]
    ensures RemoveSuffix(s) != s <==>
      exists k :: 0 <= k < |s| && s[k] == '.' && '.' !in s[k + 1..] && '/' !in s[k..]
    ensures RemoveSuffix(s) != s ==> s[|RemoveSuffix(s)|] == '.' && '/' !in s[|RemoveSuffix(s)|..]
  {
    var k := LastIndexOf(s, '.');
    if k >= 0 && '/' !in s[k..] {
      assert s[k] == '.' && '.' !in s[k + 1..];
      assert |s[..k]| < |s|;
    } else {
      forall j | 0 <= j < |s| && s[j] == '.' && '.' !in s[j + 1..]
        ensures '/' in s[j..]
      {
        assert j <= k;
      }
    }
  }

  lemma RemoveSuffixExamples()
    ensures RemoveSuffix("a/.b") == "a/"
    ensures RemoveSuffix("a.b/c") == "a.b/c"
    ensures RemoveSuffix("x.y.h") == "x.y"
  {
    assert LastIndexOf("a/.b", '.') == 2;
    assert "a.b/c"[..4] == "a.b/" && "a.b/"[..3] == "a.b" && "a.b"[..2] == "a.";
    assert LastIndexOf("a.b/c", '.') == 1;
    assert "a.b/c"[1..][2] == '/';
    assert LastIndexOf("x.y.h", '.') == 3;
  }

  /** `th`: the English ordinal suffix used in diagnostics. */
  function Th(n: int): (r: string)
    ensures r == "st" <==> n == 1
    ensures r == "nd" <==> n == 2
    ensures r == "rd" <==> n == 3
    ensures r == "th" <==> n != 1 && n != 2 && n != 3
  {
    if n == 1 then "st" else if n == 2 then "nd" else if n == 3 then "rd" else "th"
  }
}
