/** The multiplicative string hash used by both hash tables. */
module Hashing {

  /** Starting value of the accumulator (1,000,003, a prime). */
  const Seed: nat := 1000003
  /** `unsigned` arithmetic wraps around modulo 2^32. */
  const Modulus: nat := 0x1_0000_0000

  /** The hash of `s`: the seed multiplied by the code of every character,
      reduced modulo 2^32 after each product. */
  function HashOf(s: string): (h: nat)
    ensures h < Modulus
    decreases |s|
  {
    if s == [] then Seed
    else (HashOf(s[..|s| - 1]) * (s[|s| - 1] as int)) % Modulus
  }

  /** The loop of `hash`. */
  method Hash(name: string) returns (sum: nat)
    ensures sum == HashOf(name)
    ensures sum < Modulus
  {
    sum := Seed;
    var i := 0;
    while i < |name|
      invariant 0 <= i <= |name|
      invariant sum == HashOf(name[..i])
    {
      assert name[..i + 1][..i] == name[..i];
      sum := (sum * (name[i] as int)) % Modulus;
      i := i + 1;
    }
    assert name[..i] == name;
  }

  /** The bucket of `s` in a table of `size` slots. */
  function SlotOf(s: string, size: nat): (k: nat)
    requires size > 0
    ensures k < size
  {
    HashOf(s) % size
  }

  /** Examples of `HashOf`. */
  lemma HashExamples()
    ensures HashOf("") == Seed
    ensures HashOf("a") == (Seed * 97) % Modulus
    ensures HashOf("ab") == ((Seed * 97) % Modulus * 98) % Modulus
  {
    assert "ab"[..1] == "a";
    assert "a"[..0] == "";
  }
}
