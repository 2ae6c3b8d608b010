/** Vocabulary shared by every component: wire bytes and optional values. */
module Wire {

  type Byte = bv8

  datatype Option<+T> = None | Some(value: T)

  /** XOR of all bytes, the accumulator of the frame check byte. */
  function Xor(s: seq<Byte>): Byte {
    if s == [] then 0 else Xor(s[..|s| - 1]) ^ s[|s| - 1]
  }

  /** Concatenation of a list of chunks. */
  function Flatten<T>(chunks: seq<seq<T>>): seq<T> {
    if chunks == [] then [] else Flatten(chunks[..|chunks| - 1]) + chunks[|chunks| - 1]
  }

  lemma XorSnoc(s: seq<Byte>, b: Byte)
    ensures Xor(s + [b]) == Xor(s) ^ b
  {
    assert (s + [b])[..|s|] == s;
  }

  lemma FlattenSnoc<T>(chunks: seq<seq<T>>, c: seq<T>)
    ensures Flatten(chunks + [c]) == Flatten(chunks) + c
  {
    assert (chunks + [c])[..|chunks|] == chunks;
  }

  lemma FlattenOne<T>(c: seq<T>)
    ensures Flatten([c]) == c
  {
    FlattenSnoc([], c);
    assert [] + [c] == [c];
  }

  // ----- sequences taken apart -----

  lemma Regrouped<T>(a: seq<T>, x: T, b: seq<T>)
    ensures a + ([x] + b) == (a + [x]) + b
  {
  }

  lemma FirstApart<T>(s: seq<T>)
    requires s != []
    ensures s == [s[0]] + s[1..]
  {
  }

  lemma LastApart<T>(s: seq<T>)
    requires s != []
    ensures s == s[..|s| - 1] + [s[|s| - 1]]
  {
  }

  lemma PrefixGrows<T>(s: seq<T>, n: nat)
    requires n < |s|
    ensures s[..n + 1] == s[..n] + [s[n]]
  {
  }

  lemma AfterNothing<T>(a: seq<T>, b: seq<T>)
    requires a == []
    ensures a + b == b
  {
  }

  lemma OneMore<T>(a: seq<T>, b: seq<T>, n: nat)
    requires n < |b|
    ensures a + b[..n + 1] == a + b[..n] + [b[n]]
  {
  }

  lemma PrefixKept<T>(s: seq<T>, longer: seq<T>, n: nat)
    requires s <= longer && n < |s|
    ensures longer[..n] == s[..n] && longer[n] == s[n]
  {
  }

  lemma PrefixOfPrefix<T>(s: seq<T>, n: nat)
    requires n < |s|
    ensures s[..n + 1][..|s[..n + 1]| - 1] == s[..n] && s[..n + 1][|s[..n + 1]| - 1] == s[n]
  {
  }
}
