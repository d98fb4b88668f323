// Octets and spans of octets, shared by every component that reads text.
module Bytes {
  newtype Byte = b: int | 0 <= b < 256
  type Bytes = seq<Byte>

  const SLASH: Byte := 47

  lemma TakeSnoc(prior: Bytes, input: Bytes, i: nat)
    requires i < |input|
    ensures prior + input[..i + 1] == (prior + input[..i]) + [input[i]]
  {
    assert input[..i + 1] == input[..i] + [input[i]];
  }

  lemma TakeAll(prior: Bytes, input: Bytes, i: nat)
    requires i <= |input|
    ensures prior + input == (prior + input[..i]) + input[i..]
    ensures prior + input[..|input|] == prior + input
    ensures prior + input[..0] == prior
  {
    assert input[..i] + input[i..] == input;
    assert input[..|input|] == input;
  }

  lemma TakeMore(input: Bytes, position: nat, more: nat)
    requires position + more <= |input|
    ensures input[..position] + input[position..] == input
    ensures input[..position + more] == input[..position] + input[position..position + more]
  {
  }

  // The concatenation of a list of chunks, in order.
  ghost function Concat(chunks: seq<Bytes>): Bytes {
    if chunks == [] then [] else Concat(chunks[..|chunks| - 1]) + chunks[|chunks| - 1]
  }

  lemma ConcatSnoc(chunks: seq<Bytes>, n: nat)
    requires n < |chunks|
    ensures Concat(chunks[..n + 1]) == Concat(chunks[..n]) + chunks[n]
  {
    assert chunks[..n + 1][..n] == chunks[..n];
  }
}
