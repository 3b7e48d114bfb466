/** A stream of bytes as the pieces in which it is read. */
module Chunks {
  type Bytes = seq<int>

  function Concat(chunks: seq<Bytes>): Bytes {
    if chunks == [] then [] else chunks[0] + Concat(chunks[1..])
  }

  lemma NextChunk(chunks: seq<Bytes>, i: nat, done: Bytes)
    requires i < |chunks|
    ensures done + Concat(chunks[i..]) == (done + chunks[i]) + Concat(chunks[i + 1..])
  {
    assert chunks[i..][1..] == chunks[i + 1..];
  }
}
