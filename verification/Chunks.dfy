/** Data that comes and goes in chunks. */
module Chunks {
  /** The length of the pieces of a file. */
  const PIECE_SIZE: nat := 512 * 1024

  /** All bytes of a list of chunks. */
  function Bytes(chunks: seq<string>): string {
    if |chunks| == 0 then "" else chunks[0] + Bytes(chunks[1..])
  }

  lemma {:induction false} BytesAppend(a: seq<string>, b: seq<string>)
    ensures Bytes(a + b) == Bytes(a) + Bytes(b)
    decreases |a|
  {
    if |a| == 0 {
      assert a + b == b;
    } else {
      BytesAppend(a[1..], b);
      assert (a + b)[0] == a[0] && (a + b)[1..] == a[1..] + b;
    }
  }

  lemma OneChunk(chunk: string)
    ensures Bytes([chunk]) == chunk
  {
  }

  lemma BytesNext(chunks: seq<string>, i: nat)
    requires i < |chunks|
    ensures Bytes(chunks[..i + 1]) == Bytes(chunks[..i]) + chunks[i]
  {
    BytesAppend(chunks[..i], [chunks[i]]);
    OneChunk(chunks[i]);
    assert chunks[..i + 1] == chunks[..i] + [chunks[i]];
  }

  predicate NoneEmpty(chunks: seq<string>) {
    forall i :: 0 <= i < |chunks| ==> chunks[i] != ""
  }

  /** Chunks that hold no byte are all empty. */
  lemma {:induction false} NoBytes(chunks: seq<string>)
    requires Bytes(chunks) == ""
    ensures forall i :: 0 <= i < |chunks| ==> chunks[i] == ""
    decreases |chunks|
  {
    if |chunks| > 0 {
      NoBytes(chunks[1..]);
      forall i | 0 <= i < |chunks| ensures chunks[i] == "" {
        if i > 0 { assert chunks[i] == chunks[1..][i - 1]; }
      }
    }
  }
}
