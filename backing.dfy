/** The local backing store, held in memory: a byte sequence written at a cursor, as a
    seekable file is. Writing past the end leaves a hole that reads as zero bytes. */
module Backing {

  function Max(a: int, b: int): (m: int)
  {
    if a < b then b else a
  }

  /** The store after writing `data` at byte position `pos`. An empty write changes
      nothing. */
  function WriteAt(store: seq<bv8>, pos: nat, data: seq<bv8>): (r: seq<bv8>)
    ensures data == [] ==> r == store
    ensures data != [] ==> |r| == Max(|store|, pos + |data|)
    ensures forall j :: pos <= j < pos + |data| ==> r[j] == data[j - pos]
    ensures forall j :: 0 <= j < |store| && !(pos <= j < pos + |data|) ==> r[j] == store[j]
    ensures data != [] ==> forall j :: |store| <= j < pos ==> r[j] == 0
  {
    if data == [] then store
    else
      var padded := if |store| < pos then store + seq(pos - |store|, _ => 0) else store;
      var tail := if pos + |data| < |padded| then padded[pos + |data|..] else [];
      padded[..pos] + data + tail
  }

  /** Two writes, the second starting where the first ended, are one write of the two
      byte strings joined. */
  lemma WriteAtConcat(store: seq<bv8>, pos: nat, a: seq<bv8>, b: seq<bv8>)
    ensures WriteAt(WriteAt(store, pos, a), pos + |a|, b) == WriteAt(store, pos, a + b)
  {
  }
}
