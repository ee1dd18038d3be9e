/** The decoder side of `Transcriber.transcribe` (audio_transcriber.py): the
    outcome of spawning ffmpeg and the successive `read(CHUNK_SIZE)` results
    taken from its standard output. */
module Stream {

  newtype byte = x: int | 0 <= x < 256

  /** Bytes requested by each read of the decoder's output. */
  const CHUNK_SIZE: nat := 4000

  /** What one `stream.stdout.read(CHUNK_SIZE)` can return: at most
      CHUNK_SIZE bytes, the empty value meaning end of stream. */
  type Read = r: seq<byte> | |r| <= CHUNK_SIZE

  /** Spawning the decoder either raises FileNotFoundError or yields the
      results of the reads the loop will take, in order. Reads past the end
      of `stdout` return nothing (end of stream). */
  datatype Decoder = SpawnFailed | Spawned(stdout: seq<Read>)

  /** The i-th read from a spawned decoder. */
  function ReadAt(stdout: seq<Read>, i: nat): Read {
    if i < |stdout| then stdout[i] else []
  }

  /** The chunks handed to the recognizer: every read before the first empty
      one, in order, none skipped or repeated. */
  function FedChunks(stdout: seq<Read>): (cs: seq<Read>)
    ensures |cs| <= |stdout| && cs == stdout[..|cs|]
    ensures forall i :: 0 <= i < |cs| ==> 0 < |cs[i]| <= CHUNK_SIZE
    ensures ReadAt(stdout, |cs|) == []
  {
    if |stdout| == 0 || |stdout[0]| == 0 then []
    else [stdout[0]] + FedChunks(stdout[1..])
  }

  /** Read i, taken while feeding, is either the next chunk to feed or the
      empty read that ends the feed. */
  lemma ReadAtFed(stdout: seq<Read>, i: nat)
    requires i <= |FedChunks(stdout)|
    ensures i < |FedChunks(stdout)| ==> ReadAt(stdout, i) == FedChunks(stdout)[i]
    ensures ReadAt(stdout, i) == [] <==> i == |FedChunks(stdout)|
  {
    var cs := FedChunks(stdout);
    if i < |cs| {
      assert cs[i] == stdout[i];
    }
  }

  /** The three properties of FedChunks pin it down: any prefix of non-empty
      reads followed by an empty read (or the end) is exactly FedChunks. */
  lemma {:induction false} FedChunksUnique(stdout: seq<Read>, cs: seq<Read>)
    requires |cs| <= |stdout| && cs == stdout[..|cs|]
    requires forall i :: 0 <= i < |cs| ==> |cs[i]| > 0
    requires ReadAt(stdout, |cs|) == []
    ensures cs == FedChunks(stdout)
  {
    if 0 < |stdout| && 0 < |stdout[0]| {
      assert |cs| > 0;
      var rest := cs[1..];
      assert rest == stdout[1..][..|rest|];
      assert ReadAt(stdout[1..], |rest|) == ReadAt(stdout, |cs|);
      FedChunksUnique(stdout[1..], rest);
      assert cs == [stdout[0]] + rest;
    }
  }

  /** All bytes of a chunk sequence, end to end. */
  function Flatten(cs: seq<seq<byte>>): seq<byte> {
    if cs == [] then [] else cs[0] + Flatten(cs[1..])
  }

  function Min(a: nat, b: nat): nat {
    if a <= b then a else b
  }

  /** `pcm` cut into consecutive CHUNK_SIZE-byte pieces, the last one
      possibly shorter: the pieces are non-empty, all but the last are full,
      and end to end they are the stream. */
  function Chunks(pcm: seq<byte>): (cs: seq<Read>)
    ensures forall i :: 0 <= i < |cs| ==> 0 < |cs[i]|
    ensures forall i :: 0 <= i < |cs| - 1 ==> |cs[i]| == CHUNK_SIZE
    ensures Flatten(cs) == pcm
    decreases |pcm|
  {
    if |pcm| == 0 then []
    else
      var n := Min(|pcm|, CHUNK_SIZE);
      var rest := Chunks(pcm[n..]);
      assert ([pcm[..n]] + rest)[1..] == rest;
      assert pcm[..n] + pcm[n..] == pcm;
      [pcm[..n]] + rest
  }

  /** An empty read at the end adds no bytes. */
  lemma {:induction false} FlattenEmptyTail(cs: seq<seq<byte>>)
    ensures Flatten(cs + [[]]) == Flatten(cs)
  {
    if cs != [] {
      assert (cs + [[]])[1..] == cs[1..] + [[]];
      FlattenEmptyTail(cs[1..]);
    }
  }

  /** The reads a blocking buffered pipe gives for the decoded PCM `pcm`:
      `read(n)` waits for n bytes, so every read is full except the last
      non-empty one, and an empty read marks the end. */
  function BufferedReads(pcm: seq<byte>): (r: seq<Read>)
    ensures 0 < |r| && r[|r| - 1] == []
    ensures forall i :: 0 <= i < |r| - 1 ==> 0 < |r[i]|
    ensures forall i :: 0 <= i < |r| - 2 ==> |r[i]| == CHUNK_SIZE
    ensures Flatten(r) == pcm
  {
    FlattenEmptyTail(Chunks(pcm));
    Chunks(pcm) + [[]]
  }

  /** Over a buffered pipe the recognizer is fed exactly the pieces of the
      PCM stream. */
  lemma BufferedFeedsChunks(pcm: seq<byte>)
    ensures FedChunks(BufferedReads(pcm)) == Chunks(pcm)
  {
    var stdout := BufferedReads(pcm);
    var cs := Chunks(pcm);
    assert stdout[..|cs|] == cs;
    assert ReadAt(stdout, |cs|) == [];
    FedChunksUnique(stdout, cs);
  }

  /** The stream is cut into ceil(|pcm| / CHUNK_SIZE) pieces. */
  lemma {:induction false} ChunksCount(pcm: seq<byte>)
    ensures |Chunks(pcm)| == (|pcm| + CHUNK_SIZE - 1) / CHUNK_SIZE
    decreases |pcm|
  {
    if 0 < |pcm| {
      var n := Min(|pcm|, CHUNK_SIZE);
      ChunksCount(pcm[n..]);
      if |pcm| > CHUNK_SIZE {
        assert |pcm[n..]| == |pcm| - CHUNK_SIZE;
      } else {
        assert pcm[n..] == [];
      }
    }
  }

  /** A stream of k * CHUNK_SIZE bytes is cut into k full pieces. */
  lemma {:induction false} ChunksWhole(pcm: seq<byte>, k: nat)
    requires |pcm| == k * CHUNK_SIZE
    ensures |Chunks(pcm)| == k
    ensures forall i :: 0 <= i < k ==> |Chunks(pcm)[i]| == CHUNK_SIZE
  {
    if 0 < k {
      var rest := pcm[CHUNK_SIZE..];
      assert |rest| == (k - 1) * CHUNK_SIZE;
      ChunksWhole(rest, k - 1);
      var cs := Chunks(pcm);
      assert forall i :: 1 <= i < |cs| ==> cs[i] == Chunks(rest)[i - 1];
    }
  }

  /** Over a buffered pipe the whole PCM stream is fed, in order, in
      ceil(|pcm| / CHUNK_SIZE) chunks that are all full but the last. */
  lemma BufferedFeed(pcm: seq<byte>)
    ensures Flatten(FedChunks(BufferedReads(pcm))) == pcm
    ensures |FedChunks(BufferedReads(pcm))| == (|pcm| + CHUNK_SIZE - 1) / CHUNK_SIZE
    ensures forall i :: 0 <= i < |FedChunks(BufferedReads(pcm))| - 1 ==>
      |FedChunks(BufferedReads(pcm))[i]| == CHUNK_SIZE
  {
    BufferedFeedsChunks(pcm);
    ChunksCount(pcm);
  }

  /** Three seconds of 16 kHz mono 16-bit audio is 96000 bytes, read as 24
      full chunks. */
  lemma ThreeSecondsIsTwentyFourChunks(pcm: seq<byte>)
    requires |pcm| == 3 * 16000 * 2
    ensures |FedChunks(BufferedReads(pcm))| == 24
    ensures forall i :: 0 <= i < 24 ==> |FedChunks(BufferedReads(pcm))[i]| == CHUNK_SIZE
  {
    BufferedFeedsChunks(pcm);
    ChunksWhole(pcm, 24);
  }
}
