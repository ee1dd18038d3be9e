/** `Transcriber.transcribe` (audio_transcriber.py): the read/feed loop that
    drives a Vosk recognizer over the decoder's output and collects one
    record per utterance boundary plus one final record. */
module Transcriber {
  import opened Json
  import opened Records
  import opened Stream

  /** The recognizer, seen only through its calls. `S` is its opaque internal
      state; `accept` is `AcceptWaveform` (the new state and whether an
      utterance boundary was reached), `result` is `Result()` and
      `finalResult` is `FinalResult()`, both already parsed. */
  datatype Engine<!S> = Engine(
    accept: (S, seq<byte>) -> (S, bool),
    result: S -> Object,
    finalResult: S -> Object)

  /** What `transcribe` does: return None (decoder missing), return the
      transcript object, or raise from `arrange`. */
  datatype Outcome = NoneReturned | Transcript(doc: Object) | Aborted(error: Exception)

  const TRANSCRIPTION: string := "transcription"

  /** Recognizer states along the feed: ss[i] is the state before chunk i. */
  function States<S>(e: Engine<S>, s0: S, cs: seq<Read>): (ss: seq<S>)
    ensures |ss| == |cs| + 1
    ensures ss[0] == s0
    ensures forall i {:trigger cs[i]} :: 0 <= i < |cs| ==> ss[i + 1] == e.accept(ss[i], cs[i]).0
    decreases |cs|
  {
    if cs == [] then [s0]
    else
      var prev := States(e, s0, cs[..|cs| - 1]);
      prev + [e.accept(prev[|cs| - 1], cs[|cs| - 1]).0]
  }

  /** Feeding a prefix of the chunks walks through a prefix of the states. */
  lemma {:induction false} StatesPrefix<S>(e: Engine<S>, s0: S, cs: seq<Read>, n: nat)
    requires n <= |cs|
    ensures States(e, s0, cs[..n]) == States(e, s0, cs)[..n + 1]
    decreases |cs|
  {
    if n < |cs| {
      var init := cs[..|cs| - 1];
      StatesPrefix(e, s0, init, n);
      assert init[..n] == cs[..n];
    } else {
      assert cs[..n] == cs;
    }
  }

  /** Whether `AcceptWaveform` returned true for chunk i. */
  predicate Signalled<S>(e: Engine<S>, s0: S, cs: seq<Read>, i: nat)
    requires i < |cs|
  {
    e.accept(States(e, s0, cs)[i], cs[i]).1
  }

  /** The indices of the chunks for which `AcceptWaveform` returned true,
      in feeding order. */
  function Boundaries<S>(e: Engine<S>, s0: S, cs: seq<Read>): seq<nat>
    decreases |cs|
  {
    if cs == [] then []
    else
      var n := |cs| - 1;
      Boundaries(e, s0, cs[..n]) + (if Signalled(e, s0, cs, n) then [n] else [])
  }

  /** Boundaries lists, in increasing order, exactly the chunks that
      signalled one. */
  lemma {:induction false} BoundariesSignalled<S>(e: Engine<S>, s0: S, cs: seq<Read>)
    ensures forall k :: 0 <= k < |Boundaries(e, s0, cs)| ==> Boundaries(e, s0, cs)[k] < |cs|
    ensures forall k, l :: 0 <= k < l < |Boundaries(e, s0, cs)| ==>
      Boundaries(e, s0, cs)[k] < Boundaries(e, s0, cs)[l]
    ensures forall i :: 0 <= i < |cs| ==> (i in Boundaries(e, s0, cs) <==> Signalled(e, s0, cs, i))
    decreases |cs|
  {
    if cs != [] {
      var n := |cs| - 1;
      BoundariesSignalled(e, s0, cs[..n]);
      StatesPrefix(e, s0, cs, n);
      assert forall i :: 0 <= i < n ==> Signalled(e, s0, cs[..n], i) == Signalled(e, s0, cs, i);
    }
  }

  /** The replies `Result()` gives at the boundaries, in the order of the
      chunks that signalled them. */
  function Replies<S>(e: Engine<S>, s0: S, cs: seq<Read>): seq<Object>
    decreases |cs|
  {
    if cs == [] then []
    else
      var n := |cs| - 1;
      Replies(e, s0, cs[..n]) + (if Signalled(e, s0, cs, n) then [e.result(States(e, s0, cs)[n + 1])] else [])
  }

  /** The k-th reply is `Result()` taken in the state just after the k-th
      boundary chunk. */
  lemma {:induction false} RepliesAtBoundaries<S>(e: Engine<S>, s0: S, cs: seq<Read>)
    ensures |Replies(e, s0, cs)| == |Boundaries(e, s0, cs)|
    ensures forall k :: 0 <= k < |Replies(e, s0, cs)| ==>
      Boundaries(e, s0, cs)[k] < |cs| &&
      Replies(e, s0, cs)[k] == e.result(States(e, s0, cs)[Boundaries(e, s0, cs)[k] + 1])
    decreases |cs|
  {
    BoundariesSignalled(e, s0, cs);
    if cs != [] {
      var n := |cs| - 1;
      RepliesAtBoundaries(e, s0, cs[..n]);
      BoundariesSignalled(e, s0, cs[..n]);
      StatesPrefix(e, s0, cs, n);
    }
  }

  /** Replies only accumulate: those of a prefix of the feed are a prefix of
      those of the whole feed. */
  lemma {:induction false} RepliesPrefix<S>(e: Engine<S>, s0: S, cs: seq<Read>, n: nat)
    requires n <= |cs|
    ensures |Replies(e, s0, cs[..n])| <= |Replies(e, s0, cs)|
    ensures Replies(e, s0, cs[..n]) == Replies(e, s0, cs)[..|Replies(e, s0, cs[..n])|]
    decreases |cs|
  {
    if n < |cs| {
      var init := cs[..|cs| - 1];
      RepliesPrefix(e, s0, init, n);
      assert init[..n] == cs[..n];
      var last := if Signalled(e, s0, cs, |cs| - 1) then [e.result(States(e, s0, cs)[|cs|])] else [];
      assert Replies(e, s0, cs) == Replies(e, s0, init) + last;
    } else {
      assert cs[..n] == cs;
    }
  }

  /** The transcript object: a single key holding the records in order. */
  function TranscriptDoc(records: seq<Object>): Object {
    map[TRANSCRIPTION := Arr(seq(|records|, k requires 0 <= k < |records| => Obj(records[k])))]
  }

  /** Every reply `arrange` sees in a full run: one per boundary, then the
      final one. */
  function AllReplies<S>(e: Engine<S>, s0: S, cs: seq<Read>): seq<Object> {
    Replies(e, s0, cs) + [e.finalResult(States(e, s0, cs)[|cs|])]
  }

  /** Reference definition of what `transcribe` yields, stated over whole
      sequences rather than the loop. */
  function Expected<S>(e: Engine<S>, s0: S, d: Decoder): (r: Outcome)
    ensures r.NoneReturned? <==> d.SpawnFailed?
    ensures r.Aborted? ==> r.error == KeyError(TEXT)
    ensures r.Transcript? ==> r.doc.Keys == {TRANSCRIPTION} && r.doc[TRANSCRIPTION].Arr?
  {
    match d
    case SpawnFailed => NoneReturned
    case Spawned(stdout) =>
      match ArrangeAll(AllReplies(e, s0, FedChunks(stdout)))
      case Ok(records) => Transcript(TranscriptDoc(records))
      case Raised(err) => Aborted(err)
  }

  /** The length of the shortest prefix of cs, at least n long, after which
      some reply lacks "text"; |cs| when there is none. */
  function FirstFailure<S>(e: Engine<S>, s0: S, cs: seq<Read>, n: nat): (m: nat)
    requires n <= |cs|
    ensures n <= m <= |cs|
    decreases |cs| - n
  {
    if n == |cs| || !AllText(Replies(e, s0, cs[..n])) then n
    else FirstFailure(e, s0, cs, n + 1)
  }

  /** Reference definition of the chunks `transcribe` hands to the recognizer. */
  function ExpectedFed<S>(e: Engine<S>, s0: S, d: Decoder): (fed: seq<Read>)
    ensures d.SpawnFailed? ==> fed == []
    ensures d.Spawned? ==> |fed| <= |FedChunks(d.stdout)| && fed == FedChunks(d.stdout)[..|fed|]
  {
    match d
    case SpawnFailed => []
    case Spawned(stdout) =>
      var cs := FedChunks(stdout);
      cs[..FirstFailure(e, s0, cs, 0)]
  }

  /** Replies lacking "text" persist: if every reply of a feed has "text",
      so does every reply of a shorter feed. */
  lemma AllTextPrefix<S>(e: Engine<S>, s0: S, cs: seq<Read>, m: nat, n: nat)
    requires m <= n <= |cs|
    requires AllText(Replies(e, s0, cs[..n]))
    ensures AllText(Replies(e, s0, cs[..m]))
  {
    RepliesPrefix(e, s0, cs[..n], m);
    assert cs[..n][..m] == cs[..m];
  }

  /** FirstFailure finds n when every shorter feed (from m on) is clean and
      the feed of length n is not, or is everything. */
  lemma {:induction false} FirstFailureAt<S>(e: Engine<S>, s0: S, cs: seq<Read>, m: nat, n: nat)
    requires m <= n <= |cs|
    requires n == |cs| || !AllText(Replies(e, s0, cs[..n]))
    requires m < n ==> AllText(Replies(e, s0, cs[..n - 1]))
    ensures FirstFailure(e, s0, cs, m) == n
    decreases n - m
  {
    if m < n {
      AllTextPrefix(e, s0, cs, m, n - 1);
      FirstFailureAt(e, s0, cs, m + 1, n);
    }
  }

  /** A feed that stops right after the first reply lacking "text": the run
      aborts with KeyError('text') and that is all it feeds. */
  lemma AbortedRun<S>(e: Engine<S>, s0: S, stdout: seq<Read>, n: nat)
    requires 0 < n <= |FedChunks(stdout)|
    requires AllText(Replies(e, s0, FedChunks(stdout)[..n - 1]))
    requires !AllText(Replies(e, s0, FedChunks(stdout)[..n]))
    ensures Expected(e, s0, Spawned(stdout)) == Aborted(KeyError(TEXT))
    ensures ExpectedFed(e, s0, Spawned(stdout)) == FedChunks(stdout)[..n]
  {
    var cs := FedChunks(stdout);
    FirstFailureAt(e, s0, cs, 0, n);
    SpoiledReplies(e, s0, cs, n);
  }

  /** A reply without "text" in part of the feed is one in the whole run. */
  lemma SpoiledReplies<S>(e: Engine<S>, s0: S, cs: seq<Read>, n: nat)
    requires n <= |cs|
    requires !AllText(Replies(e, s0, cs[..n]))
    ensures !AllText(AllReplies(e, s0, cs))
  {
    RepliesPrefix(e, s0, cs, n);
    var k :| 0 <= k < |Replies(e, s0, cs[..n])| && TEXT !in Replies(e, s0, cs[..n])[k];
    assert AllReplies(e, s0, cs)[k] == Replies(e, s0, cs[..n])[k];
  }

  /** After the last chunk: the final reply decides between a transcript
      and an abort. */
  lemma Drained<S>(e: Engine<S>, s0: S, stdout: seq<Read>, records: seq<Object>)
    requires ArrangeAll(Replies(e, s0, FedChunks(stdout))) == Ok(records)
    ensures var cs := FedChunks(stdout);
      var final := Arrange(e.finalResult(States(e, s0, cs)[|cs|]));
      && ExpectedFed(e, s0, Spawned(stdout)) == cs
      && Expected(e, s0, Spawned(stdout)) ==
           if final.Ok? then Transcript(TranscriptDoc(records + [final.value])) else Aborted(final.error)
  {
    var cs := FedChunks(stdout);
    ArrangeAllSnoc(Replies(e, s0, cs), e.finalResult(States(e, s0, cs)[|cs|]));
    assert cs[..|cs|] == cs;
    if 0 < |cs| {
      AllTextPrefix(e, s0, cs, |cs| - 1, |cs|);
    }
    FirstFailureAt(e, s0, cs, 0, |cs|);
  }

  /** One turn of the loop: feeding chunk i advances the state by `accept`;
      no boundary keeps the records, a boundary whose reply has "text"
      appends its record, one without "text" spoils the replies. */
  lemma LoopStep<S>(e: Engine<S>, s0: S, cs: seq<Read>, i: nat, records: seq<Object>)
    requires i < |cs|
    requires ArrangeAll(Replies(e, s0, cs[..i])) == Ok(records)
    ensures var step := e.accept(States(e, s0, cs[..i])[i], cs[i]);
      var arranged := Arrange(e.result(step.0));
      && States(e, s0, cs[..i + 1])[i + 1] == step.0
      && (!step.1 ==> ArrangeAll(Replies(e, s0, cs[..i + 1])) == Ok(records))
      && (step.1 && arranged.Ok? ==> ArrangeAll(Replies(e, s0, cs[..i + 1])) == Ok(records + [arranged.value]))
      && (step.1 && arranged.Raised? ==> !AllText(Replies(e, s0, cs[..i + 1])))
  {
    var step := e.accept(States(e, s0, cs[..i])[i], cs[i]);
    var pre := cs[..i + 1];
    assert pre[..i] == cs[..i];
    assert pre[i] == cs[i];
    var before := Replies(e, s0, cs[..i]);
    assert Replies(e, s0, pre) == before + (if step.1 then [e.result(step.0)] else []);
    if !step.1 {
      assert Replies(e, s0, cs[..i + 1]) == before + [] == before;
    } else {
      ArrangeAllSnoc(before, e.result(step.0));
    }
  }

  /** The `while True` loop of `transcribe`: read, stop at the first empty
      read, feed, and arrange the reply at each boundary. `aborted` reports
      that `arrange` raised, which ends the run at once. */
  method FeedLoop<S>(e: Engine<S>, s0: S, stdout: seq<Read>)
    returns (rec: S, records: seq<Object>, fed: seq<Read>, aborted: bool)
    ensures |fed| <= |FedChunks(stdout)| && fed == FedChunks(stdout)[..|fed|]
    ensures aborted ==> 0 < |fed|
    ensures aborted ==> AllText(Replies(e, s0, FedChunks(stdout)[..|fed| - 1]))
    ensures aborted ==> !AllText(Replies(e, s0, fed))
    ensures !aborted ==> fed == FedChunks(stdout)
    ensures !aborted ==> rec == States(e, s0, fed)[|fed|]
    ensures !aborted ==> ArrangeAll(Replies(e, s0, fed)) == Ok(records)
  {
    ghost var cs := FedChunks(stdout);
    rec := s0;
    records := [];
    fed := [];
    aborted := false;
    var i := 0;
    while true
      invariant i <= |cs|
      invariant fed == cs[..i]
      invariant rec == States(e, s0, cs[..i])[i]
      invariant ArrangeAll(Replies(e, s0, cs[..i])) == Ok(records)
      decreases |cs| - i
    {
      ReadAtFed(stdout, i);
      var data := ReadAt(stdout, i);
      if |data| == 0 {
        break;
      }
      LoopStep(e, s0, cs, i, records);
      var step := e.accept(rec, data);
      fed := fed + [data];
      i := i + 1;
      rec := step.0;
      if step.1 {
        var arranged := Arrange(e.result(rec));
        if arranged.Raised? {
          aborted := true;
          assert cs[..i - 1] == fed[..|fed| - 1];
          return;
        }
        records := records + [arranged.value];
      }
    }
    assert cs[..i] == cs;
  }

  /** `transcribe`: the decoder-missing early return, the loop, then the
      final flush. Besides the outcome it returns `fed`, the chunks passed
      to `AcceptWaveform`, in call order. */
  method Transcribe<S>(e: Engine<S>, s0: S, d: Decoder) returns (out: Outcome, fed: seq<Read>)
    ensures out == Expected(e, s0, d)
    ensures fed == ExpectedFed(e, s0, d)
  {
    if d.SpawnFailed? {
      return NoneReturned, [];
    }
    var rec, records, aborted;
    rec, records, fed, aborted := FeedLoop(e, s0, d.stdout);
    if aborted {
      AbortedRun(e, s0, d.stdout, |fed|);
      return Aborted(KeyError(TEXT)), fed;
    }
    Drained(e, s0, d.stdout, records);
    var final := Arrange(e.finalResult(rec));
    if final.Raised? {
      return Aborted(final.error), fed;
    }
    out := Transcript(TranscriptDoc(records + [final.value]));
  }

  /** The list under "transcription" in a returned transcript. */
  function Items<S>(e: Engine<S>, s0: S, stdout: seq<Read>): seq<Value>
    requires Expected(e, s0, Spawned(stdout)).Transcript?
  {
    Expected(e, s0, Spawned(stdout)).doc[TRANSCRIPTION].items
  }

  /** `v` is the record `arrange` makes of `reply`. */
  predicate HoldsTextOf(v: Value, reply: Object) {
    TEXT in reply && v == Obj(map[TEXT := reply[TEXT]])
  }

  /** The items of a returned transcript are the records of every reply of
      the run, in order. */
  lemma TranscriptItems<S>(e: Engine<S>, s0: S, stdout: seq<Read>)
    requires Expected(e, s0, Spawned(stdout)).Transcript?
    ensures var items := Items(e, s0, stdout);
      var replies := AllReplies(e, s0, FedChunks(stdout));
      && |items| == |replies|
      && forall k :: 0 <= k < |items| ==> HoldsTextOf(items[k], replies[k])
  {
    var replies := AllReplies(e, s0, FedChunks(stdout));
    var records := ArrangeAll(replies).value;
    var items := Items(e, s0, stdout);
    forall k | 0 <= k < |items|
      ensures HoldsTextOf(items[k], replies[k])
    {
      assert Arrange(replies[k]) == Ok(records[k]);
    }
  }

  /** On success every item of the "transcription" list is an object
      holding only "text". */
  lemma TranscriptShape<S>(e: Engine<S>, s0: S, stdout: seq<Read>)
    requires Expected(e, s0, Spawned(stdout)).Transcript?
    ensures var items := Items(e, s0, stdout);
      forall k :: 0 <= k < |items| ==> items[k].Obj? && IsRecord(items[k].fields)
  {
    TranscriptItems(e, s0, stdout);
  }

  /** There is one record per chunk for which `AcceptWaveform` returned
      true, plus one. */
  lemma RecordCount<S>(e: Engine<S>, s0: S, stdout: seq<Read>)
    requires Expected(e, s0, Spawned(stdout)).Transcript?
    ensures |Items(e, s0, stdout)| ==
      |Boundaries(e, s0, FedChunks(stdout))| + 1
  {
    TranscriptItems(e, s0, stdout);
    RepliesAtBoundaries(e, s0, FedChunks(stdout));
  }

  /** Record k holds the text of `Result()` taken right after the k-th
      boundary chunk: records follow the order their chunks were read. */
  lemma BoundaryRecords<S>(e: Engine<S>, s0: S, stdout: seq<Read>)
    requires Expected(e, s0, Spawned(stdout)).Transcript?
    ensures var cs := FedChunks(stdout);
      var bs := Boundaries(e, s0, cs);
      var items := Items(e, s0, stdout);
      && |bs| < |items|
      && forall k :: 0 <= k < |bs| ==>
           bs[k] < |cs| && HoldsTextOf(items[k], e.result(States(e, s0, cs)[bs[k] + 1]))
  {
    var cs := FedChunks(stdout);
    var bs := Boundaries(e, s0, cs);
    var items := Items(e, s0, stdout);
    var ss := States(e, s0, cs);
    var rs := Replies(e, s0, cs);
    var replies := AllReplies(e, s0, cs);
    TranscriptItems(e, s0, stdout);
    RepliesAtBoundaries(e, s0, cs);
    forall k | 0 <= k < |bs|
      ensures bs[k] < |cs| && HoldsTextOf(items[k], e.result(ss[bs[k] + 1]))
    {
      assert replies[k] == rs[k];
      assert HoldsTextOf(items[k], replies[k]);
    }
  }

  /** The last record holds the text of `FinalResult()` in the state after
      the last chunk, whether or not any boundary was signalled. */
  lemma FinalRecordLast<S>(e: Engine<S>, s0: S, stdout: seq<Read>)
    requires Expected(e, s0, Spawned(stdout)).Transcript?
    ensures var cs := FedChunks(stdout);
      var items := Items(e, s0, stdout);
      && 0 < |items|
      && HoldsTextOf(items[|items| - 1], e.finalResult(States(e, s0, cs)[|cs|]))
  {
    TranscriptItems(e, s0, stdout);
  }

  /** Audio in which no boundary is ever signalled yields exactly one
      record, the final one. */
  lemma SilentStreamOneRecord<S>(e: Engine<S>, s0: S, stdout: seq<Read>)
    requires Expected(e, s0, Spawned(stdout)).Transcript?
    requires forall i :: 0 <= i < |FedChunks(stdout)| ==> !Signalled(e, s0, FedChunks(stdout), i)
    ensures var cs := FedChunks(stdout);
      var items := Items(e, s0, stdout);
      && |items| == 1
      && HoldsTextOf(items[0], e.finalResult(States(e, s0, cs)[|cs|]))
  {
    var cs := FedChunks(stdout);
    RecordCount(e, s0, stdout);
    FinalRecordLast(e, s0, stdout);
    NoSignalNoBoundary(e, s0, cs);
  }

  /** No chunk signalled a boundary: there are none. */
  lemma {:induction false} NoSignalNoBoundary<S>(e: Engine<S>, s0: S, cs: seq<Read>)
    requires forall i :: 0 <= i < |cs| ==> !Signalled(e, s0, cs, i)
    ensures Boundaries(e, s0, cs) == []
    decreases |cs|
  {
    if cs != [] {
      var n := |cs| - 1;
      StatesPrefix(e, s0, cs, n);
      assert forall i :: 0 <= i < n ==> Signalled(e, s0, cs[..n], i) == Signalled(e, s0, cs, i);
      NoSignalNoBoundary(e, s0, cs[..n]);
    }
  }

  /** A decoder that produces nothing (ffmpeg found, but the input cannot
      be decoded) still gives one record: the text of `FinalResult()` in the
      initial state. */
  lemma EmptyStreamFinalOnly<S>(e: Engine<S>, s0: S)
    ensures ExpectedFed(e, s0, Spawned([])) == []
    ensures TEXT in e.finalResult(s0) ==>
      Expected(e, s0, Spawned([])) == Transcript(map[TRANSCRIPTION := Arr([Obj(map[TEXT := e.finalResult(s0)[TEXT]])])])
    ensures TEXT !in e.finalResult(s0) ==> Expected(e, s0, Spawned([])) == Aborted(KeyError(TEXT))
  {
    var none: seq<Read> := [];
    assert FedChunks(none) == none;
    assert AllReplies(e, s0, none) == [e.finalResult(s0)];
    if TEXT in e.finalResult(s0) {
      var record := map[TEXT := e.finalResult(s0)[TEXT]];
      assert ArrangeAll([]) == Ok([]);
      ArrangeAllSnoc([], e.finalResult(s0));
      assert [] + [e.finalResult(s0)] == [e.finalResult(s0)];
      assert Arrange(e.finalResult(s0)) == Ok(record);
      assert ArrangeAll([e.finalResult(s0)]) == Ok([] + [record]);
      assert [] + [record] == [record];
      var items := TranscriptDoc([record])[TRANSCRIPTION].items;
      assert |items| == 1 && items[0] == Obj(record);
      assert items == [Obj(record)];
      assert ArrangeAll(AllReplies(e, s0, FedChunks(none))) == Ok([record]);
      assert TranscriptDoc([record]) == map[TRANSCRIPTION := Arr([Obj(record)])];
    }
  }

  /** A spawned decoder never yields None; the run aborts with
      KeyError('text') exactly when some reply it would arrange lacks
      "text", and returns a transcript otherwise. */
  lemma AbortedIff<S>(e: Engine<S>, s0: S, stdout: seq<Read>)
    ensures !Expected(e, s0, Spawned(stdout)).NoneReturned?
    ensures Expected(e, s0, Spawned(stdout)).Aborted? <==> !AllText(AllReplies(e, s0, FedChunks(stdout)))
    ensures Expected(e, s0, Spawned(stdout)).Aborted? ==>
      Expected(e, s0, Spawned(stdout)).error == KeyError(TEXT)
  {
  }

  /** When every reply of a run has "text", no prefix of the feed fails,
      so the loop feeds every chunk. */
  lemma CleanRunFeedsAll<S>(e: Engine<S>, s0: S, cs: seq<Read>)
    requires ArrangeAll(AllReplies(e, s0, cs)).Ok?
    ensures FirstFailure(e, s0, cs, 0) == |cs|
  {
    assert AllText(Replies(e, s0, cs)) by {
      assert forall k :: 0 <= k < |Replies(e, s0, cs)| ==>
        Replies(e, s0, cs)[k] == AllReplies(e, s0, cs)[k];
    }
    if 0 < |cs| {
      assert cs[..|cs|] == cs;
      AllTextPrefix(e, s0, cs, |cs| - 1, |cs|);
    }
    FirstFailureAt(e, s0, cs, 0, |cs|);
  }

  /** The chunks fed are non-empty reads of at most CHUNK_SIZE bytes, taken
      in order from the start of the stream; a returned transcript means all
      of them up to the first empty read were fed, and a missing decoder
      means none. */
  lemma FedInOrder<S>(e: Engine<S>, s0: S, d: Decoder)
    ensures forall i :: 0 <= i < |ExpectedFed(e, s0, d)| ==> 1 <= |ExpectedFed(e, s0, d)[i]| <= CHUNK_SIZE
    ensures d.Spawned? ==> ExpectedFed(e, s0, d) == FedChunks(d.stdout)[..|ExpectedFed(e, s0, d)|]
    ensures d.Spawned? && Expected(e, s0, d).Transcript? ==> ExpectedFed(e, s0, d) == FedChunks(d.stdout)
    ensures d.SpawnFailed? ==> ExpectedFed(e, s0, d) == []
  {
    if d.Spawned? && Expected(e, s0, d).Transcript? {
      CleanRunFeedsAll(e, s0, FedChunks(d.stdout));
    }
  }
}
