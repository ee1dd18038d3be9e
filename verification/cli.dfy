/** The command-line front end (run_script.py): check the arguments, then
    transcribe the audio file named by argv[1] and write the result as JSON
    to the file named by argv[2]. */
module Cli {
  import opened Json
  import opened Records
  import opened Stream
  import opened Transcriber
  import opened PathExt

  /** Audio extensions accepted for argv[1], compared after lower-casing. */
  const VALID_IN_EXT: seq<string> := [".mp3", ".mp4", ".wav"]

  /** Output extensions accepted for argv[2], compared after lower-casing. */
  const VALID_OUT_EXT: seq<string> := [".json"]

  /** Exit status of both argument checks. */
  const USAGE_STATUS: int := 1

  /** The argument check either lets the run go on with the input and
      output names, or ends the process with an exit status. */
  datatype Verdict = Accept(input: string, output: string) | Reject(status: int)

  /** The checks of run_script.py, in order: too few arguments, then the
      extension of either name not in its allow-list. Arguments after
      argv[2] are ignored. */
  function Validate(argv: seq<string>): (v: Verdict)
    ensures |argv| < 3 ==> v == Reject(USAGE_STATUS)
    ensures v.Accept? ==> 3 <= |argv| && v.input == argv[1] && v.output == argv[2]
    ensures v.Reject? ==> v.status == USAGE_STATUS
  {
    if |argv| < 3 then Reject(USAGE_STATUS)
    else if Lower(Ext(argv[1])) !in VALID_IN_EXT || Lower(Ext(argv[2])) !in VALID_OUT_EXT then
      Reject(USAGE_STATUS)
    else Accept(argv[1], argv[2])
  }

  /** Independent statement of the allow-list test: the name has an
      extension, and its last |x| characters, lower-cased, are some allowed
      x. */
  ghost predicate EndsInAllowed(p: string, allowed: seq<string>) {
    && HasExtension(p)
    && exists x :: x in allowed && |x| <= |p| && Lower(p[|p| - |x|..]) == x
  }

  /** Every allowed extension is a dot followed by no dot and no '/'. */
  predicate AllShaped(allowed: seq<string>) {
    forall x :: x in allowed ==> ExtensionShaped(x)
  }

  /** Lower-casing a suffix is the suffix of the lower-cased name. */
  lemma LowerSuffix(p: string, n: nat)
    requires n <= |p|
    ensures Lower(p)[|p| - n..] == Lower(p[|p| - n..])
  {
  }

  /** The allow-list test on `splitext` agrees with the independent
      statement, whatever the case of the name. */
  lemma AllowedExtIff(p: string, allowed: seq<string>)
    requires AllShaped(allowed)
    ensures Lower(Ext(p)) in allowed <==> EndsInAllowed(p, allowed)
  {
    SplitExtFindsExtension(p);
    var ext := Ext(p);
    assert p[|p| - |ext|..] == ext by {
      assert SplitExt(p).0 + ext == p;
    }
    if Lower(ext) in allowed {
      var x := Lower(ext);
      assert ExtensionShaped(x);
      assert Lower(p[|p| - |x|..]) == x;
    }
    if EndsInAllowed(p, allowed) {
      var x :| x in allowed && |x| <= |p| && Lower(p[|p| - |x|..]) == x;
      var q := Lower(p);
      ExtOfLower(p);
      LowerSuffix(p, |x|);
      SplitExtFindsExtension(q);
      ExtIsSuffix(q, x);
    }
  }

  /** Both allow-lists hold only extension-shaped entries. */
  lemma AllowListsShaped()
    ensures AllShaped(VALID_IN_EXT) && AllShaped(VALID_OUT_EXT)
  {
    assert ExtensionShaped(".mp3") && ExtensionShaped(".mp4") && ExtensionShaped(".wav");
    assert ExtensionShaped(".json");
  }

  /** The run goes on exactly when there are at least two arguments after
      the script name, the first ending in an allowed audio extension and
      the second in ".json", in any case. */
  lemma AcceptIff(argv: seq<string>)
    ensures Validate(argv).Accept? <==>
      && 3 <= |argv|
      && EndsInAllowed(argv[1], VALID_IN_EXT)
      && EndsInAllowed(argv[2], VALID_OUT_EXT)
  {
    if 3 <= |argv| {
      AllowListsShaped();
      AllowedExtIff(argv[1], VALID_IN_EXT);
      AllowedExtIff(argv[2], VALID_OUT_EXT);
    }
  }

  /** Only argv[1] and argv[2] are looked at. */
  lemma ExtraArgumentsIgnored(argv: seq<string>)
    requires 3 <= |argv|
    ensures Validate(argv) == Validate(argv[..3])
  {
    assert argv[..3][1] == argv[1] && argv[..3][2] == argv[2];
  }

  /** The extension check ignores case: names that differ only in the case
      of ASCII letters get the same verdict. */
  lemma CaseInsensitive(argv: seq<string>, argv': seq<string>)
    requires |argv| == |argv'|
    requires forall i :: 0 <= i < |argv| ==> Lower(argv[i]) == Lower(argv'[i])
    ensures Validate(argv).Accept? <==> Validate(argv').Accept?
  {
    if 3 <= |argv| {
      ExtOfLower(argv[1]);
      ExtOfLower(argv'[1]);
      ExtOfLower(argv[2]);
      ExtOfLower(argv'[2]);
    }
  }

  /** The final path component of p, the part after its last '/', holds
      no '.'. */
  predicate NoDotInFinalComponent(p: string) {
    forall k :: RFind(p, '/') < k < |p| ==> p[k] != '.'
  }

  /** A name whose final component has no '.' (such as "audio" or
      "out.d/result") has no extension, so it is always refused. */
  lemma NoDotRejected(argv: seq<string>)
    requires 3 <= |argv|
    requires NoDotInFinalComponent(argv[1]) || NoDotInFinalComponent(argv[2])
    ensures Validate(argv) == Reject(USAGE_STATUS)
  {
    if NoDotInFinalComponent(argv[1]) {
      SplitExtFindsExtension(argv[1]);
    } else {
      SplitExtFindsExtension(argv[2]);
    }
  }

  /** A name made of a stem that starts with a non-dot, holds no '/',
      and an extension-shaped x, has extension x. */
  lemma ExtOfStemAndExt(stem: string, x: string)
    requires ExtensionShaped(x)
    requires 0 < |stem| && stem[0] != '.' && '/' !in stem
    ensures Ext(stem + x) == x
  {
    var p := stem + x;
    assert p[|stem|] == '.';
    assert InFinalComponent(p, 0) by {
      forall k | 0 <= k < |p|
        ensures p[k] != '/'
      {
        if k < |stem| {
          assert p[k] == stem[k];
        } else {
          assert p[k] == x[k - |stem|];
        }
      }
    }
    assert HasExtension(p);
    assert p[|p| - |x|..] == x;
    ExtIsSuffix(p, x);
  }

  /** A hidden name such as ".wav", whose only dot is its first
      character, has no extension and is refused. */
  lemma DotFileRejected(argv: seq<string>)
    requires 3 <= |argv| && 0 < |argv[1]| && argv[1][0] == '.'
    requires forall k :: 0 < k < |argv[1]| ==> argv[1][k] != '.'
    ensures Validate(argv) == Reject(USAGE_STATUS)
  {
    var p := argv[1];
    SplitExtFindsExtension(p);
  }

  /** Both extensions allowed, enough arguments: the run goes on. */
  lemma AcceptWhenAllowed(argv: seq<string>)
    requires 3 <= |argv| && Lower(Ext(argv[1])) in VALID_IN_EXT && Lower(Ext(argv[2])) in VALID_OUT_EXT
    ensures Validate(argv) == Accept(argv[1], argv[2])
  {
  }

  /** Names made of a plain stem and an allowed extension in any case pass,
      e.g. "TALK.WAV" into "TALK.Json". */
  lemma UpperCaseAccepted(script: string, stem: string)
    requires 0 < |stem| && stem[0] != '.' && '/' !in stem
    ensures Validate([script, stem + ".WAV", stem + ".Json"]) == Accept(stem + ".WAV", stem + ".Json")
  {
    ExtOfStemAndExt(stem, ".WAV");
    ExtOfStemAndExt(stem, ".Json");
    LowerExamples();
    AcceptWhenAllowed([script, stem + ".WAV", stem + ".Json"]);
  }

  /** Lower-casing the extensions used in the examples. */
  lemma LowerExamples()
    ensures Lower(".WAV") == ".wav" && Lower(".Json") == ".json"
    ensures Lower(".wav") == ".wav" && Lower(".json") == ".json"
  {
  }

  /** How the script ends: an exit status from the argument check, a JSON
      value written to a path, or an uncaught exception. */
  datatype ScriptOutcome = Exited(status: int) | Dumped(path: string, payload: Value) | Crashed(error: Exception)

  /** run_script.py as written: `transcribe` runs on argv[1] only after the
      checks pass, and whatever it returns, None included, is dumped to
      argv[2]. `decoderFor` gives the decoder spawned for each input name. */
  function RunScript<S>(argv: seq<string>, e: Engine<S>, s0: S, decoderFor: string -> Decoder): (o: ScriptOutcome)
    ensures o.Exited? <==> Validate(argv).Reject?
    ensures o.Exited? ==> o.status == USAGE_STATUS
    ensures o.Dumped? ==> 3 <= |argv| && o.path == argv[2]
    ensures o.Dumped? && o.payload == Null <==> Validate(argv).Accept? && decoderFor(argv[1]).SpawnFailed?
    ensures o.Crashed? ==> o.error == KeyError(TEXT)
  {
    match Validate(argv)
    case Reject(status) => Exited(status)
    case Accept(input, output) =>
      match Expected(e, s0, decoderFor(input))
      case NoneReturned => Dumped(output, Null)
      case Transcript(doc) => Dumped(output, Obj(doc))
      case Aborted(err) => Crashed(err)
  }

  /** Refused arguments end the run with status 1 before any transcription:
      the recognizer and the decoder play no part. */
  lemma RejectedBeforeTranscription<S>(argv: seq<string>, e: Engine<S>, s0: S, decoderFor: string -> Decoder,
                                       e': Engine<S>, s0': S, decoderFor': string -> Decoder)
    requires Validate(argv).Reject?
    ensures RunScript(argv, e, s0, decoderFor) == Exited(USAGE_STATUS)
    ensures RunScript(argv, e, s0, decoderFor) == RunScript(argv, e', s0', decoderFor')
  {
  }

  /** Accepted arguments transcribe exactly the input file: the outcome
      depends on the decoder only through the one spawned for argv[1]. */
  lemma TranscribesInput<S>(argv: seq<string>, e: Engine<S>, s0: S, decoderFor: string -> Decoder,
                            decoderFor': string -> Decoder)
    requires 2 <= |argv| && decoderFor(argv[1]) == decoderFor'(argv[1])
    ensures RunScript(argv, e, s0, decoderFor) == RunScript(argv, e, s0, decoderFor')
  {
  }

  /** When ffmpeg is missing, `transcribe` returns None and the script as
      written still writes JSON `null` to the output file, with no failing
      exit status. */
  lemma MissingDecoderDumpsNull<S>(argv: seq<string>, e: Engine<S>, s0: S, decoderFor: string -> Decoder)
    requires Validate(argv).Accept? && decoderFor(argv[1]) == SpawnFailed
    ensures RunScript(argv, e, s0, decoderFor) == Dumped(argv[2], Null)
  {
  }

  /** Concrete runs showing it: "a.wav" into "a.json", or any other plain
      stem, without ffmpeg. */
  lemma MissingDecoderExample<S>(e: Engine<S>, s0: S, stem: string)
    requires 0 < |stem| && stem[0] != '.' && '/' !in stem
    ensures RunScript(["run_script.py", stem + ".wav", stem + ".json"], e, s0, _ => SpawnFailed) ==
      Dumped(stem + ".json", Null)
  {
    var argv := ["run_script.py", stem + ".wav", stem + ".json"];
    ExtOfStemAndExt(stem, ".wav");
    ExtOfStemAndExt(stem, ".json");
    LowerExamples();
    AcceptWhenAllowed(argv);
    MissingDecoderDumpsNull(argv, e, s0, _ => SpawnFailed);
  }

  /** run_script.py with the missing-decoder case reported as a failure, as
      its message intends, instead of being written out as `null`. */
  function RunScriptChecked<S>(argv: seq<string>, e: Engine<S>, s0: S, decoderFor: string -> Decoder): (o: ScriptOutcome)
    ensures o.Exited? <==> Validate(argv).Reject? || decoderFor(argv[1]).SpawnFailed?
    ensures o.Exited? ==> o.status == USAGE_STATUS
    ensures o.Dumped? ==> 3 <= |argv| && o.path == argv[2] && o.payload.Obj?
    ensures o.Crashed? ==> o.error == KeyError(TEXT)
  {
    match Validate(argv)
    case Reject(status) => Exited(status)
    case Accept(input, output) =>
      match Expected(e, s0, decoderFor(input))
      case NoneReturned => Exited(USAGE_STATUS)
      case Transcript(doc) => Dumped(output, Obj(doc))
      case Aborted(err) => Crashed(err)
  }

  /** A JSON document is written exactly when the arguments are accepted,
      the decoder spawned and every reply held "text"; what is written is
      always the one-key transcript object of records. */
  lemma CheckedDumpsTranscript<S>(argv: seq<string>, e: Engine<S>, s0: S, decoderFor: string -> Decoder)
    ensures var o := RunScriptChecked(argv, e, s0, decoderFor);
      o.Dumped? <==>
        && Validate(argv).Accept?
        && decoderFor(argv[1]).Spawned?
        && AllText(AllReplies(e, s0, FedChunks(decoderFor(argv[1]).stdout)))
    ensures var o := RunScriptChecked(argv, e, s0, decoderFor);
      o.Dumped? ==>
        && o.payload.Obj?
        && o.payload.fields.Keys == {TRANSCRIPTION}
        && o.payload.fields[TRANSCRIPTION].Arr?
        && forall k :: 0 <= k < |o.payload.fields[TRANSCRIPTION].items| ==>
             o.payload.fields[TRANSCRIPTION].items[k].Obj? &&
             IsRecord(o.payload.fields[TRANSCRIPTION].items[k].fields)
  {
    if Validate(argv).Accept? && decoderFor(argv[1]).Spawned? {
      var stdout := decoderFor(argv[1]).stdout;
      AbortedIff(e, s0, stdout);
      if Expected(e, s0, Spawned(stdout)).Transcript? {
        TranscriptShape(e, s0, stdout);
      }
    }
  }

  /** The correction changes nothing else: the two agree on every run in
      which ffmpeg is found. */
  lemma CheckedAgreesWhenSpawned<S>(argv: seq<string>, e: Engine<S>, s0: S, decoderFor: string -> Decoder)
    requires 2 <= |argv| ==> decoderFor(argv[1]).Spawned?
    ensures RunScriptChecked(argv, e, s0, decoderFor) == RunScript(argv, e, s0, decoderFor)
  {
    if 3 <= |argv| {
      AbortedIff(e, s0, decoderFor(argv[1]).stdout);
    }
  }
}
