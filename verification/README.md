# vosk transcriber — a Dafny model

This project models the core of a small speech-to-text tool. It has two parts.

- `Transcriber.transcribe` spawns an ffmpeg decoder and reads its raw PCM output in 4000-byte chunks. It feeds each chunk to a Vosk recognizer. At every utterance boundary the recognizer signals, and once more at the end of the stream, it projects the recognizer's reply onto its `"text"` field (`arrange`). It returns `{"transcription": [records...]}`, or `None` when ffmpeg is missing.
- `run_script.py` checks its command line. It needs at least two arguments (only the first two are looked at), an allowed audio extension and a `.json` output, compared case-insensitively. It then transcribes the input and dumps the result as JSON to the output path.

Modules:

- `Json`: parsed JSON values.
- `Records`: `arrange` and the `KeyError` it raises.
- `Stream`: `CHUNK_SIZE`, the decoder's reads, and which chunks get fed.
- `Transcriber`: the recognizer as a state machine and the read/feed loop (`FeedLoop`, `Transcribe`). There is also a whole-sequence reference definition (`Expected`, `ExpectedFed`) that the loop is proved equal to.
- `PathExt`: `os.path.splitext` with POSIX separators, and `str.lower`.
- `Cli`: the argument check and the script's outcome.

The recognizer is a value `Engine<S>` of three total functions over an opaque state `S`:

- `accept` is `AcceptWaveform`. It gives the next state and whether a boundary was reached.
- `result` is `Result()`.
- `finalResult` is `FinalResult()`.

The decoder is either `SpawnFailed` (FileNotFoundError) or `Spawned(stdout)`. `stdout` is the sequence of values that successive `read(CHUNK_SIZE)` calls return, each at most CHUNK_SIZE bytes. Reads past its end are empty.

## Model

| member | source | states |
|---|---|---|
| `Stream.FedChunks` | audio_transcriber.py:87-90 | The chunks fed are the reads before the first empty one, in order, none skipped. Each holds 1 to CHUNK_SIZE bytes, and the read after the last is empty. |
| `Stream.FedChunksUnique` | audio_transcriber.py:87-90 | Any prefix of non-empty reads that is followed by an empty read (or the end) is exactly the fed sequence. |
| `Stream.ReadAtFed` | audio_transcriber.py:88-90 | Read i of the loop is fed chunk i, and it is empty exactly when i is the number of chunks fed. |
| `Stream.BufferedFeedsChunks` | audio_transcriber.py:8 | Over a blocking pipe, the fed chunks are the PCM stream cut into CHUNK_SIZE pieces. |
| `Stream.Chunks` | audio_transcriber.py:88 | The stream cut into reads of CHUNK_SIZE: every piece is non-empty, all but the last are full, and joined end to end they are the stream. |
| `Stream.BufferedReads` | audio_transcriber.py:62 | What a blocking pipe returns for successive read(4000) calls: the last read is empty, every earlier one is non-empty, all but the last two are full, and together they hold the whole stream. |
| `Stream.ChunksCount` | audio_transcriber.py:8 | The stream is fed in ceil(len / 4000) chunks. |
| `Stream.ChunksWhole` | audio_transcriber.py:88 | A stream of k*4000 bytes is fed as k full chunks. |
| `Stream.BufferedFeed` | audio_transcriber.py:87-92 | Over a buffered pipe, the fed chunks cover the stream in order, there are ceil(len/4000) of them, and all but the last are full. |
| `Stream.ThreeSecondsIsTwentyFourChunks` | audio_transcriber.py:8-9 | 3 s of 16 kHz mono s16le audio (96000 bytes) is fed as 24 full chunks. |
| `Records.Arrange` | audio_transcriber.py:25-39 | The result succeeds iff the reply has "text". It is then an object whose only key is "text", holding the reply's value; otherwise it raises KeyError('text'). |
| `Records.ArrangeIgnoresOtherFields` | audio_transcriber.py:37-39 | Replies that agree on "text" arrange identically, whatever their other fields. |
| `Records.ArrangeFixesRecords` | audio_transcriber.py:37-39 | Arranging a record gives the record back, so arranging is idempotent. |
| `Records.ArrangeAll` | audio_transcriber.py:91-93 | Arranging replies in turn succeeds iff every reply has "text". Record k is then the arrangement of reply k; otherwise the error is KeyError('text'). |
| `Records.ArrangeAllSnoc` | audio_transcriber.py:92-93 | Appending one reply appends its record, or raises if it lacks "text". |
| `Transcriber.States` | audio_transcriber.py:91 | The recognizer starts in its initial state, and each chunk moves it by AcceptWaveform in feeding order. |
| `Transcriber.StatesPrefix` | audio_transcriber.py:87-91 | Feeding a prefix of the chunks passes through a prefix of the same states. |
| `Transcriber.BoundariesSignalled` | audio_transcriber.py:91-92 | The boundary list is increasing and in range, and holds exactly the chunks for which AcceptWaveform returned true. |
| `Transcriber.RepliesAtBoundaries` | audio_transcriber.py:91-92 | There is one reply per boundary. Reply k is Result() in the state right after the k-th boundary chunk. |
| `Transcriber.RepliesPrefix` | audio_transcriber.py:92 | Replies are append-only: those of a shorter feed are a prefix of those of a longer one. |
| `Transcriber.FirstFailureAt` | audio_transcriber.py:92 | The abort point is the first feed length after which some reply lacks "text". |
| `Transcriber.AbortedRun` | audio_transcriber.py:91-92 | When the n-th chunk's reply is the first without "text", the run raises KeyError('text') and has fed exactly n chunks. |
| `Transcriber.Drained` | audio_transcriber.py:93-98 | After the last chunk, the final reply's "text" decides between the transcript (records plus the final one) and an abort. |
| `Transcriber.LoopStep` | audio_transcriber.py:88-92 | One loop turn: no boundary keeps the records, a boundary with "text" appends one record, and one without "text" spoils the run. |
| `Transcriber.FeedLoop` | audio_transcriber.py:87-92 | The loop feeds a prefix of the fed chunks and stops at the first reply without "text". Otherwise it feeds all of them, and its records are the arranged replies. |
| `Transcriber.Expected` | audio_transcriber.py:64-98 | Whole-sequence reference for `transcribe`: None iff the decoder failed to spawn. An abort is always KeyError('text'). A transcript has the single key "transcription" holding a list. |
| `Transcriber.ExpectedFed` | audio_transcriber.py:80-92 | Whole-sequence reference for the chunks fed: none if the decoder failed to spawn, otherwise a prefix of the stream's non-empty reads. |
| `Transcriber.Transcribe` | audio_transcriber.py:64-98 | Its outcome and the chunks it feeds equal the reference definitions, for every engine and decoder. |
| `Transcriber.TranscriptItems` | audio_transcriber.py:92-98 | The "transcription" list of a returned transcript holds one record per reply, in order, each with that reply's text. |
| `Transcriber.TranscriptShape` | audio_transcriber.py:96-98 | Every item of the "transcription" list is an object whose only key is "text". |
| `Transcriber.RecordCount` | audio_transcriber.py:91-93 | A transcript holds exactly (number of boundaries) + 1 records. |
| `Transcriber.BoundaryRecords` | audio_transcriber.py:91-92 | Record k holds the text of Result() right after the k-th boundary chunk, in chunk order. |
| `Transcriber.FinalRecordLast` | audio_transcriber.py:93 | The last record holds the text of FinalResult() in the state after the last chunk, appended once. |
| `Transcriber.SilentStreamOneRecord` | audio_transcriber.py:91-93 | With no boundary signalled, the transcript holds exactly one record, the final one. |
| `Transcriber.NoSignalNoBoundary` | audio_transcriber.py:91-92 | No chunk signalled, so no boundary is recorded. |
| `Transcriber.EmptyStreamFinalOnly` | audio_transcriber.py:87-98 | A decoder with no output feeds nothing. It yields the one record of FinalResult() in the initial state, or KeyError('text') if that lacks "text". |
| `Transcriber.AbortedIff` | audio_transcriber.py:80-98 | A spawned decoder never gives None. The run raises KeyError('text') iff some reply lacks "text". |
| `Transcriber.FedInOrder` | audio_transcriber.py:80-92 | Fed chunks have 1..4000 bytes and are a prefix of the stream's chunks. A transcript means all were fed; a missing decoder means none. |
| `PathExt.RFind` | run_script.py:16 | The result is -1 or an index holding c, with no c after it. |
| `PathExt.ExtStart` | run_script.py:16-18 | Where splitext cuts the name: either the end, or a '.' followed by no other '.' and no '/'. |
| `PathExt.SplitExt` | run_script.py:16-18 | Root + extension is the name. The extension is empty or a dot followed by no dot and no '/'. |
| `PathExt.SplitExtFindsExtension` | run_script.py:16-18 | The extension is non-empty iff the final component has a dot after some non-dot character. |
| `PathExt.LowerFolds` | run_script.py:21 | After lower-casing no upper-case letter is left. Each upper-case letter becomes the letter 32 code points above and every other character is unchanged, so lower-casing is idempotent. |
| `PathExt.RFindLower` | run_script.py:21 | Lower-casing does not move any '/' or '.'. |
| `PathExt.ExtOfLower` | run_script.py:16-21 | Taking the extension commutes with lower-casing. |
| `PathExt.ExtIsSuffix` | run_script.py:16-18 | For an extension-shaped x, the extension equals x iff the name ends in x and has an extension. |
| `Cli.Validate` | run_script.py:9-24 | Fewer than three argv entries is rejected with status 1. An accepted run carries argv[1] and argv[2]. Every rejection has status 1. |
| `Cli.AllowedExtIff` | run_script.py:21 | The lower-cased extension is allowed iff the name has an extension and ends, ignoring case, in an allowed one. |
| `Cli.AcceptIff` | run_script.py:6-24 | The run goes on iff there are at least two arguments, argv[1] ends in .mp3/.mp4/.wav and argv[2] in .json, in any case, each after a proper stem. |
| `Cli.ExtraArgumentsIgnored` | run_script.py:10-18 | Arguments after argv[2] do not change the verdict. |
| `Cli.CaseInsensitive` | run_script.py:21 | Argument lists equal up to ASCII case get the same verdict. |
| `Cli.NoDotRejected` | run_script.py:16-24 | A name whose final path component (after its last '/') has no dot, e.g. "audio" or "out.d/result", is always rejected. |
| `Cli.DotFileRejected` | run_script.py:16-24 | A hidden name such as ".wav" has no extension and is rejected. |
| `Cli.ExtOfStemAndExt` | run_script.py:16-18 | A plain stem followed by an extension-shaped x has extension x. |
| `Cli.UpperCaseAccepted` | run_script.py:21-24 | "STEM.WAV" with "STEM.Json" is accepted. |
| `Cli.RunScript` | run_script.py:26-35 | The script as written exits, with status 1, exactly when the arguments are rejected. It dumps `null` exactly when the arguments pass and ffmpeg is missing, and always to argv[2]. A crash is always KeyError('text'). |
| `Cli.RejectedBeforeTranscription` | run_script.py:10-31 | Rejected arguments end with status 1, whatever the recognizer and decoder. |
| `Cli.TranscribesInput` | run_script.py:15-31 | The run depends on the decoder only through the one spawned for argv[1]. |
| `Cli.MissingDecoderDumpsNull` | run_script.py:31-35 | With accepted arguments and ffmpeg missing, the script as written dumps `null` to argv[2]. |
| `Cli.MissingDecoderExample` | run_script.py:31-35 | `run_script.py a.wav a.json` (any plain stem) without ffmpeg dumps `null`. |
| `Cli.RunScriptChecked` | run_script.py:26-35 | The corrected script exits with status 1 iff the arguments are rejected or ffmpeg is missing. Whatever it dumps goes to argv[2] and is a JSON object. A crash is always KeyError('text'). |
| `Cli.CheckedDumpsTranscript` | run_script.py:31-35 | A file is written iff the arguments pass, ffmpeg spawns and every reply has "text". What is written is always the one-key transcript of records. |
| `Cli.CheckedAgreesWhenSpawned` | run_script.py:26-35 | The corrected script and the script as written agree on every run where ffmpeg is found. |

## Left out

- Spawning ffmpeg (audio_transcriber.py:41-62): the command line and the process are left out. The decoder is a parameter: either spawn failure or the sequence of its reads. Waiting for or closing the process is not modelled either, since the source never does it.
- Spawn errors other than FileNotFoundError (audio_transcriber.py:80-84): a PermissionError for a non-executable ffmpeg, or any other OSError from `Popen`, is not caught by `transcribe`. It escapes to run_script.py:31 and crashes the script. `Decoder` has no such outcome: the only spawn failure modelled is `SpawnFailed`, standing for FileNotFoundError.
- The Vosk model and recognizer internals, `Model(model_path)` loading and its failures, and the `KaldiRecognizer(model, SAMPLE_RATE)` constructor (lines 15-23, 73). They appear only as the opaque `Engine` functions and the initial state `s0`. `Result()` and `FinalResult()` are pure functions of the state.
- `json.loads` in `arrange`: replies are taken already parsed as JSON objects. Malformed JSON and a reply that parses to a non-object are not modelled. JSON numbers are integers.
- `SAMPLE_RATE` is a float: only its role in the 96000-byte example is kept.
- `print` messages and the process exit mechanism: a rejection is the status it would exit with.
- `json.dump(..., indent=4)` and the file write (run_script.py:34-35): the outcome is the path and the JSON value written, not its text.
- `PathExt.Lower`: lower-cases ASCII letters only. Python's `str.lower` also maps non-ASCII letters. The only ones that lower-case to ASCII letters are the Kelvin sign (to 'k') and U+0130 (to 'i' followed by the non-ASCII U+0307). 'k' appears in no allowed extension, and the 'i' result is never pure ASCII. So the restriction changes no verdict of `Cli.Validate`; it only affects which non-ASCII names are modelled exactly.
- `PathExt.SplitExt`: models POSIX `posixpath.splitext` only, not the Windows variant with '\\' and drive letters.

## Findings

| source | as written | input that shows it | evidently intended | confidence | as-written member | corrected member |
|---|---|---|---|---|---|---|
| run_script.py:31-35 | When ffmpeg is missing, `transcribe` prints a message and returns `None` (audio_transcriber.py:80-84). The script then writes JSON `null` to the output file and exits normally. | `run_script.py a.wav a.json` on a machine without ffmpeg | Report the failure and write no output file | medium, not executed | `Cli.RunScript`, shown by `Cli.MissingDecoderExample` | `Cli.RunScriptChecked`, proved by `Cli.CheckedDumpsTranscript` |
