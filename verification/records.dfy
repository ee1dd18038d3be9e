/** `Transcriber.arrange` (audio_transcriber.py): the projection of one
    recognizer reply onto its "text" field. */
module Records {
  import opened Json

  /** The one exception `arrange` raises on an already-parsed object. */
  datatype Exception = KeyError(key: string)

  datatype Result<+T> = Ok(value: T) | Raised(error: Exception)

  const TEXT: string := "text"

  /** An utterance record: an object whose only key is "text". */
  predicate IsRecord(o: Object) {
    o.Keys == {TEXT}
  }

  /** `arrange(data)` on the object `json.loads` produced: keep "text", drop
      every other field, raise `KeyError('text')` when there is none. */
  function Arrange(data: Object): (r: Result<Object>)
    ensures r.Ok? <==> TEXT in data
    ensures r.Ok? ==> IsRecord(r.value) && r.value[TEXT] == data[TEXT]
    ensures r.Raised? ==> r.error == KeyError(TEXT)
  {
    if TEXT in data then Ok(map[TEXT := data[TEXT]]) else Raised(KeyError(TEXT))
  }

  /** Two replies that agree on "text" (or both lack it) arrange alike:
      every other field is irrelevant. */
  lemma ArrangeIgnoresOtherFields(a: Object, b: Object)
    requires (TEXT in a) == (TEXT in b)
    requires TEXT in a ==> a[TEXT] == b[TEXT]
    ensures Arrange(a) == Arrange(b)
  {
  }

  /** A record is a fixed point of `arrange`, so arranging twice is arranging once. */
  lemma ArrangeFixesRecords(o: Object)
    requires IsRecord(o)
    ensures Arrange(o) == Ok(o)
  {
    assert TEXT in o.Keys;
    var m := map[TEXT := o[TEXT]];
    assert m.Keys == o.Keys;
    assert forall k | k in m :: m[k] == o[k];
    assert m == o;
  }

  predicate AllText(objs: seq<Object>) {
    forall k :: 0 <= k < |objs| ==> TEXT in objs[k]
  }

  /** Arranges replies one after another, as the transcription loop appends
      them, stopping at the first one that lacks "text". */
  function ArrangeAll(objs: seq<Object>): (r: Result<seq<Object>>)
    ensures r.Ok? <==> AllText(objs)
    ensures r.Ok? ==> |r.value| == |objs|
    ensures r.Ok? ==> forall k :: 0 <= k < |objs| ==> Arrange(objs[k]) == Ok(r.value[k])
    ensures r.Raised? ==> r.error == KeyError(TEXT)
  {
    if objs == [] then Ok([])
    else
      match Arrange(objs[0])
      case Raised(err) => Raised(err)
      case Ok(head) =>
        match ArrangeAll(objs[1..])
        case Raised(err) => Raised(err)
        case Ok(tail) => Ok([head] + tail)
  }

  /** Appending one reply extends the arranged list by its record, or raises. */
  lemma ArrangeAllSnoc(objs: seq<Object>, o: Object)
    requires ArrangeAll(objs).Ok?
    ensures ArrangeAll(objs + [o]) ==
      match Arrange(o)
      case Ok(rec) => Ok(ArrangeAll(objs).value + [rec])
      case Raised(err) => Raised(err)
  {
    var all := objs + [o];
    assert forall k :: 0 <= k < |objs| ==> all[k] == objs[k];
    assert all[|objs|] == o;
    if Arrange(o).Ok? {
      var r := ArrangeAll(all);
      assert r.Ok?;
      var expected := ArrangeAll(objs).value + [Arrange(o).value];
      assert |r.value| == |expected|;
      forall k | 0 <= k < |all|
        ensures r.value[k] == expected[k]
      {
        assert Arrange(all[k]) == Ok(r.value[k]);
        if k < |objs| {
          assert Arrange(objs[k]) == Ok(ArrangeAll(objs).value[k]);
        }
      }
      assert r.value == expected;
    } else {
      assert TEXT !in all[|objs|];
    }
  }
}
