/** The file that keeps a finished job's result until the server has it. */
module PendingFile {
  import opened Basics
  import opened JsonText
  import opened JsonReading
  import opened JsonRoundTrip

  datatype JobOutcome = JobOutcome(jobId: Bytes, success: bool, runtime: real, resultJson: Bytes, error: Bytes)

  datatype Saved = Saved(outcome: JobOutcome, startedAt: Bytes, finishedAt: Bytes)

  function Ascii(s: string): (r: Bytes)
    ensures |r| == |s| && forall i :: 0 <= i < |s| && s[i] as int < 0x80 ==> r[i] == s[i] as int
  {
    seq(|s|, i requires 0 <= i < |s| => if s[i] as int < 0x80 then s[i] as int else 0x3F)
  }

  const JOB_ID: Bytes := Ascii("job_id")
  const SUCCESS: Bytes := Ascii("success")
  const RUNTIME: Bytes := Ascii("runtime_s")
  const RESULT: Bytes := Ascii("result_json")
  const ERROR: Bytes := Ascii("error")
  const STARTED: Bytes := Ascii("started_at")
  const FINISHED: Bytes := Ascii("finished_at")

  /** The record, member by member in the order they are set. */
  function Members(s: Saved): seq<Field> {
    [ Field(JOB_ID, String(s.outcome.jobId)),
      Field(SUCCESS, Bool(s.outcome.success)),
      Field(RUNTIME, Number(s.outcome.runtime)),
      Field(RESULT, String(s.outcome.resultJson)),
      Field(ERROR, String(s.outcome.error)),
      Field(STARTED, String(s.startedAt)),
      Field(FINISHED, String(s.finishedAt)) ]
  }

  /** What `savePendingResult` writes: the record and a newline. */
  function FileText(fraction: real -> Bytes, s: Saved): Bytes {
    Dump(Object(Members(s)), fraction) + [0x0A]
  }

  function Find(fields: seq<Field>, key: Bytes): Json {
    if fields == [] then Null else if fields[0].key == key then fields[0].value else Find(fields[1..], key)
  }

  function Get(v: Json, key: Bytes): Json { if v.Object? then Find(v.fields, key) else Null }

  function AsString(v: Json): Bytes { if v.String? then v.s else [] }

  function AsBool(v: Json): bool { v.Bool? && v.b }

  function AsNumber(v: Json): real { if v.Number? then v.num else 0.0 }

  /** What `loadPendingResult` makes of a file's bytes. */
  function Load(other: Strtod, text: Bytes): Option<Saved> {
    match Parse(other, text)
    case Failed(_, _) => None
    case Done(v, _) =>
      if AsString(Get(v, JOB_ID)) == [] then None
      else
        Some(Saved(JobOutcome(AsString(Get(v, JOB_ID)), AsBool(Get(v, SUCCESS)), AsNumber(Get(v, RUNTIME)),
                              AsString(Get(v, RESULT)), AsString(Get(v, ERROR))),
                   AsString(Get(v, STARTED)), AsString(Get(v, FINISHED))))
  }

  lemma {:induction false} KeysApart(s: Saved)
    ensures DistinctKeys(Members(s))
  {
    assert RESULT[0] == 'r' as int && FINISHED[0] == 'f' as int;
  }

  lemma {:induction false} FoundAt(fields: seq<Field>, i: nat)
    requires DistinctKeys(fields) && i < |fields|
    ensures Find(fields, fields[i].key) == fields[i].value
    decreases i
  {
    if i > 0 {
      assert fields[0].key != fields[i].key;
      FoundAt(fields[1..], i - 1);
    }
  }

  lemma {:induction false} MembersFound(s: Saved)
    ensures var v := Object(Members(s));
      && Get(v, JOB_ID) == String(s.outcome.jobId) && Get(v, SUCCESS) == Bool(s.outcome.success)
      && Get(v, RUNTIME) == Number(s.outcome.runtime) && Get(v, RESULT) == String(s.outcome.resultJson)
      && Get(v, ERROR) == String(s.outcome.error) && Get(v, STARTED) == String(s.startedAt)
         && Get(v, FINISHED) == String(s.finishedAt)
  {
    KeysApart(s);
    var fields := Members(s);
    FoundAt(fields, 0);
    FoundAt(fields, 1);
    FoundAt(fields, 2);
    FoundAt(fields, 3);
    FoundAt(fields, 4);
    FoundAt(fields, 5);
    FoundAt(fields, 6);
  }

  lemma {:induction false} RecordFits(lib: Library, s: Saved)
    ensures var v := Object(Members(s)); KeysUnique(v) && Within(v, 0)
    ensures var v := Object(Members(s)); Readable(lib, v) <==> Rounds(lib, s.outcome.runtime)
    ensures var v := Object(Members(s)); Rounds(lib, s.outcome.runtime) || Overflows(lib, s.outcome.runtime) ==>
      Known(lib, v)
  {
    KeysApart(s);
    var fields := Members(s);
    forall i | 0 <= i < |fields|
      ensures KeysUnique(fields[i].value) && Within(fields[i].value, 1)
      ensures i != 2 ==> Readable(lib, fields[i].value) && Known(lib, fields[i].value)
    {
      assert i == 0 || i == 1 || i == 2 || i == 3 || i == 4 || i == 5 || i == 6;
    }
    assert fields[2].value == Number(s.outcome.runtime);
  }

  /** The record with what is left of its running time. */
  function AfterRound(lib: Library, s: Saved): Saved {
    s.(outcome := s.outcome.(runtime := After(lib, s.outcome.runtime)))
  }

  lemma {:induction false} RoundedMembers(lib: Library, s: Saved)
    ensures RoundedFields(lib, Members(s)) == Members(AfterRound(lib, s))
  {
    var fields := Members(s);
    forall i | 0 <= i < |fields| ensures RoundedFields(lib, fields)[i] == Members(AfterRound(lib, s))[i] {
      RoundedFieldAt(lib, fields, i);
      assert i == 0 || i == 1 || i == 2 || i == 3 || i == 4 || i == 5 || i == 6;
    }
  }

  /** What was saved is what is loaded, its running time rounded as printing rounds it, unless the file is longer than
      the parser accepts or the time overflows: then nothing is. */
  lemma {:induction false} LoadsRounded(lib: Library, s: Saved)
    requires Rounds(lib, s.outcome.runtime) || Overflows(lib, s.outcome.runtime)
    requires s.outcome.jobId != []
    ensures var text := FileText(lib.fraction, s);
      Load(lib.scan, text) ==
        if |text| <= MaxInput && Rounds(lib, s.outcome.runtime) then Some(AfterRound(lib, s)) else None
  {
    var v, text := Object(Members(s)), FileText(lib.fraction, s);
    RecordFits(lib, s);
    RoundedMembers(lib, s);
    MembersFound(AfterRound(lib, s));
    if |text| <= MaxInput {
      ReadsBack(lib, v, Dump(v, lib.fraction), [0x0A]);
    }
  }

  /** A running time that printing does not change: what was saved is what is loaded. */
  lemma {:induction false} LoadsWhatWasSaved(lib: Library, s: Saved)
    requires Rounds(lib, s.outcome.runtime) && After(lib, s.outcome.runtime) == s.outcome.runtime
    requires s.outcome.jobId != []
    ensures var text := FileText(lib.fraction, s);
      Load(lib.scan, text) == if |text| <= MaxInput then Some(s) else None
  {
    LoadsRounded(lib, s);
  }

  // ---- records that are too long --------------------------------------------------------------------

  lemma {:induction false} EscapedGrows(s: Bytes)
    ensures |Escaped(s)| >= |s|
  {
    if s != [] {
      EscapedGrows(s[1..]);
    }
  }

  lemma {:induction false} FieldsGrow(fraction: real -> Bytes, fields: seq<Field>, i: nat)
    requires i < |fields|
    ensures |DumpFields(fields, fraction)| >= |Dump(fields[i].value, fraction)|
    decreases i
  {
    if i > 0 {
      FieldsGrow(fraction, fields[1..], i - 1);
    }
  }

  /** A file is at least as long as the result in it, for escaping never shortens. */
  lemma {:induction false} FileGrows(fraction: real -> Bytes, s: Saved)
    ensures |FileText(fraction, s)| > |s.outcome.resultJson|
  {
    EscapedGrows(s.outcome.resultJson);
    FieldsGrow(fraction, Members(s), 3);
    assert Members(s)[3].value == String(s.outcome.resultJson);
  }

  /** So a result longer than the parser accepts is written but never found again, whatever the library does. */
  lemma {:induction false} LongResultNotLoaded(scan: Strtod, fraction: real -> Bytes, s: Saved)
    requires |s.outcome.resultJson| >= MaxInput
    ensures Load(scan, FileText(fraction, s)) == None
  {
    FileGrows(fraction, s);
  }
}
