/**
  processImage: for each SQS record, unwrap the SNS notification and the S3
  event inside it, and for each S3 record put `{ fileName }` into the
  catalog, where fileName is the last '/'-separated segment of the decoded
  object key. A put that fails is logged and skipped; any other exception
  (unparsable JSON, a missing field, a malformed key) escapes the handler and
  ends the invocation, with every put made before it left in place.

  The service's answer to the k-th put of an invocation is `putOk(k)`.
 */
module ProcessImage {
  import opened Wrappers
  import opened Js
  import opened Envelopes
  import opened ObjectKey
  import opened Catalog

  /** The state of an invocation: the table, the file names put so far in
      order, and the exception that ended it, if one did. */
  datatype Run = Run(items: map<string, Entry>, attempted: seq<string>, error: Option<JsError>)

  /** The file name of one S3 record, or the exception computing it throws:
      a missing key is a TypeError, a malformed escape a URIError. */
  function RecordFileName(r: S3Record): Result<string, JsError> {
    match r.objectKey
    case None => Failure(TypeError)
    case Some(key) => FileNameOfKey(key)
  }

  /** The file name, or the exception, of each S3 record of a notification. */
  function FileNames(records: seq<S3Record>): seq<Result<string, JsError>> {
    seq(|records|, i requires 0 <= i < |records| => RecordFileName(records[i]))
  }

  /** What the handler reads from each SQS record: the exception unwrapping it
      throws, or the file name (or exception) of each of its S3 records. */
  type Decoded = seq<Result<seq<Result<string, JsError>>, JsError>>

  function Decode(event: S3Batch): (d: Decoded)
    ensures |d| == |event|
  {
    seq(|event|, i requires 0 <= i < |event| =>
      match InnerRecords(event[i])
      case Failure(e) => Failure(e)
      case Success(records) => Success(FileNames(records)))
  }

  /** The inner loop, given the file name (or exception) of each S3 record:
      one put per record, in order, until a record throws. */
  function IngestRecords(items: map<string, Entry>, attempted: seq<string>, names: seq<Result<string, JsError>>,
                         putOk: nat -> bool): Run
    decreases |names|
  {
    if names == [] then Run(items, attempted, None)
    else
      match names[0]
      case Failure(e) => Run(items, attempted, Some(e))
      case Success(name) =>
        IngestRecords(StorePut(items, ImageItem(name), putOk(|attempted|)), attempted + [name],
                      names[1..], putOk)
  }

  /** The outer loop over the SQS records of one invocation. */
  function IngestBatch(items: map<string, Entry>, attempted: seq<string>, batch: Decoded,
                       putOk: nat -> bool): Run
    decreases |batch|
  {
    if batch == [] then Run(items, attempted, None)
    else
      match batch[0]
      case Failure(e) => Run(items, attempted, Some(e))
      case Success(names) =>
        var r := IngestRecords(items, attempted, names, putOk);
        if r.error.Some? then r else IngestBatch(r.items, r.attempted, batch[1..], putOk)
  }

  // ---------------------------------------------------------------------------
  // A reference that does not mention the table: which file names an event
  // asks to record, and whether it makes the handler throw.

  /** The file names put for an event, in order, and the exception that stops it. */
  datatype Plan = Plan(names: seq<string>, error: Option<JsError>)

  function RecordNames(names: seq<Result<string, JsError>>): Plan
    decreases |names|
  {
    if names == [] then Plan([], None)
    else
      match names[0]
      case Failure(e) => Plan([], Some(e))
      case Success(name) =>
        var rest := RecordNames(names[1..]);
        Plan([name] + rest.names, rest.error)
  }

  function BatchNames(batch: Decoded): Plan
    decreases |batch|
  {
    if batch == [] then Plan([], None)
    else
      match batch[0]
      case Failure(e) => Plan([], Some(e))
      case Success(names) =>
        var p := RecordNames(names);
        if p.error.Some? then p
        else
          var q := BatchNames(batch[1..]);
          Plan(p.names + q.names, q.error)
  }

  /** When every S3 record of a notification yields a file name, there is one
      put per record, in record order, and nothing is thrown. */
  lemma {:induction false} OnePutPerRecord(names: seq<Result<string, JsError>>)
    requires forall i :: 0 <= i < |names| ==> names[i].Success?
    ensures var p := RecordNames(names);
      p.error.None? && |p.names| == |names| &&
      forall i :: 0 <= i < |names| ==> p.names[i] == names[i].value
    decreases |names|
  {
    if names != [] {
      OnePutPerRecord(names[1..]);
      var p := RecordNames(names);
      forall i | 1 <= i < |names| ensures p.names[i] == names[i].value {
        assert names[1..][i - 1] == names[i];
      }
    }
  }

  /** The table after the puts of `names`, the first of them being put number `start`. */
  function ApplyPuts(items: map<string, Entry>, names: seq<string>, putOk: nat -> bool, start: nat): map<string, Entry>
    decreases |names|
  {
    if names == [] then items
    else ApplyPuts(StorePut(items, ImageItem(names[0]), putOk(start)), names[1..], putOk, start + 1)
  }

  lemma {:induction false} ApplyPutsAppend(items: map<string, Entry>, a: seq<string>, b: seq<string>,
                                          putOk: nat -> bool, start: nat)
    ensures ApplyPuts(items, a + b, putOk, start)
         == ApplyPuts(ApplyPuts(items, a, putOk, start), b, putOk, start + |a|)
    decreases |a|
  {
    if a == [] {
      assert a + b == b;
    } else {
      assert (a + b)[0] == a[0] && (a + b)[1..] == a[1..] + b;
      ApplyPutsAppend(StorePut(items, ImageItem(a[0]), putOk(start)), a[1..], b, putOk, start + 1);
    }
  }

  /** The inner loop puts the planned names, numbered on from the earlier
      puts, and throws exactly where the plan says. */
  lemma {:induction false} IngestRecordsFollowsPlan(items: map<string, Entry>, attempted: seq<string>,
                                                   names: seq<Result<string, JsError>>, putOk: nat -> bool)
    ensures var r := IngestRecords(items, attempted, names, putOk);
      var p := RecordNames(names);
      r.attempted == attempted + p.names && r.error == p.error
    decreases |names|
  {
    if names != [] && names[0].Success? {
      var name := names[0].value;
      IngestRecordsFollowsPlan(StorePut(items, ImageItem(name), putOk(|attempted|)), attempted + [name],
                               names[1..], putOk);
      var rest := RecordNames(names[1..]);
      assert attempted + [name] + rest.names == attempted + ([name] + rest.names);
    }
  }

  /** The table after the inner loop is the table after its planned puts. */
  lemma {:induction false} IngestRecordsPuts(items: map<string, Entry>, attempted: seq<string>,
                                            names: seq<Result<string, JsError>>, putOk: nat -> bool)
    ensures IngestRecords(items, attempted, names, putOk).items
         == ApplyPuts(items, RecordNames(names).names, putOk, |attempted|)
    decreases |names|
  {
    if names != [] && names[0].Success? {
      var name := names[0].value;
      IngestRecordsPuts(StorePut(items, ImageItem(name), putOk(|attempted|)), attempted + [name],
                        names[1..], putOk);
      var planned := RecordNames(names).names;
      assert planned[0] == name && planned[1..] == RecordNames(names[1..]).names;
    }
  }

  lemma IngestRecordsIsPlannedPuts(items: map<string, Entry>, attempted: seq<string>,
                                   names: seq<Result<string, JsError>>, putOk: nat -> bool)
    ensures var r := IngestRecords(items, attempted, names, putOk);
      var p := RecordNames(names);
      r.attempted == attempted + p.names && r.error == p.error &&
      r.items == ApplyPuts(items, p.names, putOk, |attempted|)
  {
    IngestRecordsFollowsPlan(items, attempted, names, putOk);
    IngestRecordsPuts(items, attempted, names, putOk);
  }

  /** The outer loop puts the planned names and throws exactly where the plan says. */
  lemma {:induction false} IngestBatchFollowsPlan(items: map<string, Entry>, attempted: seq<string>,
                                                 batch: Decoded, putOk: nat -> bool)
    ensures var r := IngestBatch(items, attempted, batch, putOk);
      var p := BatchNames(batch);
      r.attempted == attempted + p.names && r.error == p.error
    decreases |batch|
  {
    if batch != [] && batch[0].Success? {
      var names := batch[0].value;
      IngestRecordsFollowsPlan(items, attempted, names, putOk);
      var r := IngestRecords(items, attempted, names, putOk);
      if r.error.None? {
        IngestBatchFollowsPlan(r.items, r.attempted, batch[1..], putOk);
        var p, q := RecordNames(names), BatchNames(batch[1..]);
        assert attempted + p.names + q.names == attempted + (p.names + q.names);
      }
    }
  }

  /** The table after the outer loop is the table after its planned puts. */
  lemma {:induction false} IngestBatchPuts(items: map<string, Entry>, attempted: seq<string>,
                                          batch: Decoded, putOk: nat -> bool)
    ensures IngestBatch(items, attempted, batch, putOk).items
         == ApplyPuts(items, BatchNames(batch).names, putOk, |attempted|)
    decreases |batch|
  {
    if batch != [] && batch[0].Success? {
      var names := batch[0].value;
      IngestRecordsFollowsPlan(items, attempted, names, putOk);
      IngestRecordsPuts(items, attempted, names, putOk);
      var r := IngestRecords(items, attempted, names, putOk);
      if r.error.None? {
        IngestBatchPuts(r.items, r.attempted, batch[1..], putOk);
        ApplyPutsAppend(items, RecordNames(names).names, BatchNames(batch[1..]).names, putOk, |attempted|);
      }
    }
  }

  /** The handler puts exactly the planned file names, in order, as put number
      |attempted|, |attempted| + 1, and so on, and stops exactly where the plan
      says it throws. */
  lemma IngestBatchIsPlannedPuts(items: map<string, Entry>, attempted: seq<string>,
                                 batch: Decoded, putOk: nat -> bool)
    ensures var r := IngestBatch(items, attempted, batch, putOk);
      var p := BatchNames(batch);
      r.attempted == attempted + p.names && r.error == p.error &&
      r.items == ApplyPuts(items, p.names, putOk, |attempted|)
  {
    IngestBatchFollowsPlan(items, attempted, batch, putOk);
    IngestBatchPuts(items, attempted, batch, putOk);
  }

  /** A failing put is swallowed: which puts are sent, and whether the
      invocation throws, does not depend on the service's answers or on what
      the table held. */
  lemma PutFailuresDoNotSteer(items1: map<string, Entry>, items2: map<string, Entry>, batch: Decoded,
                              putOk1: nat -> bool, putOk2: nat -> bool)
    ensures IngestBatch(items1, [], batch, putOk1).attempted == IngestBatch(items2, [], batch, putOk2).attempted
    ensures IngestBatch(items1, [], batch, putOk1).error == IngestBatch(items2, [], batch, putOk2).error
  {
    IngestBatchIsPlannedPuts(items1, [], batch, putOk1);
    IngestBatchIsPlannedPuts(items2, [], batch, putOk2);
  }

  /** Keys no put names keep their item, or their absence. */
  lemma {:induction false} ApplyPutsFrame(items: map<string, Entry>, names: seq<string>, putOk: nat -> bool,
                                         start: nat, key: string)
    requires key !in names
    ensures var r := ApplyPuts(items, names, putOk, start);
      (key in r <==> key in items) && (key in items ==> r[key] == items[key])
    decreases |names|
  {
    if names != [] {
      ApplyPutsFrame(StorePut(items, ImageItem(names[0]), putOk(start)), names[1..], putOk, start + 1, key);
    }
  }

  /** A bare item, once stored, stays: every later put of its key writes the same item. */
  lemma {:induction false} ApplyPutsKeepsBareItem(items: map<string, Entry>, names: seq<string>,
                                                 putOk: nat -> bool, start: nat, key: string)
    requires key in items && items[key] == ImageItem(key)
    ensures var r := ApplyPuts(items, names, putOk, start); key in r && r[key] == ImageItem(key)
    decreases |names|
  {
    if names != [] {
      ApplyPutsKeepsBareItem(StorePut(items, ImageItem(names[0]), putOk(start)), names[1..], putOk, start + 1, key);
    }
  }

  /** When every put succeeds, every named file with a valid key ends up as the bare item `{ fileName }`. */
  lemma {:induction false} ApplyPutsStoresAll(items: map<string, Entry>, names: seq<string>,
                                             putOk: nat -> bool, start: nat)
    requires forall k: nat :: start <= k < start + |names| ==> putOk(k)
    ensures var r := ApplyPuts(items, names, putOk, start);
      forall i :: 0 <= i < |names| && ValidKey(names[i]) ==> names[i] in r && r[names[i]] == ImageItem(names[i])
    decreases |names|
  {
    if names != [] {
      var next := StorePut(items, ImageItem(names[0]), putOk(start));
      ApplyPutsStoresAll(next, names[1..], putOk, start + 1);
      if ValidKey(names[0]) {
        ApplyPutsKeepsBareItem(next, names[1..], putOk, start + 1, names[0]);
      }
      var r := ApplyPuts(items, names, putOk, start);
      forall i | 1 <= i < |names| && ValidKey(names[i])
        ensures names[i] in r && r[names[i]] == ImageItem(names[i])
      {
        assert names[i] == names[1..][i - 1];
      }
    }
  }

  /** Putting names that already hold their bare item changes nothing. */
  lemma {:induction false} ApplyPutsOfStoredIsNoOp(items: map<string, Entry>, names: seq<string>,
                                                  putOk: nat -> bool, start: nat)
    requires forall i :: 0 <= i < |names| && ValidKey(names[i]) ==> names[i] in items && items[names[i]] == ImageItem(names[i])
    ensures ApplyPuts(items, names, putOk, start) == items
    decreases |names|
  {
    if names != [] {
      assert StorePut(items, ImageItem(names[0]), putOk(start)) == items;
      forall i | 0 <= i < |names[1..]| && ValidKey(names[1..][i])
        ensures names[1..][i] in items && items[names[1..][i]] == ImageItem(names[1..][i])
      {
        assert names[1..][i] == names[i + 1];
      }
      ApplyPutsOfStoredIsNoOp(items, names[1..], putOk, start + 1);
    }
  }

  /** Redelivery: handling an event a second time, after a first handling in
      which every put succeeded, leaves the table as the first handling left it. */
  lemma IngestTwiceIsIngestOnce(items: map<string, Entry>, batch: Decoded, putOk: nat -> bool,
                                again: nat -> bool)
    requires forall k: nat :: putOk(k)
    ensures var once := IngestBatch(items, [], batch, putOk).items;
      IngestBatch(once, [], batch, again).items == once
  {
    var p := BatchNames(batch);
    IngestBatchIsPlannedPuts(items, [], batch, putOk);
    var once := ApplyPuts(items, p.names, putOk, 0);
    ApplyPutsStoresAll(items, p.names, putOk, 0);
    IngestBatchIsPlannedPuts(once, [], batch, again);
    ApplyPutsOfStoredIsNoOp(once, p.names, again, 0);
  }

  /** What one invocation does to the table: only keys it puts change, and
      when every put succeeds each of them holds exactly `{ fileName }`. */
  lemma IngestEffect(items: map<string, Entry>, batch: Decoded, putOk: nat -> bool, key: string)
    ensures var r := IngestBatch(items, [], batch, putOk).items;
      (key !in BatchNames(batch).names ==> (key in r <==> key in items) && (key in items ==> r[key] == items[key])) &&
      ((forall k: nat :: putOk(k)) && key in BatchNames(batch).names && ValidKey(key) ==> key in r && r[key] == ImageItem(key))
  {
    var p := BatchNames(batch);
    IngestBatchIsPlannedPuts(items, [], batch, putOk);
    if key !in p.names {
      ApplyPutsFrame(items, p.names, putOk, 0, key);
    }
    if (forall k: nat :: putOk(k)) && key in p.names && ValidKey(key) {
      ApplyPutsStoresAll(items, p.names, putOk, 0);
      var i :| 0 <= i < |p.names| && p.names[i] == key;
    }
  }

  /** SQS records are handled one after another: handling `b1 + b2` is handling
      b1 and then, unless b1 threw, b2 from where b1 left off. In particular
      an exception keeps every earlier put and ignores every later record. */
  lemma {:induction false} IngestBatchAppend(items: map<string, Entry>, attempted: seq<string>,
                                            b1: Decoded, b2: Decoded, putOk: nat -> bool)
    ensures var r1 := IngestBatch(items, attempted, b1, putOk);
      IngestBatch(items, attempted, b1 + b2, putOk)
        == if r1.error.Some? then r1 else IngestBatch(r1.items, r1.attempted, b2, putOk)
    decreases |b1|
  {
    if b1 == [] {
      assert b1 + b2 == b2;
    } else {
      assert (b1 + b2)[0] == b1[0] && (b1 + b2)[1..] == b1[1..] + b2;
      match b1[0]
      case Failure(_) =>
      case Success(names) =>
        var r := IngestRecords(items, attempted, names, putOk);
        if r.error.None? {
          IngestBatchAppend(r.items, r.attempted, b1[1..], b2, putOk);
        }
    }
  }

  /** Decoding works record by record, so the decoded batch of `e1 + e2` is the
      two decoded batches one after the other. */
  lemma DecodeAppend(e1: S3Batch, e2: S3Batch)
    ensures Decode(e1 + e2) == Decode(e1) + Decode(e2)
  {
    var l, r := Decode(e1 + e2), Decode(e1) + Decode(e2);
    forall i | 0 <= i < |l| ensures l[i] == r[i] {
      if i < |e1| { assert (e1 + e2)[i] == e1[i]; } else { assert (e1 + e2)[i] == e2[i - |e1|]; }
    }
  }

  /** Once an SQS record throws, later SQS records are never read: the
      invocation on `e1 + e2` ends as the one on e1 alone, with the puts
      already made kept. */
  lemma ExceptionIgnoresLaterRecords(items: map<string, Entry>, e1: S3Batch, e2: S3Batch, putOk: nat -> bool)
    requires IngestBatch(items, [], Decode(e1), putOk).error.Some?
    ensures IngestBatch(items, [], Decode(e1 + e2), putOk) == IngestBatch(items, [], Decode(e1), putOk)
  {
    DecodeAppend(e1, e2);
    IngestBatchAppend(items, [], Decode(e1), Decode(e2), putOk);
  }

  /** An SQS record whose notification has no Records changes nothing and throws nothing. */
  lemma EmptyNotificationIsSkipped(items: map<string, Entry>, record: SqsRecord<SnsEnvelope<S3Notification>>,
                                   rest: S3Batch, putOk: nat -> bool)
    requires record.body.Success? && record.body.value.message.Success?
    requires record.body.value.message.value.records.Falsy?
    ensures IngestBatch(items, [], Decode([record] + rest), putOk) == IngestBatch(items, [], Decode(rest), putOk)
  {
    DecodeAppend([record], rest);
    assert InnerRecords(record) == Success([]);
    assert FileNames([]) == [];
    assert Decode([record])[0] == Success([]);
    IngestBatchAppend(items, [], Decode([record]), Decode(rest), putOk);
  }

  // ---------------------------------------------------------------------------
  // The handler itself.

  /** The exported handler: the nested loops of the source over a live table.
      It returns the file names it put, in order, and the exception that
      escaped, if any. */
  method Handler(table: Table, event: S3Batch, putOk: nat -> bool) returns (attempted: seq<string>, error: Option<JsError>)
    requires table.Valid()
    modifies table
    ensures table.Valid()
    ensures Run(table.items, attempted, error) == IngestBatch(old(table.items), [], Decode(event), putOk)
  {
    attempted, error := [], None;
    ghost var batch := Decode(event);
    for i := 0 to |event|
      invariant table.Valid()
      invariant error == None
      invariant IngestBatch(table.items, attempted, batch[i..], putOk) == IngestBatch(old(table.items), [], batch, putOk)
    {
      assert batch[i..][0] == batch[i] && batch[i..][1..] == batch[i + 1..];
      var unwrapped := InnerRecords(event[i]);
      if unwrapped.Failure? {
        error := Some(unwrapped.error);
        return;
      }
      var records := unwrapped.value;
      ghost var items0, attempted0 := table.items, attempted;
      ghost var names := FileNames(records);
      assert batch[i] == Success(names);
      for j := 0 to |records|
        invariant table.Valid()
        invariant IngestRecords(table.items, attempted, names[j..], putOk)
               == IngestRecords(items0, attempted0, names, putOk)
      {
        assert names[j..][0] == names[j] == RecordFileName(records[j]);
        assert names[j..][1..] == names[j + 1..];
        var messageRecord := records[j];
        if messageRecord.objectKey.None? {
          error := Some(TypeError);
          return;
        }
        var decoded := DecodeKey(messageRecord.objectKey.value);
        if decoded.Failure? {
          error := Some(decoded.error);
          return;
        }
        var originalFileName := FileName(decoded.value);
        var _ := table.Put(ImageItem(originalFileName), putOk(|attempted|));
        attempted := attempted + [originalFileName];
      }
      assert names[|records|..] == [];
    }
  }

  /** One invocation: the module-level configuration check, then the handler. */
  method Invoke(table: Table, tableName: Option<string>, region: Option<string>, event: S3Batch,
                putOk: nat -> bool) returns (outcome: Invocation, attempted: seq<string>)
    requires table.Valid()
    modifies table
    ensures table.Valid()
    ensures LoadTableConfig(tableName, region).None? ==>
      outcome == LoadFailed && attempted == [] && table.items == old(table.items)
    ensures LoadTableConfig(tableName, region).Some? ==>
      var run := IngestBatch(old(table.items), [], Decode(event), putOk);
      outcome == Outcome(run.error) && attempted == run.attempted && table.items == run.items
  {
    if LoadTableConfig(tableName, region).None? {
      return LoadFailed, [];
    }
    var error;
    attempted, error := Handler(table, event, putOk);
    outcome := Outcome(error);
  }
}
