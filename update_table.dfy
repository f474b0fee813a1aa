/**
  updateTable: for each SQS record, parse the SNS notification and the JSON
  metadata message inside it, convert `date`, `value` and `name` with
  `.toString()`, skip the record when any of fileName, value, date or name is
  falsy, and otherwise send an UpdateCommand that SETs Caption, AddedDate and
  PhotographerName on the item keyed by fileName. Everything in a record's
  handling is inside one try/catch, so a record that throws is logged and the
  loop goes on with the next record.

  The service's answer to the update of the record at position k is
  `serviceOk(k)`.
 */
module UpdateTable {
  import opened Wrappers
  import opened Js
  import opened Envelopes
  import opened Catalog

  /** The four fields destructured from the metadata message. */
  datatype Metadata = Metadata(fileName: JsValue, value: JsValue, date: JsValue, name: JsValue)

  /** The batch updateTable receives: SQS records whose body is an SNS
      notification whose Message is a JSON metadata message. */
  type MetadataBatch = seq<SqsRecord<SnsEnvelope<JsValue>>>

  /** `const { fileName, value, date, name } = JSON.parse(snsMessage.Message)`,
      or the exception one of these steps throws. */
  function ReadMetadata(r: SqsRecord<SnsEnvelope<JsValue>>): (res: Result<Metadata, JsError>)
    ensures res.Success? <==>
      r.body.Success? && r.body.value.message.Success? &&
      !r.body.value.message.value.Undefined? && !r.body.value.message.value.Null?
  {
    match r.body
    case Failure(e) => Failure(e)
    case Success(envelope) =>
      match envelope.message
      case Failure(e) => Failure(e)
      case Success(body) =>
        match GetProperty(body, "fileName")
        case Failure(e) => Failure(e)
        case Success(fileName) =>
          Success(Metadata(fileName, GetProperty(body, "value").value, GetProperty(body, "date").value,
                           GetProperty(body, "name").value))
  }

  /** How the handling of one record ends. */
  datatype UpdateOutcome =
    | Caught(error: JsError)   // parsing, destructuring, a toString() call or the log line threw
    | Skipped                  // a required field is falsy: logged, `continue`
    | SendFailed               // the UpdateCommand was refused or failed
    | Updated(key: string, caption: string, date: string, name: string)

  /** The handling of one record, given whether the service would carry out its update. */
  function Classify(r: SqsRecord<SnsEnvelope<JsValue>>, serviceOk: bool): UpdateOutcome {
    match ReadMetadata(r)
    case Failure(e) => Caught(e)
    case Success(m) =>
      match CallToString(m.date)
      case Failure(e) => Caught(e)
      case Success(metadataDate) =>
        match CallToString(m.value)
        case Failure(e) => Caught(e)
        case Success(metadataValue) =>
          match CallToString(m.name)
          case Failure(e) => Caught(e)
          case Success(metadataName) =>
            if !Truthy(m.fileName) || !Truthy(m.value) || !Truthy(m.date) || !Truthy(m.name) then Skipped
            else
              // The log line before the request prints fileName and value with a
              // template literal; value's conversion has already succeeded above.
              match ToString(m.fileName)
              case Failure(e) => Caught(e)
              case Success(_) =>
                // The key attribute is a string: DynamoDB refuses a key of any other type.
                if !m.fileName.Str? || !serviceOk then SendFailed
                else Updated(m.fileName.s, metadataValue, metadataDate, metadataName)
  }

  /** How each record of a batch is handled; the k-th is handled with the k-th service answer. */
  function Outcomes(event: MetadataBatch, serviceOk: nat -> bool): (os: seq<UpdateOutcome>)
    ensures |os| == |event|
  {
    seq(|event|, i requires 0 <= i < |event| => Classify(event[i], serviceOk(i)))
  }

  /** A record updates the catalog exactly when its message parses, its three
      conversions succeed, all four fields are truthy, fileName prints in the
      log line, the key is a string
      and the service carries out the request; the update then writes the
      three converted strings under that key. */
  lemma UpdateGate(r: SqsRecord<SnsEnvelope<JsValue>>, serviceOk: bool)
    ensures Classify(r, serviceOk).Updated? <==>
      ReadMetadata(r).Success? &&
      (var m := ReadMetadata(r).value;
       CallToString(m.date).Success? && CallToString(m.value).Success? && CallToString(m.name).Success? &&
       Truthy(m.fileName) && Truthy(m.value) && Truthy(m.date) && Truthy(m.name) &&
       ToString(m.fileName).Success? && m.fileName.Str? && serviceOk)
    ensures Classify(r, serviceOk).Updated? ==>
      var m := ReadMetadata(r).value;
      var o := Classify(r, serviceOk);
      Str(o.key) == m.fileName && ValidKey(o.key) &&
      Success(o.caption) == CallToString(m.value) && Success(o.date) == CallToString(m.date) &&
      Success(o.name) == CallToString(m.name)
  {
  }

  /** The conversions run before the check for missing fields: a message
      without date, value or name (or with one of them null) throws TypeError
      at its `.toString()` and is never reported as skipped. */
  lemma MissingFieldThrowsBeforeGate(r: SqsRecord<SnsEnvelope<JsValue>>, serviceOk: bool)
    requires ReadMetadata(r).Success?
    requires var m := ReadMetadata(r).value;
      m.date.Undefined? || m.date.Null? || m.value.Undefined? || m.value.Null? ||
      m.name.Undefined? || m.name.Null?
    ensures Classify(r, serviceOk) == Caught(TypeError)
  {
  }

  /** A record is skipped when its fileName is falsy or when a field converts
      fine but is itself falsy, such as the number 0 or the empty string. */
  lemma FalsyFieldIsSkipped(r: SqsRecord<SnsEnvelope<JsValue>>, serviceOk: bool)
    requires ReadMetadata(r).Success?
    requires var m := ReadMetadata(r).value;
      CallToString(m.date).Success? && CallToString(m.value).Success? && CallToString(m.name).Success? &&
      (!Truthy(m.fileName) || m.value == Num(0) || m.value == Str("") || !Truthy(m.date) || !Truthy(m.name))
    ensures Classify(r, serviceOk) == Skipped
  {
  }

  /** A fileName that passes every check before the log line but cannot be
      printed (an object with its own "toString" member) throws there, inside
      the try: the record is caught and no request is sent. */
  lemma UnprintableFileNameIsCaught(r: SqsRecord<SnsEnvelope<JsValue>>, serviceOk: bool)
    requires ReadMetadata(r).Success?
    requires var m := ReadMetadata(r).value;
      CallToString(m.date).Success? && CallToString(m.value).Success? && CallToString(m.name).Success? &&
      Truthy(m.value) && Truthy(m.date) && Truthy(m.name) &&
      m.fileName.Obj? && "toString" in m.fileName.fields
    ensures Classify(r, serviceOk) == Caught(TypeError)
  {
  }

  // ---------------------------------------------------------------------------
  // The effect of a batch on the catalog

  /** The catalog after one record's handling. */
  function Effect(items: map<string, Entry>, o: UpdateOutcome): map<string, Entry> {
    if o.Updated? then StoreUpdate(items, o.key, o.caption, o.date, o.name, true) else items
  }

  /** The catalog after the handling of a sequence of records. */
  function UpdateBatch(items: map<string, Entry>, os: seq<UpdateOutcome>): map<string, Entry>
    decreases |os|
  {
    if os == [] then items else UpdateBatch(Effect(items, os[0]), os[1..])
  }

  /** The item an update writes when the table keeps every item under its own key. */
  function FullEntry(o: UpdateOutcome): Entry
    requires o.Updated?
  {
    Entry(o.key, Some(o.caption), Some(o.date), Some(o.name))
  }

  /** The items a sequence of handled records writes: for each key, the values
      of the last update of that key. */
  function LastUpdates(os: seq<UpdateOutcome>): map<string, Entry>
    decreases |os|
  {
    if os == [] then map[]
    else
      var later := LastUpdates(os[1..]);
      if os[0].Updated? && ValidKey(os[0].key) && os[0].key !in later then later[os[0].key := FullEntry(os[0])]
      else later
  }

  lemma {:induction false} UpdateBatchKeepsConsistent(items: map<string, Entry>, os: seq<UpdateOutcome>)
    requires Consistent(items)
    ensures Consistent(UpdateBatch(items, os))
    decreases |os|
  {
    if os != [] {
      if os[0].Updated? {
        UpdateKeepsConsistent(items, os[0].key, os[0].caption, os[0].date, os[0].name, true);
      }
      UpdateBatchKeepsConsistent(Effect(items, os[0]), os[1..]);
    }
  }

  /** Last writer wins: since every update sets all three attributes, the
      catalog after a batch is the old catalog overridden, key by key, by the
      last update of each key. */
  lemma {:induction false} UpdateBatchIsLastWriteWins(items: map<string, Entry>, os: seq<UpdateOutcome>)
    requires Consistent(items)
    ensures UpdateBatch(items, os) == items + LastUpdates(os)
    decreases |os|
  {
    if os != [] {
      var o := os[0];
      var next := Effect(items, o);
      if o.Updated? {
        UpdateKeepsConsistent(items, o.key, o.caption, o.date, o.name, true);
      }
      UpdateBatchIsLastWriteWins(next, os[1..]);
      if o.Updated? && ValidKey(o.key) {
        EffectOfValidUpdate(items, o);
        OverrideThenLater(items, o.key, FullEntry(o), LastUpdates(os[1..]));
      }
    }
  }

  /** On a consistent table, an update writes the full entry under its key. */
  lemma EffectOfValidUpdate(items: map<string, Entry>, o: UpdateOutcome)
    requires Consistent(items) && o.Updated? && ValidKey(o.key)
    ensures Effect(items, o) == items[o.key := FullEntry(o)]
  {
  }

  /** Writing k and then overriding with `later` is overriding with `later`
      extended by k where `later` does not already write it. */
  lemma OverrideThenLater(items: map<string, Entry>, k: string, v: Entry, later: map<string, Entry>)
    ensures items[k := v] + later == items + (if k in later then later else later[k := v])
  {
  }

  /** A redelivery of a whole batch that gets the same service answers, and so
      has the same outcomes, leaves the catalog as one delivery left it. */
  lemma UpdateBatchIdempotent(items: map<string, Entry>, os: seq<UpdateOutcome>)
    requires Consistent(items)
    ensures UpdateBatch(UpdateBatch(items, os), os) == UpdateBatch(items, os)
  {
    UpdateBatchIsLastWriteWins(items, os);
    UpdateBatchKeepsConsistent(items, os);
    UpdateBatchIsLastWriteWins(UpdateBatch(items, os), os);
    assert items + LastUpdates(os) + LastUpdates(os) == items + LastUpdates(os);
  }

  /** Records are handled independently and in order: the batch `os1 + os2`
      is os1 and then os2, and a record that did not update (it threw, was
      skipped or its send failed) leaves the catalog as it was and does not
      stop the records after it. */
  lemma {:induction false} UpdateBatchAppend(items: map<string, Entry>, os1: seq<UpdateOutcome>,
                                            os2: seq<UpdateOutcome>)
    ensures UpdateBatch(items, os1 + os2) == UpdateBatch(UpdateBatch(items, os1), os2)
    ensures |os1| == 1 && !os1[0].Updated? ==> UpdateBatch(items, os1 + os2) == UpdateBatch(items, os2)
    decreases |os1|
  {
    if os1 == [] {
      assert os1 + os2 == os2;
    } else {
      assert (os1 + os2)[0] == os1[0] && (os1 + os2)[1..] == os1[1..] + os2;
      UpdateBatchAppend(Effect(items, os1[0]), os1[1..], os2);
    }
  }

  /** The outcome of a record depends on that record and its own service
      answer only, not on its neighbours or what the catalog holds. */
  lemma OutcomeIsPerRecord(e1: MetadataBatch, r: SqsRecord<SnsEnvelope<JsValue>>, e2: MetadataBatch,
                           serviceOk: nat -> bool)
    ensures Outcomes(e1 + [r] + e2, serviceOk)[|e1|] == Classify(r, serviceOk(|e1|))
  {
    assert (e1 + [r] + e2)[|e1|] == r;
  }

  /** An update of a key not yet in the catalog creates its item: the upsert. */
  lemma UpdateOfNewKeyCreatesItem(items: map<string, Entry>, o: UpdateOutcome)
    requires o.Updated? && ValidKey(o.key) && o.key !in items
    ensures o.key in UpdateBatch(items, [o]) && UpdateBatch(items, [o])[o.key] == FullEntry(o)
  {
    UpdateCreatesMissingItem(items, o.key, o.caption, o.date, o.name);
  }

  // ---------------------------------------------------------------------------
  // The handler itself.

  /** The exported handler over a live table: it returns how each record's
      handling ended. */
  method Handler(table: Table, event: MetadataBatch, serviceOk: nat -> bool) returns (outcomes: seq<UpdateOutcome>)
    requires table.Valid()
    modifies table
    ensures table.Valid()
    ensures outcomes == Outcomes(event, serviceOk)
    ensures table.items == UpdateBatch(old(table.items), outcomes)
  {
    outcomes := [];
    ghost var os := Outcomes(event, serviceOk);
    for i := 0 to |event|
      invariant table.Valid()
      invariant outcomes == os[..i]
      invariant UpdateBatch(table.items, os[i..]) == UpdateBatch(old(table.items), os)
    {
      assert os[i..][0] == os[i] == Classify(event[i], serviceOk(i));
      assert os[i..][1..] == os[i + 1..];
      assert os[..i + 1] == os[..i] + [os[i]];
      var parsed := ReadMetadata(event[i]);
      if parsed.Failure? {
        outcomes := outcomes + [Caught(parsed.error)];
        continue;
      }
      var m := parsed.value;
      var metadataDate := CallToString(m.date);
      if metadataDate.Failure? {
        outcomes := outcomes + [Caught(metadataDate.error)];
        continue;
      }
      var metadataValue := CallToString(m.value);
      if metadataValue.Failure? {
        outcomes := outcomes + [Caught(metadataValue.error)];
        continue;
      }
      var metadataName := CallToString(m.name);
      if metadataName.Failure? {
        outcomes := outcomes + [Caught(metadataName.error)];
        continue;
      }
      if !Truthy(m.fileName) || !Truthy(m.value) || !Truthy(m.date) || !Truthy(m.name) {
        outcomes := outcomes + [Skipped];
        continue;
      }
      var loggedName := ToString(m.fileName);
      if loggedName.Failure? {
        outcomes := outcomes + [Caught(loggedName.error)];
        continue;
      }
      if !m.fileName.Str? {
        outcomes := outcomes + [SendFailed];
        continue;
      }
      var updated := table.Update(m.fileName.s, metadataValue.value, metadataDate.value, metadataName.value,
                                  serviceOk(i));
      outcomes := outcomes + [if updated then Updated(m.fileName.s, metadataValue.value, metadataDate.value,
                                                      metadataName.value)
                              else SendFailed];
    }
    assert os[..|event|] == os;
  }

  /** One invocation: the module-level configuration check, then the handler. */
  method Invoke(table: Table, tableName: Option<string>, region: Option<string>, event: MetadataBatch,
                serviceOk: nat -> bool) returns (outcome: Invocation, outcomes: seq<UpdateOutcome>)
    requires table.Valid()
    modifies table
    ensures table.Valid()
    ensures LoadTableConfig(tableName, region).None? ==>
      outcome == LoadFailed && outcomes == [] && table.items == old(table.items)
    ensures LoadTableConfig(tableName, region).Some? ==>
      outcome == Completed && outcomes == Outcomes(event, serviceOk) &&
      table.items == UpdateBatch(old(table.items), outcomes)
  {
    if LoadTableConfig(tableName, region).None? {
      return LoadFailed, [];
    }
    outcomes := Handler(table, event, serviceOk);
    outcome := Completed;
  }
}
