/**
  mailerImageAdded: for each S3 record inside each SNS notification, email
  the configured recipient that an image was received, giving its
  `s3://bucket/key` URL. Reading the bucket name and decoding the key happen
  before the try block, so a record missing them, or with a malformed key,
  makes the handler throw and ends the invocation. Building the message and
  sending it are inside the try block: a failure there is logged and the
  loop goes on.

  SES's answer to the k-th email of an invocation is `sendOk(k)`.
 */
module MailerImageAdded {
  import opened Wrappers
  import opened Js
  import opened Envelopes
  import opened ObjectKey
  import opened Notification

  const AddedSubject: string := "New image Upload"

  /** The message text of the email for object `srcKey` in bucket `bucket`. */
  function AddedMessage(bucket: string, srcKey: string): string {
    "We received your Image. Its URL is s3://" + bucket + "/" + srcKey
  }

  /** The email for one message. */
  function AddedEmail(cfg: SesConfig, message: string): EmailParams {
    SendEmailParams(cfg, Details(cfg, message), AddedSubject)
  }

  /** The added-image email goes from the configured sender to the configured
      recipient, and its body shows the album's name and the message. */
  lemma AddedEmailContents(cfg: SesConfig, message: string)
    ensures var p := AddedEmail(cfg, message);
      p.toAddresses == [cfg.emailTo] && p.source == cfg.emailFrom && p.subject == AddedSubject &&
      Contains(p.html, message) && Contains(p.html, SenderName) && Contains(p.html, cfg.emailFrom)
  {
    HtmlContentShowsDetails(Details(cfg, message));
  }

  /** What one S3 record yields: the exception thrown outside the try block
      (no bucket, no key, a malformed key), no email (the message could not
      be built, which the catch swallows), or the message to send. */
  function RecordMessage(r: S3Record): Result<Option<string>, JsError> {
    match r.bucketName
    case None => Failure(TypeError)
    case Some(srcBucket) =>
      match r.objectKey
      case None => Failure(TypeError)
      case Some(key) =>
        match DecodeKey(key)
        case Failure(e) => Failure(e)
        case Success(srcKey) =>
          match ToString(srcBucket)
          case Failure(_) => Success(None)
          case Success(bucket) => Success(Some(AddedMessage(bucket, srcKey)))
  }

  function Messages(records: seq<S3Record>): seq<Result<Option<string>, JsError>> {
    seq(|records|, i requires 0 <= i < |records| => RecordMessage(records[i]))
  }

  /** What the handler reads from each SQS record: the exception unwrapping
      it throws, or what each of its S3 records yields. */
  type Decoded = seq<Result<seq<Result<Option<string>, JsError>>, JsError>>

  function Decode(event: S3Batch): (d: Decoded)
    ensures |d| == |event|
  {
    seq(|event|, i requires 0 <= i < |event| =>
      match InnerRecords(event[i])
      case Failure(e) => Failure(e)
      case Success(records) => Success(Messages(records)))
  }

  /** The emails handed to SES so far, in order, and the exception that ended the invocation, if any. */
  datatype Mailing = Mailing(sent: seq<Send>, error: Option<JsError>)

  /** The inner loop over the S3 records of one notification. */
  function MailRecords(cfg: SesConfig, sent: seq<Send>, messages: seq<Result<Option<string>, JsError>>,
                       sendOk: nat -> bool): Mailing
    decreases |messages|
  {
    if messages == [] then Mailing(sent, None)
    else
      match messages[0]
      case Failure(e) => Mailing(sent, Some(e))
      case Success(None) => MailRecords(cfg, sent, messages[1..], sendOk)
      case Success(Some(m)) =>
        MailRecords(cfg, sent + [Send(AddedEmail(cfg, m), sendOk(|sent|))], messages[1..], sendOk)
  }

  /** The outer loop over the SQS records of one invocation. */
  function MailBatch(cfg: SesConfig, sent: seq<Send>, batch: Decoded, sendOk: nat -> bool): Mailing
    decreases |batch|
  {
    if batch == [] then Mailing(sent, None)
    else
      match batch[0]
      case Failure(e) => Mailing(sent, Some(e))
      case Success(messages) =>
        var r := MailRecords(cfg, sent, messages, sendOk);
        if r.error.Some? then r else MailBatch(cfg, r.sent, batch[1..], sendOk)
  }

  /** Every email so far went to the configured recipient from the configured
      sender, is the added-image email for its message, and was delivered
      exactly when SES accepted the send with its index. */
  ghost predicate WellSent(cfg: SesConfig, sent: seq<Send>, sendOk: nat -> bool) {
    forall k :: 0 <= k < |sent| ==>
      sent[k].params.toAddresses == [cfg.emailTo] && sent[k].params.source == cfg.emailFrom &&
      sent[k].params.subject == AddedSubject && sent[k].delivered == sendOk(k)
  }

  lemma {:induction false} MailRecordsWellSent(cfg: SesConfig, sent: seq<Send>,
                                              messages: seq<Result<Option<string>, JsError>>, sendOk: nat -> bool)
    requires WellSent(cfg, sent, sendOk)
    ensures var r := MailRecords(cfg, sent, messages, sendOk);
      WellSent(cfg, r.sent, sendOk) && |sent| <= |r.sent| && r.sent[..|sent|] == sent
    decreases |messages|
  {
    if messages != [] {
      match messages[0]
      case Failure(_) =>
      case Success(None) =>
        MailRecordsWellSent(cfg, sent, messages[1..], sendOk);
      case Success(Some(m)) =>
        var next := sent + [Send(AddedEmail(cfg, m), sendOk(|sent|))];
        AddedEmailContents(cfg, m);
        assert WellSent(cfg, next, sendOk);
        MailRecordsWellSent(cfg, next, messages[1..], sendOk);
        var r := MailRecords(cfg, next, messages[1..], sendOk);
        assert r.sent[..|sent|] == r.sent[..|next|][..|sent|];
    }
  }

  /** The invariant the mailer keeps: every email of an invocation is
      addressed as configured, carries the added-image subject, and earlier
      emails are never changed or dropped. */
  lemma {:induction false} MailBatchWellSent(cfg: SesConfig, sent: seq<Send>, batch: Decoded, sendOk: nat -> bool)
    requires WellSent(cfg, sent, sendOk)
    ensures var r := MailBatch(cfg, sent, batch, sendOk);
      WellSent(cfg, r.sent, sendOk) && |sent| <= |r.sent| && r.sent[..|sent|] == sent
    decreases |batch|
  {
    if batch != [] {
      match batch[0]
      case Failure(_) =>
      case Success(messages) =>
        MailRecordsWellSent(cfg, sent, messages, sendOk);
        var r := MailRecords(cfg, sent, messages, sendOk);
        if r.error.None? {
          MailBatchWellSent(cfg, r.sent, batch[1..], sendOk);
          var r2 := MailBatch(cfg, r.sent, batch[1..], sendOk);
          assert r2.sent[..|sent|] == r2.sent[..|r.sent|][..|sent|];
        }
    }
  }

  /** A failed send is swallowed: which emails are built, and whether the
      invocation throws, does not depend on SES's answers. */
  lemma {:induction false} MailRecordsIgnoresAnswers(cfg: SesConfig, sent1: seq<Send>, sent2: seq<Send>,
                                                    messages: seq<Result<Option<string>, JsError>>,
                                                    sendOk1: nat -> bool, sendOk2: nat -> bool)
    requires |sent1| == |sent2| && forall k :: 0 <= k < |sent1| ==> sent1[k].params == sent2[k].params
    ensures var r1, r2 := MailRecords(cfg, sent1, messages, sendOk1), MailRecords(cfg, sent2, messages, sendOk2);
      r1.error == r2.error && |r1.sent| == |r2.sent| &&
      forall k :: 0 <= k < |r1.sent| ==> r1.sent[k].params == r2.sent[k].params
    decreases |messages|
  {
    if messages != [] {
      match messages[0]
      case Failure(_) =>
      case Success(None) =>
        MailRecordsIgnoresAnswers(cfg, sent1, sent2, messages[1..], sendOk1, sendOk2);
      case Success(Some(m)) =>
        MailRecordsIgnoresAnswers(cfg, sent1 + [Send(AddedEmail(cfg, m), sendOk1(|sent1|))],
                                  sent2 + [Send(AddedEmail(cfg, m), sendOk2(|sent2|))],
                                  messages[1..], sendOk1, sendOk2);
    }
  }

  lemma {:induction false} MailBatchIgnoresAnswers(cfg: SesConfig, sent1: seq<Send>, sent2: seq<Send>,
                                                  batch: Decoded, sendOk1: nat -> bool, sendOk2: nat -> bool)
    requires |sent1| == |sent2| && forall k :: 0 <= k < |sent1| ==> sent1[k].params == sent2[k].params
    ensures var r1, r2 := MailBatch(cfg, sent1, batch, sendOk1), MailBatch(cfg, sent2, batch, sendOk2);
      r1.error == r2.error && |r1.sent| == |r2.sent| &&
      forall k :: 0 <= k < |r1.sent| ==> r1.sent[k].params == r2.sent[k].params
    decreases |batch|
  {
    if batch != [] {
      match batch[0]
      case Failure(_) =>
      case Success(messages) =>
        MailRecordsIgnoresAnswers(cfg, sent1, sent2, messages, sendOk1, sendOk2);
        var r1, r2 := MailRecords(cfg, sent1, messages, sendOk1), MailRecords(cfg, sent2, messages, sendOk2);
        if r1.error.None? {
          MailBatchIgnoresAnswers(cfg, r1.sent, r2.sent, batch[1..], sendOk1, sendOk2);
        }
    }
  }

  /** The k-th email of `messages` (all of which are messages to send) is
      email number start + k of the invocation. */
  function EmailsFor(cfg: SesConfig, messages: seq<Result<Option<string>, JsError>>, sendOk: nat -> bool,
                     start: nat): seq<Send>
    requires forall i :: 0 <= i < |messages| ==> messages[i].Success? && messages[i].value.Some?
  {
    seq(|messages|, k requires 0 <= k < |messages| => Send(AddedEmail(cfg, messages[k].value.value), sendOk(start + k)))
  }

  /** The emails of a non-empty run of messages: the first message's, then the rest's. */
  lemma EmailsForCons(cfg: SesConfig, messages: seq<Result<Option<string>, JsError>>, sendOk: nat -> bool,
                      start: nat)
    requires messages != []
    requires forall i :: 0 <= i < |messages| ==> messages[i].Success? && messages[i].value.Some?
    ensures EmailsFor(cfg, messages, sendOk, start)
         == [Send(AddedEmail(cfg, messages[0].value.value), sendOk(start))]
            + EmailsFor(cfg, messages[1..], sendOk, start + 1)
  {
    var all, rest := EmailsFor(cfg, messages, sendOk, start), EmailsFor(cfg, messages[1..], sendOk, start + 1);
    forall k | 1 <= k < |all| ensures all[k] == rest[k - 1] {
      assert messages[1..][k - 1] == messages[k];
    }
  }

  /** When every S3 record of a notification yields a message, there is one
      email per record, in record order, and nothing is thrown. */
  lemma {:induction false} OneEmailPerRecord(cfg: SesConfig, sent: seq<Send>,
                                            messages: seq<Result<Option<string>, JsError>>, sendOk: nat -> bool)
    requires forall i :: 0 <= i < |messages| ==> messages[i].Success? && messages[i].value.Some?
    ensures var r := MailRecords(cfg, sent, messages, sendOk);
      r.error.None? && r.sent == sent + EmailsFor(cfg, messages, sendOk, |sent|)
    decreases |messages|
  {
    if messages != [] {
      var first := Send(AddedEmail(cfg, messages[0].value.value), sendOk(|sent|));
      var next := sent + [first];
      assert MailRecords(cfg, sent, messages, sendOk) == MailRecords(cfg, next, messages[1..], sendOk);
      OneEmailPerRecord(cfg, next, messages[1..], sendOk);
      EmailsForCons(cfg, messages, sendOk, |sent|);
      assert next + EmailsFor(cfg, messages[1..], sendOk, |next|) == sent + EmailsFor(cfg, messages, sendOk, |sent|);
    }
  }

  /** SQS records are handled one after another, and an exception ignores
      every later record while keeping the emails already sent. */
  lemma {:induction false} MailBatchAppend(cfg: SesConfig, sent: seq<Send>, b1: Decoded, b2: Decoded,
                                          sendOk: nat -> bool)
    ensures var r1 := MailBatch(cfg, sent, b1, sendOk);
      MailBatch(cfg, sent, b1 + b2, sendOk) == if r1.error.Some? then r1 else MailBatch(cfg, r1.sent, b2, sendOk)
    decreases |b1|
  {
    if b1 == [] {
      assert b1 + b2 == b2;
    } else {
      assert (b1 + b2)[0] == b1[0] && (b1 + b2)[1..] == b1[1..] + b2;
      match b1[0]
      case Failure(_) =>
      case Success(messages) =>
        var r := MailRecords(cfg, sent, messages, sendOk);
        if r.error.None? {
          MailBatchAppend(cfg, r.sent, b1[1..], b2, sendOk);
        }
    }
  }

  /** The message names the object: bucket names contain no '/', so the
      bucket and the key can be read back from the message. */
  lemma AddedMessageIdentifiesObject(b1: string, k1: string, b2: string, k2: string)
    requires '/' !in b1 && '/' !in b2
    requires AddedMessage(b1, k1) == AddedMessage(b2, k2)
    ensures b1 == b2 && k1 == k2
  {
    var prefix := "We received your Image. Its URL is s3://";
    var u1, u2 := b1 + "/" + k1, b2 + "/" + k2;
    assert AddedMessage(b1, k1) == prefix + u1;
    assert AddedMessage(b2, k2) == prefix + u2;
    assert u1 == (prefix + u1)[|prefix|..] == u2;
    SlashSeparated(b1, k1, b2, k2);
  }

  lemma SlashSeparated(b1: string, k1: string, b2: string, k2: string)
    requires '/' !in b1 && '/' !in b2
    requires b1 + "/" + k1 == b2 + "/" + k2
    ensures b1 == b2 && k1 == k2
  {
    var u := b1 + "/" + k1;
    SplitAround(b1, k1);
    SplitAround(b2, k2);
    assert b1 == Split(u)[0] == b2;
    assert k1 == u[|b1| + 1..] == k2;
  }

  /** End to end: an upload of `dir/name` to bucket `bucket`, with the key as S3
      encodes it in the notification, yields the message giving its URL. */
  lemma RecordMessageOfUpload(bucket: string, key: string)
    ensures RecordMessage(S3Record(Some(Str(bucket)), Some(FormEncode(key))))
         == Success(Some(AddedMessage(bucket, key)))
  {
    DecodeKeyInvertsFormEncode(key);
  }

  // ---------------------------------------------------------------------------
  // The handler itself.

  /** The exported handler: the emails it hands to SES, in order, and the
      exception that escaped, if any. */
  method Handler(cfg: SesConfig, event: S3Batch, sendOk: nat -> bool) returns (sent: seq<Send>, error: Option<JsError>)
    ensures Mailing(sent, error) == MailBatch(cfg, [], Decode(event), sendOk)
  {
    sent, error := [], None;
    ghost var batch := Decode(event);
    for i := 0 to |event|
      invariant error == None
      invariant MailBatch(cfg, sent, batch[i..], sendOk) == MailBatch(cfg, [], batch, sendOk)
    {
      assert batch[i..][0] == batch[i] && batch[i..][1..] == batch[i + 1..];
      var unwrapped := InnerRecords(event[i]);
      if unwrapped.Failure? {
        error := Some(unwrapped.error);
        return;
      }
      var records := unwrapped.value;
      ghost var sent0 := sent;
      ghost var messages := Messages(records);
      assert batch[i] == Success(messages);
      for j := 0 to |records|
        invariant MailRecords(cfg, sent, messages[j..], sendOk) == MailRecords(cfg, sent0, messages, sendOk)
      {
        assert messages[j..][0] == messages[j] == RecordMessage(records[j]);
        assert messages[j..][1..] == messages[j + 1..];
        var messageRecord := records[j];
        if messageRecord.bucketName.None? || messageRecord.objectKey.None? {
          error := Some(TypeError);
          return;
        }
        var srcBucket := messageRecord.bucketName.value;
        var decoded := DecodeKey(messageRecord.objectKey.value);
        if decoded.Failure? {
          error := Some(decoded.error);
          return;
        }
        var srcKey := decoded.value;
        var bucket := ToString(srcBucket);
        if bucket.Success? {
          var params := AddedEmail(cfg, AddedMessage(bucket.value, srcKey));
          sent := sent + [Send(params, sendOk(|sent|))];
        }
      }
      assert messages[|records|..] == [];
    }
  }

  /** One invocation: the module-level configuration check, then the handler. */
  method Invoke(emailTo: Option<string>, emailFrom: Option<string>, region: Option<string>, event: S3Batch,
                sendOk: nat -> bool) returns (outcome: Invocation, sent: seq<Send>)
    ensures LoadSesConfig(emailTo, emailFrom, region).None? ==> outcome == LoadFailed && sent == []
    ensures LoadSesConfig(emailTo, emailFrom, region).Some? ==>
      var r := MailBatch(LoadSesConfig(emailTo, emailFrom, region).value, [], Decode(event), sendOk);
      outcome == Outcome(r.error) && sent == r.sent
  {
    var cfg := LoadSesConfig(emailTo, emailFrom, region);
    if cfg.None? {
      return LoadFailed, [];
    }
    var error;
    sent, error := Handler(cfg.value, event, sendOk);
    outcome := Outcome(error);
  }
}
