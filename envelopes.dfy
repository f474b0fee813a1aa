/**
  The message shapes the handlers receive, after JSON.parse. An SQS record
  carries a `body` string; for the S3-driven handlers that body is an SNS
  notification whose `Message` string is itself JSON holding the S3 event
  records. Parsing and property access happen in the handlers; here each
  level is a datatype whose failure case stands for the exception the
  handler's own code would raise at that level.
 */
module Envelopes {
  import opened Wrappers
  import opened Js

  /** One SQS record: `JSON.parse(record.body)`, or the SyntaxError it throws. */
  datatype SqsRecord<B> = SqsRecord(body: Result<B, JsError>)

  /** An SNS notification: `JSON.parse(recordBody.Message)`. Failure covers a
      body that is null (TypeError), a missing Message (JSON.parse(undefined)
      throws SyntaxError) and a Message that is not JSON. */
  datatype SnsEnvelope<M> = SnsEnvelope(message: Result<M, JsError>)

  /** `snsMessage.Records`: absent or otherwise falsy (the `if` skips it), an
      array of records, or a truthy value that is not an array of records, on
      which the `for ... of` loop or the first record access throws TypeError. */
  datatype RecordsField = Falsy | NotIterable | Records(items: seq<S3Record>)

  /** An S3 event notification; a null notification is a TypeError at the
      `.Records` read and is represented by a failed SnsEnvelope. */
  datatype S3Notification = S3Notification(records: RecordsField)

  /** One S3 event record. `bucketName` is None when `s3e.bucket` cannot be
      read (TypeError), otherwise the value of `s3e.bucket.name`. `objectKey`
      is None when `s3e.object.key.replace` cannot be called (TypeError:
      `s3`, `object` or `key` missing, or `key` not a string). */
  datatype S3Record = S3Record(bucketName: Option<JsValue>, objectKey: Option<string>)

  /** The batch an S3-driven handler receives. */
  type S3Batch = seq<SqsRecord<SnsEnvelope<S3Notification>>>

  /** The S3 records of one SQS record, or the exception unwrapping it throws.
      A falsy `Records` yields no records. */
  function InnerRecords(r: SqsRecord<SnsEnvelope<S3Notification>>): (res: Result<seq<S3Record>, JsError>)
    ensures r.body.Failure? ==> res == Failure(r.body.error)
    ensures r.body.Success? && r.body.value.message.Failure? ==> res == Failure(r.body.value.message.error)
    ensures r.body.Success? && r.body.value.message.Success? ==>
      res == match r.body.value.message.value.records
             case Falsy => Success([])
             case NotIterable => Failure(TypeError)
             case Records(items) => Success(items)
  {
    match r.body
    case Failure(e) => Failure(e)
    case Success(envelope) =>
      match envelope.message
      case Failure(e) => Failure(e)
      case Success(notification) =>
        match notification.records
        case Falsy => Success([])
        case NotIterable => Failure(TypeError)
        case Records(items) => Success(items)
  }

  /** How one invocation of a handler ends: its module failed to load (a
      required environment variable is missing), the handler threw, or it
      returned normally. */
  datatype Invocation = LoadFailed | Threw(error: JsError) | Completed

  /** The invocation outcome for a handler run that stopped with `error`, if any. */
  function Outcome(error: Option<JsError>): (r: Invocation)
    ensures r.Threw? <==> error.Some?
    ensures error.Some? ==> r.error == error.value
    ensures !r.LoadFailed?
  {
    match error
    case None => Completed
    case Some(e) => Threw(e)
  }
}
