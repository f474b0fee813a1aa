/**
  mailerImageRejected: for each SQS record (a message about an image that
  failed validation), parse the body, read `fileName` and `errorMessage`,
  and email the configured recipient a rejection notice naming both. The
  whole handling of a record is inside one try/catch, so a record that
  cannot be parsed, or whose email cannot be built or sent, is logged and the
  loop goes on: at most one email per record, and the handler never throws.

  SES's answer to the email of the record at position k is `sendOk(k)`.
 */
module MailerImageRejected {
  import opened Wrappers
  import opened Js
  import opened Envelopes
  import opened Notification

  /** `Image Upload Failure - ${name}` with the album's name. */
  const RejectedSubject: string := "Image Upload Failure - " + SenderName

  /** The message text of the rejection email. */
  function RejectedMessage(errorMessage: string, fileName: string): string {
    "Your image failed validation. Error: " + errorMessage + ". The image file is: " + fileName
    + ". Please review the image or try uploading a different one."
  }

  /** The rejection email for one message. */
  function RejectedEmail(cfg: SesConfig, message: string): EmailParams {
    SendEmailParams(cfg, Details(cfg, message), RejectedSubject)
  }

  /** The batch this mailer receives: SQS records whose body is the JSON message itself. */
  type RejectionBatch = seq<SqsRecord<JsValue>>

  /** How the handling of one record ends. */
  datatype RejectOutcome =
    | NotSent(error: JsError)   // parsing, destructuring or a template conversion threw
    | Sent(send: Send)          // the email was handed to SES

  /** The handling of one record, given SES's answer to its email. The
      template converts errorMessage first, then fileName; an absent field
      prints as "undefined". */
  function HandleRejection(cfg: SesConfig, r: SqsRecord<JsValue>, sendOk: bool): RejectOutcome {
    match r.body
    case Failure(e) => NotSent(e)
    case Success(snsMessage) =>
      match GetProperty(snsMessage, "fileName")
      case Failure(e) => NotSent(e)
      case Success(fileName) =>
        var errorMessage := GetProperty(snsMessage, "errorMessage").value;
        match ToString(errorMessage)
        case Failure(e) => NotSent(e)
        case Success(errorText) =>
          match ToString(fileName)
          case Failure(e) => NotSent(e)
          case Success(fileText) =>
            Sent(Send(RejectedEmail(cfg, RejectedMessage(errorText, fileText)), sendOk))
  }

  /** How each record of a batch is handled; the k-th with the k-th answer. */
  function Rejections(cfg: SesConfig, event: RejectionBatch, sendOk: nat -> bool): (os: seq<RejectOutcome>)
    ensures |os| == |event|
  {
    seq(|event|, i requires 0 <= i < |event| => HandleRejection(cfg, event[i], sendOk(i)))
  }

  /** Records are handled independently: the outcome of a record depends on
      that record and its own answer only, whatever the records around it do. */
  lemma RejectionIsPerRecord(cfg: SesConfig, e1: RejectionBatch, r: SqsRecord<JsValue>, e2: RejectionBatch,
                             sendOk: nat -> bool)
    ensures Rejections(cfg, e1 + [r] + e2, sendOk)[|e1|] == HandleRejection(cfg, r, sendOk(|e1|))
  {
    assert (e1 + [r] + e2)[|e1|] == r;
  }

  /** A record gets its email exactly when its body parses to something other
      than null and both fields print; the email then goes to the configured
      recipient with the rejection subject, names the error and the file,
      and is delivered exactly when SES accepts it. */
  lemma RejectionGate(cfg: SesConfig, r: SqsRecord<JsValue>, sendOk: bool)
    ensures HandleRejection(cfg, r, sendOk).Sent? <==>
      r.body.Success? && !r.body.value.Undefined? && !r.body.value.Null? &&
      ToString(GetProperty(r.body.value, "errorMessage").value).Success? &&
      ToString(GetProperty(r.body.value, "fileName").value).Success?
    ensures HandleRejection(cfg, r, sendOk).Sent? ==>
      var s := HandleRejection(cfg, r, sendOk).send;
      var m := r.body.value;
      s.delivered == sendOk &&
      s.params == RejectedEmail(cfg, RejectedMessage(ToString(GetProperty(m, "errorMessage").value).value,
                                                     ToString(GetProperty(m, "fileName").value).value))
    ensures HandleRejection(cfg, r, sendOk).NotSent? ==>
      HandleRejection(cfg, r, sendOk).error == (if r.body.Failure? then r.body.error else TypeError)
  {
  }

  /** The rejection message names the error and the file. */
  lemma RejectedMessageShowsFields(errorMessage: string, fileName: string)
    ensures var message := RejectedMessage(errorMessage, fileName);
      Contains(message, errorMessage) && Contains(message, fileName)
  {
    var t1, t2, t3 := "Your image failed validation. Error: ", ". The image file is: ",
                      ". Please review the image or try uploading a different one.";
    ContainsFilledSlots(t1, errorMessage, t2, fileName, t3, "", "");
    assert RejectedMessage(errorMessage, fileName) == t1 + errorMessage + t2 + fileName + t3 + "" + "";
  }

  /** The rejection email's addresses, subject and body. */
  lemma RejectedEmailContents(cfg: SesConfig, message: string)
    ensures var p := RejectedEmail(cfg, message);
      p.toAddresses == [cfg.emailTo] && p.source == cfg.emailFrom &&
      p.subject == RejectedSubject && Contains(p.html, message)
  {
    HtmlContentShowsDetails(Details(cfg, message));
  }

  /** The rejection subject names the album, and it tells the two mailers'
      emails apart. */
  lemma RejectedSubjectText()
    ensures RejectedSubject == "Image Upload Failure - The Photo Album"
    ensures RejectedSubject != "New image Upload"
  {
    assert RejectedSubject[0] == 'I';
  }

  /** So the body of the email for a rejected image shows its error and its file name. */
  lemma RejectionEmailNamesFile(cfg: SesConfig, errorMessage: string, fileName: string)
    ensures var p := RejectedEmail(cfg, RejectedMessage(errorMessage, fileName));
      Contains(p.html, errorMessage) && Contains(p.html, fileName)
  {
    var message := RejectedMessage(errorMessage, fileName);
    RejectedEmailContents(cfg, message);
    RejectedMessageShowsFields(errorMessage, fileName);
    ContainsTransitive(RejectedEmail(cfg, message).html, message, errorMessage);
    ContainsTransitive(RejectedEmail(cfg, message).html, message, fileName);
  }

  /** A message without the two fields still gets its email, which says
      "undefined" for both. */
  lemma MissingFieldsPrintUndefined(cfg: SesConfig, fields: map<string, JsValue>, sendOk: bool)
    requires "fileName" !in fields && "errorMessage" !in fields
    ensures HandleRejection(cfg, SqsRecord(Success(Obj(fields))), sendOk)
         == Sent(Send(RejectedEmail(cfg, RejectedMessage("undefined", "undefined")), sendOk))
  {
  }

  /** The number of emails handed to SES for a batch. */
  function SentCount(os: seq<RejectOutcome>): (n: nat)
    decreases |os|
  {
    if os == [] then 0 else (if os[0].Sent? then 1 else 0) + SentCount(os[1..])
  }

  /** At most one email per record, and exactly one per record that is
      well formed. */
  lemma {:induction false} SentCountBounds(os: seq<RejectOutcome>)
    ensures SentCount(os) <= |os|
    ensures SentCount(os) == |os| <==> forall i :: 0 <= i < |os| ==> os[i].Sent?
    decreases |os|
  {
    if os != [] {
      SentCountBounds(os[1..]);
      if forall i :: 0 <= i < |os[1..]| ==> os[1..][i].Sent? {
        if os[0].Sent? {
          forall i | 0 <= i < |os| ensures os[i].Sent? {
            if i > 0 { assert os[i] == os[1..][i - 1]; }
          }
        }
      } else {
        var i :| 0 <= i < |os[1..]| && !os[1..][i].Sent?;
        assert !os[i + 1].Sent?;
      }
    }
  }

  // ---------------------------------------------------------------------------
  // The handler itself.

  /** The exported handler: how each record's handling ended. */
  method Handler(cfg: SesConfig, event: RejectionBatch, sendOk: nat -> bool) returns (outcomes: seq<RejectOutcome>)
    ensures outcomes == Rejections(cfg, event, sendOk)
  {
    outcomes := [];
    for i := 0 to |event|
      invariant |outcomes| == i
      invariant forall k :: 0 <= k < i ==> outcomes[k] == HandleRejection(cfg, event[k], sendOk(k))
    {
      var record := event[i];
      var outcome;
      if record.body.Failure? {
        outcome := NotSent(record.body.error);
      } else {
        var snsMessage := record.body.value;
        if snsMessage.Undefined? || snsMessage.Null? {
          outcome := NotSent(TypeError);
        } else {
          var fileName := GetProperty(snsMessage, "fileName").value;
          var errorMessage := GetProperty(snsMessage, "errorMessage").value;
          var errorText := ToString(errorMessage);
          var fileText := ToString(fileName);
          if errorText.Failure? {
            outcome := NotSent(errorText.error);
          } else if fileText.Failure? {
            outcome := NotSent(fileText.error);
          } else {
            var params := RejectedEmail(cfg, RejectedMessage(errorText.value, fileText.value));
            outcome := Sent(Send(params, sendOk(i)));
          }
        }
      }
      outcomes := outcomes + [outcome];
    }
  }

  /** One invocation: the module-level configuration check, then the handler. */
  method Invoke(emailTo: Option<string>, emailFrom: Option<string>, region: Option<string>, event: RejectionBatch,
                sendOk: nat -> bool) returns (outcome: Invocation, outcomes: seq<RejectOutcome>)
    ensures LoadSesConfig(emailTo, emailFrom, region).None? ==> outcome == LoadFailed && outcomes == []
    ensures LoadSesConfig(emailTo, emailFrom, region).Some? ==>
      outcome == Completed && outcomes == Rejections(LoadSesConfig(emailTo, emailFrom, region).value, event, sendOk)
  {
    var cfg := LoadSesConfig(emailTo, emailFrom, region);
    if cfg.None? {
      return LoadFailed, [];
    }
    outcomes := Handler(cfg.value, event, sendOk);
    outcome := Completed;
  }
}
