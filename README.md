# Photo album event pipeline — a Dafny model

This project models the four AWS Lambda handlers of a photo album's
event-driven back end:

- **processImage** reads SQS records. Each one wraps an SNS notification, and
  that wraps an S3 event. For every S3 record, the handler decodes the object
  key, takes the last `/`-separated segment as the file name, and puts the
  item `{ fileName }` into the `Images` DynamoDB table.
- **updateTable** reads SQS records that carry a JSON metadata message
  (`fileName`, `value`, `date`, `name`). It converts the last three with
  `.toString()` and skips the record when any of the four fields is falsy.
  Otherwise it sends an UpdateCommand that SETs `Caption`, `AddedDate` and
  `PhotographerName` on the item keyed by `fileName`.
- **mailerImageAdded** reads the same S3 notifications as processImage. For
  every S3 record it emails the configured recipient the object's
  `s3://bucket/key` URL through SES.
- **mailerImageRejected** reads SQS records whose body is a JSON message with
  `fileName` and `errorMessage`. It emails a rejection notice that names both.

The model follows the code's branches exactly:

- **Where exceptions stop.** Exceptions raised outside a try block end
  processImage and mailerImageAdded. Those raised inside one are caught per
  record.
- **The order of the conversions.** updateTable's `.toString()` calls run
  before its falsy-field check, so a missing `date` throws instead of being
  skipped.
- **The JavaScript conversions** the handlers rely on:
  - truthiness;
  - the template literal's ToString;
  - the `.toString()` method call;
  - property reads on `null`/`undefined`.
- **Key decoding.** `+` is rewritten to a space first, then
  `decodeURIComponent` runs (section 19.2.6.2 of ECMA-262). It validates the
  UTF-8 byte sequences and throws URIError on a malformed escape.

Things the code does not control are parameters:

- **Service answers.** The answer DynamoDB or SES gives to a request is a
  function from the request's index to `bool`.
  - For processImage and mailerImageAdded the index counts the calls made so
    far in the invocation.
  - For updateTable and mailerImageRejected it is the record's position.
- **Environment variables.** Their values are `Option<string>` arguments of
  each `Invoke`. `Invoke` is the module-level check followed by the handler.

Modules:

- **`Wrappers`**: Option and Result.
- **`Js`**: JSON values, conversions, property reads.
- **`ObjectKey`**:
  - the key decoding;
  - `split("/").pop()`;
  - S3's key encoding, as the reference the decoding inverts.
- **`Envelopes`**: SQS/SNS/S3 message shapes.
- **`Catalog`**: the table as a class over a map, plus the put and update
  semantics it follows.
- **`ProcessImage`**, **`UpdateTable`**, **`MailerImageAdded`**,
  **`MailerImageRejected`**: one module per handler.
- **`Notification`**: what the mailers share (configuration, contact details,
  the HTML template, the SES request).

Each handler appears twice:

- **A method, written as a loop over the records.** It runs against the
  `Catalog.Table` object for the table writers, or collects the emails handed
  to SES for the mailers.
- **A function, written by recursion or as a sequence comprehension.** The
  method is specified by it. The method's `ensures` ties the two together,
  and the lemmas prove the handler's properties about the function.

### Behaviours that differ from the intended design

In each of these the model does what the handlers do.

- **Allow-list and removals.** The intended design has an extension allow-list,
  `Removed` events that delete catalog entries, and outcome events
  published by the ingestion step. None of these appears in the four
  handlers, so none is modelled.
- **Put replaces the item.** The design calls the catalog put an idempotent
  upsert that leaves an existing entry's fields alone. processImage's
  PutCommand replaces the whole item, so a repeated image wipes the metadata
  set by updateTable (`PutReplacesWholeItem`, `PutAndUpdateOrder`). A put is
  still idempotent for its own item (`PutIdempotent`, `IngestTwiceIsIngestOnce`).
- **Failed writes are swallowed.** The design wants catalog write failures
  surfaced for redelivery. Both table handlers catch and log a failed
  request instead. The failure alone never makes the invocation fail
  (`PutFailuresDoNotSteer`; updateTable's `Invoke` never throws), so
  updateTable's record is never redelivered.
  processImage's record is redelivered only when a later record of the same
  batch throws, since SQS then redelivers the whole batch.
- **processImage aborts the batch.** The design wants a malformed event
  skipped on its own. processImage has no try block around parsing or key
  decoding: one malformed record makes the invocation throw, and later
  records are not read (`ExceptionIgnoresLaterRecords`). updateTable and
  mailerImageRejected do skip such a record.

## Model

| member | source | states |
|---|---|---|
| Js.Truthy | lambdas/updateTable.ts:30 | Defines ECMAScript ToBoolean, used for `!field`: undefined, null, false, 0 and "" are falsy, everything else truthy |
| Js.NatToDecimal | lambdas/updateTable.ts:26 | The numeral Number.prototype.toString writes for a non-negative integer is a non-empty string of decimal digits with no leading zero, "0" for zero |
| Js.CallToString | lambdas/updateTable.ts:25-27 | Defines the `v.toString()` call: TypeError on null, undefined and an object whose own `toString` is data; "[object Object]" for other objects; an array joins its elements with ','; other values print as the template does |
| Js.ToString | lambdas/mailerImageRejected.ts:38 | A template-literal conversion can only fail with TypeError (an object whose own `toString` is data), and never fails for a non-object |
| Js.CallToStringAgreesWithToString | lambdas/updateTable.ts:25-27 | `v.toString()` throws TypeError on null and undefined and otherwise gives what the template literal gives; the template prints those two as "null" and "undefined" |
| Js.IntDecimalRoundTrip | lambdas/updateTable.ts:26 | The decimal string `.toString()` writes for an integer is a well-formed numeral that reads back as the same integer |
| Js.GetProperty | lambdas/updateTable.ts:23 | Reading a property fails exactly on null/undefined, yields the member when present and `undefined` otherwise |
| ObjectKey.PlusToSpace | lambdas/processImage.ts:22 | The rewrite keeps the length, turns every '+' into a space and leaves every other character alone |
| ObjectKey.DecodeKey | lambdas/processImage.ts:22 | Defines the key decoding: every '+' becomes a space, then decodeURIComponent runs |
| ObjectKey.DecodeEscape | lambdas/processImage.ts:22 | A decoded escape starts with an escaped byte and uses three characters per byte of the UTF-8 sequence that byte announces: three to twelve characters, all within the input |
| ObjectKey.PercentDecode | lambdas/processImage.ts:22 | decodeURIComponent fails only with URIError, and text without '%' decodes to itself |
| ObjectKey.DecodeKeyWithoutEscapes | lambdas/processImage.ts:22 | A key without escapes decodes to its '+'-to-space rewrite, and to itself exactly when it has no '+' |
| ObjectKey.EscapedPlusIsPlus | lambdas/processImage.ts:22 | `%2B` decodes to a literal '+', while bare '+' on either side become spaces |
| ObjectKey.TruncatedEscapeFails | lambdas/processImage.ts:22 | A '%' not followed by two hex digits makes the decoding throw URIError |
| ObjectKey.InvalidLeadByteFails | lambdas/processImage.ts:22 | An escaped byte that cannot start a UTF-8 sequence (a continuation byte, or 0xF8 and above), after any text without escapes, makes the decoding throw URIError |
| ObjectKey.LoneLeadByteFails | lambdas/processImage.ts:22 | Any multi-byte lead byte that is not followed by an escaped byte, after any text without escapes, makes the decoding throw URIError |
| ObjectKey.BadContinuationFails | lambdas/processImage.ts:22 | Any multi-byte lead byte followed by an escaped byte that is not a continuation byte makes the decoding throw URIError |
| ObjectKey.OverlongFails | lambdas/processImage.ts:22 | The two-byte encoding of any code point below 0x80 (such as `%C0%AF` for '/'), after any text without escapes, makes the decoding throw URIError |
| ObjectKey.OverlongThreeByteFails | lambdas/processImage.ts:22 | The three-byte encoding of any code point below 0x800 makes the decoding throw URIError |
| ObjectKey.OverlongFourByteFails | lambdas/processImage.ts:22 | The four-byte encoding of any code point below 0x10000 makes the decoding throw URIError |
| ObjectKey.SurrogateEscapeFails | lambdas/processImage.ts:22 | The three-byte form of any surrogate code point (such as `%ED%A0%80`) makes the decoding throw URIError |
| ObjectKey.PastMaxCodePointFails | lambdas/processImage.ts:22 | The four-byte form of any number from 0x110000 up makes the decoding throw URIError |
| ObjectKey.FormEncode | lambdas/processImage.ts:22 | Defines the key encoding of S3 event notifications that the decoding inverts: unreserved characters stay, a space becomes '+', everything else becomes the %XX escapes of its UTF-8 bytes |
| ObjectKey.DecodeKeyInvertsFormEncode | lambdas/processImage.ts:22 | Decoding recovers every key exactly from the form encoding S3 puts in notifications (spaces, '+', '%' and non-ASCII included) |
| ObjectKey.FileName | lambdas/processImage.ts:25 | Defines `split("/").pop()`: the last piece of the split key |
| ObjectKey.Split | lambdas/processImage.ts:25 | `split("/")` yields at least one piece, no piece holds '/', a key without '/' is one piece and a key with '/' at least two |
| ObjectKey.SplitJoin | lambdas/processImage.ts:25 | Joining the pieces with '/' gives back the key |
| ObjectKey.SplitAround | lambdas/processImage.ts:25 | Splitting `a/b` is splitting a and then b |
| ObjectKey.FileNameIsLastSegment | lambdas/processImage.ts:25 | `.pop()` gives the '/'-free suffix after the key's last '/', or the whole key when it has none |
| ObjectKey.FileNameCorners | lambdas/processImage.ts:25 | A key without '/' is its own file name, and a key ending in '/' has the empty file name |
| ObjectKey.FileNameOfPath | lambdas/processImage.ts:25 | The file name of `dir/name` is `name` |
| ObjectKey.FileNameOfKey | lambdas/processImage.ts:22-25 | The file name of a record key fails exactly when decoding does (URIError) and is otherwise the last segment of the decoded key |
| ObjectKey.FileNameOfEncodedKey | lambdas/processImage.ts:22-25 | For an upload of `dir/name`, the file name recorded from the notification's key is `name` |
| Envelopes.InnerRecords | lambdas/processImage.ts:16-20 | Unwrapping an SQS record passes on a parse failure of the body or of the SNS Message, yields no records for a falsy `Records`, and otherwise yields exactly the S3 records |
| Envelopes.Outcome | lambdas/processImage.ts:12-54 | An invocation that loaded its configuration throws exactly when the handler raised, with that error |
| Catalog.StorePut | lambdas/processImage.ts:29-34 | Defines the table after a PutCommand: the item replaces whatever its key held when the service carries out a request with a valid key, and nothing changes otherwise |
| Catalog.StoreUpdate | lambdas/updateTable.ts:43-62 | Defines the table after the UpdateCommand: the three attributes are set on the key's item, which is created when absent, when the service carries out a request with a valid key, and nothing changes otherwise |
| Catalog.PutStoresItem | lambdas/processImage.ts:29-34 | A carried-out put with a valid key stores the item under its key and adds only that key; every other item is unchanged; a refused put changes nothing |
| Catalog.UpdateSetsAttributes | lambdas/updateTable.ts:43-62 | A carried-out update with a valid key sets Caption, AddedDate and PhotographerName on that key (creating it if absent) and changes no other item; a refused one changes nothing |
| Catalog.PutKeepsConsistent | lambdas/processImage.ts:32 | A put keeps every item under its own, valid string key |
| Catalog.UpdateKeepsConsistent | lambdas/updateTable.ts:46 | An update keeps every item under its own, valid string key |
| Catalog.PutReplacesWholeItem | lambdas/processImage.ts:30-33 | After a put of `{ fileName }` the item has no Caption, AddedDate or PhotographerName: the put replaces the whole item |
| Catalog.PutIdempotent | lambdas/processImage.ts:29-34 | Repeating a put of the same item changes nothing, whether or not the repeat goes through |
| Catalog.UpdateIdempotent | lambdas/updateTable.ts:43-62 | Repeating an update with the same values changes nothing |
| Catalog.UpdateCreatesMissingItem | lambdas/updateTable.ts:43-62 | An update of an absent key creates the item with exactly the three attributes |
| Catalog.UpdateKeepsKey | lambdas/updateTable.ts:43-57 | An update keeps the key, and on a stored item changes only the three SET attributes |
| Catalog.PutAndUpdateOrder | lambdas/processImage.ts:30-33 | An update after a put leaves the full item; a put after an update leaves only the key |
| Catalog.LoadTableConfig | lambdas/processImage.ts:5-10 | The module loads exactly when DYNAMODB_TABLE and REGION are both set and non-empty, and then keeps their values |
| Catalog.Table.constructor | lib/eda-app-stack.ts:25-30 | A table starts from a consistent item map |
| Catalog.Table.Put | lambdas/processImage.ts:29-34 | The PutCommand succeeds exactly when the service carries it out and the key is valid, and leaves the table as StorePut says, keeping the table's invariant |
| Catalog.Table.Update | lambdas/updateTable.ts:62 | The UpdateCommand succeeds exactly when the service carries it out and the key is valid, and leaves the table as StoreUpdate says, keeping the table's invariant |
| ProcessImage.IngestRecords | lambdas/processImage.ts:20-51 | Defines the inner loop: one put per S3 record in order, each with the next service answer, until a record's name throws |
| ProcessImage.IngestBatch | lambdas/processImage.ts:15-53 | Defines the outer loop: each SQS record's inner loop in turn, stopping at the first exception |
| ProcessImage.RecordNames | lambdas/processImage.ts:20-25 | Defines, without the table, the file names a notification's records ask to be put and the exception that stops them |
| ProcessImage.BatchNames | lambdas/processImage.ts:15-25 | Defines, without the table, the file names an event asks to be put, in order, and the exception that stops it |
| ProcessImage.ApplyPuts | lambdas/processImage.ts:29-34 | Defines the table after a sequence of puts numbered from `start`, each with its own service answer |
| ProcessImage.Decode | lambdas/processImage.ts:15-22 | There is one decoded entry per SQS record |
| ProcessImage.OnePutPerRecord | lambdas/processImage.ts:20-34 | When every S3 record of a notification yields a file name, there is exactly one put per record, in record order, and nothing is thrown |
| ProcessImage.IngestRecordsFollowsPlan | lambdas/processImage.ts:20-51 | The inner loop attempts exactly the planned puts, after the earlier ones, and throws exactly where the plan says |
| ProcessImage.IngestRecordsPuts | lambdas/processImage.ts:20-51 | The table after the inner loop is the table after its planned puts, numbered on from the earlier ones |
| ProcessImage.IngestRecordsIsPlannedPuts | lambdas/processImage.ts:20-51 | The inner loop makes exactly the planned puts, numbered on from the earlier ones, and throws exactly where the plan says |
| ProcessImage.IngestBatchFollowsPlan | lambdas/processImage.ts:15-53 | The invocation attempts exactly the planned puts and throws exactly where the plan says |
| ProcessImage.IngestBatchPuts | lambdas/processImage.ts:15-53 | The table after the invocation is the table after its planned puts, in order |
| ProcessImage.IngestBatchIsPlannedPuts | lambdas/processImage.ts:15-53 | The whole invocation makes exactly the planned puts, in order, and throws exactly where the plan says, whatever the table and the service answers |
| ProcessImage.PutFailuresDoNotSteer | lambdas/processImage.ts:36-50 | A failed put is swallowed: which puts are made, and whether the invocation throws, depends neither on the service answers nor on the table |
| ProcessImage.ApplyPutsFrame | lambdas/processImage.ts:29-34 | A key no put names keeps its item, or stays absent |
| ProcessImage.ApplyPutsKeepsBareItem | lambdas/processImage.ts:29-34 | An item holding only its key stays so under any later puts |
| ProcessImage.ApplyPutsStoresAll | lambdas/processImage.ts:29-34 | When every put succeeds, every named valid key ends up holding exactly `{ fileName }` |
| ProcessImage.ApplyPutsOfStoredIsNoOp | lambdas/processImage.ts:29-34 | Putting names that already hold their bare item changes nothing |
| ProcessImage.IngestTwiceIsIngestOnce | lambdas/processImage.ts:15-53 | Redelivering an event whose puts all succeeded the first time leaves the table as the first delivery left it |
| ProcessImage.IngestEffect | lambdas/processImage.ts:15-53 | An invocation changes only keys it puts, and when every put succeeds each of them holds exactly `{ fileName }` |
| ProcessImage.IngestBatchAppend | lambdas/processImage.ts:15-53 | SQS records are handled in sequence: a batch is its first part and then, unless that threw, the rest from where it left off |
| ProcessImage.DecodeAppend | lambdas/processImage.ts:15-17 | Decoding works record by record |
| ProcessImage.ExceptionIgnoresLaterRecords | lambdas/processImage.ts:16-22 | Once a record throws, later records are never read and the puts already made stay |
| ProcessImage.EmptyNotificationIsSkipped | lambdas/processImage.ts:19 | A notification without Records changes nothing and throws nothing |
| ProcessImage.Handler | lambdas/processImage.ts:12-54 | The loops leave the table, the list of puts and the escaped exception exactly as IngestBatch gives them, keeping the table's invariant |
| ProcessImage.Invoke | lambdas/processImage.ts:5-54 | A missing configuration fails the load with no put; otherwise the invocation is the handler's run, throwing exactly when the handler does |
| UpdateTable.ReadMetadata | lambdas/updateTable.ts:19-23 | The four fields can be read exactly when both parses succeed and the message is neither null nor undefined |
| UpdateTable.Classify | lambdas/updateTable.ts:17-66 | Defines one record's handling, in the code's order: parse and destructure, the three `.toString()` calls, the falsy check, the log line's conversion of fileName, then the request |
| UpdateTable.Outcomes | lambdas/updateTable.ts:16-67 | There is one outcome per SQS record |
| UpdateTable.UpdateGate | lambdas/updateTable.ts:23-62 | A record updates exactly when it parses, its three conversions succeed, all four fields are truthy, fileName prints in the log line, the key is a string and the service carries out the request; the update writes the converted value, date and name under fileName |
| UpdateTable.MissingFieldThrowsBeforeGate | lambdas/updateTable.ts:25-30 | A null or missing date, value or name throws TypeError at `.toString()` and is never reported as skipped |
| UpdateTable.UnprintableFileNameIsCaught | lambdas/updateTable.ts:40 | A fileName that passes every earlier check but is an object with its own `toString` member throws TypeError in the log line's template; the record is caught and no request is sent |
| UpdateTable.FalsyFieldIsSkipped | lambdas/updateTable.ts:30-38 | A falsy fileName, or a falsy field that converts fine (such as 0 or ""), skips the record |
| UpdateTable.UpdateBatch | lambdas/updateTable.ts:16-67 | Defines the catalog after a batch: the updates of the records that updated, applied in record order |
| UpdateTable.LastUpdates | lambdas/updateTable.ts:43-62 | Defines, without the table, the item each key holds after a batch: the values of that key's last update |
| UpdateTable.UpdateBatchKeepsConsistent | lambdas/updateTable.ts:16-67 | A batch keeps every item under its own, valid key |
| UpdateTable.UpdateBatchIsLastWriteWins | lambdas/updateTable.ts:16-67 | The catalog after a batch is the old one overridden, key by key, by the last update of each key |
| UpdateTable.UpdateBatchIdempotent | lambdas/updateTable.ts:16-67 | A redelivery of a batch that gets the same service answers, and so has the same outcomes, leaves the catalog as one delivery left it |
| UpdateTable.UpdateBatchAppend | lambdas/updateTable.ts:64-66 | Records are handled in sequence, and a record that did not update (it threw, was skipped or its send failed) leaves the catalog alone and does not stop later records |
| UpdateTable.OutcomeIsPerRecord | lambdas/updateTable.ts:17-66 | A record's outcome depends only on that record and its own service answer |
| UpdateTable.UpdateOfNewKeyCreatesItem | lambdas/updateTable.ts:43-62 | Updating a key not yet in the catalog creates its full item |
| UpdateTable.Handler | lambdas/updateTable.ts:15-68 | The loop reports each record's outcome and leaves the table as the fold of the successful updates over the old table, keeping the table's invariant |
| UpdateTable.Invoke | lambdas/updateTable.ts:6-68 | A missing configuration fails the load with no update; otherwise the invocation completes, never throwing, with the handler's outcomes |
| Notification.LoadSesConfig | lambdas/mailerImageAdded.ts:9-13 | A mailer loads exactly when SES_EMAIL_TO, SES_EMAIL_FROM and SES_REGION are all set and non-empty, and then keeps their values |
| Notification.HtmlContent | lambdas/mailerImageAdded.ts:74-86 | Defines the HTML body character for character: the template's text with the name, the address and the message in their slots |
| Notification.HtmlContentShowsDetails | lambdas/mailerImageAdded.ts:74-86 | The HTML body shows the sender name, the address and the message |
| Notification.HtmlContentDeterminesMessage | lambdas/mailerImageAdded.ts:74-86 | For one sender, the HTML body determines the message |
| Notification.SendEmailParams | lambdas/mailerImageAdded.ts:52-72 | The request goes to the configured recipient from the configured sender, with UTF-8 subject and body, and the body is the HTML rendering of the details |
| MailerImageAdded.AddedEmailContents | lambdas/mailerImageAdded.ts:37-43 | The added-image email is addressed as configured, has subject "New image Upload", and its body shows the message, the album name and the sender |
| MailerImageAdded.RecordMessage | lambdas/mailerImageAdded.ts:32-46 | Defines what one S3 record yields: TypeError for a missing bucket or key, the decoding's URIError, no email when the message cannot be built, otherwise the `s3://bucket/key` message |
| MailerImageAdded.MailRecords | lambdas/mailerImageAdded.ts:31-47 | Defines the inner loop: one email per record that yields a message, each with the next SES answer, until a record throws |
| MailerImageAdded.MailBatch | lambdas/mailerImageAdded.ts:25-49 | Defines the outer loop: each SQS record's inner loop in turn, stopping at the first exception |
| MailerImageAdded.Decode | lambdas/mailerImageAdded.ts:25-35 | There is one decoded entry per SQS record |
| MailerImageAdded.MailRecordsWellSent | lambdas/mailerImageAdded.ts:31-47 | The inner loop keeps every email addressed as configured with the added-image subject and delivered as SES answered, and never changes an earlier email |
| MailerImageAdded.MailBatchWellSent | lambdas/mailerImageAdded.ts:25-49 | Every email of an invocation is addressed as configured, has the added-image subject and was delivered as SES answered, and earlier emails are never changed |
| MailerImageAdded.MailRecordsIgnoresAnswers | lambdas/mailerImageAdded.ts:36-46 | A failed send is swallowed: the inner loop builds the same emails and throws the same way whatever SES answers |
| MailerImageAdded.MailBatchIgnoresAnswers | lambdas/mailerImageAdded.ts:25-49 | The emails of an invocation and whether it throws do not depend on SES's answers |
| MailerImageAdded.OneEmailPerRecord | lambdas/mailerImageAdded.ts:31-47 | When every S3 record yields a message, there is exactly one email per record, in order, with that record's message |
| MailerImageAdded.MailBatchAppend | lambdas/mailerImageAdded.ts:25-49 | SQS records are handled in sequence, and an exception ignores later records while keeping the emails already sent |
| MailerImageAdded.AddedMessageIdentifiesObject | lambdas/mailerImageAdded.ts:40 | The message determines the bucket and the key |
| MailerImageAdded.SlashSeparated | lambdas/mailerImageAdded.ts:40 | `bucket/key` determines both parts when the bucket has no '/' |
| MailerImageAdded.RecordMessageOfUpload | lambdas/mailerImageAdded.ts:32-40 | For an upload of key k to bucket b, the record yields the message with URL `s3://b/k` |
| MailerImageAdded.Handler | lambdas/mailerImageAdded.ts:23-50 | The loops hand SES exactly the emails MailBatch lists, in order, and throw exactly where MailBatch does |
| MailerImageAdded.Invoke | lambdas/mailerImageAdded.ts:9-50 | A missing SES setting fails the load with no email; otherwise the invocation is the handler's run |
| MailerImageRejected.HandleRejection | lambdas/mailerImageRejected.ts:28-51 | Defines one record's handling: the parse's error, TypeError when the message is null or undefined or a field cannot print, otherwise the rejection email naming errorMessage and fileName |
| MailerImageRejected.Rejections | lambdas/mailerImageRejected.ts:28-51 | There is one outcome per SQS record |
| MailerImageRejected.RejectionIsPerRecord | lambdas/mailerImageRejected.ts:28-51 | A record's outcome depends only on that record and its own SES answer |
| MailerImageRejected.RejectionGate | lambdas/mailerImageRejected.ts:29-50 | A record gets its email exactly when its body parses to a non-null value whose two fields print; the email is the rejection email naming them; otherwise the error is the parse's or TypeError |
| MailerImageRejected.RejectedMessageShowsFields | lambdas/mailerImageRejected.ts:38 | The rejection message contains the error text and the file name |
| MailerImageRejected.RejectedEmailContents | lambdas/mailerImageRejected.ts:55-75 | The rejection email is addressed as configured, has the rejection subject, and its body shows the message |
| MailerImageRejected.RejectedSubjectText | lambdas/mailerImageRejected.ts:69 | The rejection subject is "Image Upload Failure - The Photo Album", which differs from the added-image subject |
| MailerImageRejected.RejectionEmailNamesFile | lambdas/mailerImageRejected.ts:35-42 | The body of a rejection email shows the error text and the file name |
| MailerImageRejected.MissingFieldsPrintUndefined | lambdas/mailerImageRejected.ts:32-38 | A message without both fields still gets an email, which says "undefined" for each |
| MailerImageRejected.SentCountBounds | lambdas/mailerImageRejected.ts:28-51 | At most one email per record, and one for each record exactly when every record is well formed |
| MailerImageRejected.Handler | lambdas/mailerImageRejected.ts:24-52 | The loop gives each record's outcome in order, each handled alone |
| MailerImageRejected.Invoke | lambdas/mailerImageRejected.ts:10-52 | A missing SES setting fails the load with no email; otherwise the invocation completes, never throwing, with the handler's outcomes |

## Left out

**JSON and JavaScript values**

- JSON text and `JSON.parse` are not modelled. Each message level is a datatype whose failure case stands for the exception parsing or property access would raise at that level.
- Numbers are integers only, and unbounded. Fractions, exponents and `NaN` formatting of `.toString()` are not modelled. Neither is the rounding of `JSON.parse`: an integer above 2^53 in the message becomes the nearest double, so the Caption that lambdas/updateTable.ts:26 stores can be a different numeral from the one sent, while the model prints the digits as sent.
- Strings are sequences of Unicode scalar values, not UTF-16 code units, so a key cannot hold a literal lone surrogate. A surrogate written as %-escapes (such as `%ED%A0%80`) is modelled: decoding rejects it with URIError, as `decodeURIComponent` does (SurrogateEscapeFails).
- `event.Records` is taken to be present and iterable: the batch is the sequence of records. The Lambda runtime always delivers it for SQS triggers.

**Services and the runtime**

- The SDK clients are not modelled. These are `createDDbDocClient` (lambdas/processImage.ts:56-68), the client at lambdas/updateTable.ts:13 and the SES clients. Their marshalling options and the region they connect to are left out too. Each request's success is a parameter.
- DynamoDB's refusal of a request is modelled only for an empty key or a key that is not a string (the partition key is a string, lib/eda-app-stack.ts:27). Every other refusal (throttling, a missing table) is the service-answer parameter.
- The values of DYNAMODB_TABLE, REGION and the SES settings beyond their presence are not modelled: they only address the services.
- The env module (`../env`) is not part of this model. Its three exported values are the `Option<string>` arguments of each mailer's `Invoke`.
- Log output is not modelled: what `console.log`/`console.error` and the `JSON.stringify(event)` lines print. Neither is the `ReturnValues: UPDATED_NEW` response, which is only logged. The one log line whose evaluation can throw is modelled: the template at lambdas/updateTable.ts:40 converts `fileName`, and an unprintable `fileName` is caught there (UnprintableFileNameIsCaught).
- Async and concurrency are left out. Each `await` is a sequential call, and the handlers never run requests in parallel.
- SQS redelivery and the dead-letter queue are left out. They belong to the deployment; IngestTwiceIsIngestOnce states what a redelivery does when the first delivery's puts all succeeded, and UpdateBatchIdempotent what a redelivery that gets the same service answers does.

**Deployment**

- The deployment topology in lib/eda-app-stack.ts (buckets, topics, queues, subscription filters, IAM) is not modelled, apart from the table's key type.

**Deliberate modelling choices**

- Notification.HtmlContent: the HTML body is modelled character for character. The proved properties are only that it shows the name, the address and the message, and that it determines the message. Nothing about rendering is proved.
- UpdateTable.Classify: a truthy `fileName` that is not a string is modelled as a request DynamoDB refuses (SendFailed). The document client's exact error for such a key is not modelled.
