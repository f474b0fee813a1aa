/**
  What the two mailers share: the module-level check of the SES settings,
  the contact details an email is built from, the HTML body template and the
  SendEmailCommand input. Each mailer supplies its own subject and message.
 */
module Notification {
  import opened Wrappers

  /** The sender name both mailers put in their contact details. */
  const SenderName: string := "The Photo Album"

  /** The recipient, the sender and the SES region, as read from the env module. */
  datatype SesConfig = SesConfig(emailTo: string, emailFrom: string, region: string)

  /** The module-level check: SES_EMAIL_TO, SES_EMAIL_FROM and SES_REGION
      must all be set and non-empty, otherwise loading the mailer throws
      before any message is handled. */
  function LoadSesConfig(emailTo: Option<string>, emailFrom: Option<string>, region: Option<string>)
    : (r: Option<SesConfig>)
    ensures r.Some? <==>
      emailTo.Some? && emailTo.value != "" && emailFrom.Some? && emailFrom.value != "" &&
      region.Some? && region.value != ""
    ensures r.Some? ==>
      r.value.emailTo == emailTo.value && r.value.emailFrom == emailFrom.value && r.value.region == region.value
  {
    if emailTo.None? || emailTo.value == "" || emailFrom.None? || emailFrom.value == "" ||
       region.None? || region.value == ""
    then None
    else Some(SesConfig(emailTo.value, emailFrom.value, region.value))
  }

  datatype ContactDetails = ContactDetails(name: string, email: string, message: string)

  /** The SendEmailCommand input: one recipient, a UTF-8 HTML body, a UTF-8 subject and the sender. */
  datatype EmailParams = EmailParams(
    toAddresses: seq<string>,
    htmlCharset: string,
    html: string,
    subjectCharset: string,
    subject: string,
    source: string)

  /** `part` occurs in `text` as a contiguous piece. */
  predicate Contains(text: string, part: string) {
    exists i, j :: 0 <= i <= j <= |text| && text[i..j] == part
  }

  lemma ContainsMiddle(a: string, x: string, b: string)
    ensures Contains(a + x + b, x)
  {
    var t := a + x + b;
    assert t[|a|..|a| + |x|] == x;
  }

  lemma ContainsTransitive(a: string, b: string, c: string)
    requires Contains(a, b) && Contains(b, c)
    ensures Contains(a, c)
  {
    var i, j :| 0 <= i <= j <= |a| && a[i..j] == b;
    var k, l :| 0 <= k <= l <= |b| && b[k..l] == c;
    forall t | 0 <= t < l - k ensures a[i..j][k..l][t] == a[i + k..i + l][t] {
      assert a[i..j][k..l][t] == a[i + k + t];
    }
    assert a[i..j][k..l] == a[i + k..i + l];
  }

  /** The HTML body: the sender's name and address in a list, then the message.
      Layout whitespace and the two emoji are as the template writes them. */
  function HtmlContent(d: ContactDetails): string {
    HtmlHead + d.name + HtmlAfterName + d.email + HtmlAfterEmail + d.message + HtmlTail
  }

  const HtmlHead: string :=
    "\n    <html>\n      <body>\n        <h2>Sent from: </h2>\n        <ul>\n"
    + "          <li style=\"font-size:18px\">\U{1F464} <b>"
  const HtmlAfterName: string := "</b></li>\n          <li style=\"font-size:18px\">\U{2709}\U{FE0F} <b>"
  const HtmlAfterEmail: string := "</b></li>\n        </ul>\n        <p style=\"font-size:18px\">"
  const HtmlTail: string := "</p>\n      </body>\n    </html> \n  "

  lemma ContainsFilledSlots(t1: string, x: string, t2: string, y: string, t3: string, z: string, t4: string)
    ensures var text := t1 + x + t2 + y + t3 + z + t4;
      Contains(text, x) && Contains(text, y) && Contains(text, z)
  {
    var text := t1 + x + t2 + y + t3 + z + t4;
    ContainsMiddle(t1, x, t2 + y + t3 + z + t4);
    assert text == t1 + x + (t2 + y + t3 + z + t4);
    ContainsMiddle(t1 + x + t2, y, t3 + z + t4);
    assert text == t1 + x + t2 + y + (t3 + z + t4);
    ContainsMiddle(t1 + x + t2 + y + t3, z, t4);
  }

  /** The body shows the name, the address and the message it was built from. */
  lemma HtmlContentShowsDetails(d: ContactDetails)
    ensures var html := HtmlContent(d);
      Contains(html, d.name) && Contains(html, d.email) && Contains(html, d.message)
  {
    ContainsFilledSlots(HtmlHead, d.name, HtmlAfterName, d.email, HtmlAfterEmail, d.message, HtmlTail);
  }

  /** The body determines the message: two emails from the same sender with
      the same body carry the same message. */
  lemma HtmlContentDeterminesMessage(d1: ContactDetails, d2: ContactDetails)
    requires d1.name == d2.name && d1.email == d2.email
    requires HtmlContent(d1) == HtmlContent(d2)
    ensures d1.message == d2.message
  {
    var prefix := HtmlHead + d1.name + HtmlAfterName + d1.email + HtmlAfterEmail;
    assert HtmlContent(d1) == prefix + d1.message + HtmlTail;
    assert HtmlContent(d2) == prefix + d2.message + HtmlTail;
    var h := HtmlContent(d1);
    assert d1.message == h[|prefix|..|h| - |HtmlTail|] == d2.message;
  }

  /** sendEmailParams: the email to the configured recipient, from the
      configured sender, with the given subject and the contact details
      rendered as HTML. */
  function SendEmailParams(cfg: SesConfig, d: ContactDetails, subject: string): (p: EmailParams)
    ensures p.toAddresses == [cfg.emailTo] && p.source == cfg.emailFrom && p.subject == subject
    ensures p.htmlCharset == "UTF-8" && p.subjectCharset == "UTF-8"
    ensures p.html == HtmlContent(d)
  {
    EmailParams([cfg.emailTo], "UTF-8", HtmlContent(d), "UTF-8", subject, cfg.emailFrom)
  }

  /** The contact details both mailers build: the album's name, the sender address, the message. */
  function Details(cfg: SesConfig, message: string): ContactDetails {
    ContactDetails(SenderName, cfg.emailFrom, message)
  }

  /** One email handed to SES, and whether SES accepted it. */
  datatype Send = Send(params: EmailParams, delivered: bool)
}
