/**
 `EmailService.send_email` of src/email_service.py: it builds the document
 the cloud "Trigger Email" extension expects, hands it to the queue once,
 and reports `true` exactly when that call returned without raising. The
 queue (Firestore) is a parameter: a function from the document to the
 outcome of the call.
 */
module EmailService {

  datatype Option<T> = None | Some(value: T)

  // ---------------------------------------------------------------------------
  // The queued document
  // ---------------------------------------------------------------------------

  /** The `message` part of a queued e-mail. */
  datatype Message = Message(subject: string, text: string, html: string)

  /** A queued e-mail: a recipient list and a message, and nothing else (no
      sender and no delivery state). */
  datatype QueueRecord = QueueRecord(to: seq<string>, message: Message)

  /** A value inside a stored document: a string, a list or a nested map. */
  datatype Value = Str(s: string) | List(items: seq<Value>) | Fields(fields: map<string, Value>)

  /** The HTML body: the text inside one paragraph element, not escaped. */
  function Paragraph(text: string): (html: string)
    ensures |html| == |text| + 7
    ensures html[..3] == "<p>" && html[|html| - 4..] == "</p>"
    ensures html[3..|html| - 4] == text
  {
    "<p>" + text + "</p>"
  }

  /** The record `send_email` builds from its arguments. */
  function BuildRecord(to: string, subject: string, messageText: string): (r: QueueRecord)
    ensures r.to == [to]
    ensures r.message.subject == subject && r.message.text == messageText
    ensures r.message.html == Paragraph(messageText)
  {
    QueueRecord([to], Message(subject, messageText, Paragraph(messageText)))
  }

  function StrList(xs: seq<string>): (vs: seq<Value>)
    ensures |vs| == |xs|
    ensures forall i :: 0 <= i < |xs| ==> vs[i] == Str(xs[i])
  {
    if xs == [] then [] else [Str(xs[0])] + StrList(xs[1..])
  }

  /** The record as the dictionary handed to the queue. */
  function Document(r: QueueRecord): (d: map<string, Value>)
    ensures d.Keys == {"to", "message"}
    ensures d["message"].Fields? && d["message"].fields.Keys == {"subject", "text", "html"}
  {
    map[
      "to" := List(StrList(r.to)),
      "message" := Fields(map[
        "subject" := Str(r.message.subject),
        "text" := Str(r.message.text),
        "html" := Str(r.message.html)])]
  }

  // ---------------------------------------------------------------------------
  // Reading a document back, as the extension does
  // ---------------------------------------------------------------------------

  function ReadStrings(vs: seq<Value>): (r: Option<seq<string>>)
    ensures r.Some? ==> |r.value| == |vs|
  {
    if vs == [] then Some([])
    else match (vs[0], ReadStrings(vs[1..]))
      case (Str(x), Some(rest)) => Some([x] + rest)
      case _ => None
  }

  function ReadString(d: map<string, Value>, key: string): Option<string> {
    if key in d && d[key].Str? then Some(d[key].s) else None
  }

  /** The record a document holds, if it has the expected shape. */
  function ReadRecord(d: map<string, Value>): (r: Option<QueueRecord>)
    ensures r.Some? ==> "to" in d && "message" in d
  {
    if "to" !in d || !d["to"].List? || "message" !in d || !d["message"].Fields? then None
    else
      var m := d["message"].fields;
      match (ReadStrings(d["to"].items), ReadString(m, "subject"), ReadString(m, "text"), ReadString(m, "html"))
      case (Some(to), Some(subject), Some(text), Some(html)) => Some(QueueRecord(to, Message(subject, text, html)))
      case _ => None
  }

  lemma {:induction false} ReadStrList(xs: seq<string>)
    ensures ReadStrings(StrList(xs)) == Some(xs)
  {
    if xs != [] {
      ReadStrList(xs[1..]);
      assert StrList(xs)[1..] == StrList(xs[1..]);
      assert [xs[0]] + xs[1..] == xs;
    }
  }

  /** The document carries the record without loss. */
  lemma ReadDocument(r: QueueRecord)
    ensures ReadRecord(Document(r)) == Some(r)
  {
    ReadStrList(r.to);
  }

  // ---------------------------------------------------------------------------
  // Properties of the record
  // ---------------------------------------------------------------------------

  /** Equal arguments give equal records, and a record determines the
      arguments it was built from. */
  lemma BuildRecordInjective(to1: string, subject1: string, text1: string,
                             to2: string, subject2: string, text2: string)
    ensures BuildRecord(to1, subject1, text1) == BuildRecord(to2, subject2, text2)
            <==> to1 == to2 && subject1 == subject2 && text1 == text2
  {
    if BuildRecord(to1, subject1, text1) == BuildRecord(to2, subject2, text2) {
      assert [to1][0] == [to2][0];
    }
  }

  /** The queued document has exactly the recipient as its `to` list, the
      arguments as subject and text, and the text in a paragraph as HTML. */
  lemma DocumentOfBuiltRecord(to: string, subject: string, messageText: string)
    ensures var d := Document(BuildRecord(to, subject, messageText));
      && d["to"] == List([Str(to)])
      && d["message"].fields["subject"] == Str(subject)
      && d["message"].fields["text"] == Str(messageText)
      && d["message"].fields["html"] == Str("<p>" + messageText + "</p>")
      && "from" !in d && "delivery" !in d
  {
    assert StrList([to]) == [Str(to)];
  }

  /** Every character of the text, markup included, is copied into the HTML
      as it is, after the three characters of "<p>". */
  lemma HtmlNotEscaped(text: string)
    ensures forall i :: 0 <= i < |text| ==> Paragraph(text)[i + 3] == text[i]
  {
  }

  /** For instance, "<", "&" and ">" stay as they are. */
  lemma HtmlNotEscapedExample()
    ensures Paragraph("a < b & c") == "<p>a < b & c</p>"
  {
  }

  // ---------------------------------------------------------------------------
  // send_email
  // ---------------------------------------------------------------------------

  /** What the call into the queue did: returned, or raised an exception of
      a subclass of `Exception` (the only kind `send_email` catches). */
  datatype EnqueueOutcome = Enqueued | Raised(error: string)

  /** The boolean `send_email` returns, with the documents it handed to the
      queue, in order. */
  datatype SendReport = SendReport(result: bool, attempts: seq<map<string, Value>>)

  /** `send_email`: build the document, hand it to the queue once, and map
      the outcome to a boolean. */
  function SendEmail(to: string, subject: string, messageText: string,
                     enqueue: map<string, Value> -> EnqueueOutcome): (r: SendReport)
    ensures r.attempts == [Document(BuildRecord(to, subject, messageText))]
    ensures ReadRecord(r.attempts[0]) == Some(BuildRecord(to, subject, messageText))
    ensures r.result <==> enqueue(r.attempts[0]).Enqueued?
  {
    var document := Document(BuildRecord(to, subject, messageText));
    ReadDocument(BuildRecord(to, subject, messageText));
    match enqueue(document)
    case Enqueued => SendReport(true, [document])
    case Raised(_) => SendReport(false, [document])
  }

  /** The result depends on the queue only through its answer for this
      call's document. */
  lemma SendEmailConsultsOnlyItsDocument(to: string, subject: string, messageText: string,
                                         enqueue1: map<string, Value> -> EnqueueOutcome,
                                         enqueue2: map<string, Value> -> EnqueueOutcome)
    requires var d := Document(BuildRecord(to, subject, messageText));
      enqueue1(d).Enqueued? == enqueue2(d).Enqueued?
    ensures SendEmail(to, subject, messageText, enqueue1) == SendEmail(to, subject, messageText, enqueue2)
  {
  }

  /** A raised exception is reported as `false` after the one attempt; a
      returned call as `true`. The recipient is queued as given, without
      sanitising or re-validation. */
  lemma SendEmailOutcome(to: string, subject: string, messageText: string,
                         enqueue: map<string, Value> -> EnqueueOutcome)
    ensures var r := SendEmail(to, subject, messageText, enqueue);
      var d := Document(BuildRecord(to, subject, messageText));
      && r.attempts == [d]
      && (enqueue(d).Raised? ==> !r.result)
      && (enqueue(d).Enqueued? ==> r.result)
      && r.attempts[0]["to"] == List([Str(to)])
  {
    DocumentOfBuiltRecord(to, subject, messageText);
  }
}
