/**
 * `make_email`: renders a record's headers and body as a mail message. The
 * message is modelled by its header fields and its one optional body part;
 * MIME encoding and serialisation are not part of the model.
 */
module Builder {
  import opened Wrappers
  import opened Text
  import opened Extractors
  import opened Assembler

  const Separator := ", "

  /** A `text/<subtype>` body part with its payload (`None` renders as an
      empty part). */
  datatype Part = Part(subtype: string, payload: Option<string>)

  /** The rendered message: header fields and at most one body part. */
  datatype Message = Message(fields: map<Header, string>, part: Option<Part>)

  /** The field text of a header that is not `None`: a string as it is, a
      list joined with `", "`. */
  function FieldText(v: HeaderValue): (r: string)
    requires !v.NoValue?
  {
    match v
    case Str(t) => t
    case List(items) => Join(Separator, items)
  }

  /** `make_email` fails (the part variable is never bound) on a body
      mapping with neither MIME type. */
  predicate BodyRenderable(body: Option<map<string, Option<string>>>)
  {
    body.Some? ==> HtmlType in body.value || PlainType in body.value
  }

  /** The body part `make_email` attaches: HTML when the mapping has it,
      else plain text; none when there is no mapping. */
  function BodyPart(body: Option<map<string, Option<string>>>): (p: Option<Part>)
    requires BodyRenderable(body)
    ensures p.None? <==> body.None?
    ensures body.Some? && HtmlType in body.value ==> p == Some(Part("html", body.value[HtmlType]))
    ensures body.Some? && HtmlType !in body.value ==> p == Some(Part("plain", body.value[PlainType]))
  {
    if body.None? then None
    else if HtmlType in body.value then Some(Part("html", body.value[HtmlType]))
    else Some(Part("plain", body.value[PlainType]))
  }

  /** The message `make_email` builds: every header that is not `None`
      becomes a field (strings verbatim, lists joined); the attachments play
      no part. */
  function Render(headers: map<Header, HeaderValue>, body: Option<map<string, Option<string>>>): (m: Message)
    requires BodyRenderable(body)
    ensures forall h :: h in m.fields <==> h in headers && !headers[h].NoValue?
    ensures forall h :: h in headers && headers[h].Str? ==> m.fields[h] == headers[h].text
    ensures forall h :: h in headers && headers[h].List? ==> m.fields[h] == Join(Separator, headers[h].items)
    ensures m.part == BodyPart(body)
  {
    Message(map h | h in headers && !headers[h].NoValue? :: FieldText(headers[h]), BodyPart(body))
  }

  /** `make_email`: assigns the message fields one header at a time, then
      attaches the chosen body part. */
  method MakeEmail(headers: map<Header, HeaderValue>, body: Option<map<string, Option<string>>>, attachments: seq<Attachment>)
    returns (msg: Message)
    requires BodyRenderable(body)
    ensures msg == Render(headers, body)
  {
    var fields: map<Header, string> := map[];
    var pending := headers.Keys;
    while pending != {}
      invariant pending <= headers.Keys
      invariant forall h :: h in fields <==> h in headers && h !in pending && !headers[h].NoValue?
      invariant forall h :: h in fields ==> fields[h] == FieldText(headers[h])
      decreases pending
    {
      var h :| h in pending;
      match headers[h] {
        case Str(t) =>
          fields := fields[h := t];
        case List(items) =>
          fields := fields[h := Join(Separator, items)];
        case NoValue =>
      }
      pending := pending - {h};
    }
    var part: Option<Part> := None;
    if body.Some? {
      if HtmlType in body.value {
        part := Some(Part("html", body.value[HtmlType]));
      } else if PlainType in body.value {
        part := Some(Part("plain", body.value[PlainType]));
      }
    }
    assert fields == Render(headers, body).fields;
    msg := Message(fields, part);
  }

  /** End to end, for one message element: Message-ID, Date, From, To, CC and
      BCC are always rendered (an empty address list gives an empty field),
      and Subject only when the message has a subject tag. */
  lemma RenderedRecordFields(email: ElementTree.Element)
    requires RecordDefined(email)
    ensures var m := Render(RecordOf(email).headers, Some(RecordOf(email).body));
      && m.fields.Keys == HeaderNames - (if Title(email).None? then {Subject} else {})
      && (Subject in m.fields ==> m.fields[Subject] == Title(email).value)
  {
    var r := RecordOf(email);
    assert r.headers[Subject].NoValue? <==> Title(email).None?;
    RenderedFields(r.headers, Some(r.body));
  }

  /** End to end, the rendered identifier, date and address fields. */
  lemma RenderedRecordValues(email: ElementTree.Element)
    requires RecordDefined(email)
    ensures var m := Render(RecordOf(email).headers, Some(RecordOf(email).body));
      && m.fields[MessageId] == GetId(email)
      && m.fields[Date] == GetDate(email) == RecordOf(email).createdAt
      && m.fields[From] == Join(Separator, GetAddresses(email).frm)
      && m.fields[To] == Join(Separator, GetAddresses(email).to)
      && m.fields[Cc] == Join(Separator, GetAddresses(email).cc)
      && m.fields[Bcc] == Join(Separator, GetAddresses(email).bcc)
  {
  }

  /** End to end, the rendered part is HTML exactly when the has-HTML flag is
      set, and carries the chosen body text. */
  lemma RenderedRecordPart(email: ElementTree.Element)
    requires RecordDefined(email)
    ensures var m := Render(RecordOf(email).headers, Some(RecordOf(email).body));
      && m.part.Some?
      && (m.part.value.subtype == "html" <==> HtmlFlagSet(email))
      && m.part.value.payload == StripOpt(BodyTag(email).value.text)
  {
  }

  /** On a header dictionary with the seven record keys, only a `None`
      subject can be dropped. */
  lemma RenderedFields(headers: map<Header, HeaderValue>, body: Option<map<string, Option<string>>>)
    requires BodyRenderable(body)
    requires headers.Keys == HeaderNames
    requires !headers[From].NoValue? && !headers[To].NoValue? && !headers[MessageId].NoValue?
    requires !headers[Cc].NoValue? && !headers[Bcc].NoValue? && !headers[Date].NoValue?
    ensures Render(headers, body).fields.Keys == HeaderNames - (if headers[Subject].NoValue? then {Subject} else {})
  {
  }
}
