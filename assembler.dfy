/**
 * `parse_message` from the parsed document on: the first `email` element of
 * the document is turned into one mail record (headers, body, attachments,
 * flattened address lists, title, author, creation date).
 */
module Assembler {
  import opened Wrappers
  import opened ElementTree
  import opened Text
  import opened Extractors

  const EmailTag := "email"
  const SubjectTag := "OPFMessageCopySubject"

  /** The seven keys of the record's header dictionary. */
  datatype Header = From | To | Subject | MessageId | Cc | Bcc | Date

  /** The header field name each key stands for. */
  function FieldName(h: Header): (r: string)
  {
    match h
    case From => "From"
    case To => "To"
    case Subject => "Subject"
    case MessageId => "Message-ID"
    case Cc => "CC"
    case Bcc => "BCC"
    case Date => "Date"
  }

  /** Distinct keys name distinct header fields, so keying the dictionary by
      `Header` loses nothing against the source's string keys. */
  lemma FieldNameInjective(a: Header, b: Header)
    ensures FieldName(a) == FieldName(b) ==> a == b
  {
  }

  /** Every record carries all seven headers. */
  const HeaderNames: set<Header> := {From, To, Subject, MessageId, Cc, Bcc, Date}

  /** A header's value: `None`, a string, or a list of addresses. */
  datatype HeaderValue = NoValue | Str(text: string) | List(items: seq<string>)

  datatype MailRecord = MailRecord(
    headers: map<Header, HeaderValue>,
    body: map<string, Option<string>>,
    attachments: seq<Attachment>,
    names: seq<string>,
    emails: seq<string>,
    title: Option<string>,
    author: seq<string>,
    createdAt: string)

  /** The headers before any message has been read: all seven set to `None`. */
  function InitialHeaders(): (h: map<Header, HeaderValue>)
  {
    map k | k in HeaderNames :: NoValue
  }

  /** `doc.findall('//email')[0]`, when there is one. */
  function FirstEmail(root: Element): (r: Option<Element>)
  {
    Find(root, EmailTag)
  }

  /** `tag_subject.text.strip()` fails when the subject tag has no text. */
  predicate SubjectDefined(email: Element)
  {
    Find(email, SubjectTag).Some? ==> Find(email, SubjectTag).value.text.Some?
  }

  /** The source raises on this message unless all of these hold. */
  predicate RecordDefined(email: Element)
  {
    IdDefined(email) && DateDefined(email) && SubjectDefined(email) && BodyDefined(email)
  }

  /** The stripped subject, or `None` without a subject tag. */
  function Title(email: Element): (t: Option<string>)
    requires SubjectDefined(email)
    ensures t.None? <==> Find(email, SubjectTag).None?
    ensures t.Some? ==> t.value == Strip(Find(email, SubjectTag).value.text.value)
  {
    var subject := Find(email, SubjectTag);
    if subject.None? then None else Some(Strip(subject.value.text.value))
  }

  /** The header dictionary of a record, from its extracted parts. */
  function RecordHeaders(a: Addresses, title: Option<string>, id: string, date: string): (h: map<Header, HeaderValue>)
    ensures h.Keys == HeaderNames
    ensures h[MessageId] == Str(id) && h[Date] == Str(date)
    ensures h[Subject] == (if title.None? then NoValue else Str(title.value))
    ensures h[From] == List(a.frm) && h[To] == List(a.to) && h[Cc] == List(a.cc) && h[Bcc] == List(a.bcc)
  {
    map[
      From := List(a.frm),
      To := List(a.to),
      Subject := if title.None? then NoValue else Str(title.value),
      MessageId := Str(id),
      Cc := List(a.cc),
      Bcc := List(a.bcc),
      Date := Str(date)]
  }

  /** The `parse_message` loop's assignments to the header dictionary,
      applied in its order, produce the record's headers. */
  lemma HeaderUpdates(a: Addresses, title: Option<string>, id: string, date: string)
    ensures
      var h := InitialHeaders()[MessageId := Str(id)][Date := Str(date)];
      var h' := if title.Some? then h[Subject := Str(title.value)] else h;
      h'[To := List(a.to)][From := List(a.frm)][Cc := List(a.cc)][Bcc := List(a.bcc)]
        == RecordHeaders(a, title, id, date)
  {
  }

  /** The record `parse_message` returns for the message element `email`. */
  function RecordOf(email: Element): (r: MailRecord)
    requires RecordDefined(email)
    ensures r.headers.Keys == HeaderNames
    ensures r.headers[Date] == Str(r.createdAt)
    ensures r.title.None? <==> Find(email, SubjectTag).None?
    ensures r.headers[Subject] == (if r.title.None? then NoValue else Str(r.title.value))
  {
    var a := GetAddresses(email);
    var title := Title(email);
    var date := GetDate(email);
    var headers := RecordHeaders(a, title, GetId(email), date);
    MailRecord(headers, GetBody(email), Attachments(email), a.names, a.emails, title, a.author, date)
  }

  /** The record's fields are the extractors' results: the id and date
      headers, the role headers and lists of `get_addresses`, the body of
      `get_body` and the attachments of `get_attachments`. */
  lemma RecordOfFields(email: Element)
    requires RecordDefined(email)
    ensures var r := RecordOf(email);
      && r.headers[MessageId] == Str(GetId(email))
      && r.createdAt == GetDate(email)
      && r.title == Title(email)
      && r.headers[From] == List(GetAddresses(email).frm)
      && r.headers[To] == List(GetAddresses(email).to)
      && r.headers[Cc] == List(GetAddresses(email).cc)
      && r.headers[Bcc] == List(GetAddresses(email).bcc)
      && r.names == GetAddresses(email).names && r.emails == GetAddresses(email).emails
      && r.author == GetAddresses(email).author
      && r.body == GetBody(email) && r.attachments == Attachments(email)
  {
  }

  /** `parse_message` after the XML parse: `None` when there was no document
      or the document has no `email` element, otherwise the record of the
      first `email` element (later ones are ignored). */
  method ParseMessage(doc: Option<Element>) returns (r: Option<MailRecord>)
    requires doc.Some? && FirstEmail(doc.value).Some? ==> RecordDefined(FirstEmail(doc.value).value)
    ensures r.None? <==> doc.None? || FirstEmail(doc.value).None?
    ensures r.Some? ==> r.value == RecordOf(FirstEmail(doc.value).value)
  {
    var headers := InitialHeaders();
    var title: Option<string> := None;
    if doc.None? {
      return None;
    }
    var candidates := FindAll(doc.value, EmailTag);
    if candidates == [] {
      return None;
    }
    var email := candidates[0];
    headers := headers[MessageId := Str(GetId(email))];
    headers := headers[Date := Str(GetDate(email))];
    var tagSubject := Find(email, SubjectTag);
    if tagSubject.Some? {
      title := Some(Strip(tagSubject.value.text.value));
      headers := headers[Subject := Str(title.value)];
    }
    var a := GetAddresses(email);
    headers := headers[To := List(a.to)];
    headers := headers[From := List(a.frm)];
    headers := headers[Cc := List(a.cc)];
    headers := headers[Bcc := List(a.bcc)];
    var body := GetBody(email);
    var attachments := GetAttachments(email);
    HeaderUpdates(a, title, GetId(email), GetDate(email));
    r := Some(MailRecord(headers, body, attachments, a.names, a.emails, title, a.author, headers[Date].text));
  }
}
