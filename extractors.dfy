/**
 * The field extractors of the OLM mapping: message id, date, body, address
 * lists and attachment metadata, each reading fixed tags out of one `email`
 * element with the fallback rules of the archive format.
 */
module Extractors {
  import opened Wrappers
  import opened ElementTree
  import opened Text

  const MessageIdTag := "OPFMessageCopyMessageID"
  const ConversationIdTag := "OPFMessageCopyExchangeConversationId"
  const SentTimeTag := "OPFMessageCopySentTime"
  const ReceivedTimeTag := "OPFMessageCopyReceivedTime"
  const HasHtmlTag := "OPFMessageGetHasHTML"
  const PlainBodyTag := "OPFMessageCopyBody"
  const HtmlBodyTag := "OPFMessageCopyHTMLBody"
  const AttachmentListTag := "OPFMessageCopyAttachmentList"
  const AttachmentTag := "messageAttachment"
  const AttachmentNameAttr := "OPFAttachmentName"
  const AttachmentTypeAttr := "OPFAttachmentContentType"
  const AttachmentUrlAttr := "OPFAttachmentURL"
  const FromTag := "OPFMessageCopyFromAddresses"
  const SenderTag := "OPFMessageCopySenderAddress"
  const ToTag := "OPFMessageCopyToAddresses"
  const CcTag := "OPFMessageCopyCCAddresses"
  const BccTag := "OPFMessageCopyBCCAddresses"
  const AddressTag := "emailAddress"
  const AddressEmailAttr := "OPFContactEmailAddressAddress"
  const AddressNameAttr := "OPFContactEmailAddressName"
  const PlainType := "text/plain"
  const HtmlType := "text/html"

  // ---------------------------------------------------------------------
  // Identifier and timestamp: a primary tag with one fallback tag.

  /** The primary tag when `email` has one, otherwise the fallback tag. */
  function FirstPresent(email: Element, primary: string, fallback: string): (r: Option<Element>)
    ensures Find(email, primary).Some? ==> r == Find(email, primary)
    ensures Find(email, primary).None? ==> r == Find(email, fallback)
    ensures r.Some? <==> (Find(email, primary).Some? || Find(email, fallback).Some?)
  {
    var p := Find(email, primary);
    if p.Some? then p else Find(email, fallback)
  }

  /** `tag.text.strip()` succeeds: the tag exists and has text. */
  predicate HasText(tag: Option<Element>)
  {
    tag.Some? && tag.value.text.Some?
  }

  /** The source raises AttributeError unless one of the id tags exists
      (and the chosen one has text). */
  predicate IdDefined(email: Element)
  {
    HasText(FirstPresent(email, MessageIdTag, ConversationIdTag))
  }

  /** `get_id`: the stripped text of the message-copy id tag, or of the
      conversation id tag when there is no message-copy id tag. */
  function GetId(email: Element): (r: string)
    requires IdDefined(email)
    ensures Find(email, MessageIdTag).Some? ==> r == Strip(Find(email, MessageIdTag).value.text.value)
    ensures Find(email, MessageIdTag).None? ==> r == Strip(Find(email, ConversationIdTag).value.text.value)
  {
    Strip(FirstPresent(email, MessageIdTag, ConversationIdTag).value.text.value)
  }

  predicate DateDefined(email: Element)
  {
    HasText(FirstPresent(email, SentTimeTag, ReceivedTimeTag))
  }

  /** `get_date`, up to the timestamp conversion: the stripped text of the
      sent-time tag, or of the received-time tag when there is no sent-time
      tag. */
  function GetDate(email: Element): (r: string)
    requires DateDefined(email)
    ensures Find(email, SentTimeTag).Some? ==> r == Strip(Find(email, SentTimeTag).value.text.value)
    ensures Find(email, SentTimeTag).None? ==> r == Strip(Find(email, ReceivedTimeTag).value.text.value)
  {
    Strip(FirstPresent(email, SentTimeTag, ReceivedTimeTag).value.text.value)
  }

  // ---------------------------------------------------------------------
  // Body.

  /** The has-HTML flag exists and, with every `E0` removed, reads `"1"`. */
  predicate HtmlFlagSet(email: Element)
  {
    var flag := Find(email, HasHtmlTag);
    flag.Some? && flag.value.text.Some? && RemoveE0(flag.value.text.value) == "1"
  }

  /** The tag `get_body` reads its text from. */
  function BodyTag(email: Element): (r: Option<Element>)
  {
    if HtmlFlagSet(email) then Find(email, HtmlBodyTag) else Find(email, PlainBodyTag)
  }

  /** The source raises AttributeError when the flag exists without text
      (`None.replace`) or when the chosen body tag is missing. */
  predicate BodyDefined(email: Element)
  {
    (Find(email, HasHtmlTag).Some? ==> Find(email, HasHtmlTag).value.text.Some?)
    && BodyTag(email).Some?
  }

  /** `get_body`: a mapping with exactly one MIME type, `text/html` exactly
      when the flag is set, to the chosen tag's stripped text (`None` when
      the tag has no text, as for calendar replies). */
  function GetBody(email: Element): (r: map<string, Option<string>>)
    requires BodyDefined(email)
    ensures |r| == 1
    ensures HtmlType in r <==> HtmlFlagSet(email)
    ensures PlainType in r <==> !HtmlFlagSet(email)
    ensures HtmlFlagSet(email) ==> r[HtmlType] == StripOpt(Find(email, HtmlBodyTag).value.text)
    ensures !HtmlFlagSet(email) ==> r[PlainType] == StripOpt(Find(email, PlainBodyTag).value.text)
  {
    var mimeType := if HtmlFlagSet(email) then HtmlType else PlainType;
    map[mimeType := StripOpt(BodyTag(email).value.text)]
  }

  function StripOpt(text: Option<string>): (r: Option<string>)
    ensures r.None? <==> text.None?
    ensures r.Some? ==> r.value == Strip(text.value)
  {
    match text
    case None => None
    case Some(t) => Some(Strip(t))
  }

  // ---------------------------------------------------------------------
  // Address lists.

  /** The name/email lists of one address container. */
  datatype Contacts = Contacts(names: seq<string>, emails: seq<string>)

  /** The email attribute of each address element that has one, in order. */
  function EmailsOf(es: seq<Element>): (r: seq<string>)
    ensures |r| <= |es|
  {
    if es == [] then []
    else
      var e := es[|es| - 1];
      EmailsOf(es[..|es| - 1]) + (if Attr(e, AddressEmailAttr).Some? then [Attr(e, AddressEmailAttr).value] else [])
  }

  /** A name is kept when present and different from that element's email
      (kept also when the element has no email). */
  predicate KeepsName(e: Element)
  {
    Attr(e, AddressNameAttr).Some? && Attr(e, AddressNameAttr) != Attr(e, AddressEmailAttr)
  }

  /** The kept name attributes, in order. */
  function NamesOf(es: seq<Element>): (r: seq<string>)
    ensures |r| <= |es|
  {
    if es == [] then []
    else
      var e := es[|es| - 1];
      NamesOf(es[..|es| - 1]) + (if KeepsName(e) then [Attr(e, AddressNameAttr).value] else [])
  }

  /** The address elements of a container; none without a container. */
  function AddressElements(container: Option<Element>): (r: seq<Element>)
  {
    if container.None? then [] else FindAll(container.value, AddressTag)
  }

  /** What `get_contacts` returns for a container. */
  function ContactsOf(container: Option<Element>): (r: Contacts)
    ensures container.None? ==> r.names == [] && r.emails == []
  {
    var es := AddressElements(container);
    Contacts(NamesOf(es), EmailsOf(es))
  }

  /** `get_contacts`: one pass over the container's address elements,
      appending each email attribute and each kept name. */
  method GetContacts(addresses: Option<Element>) returns (names: seq<string>, emails: seq<string>)
    ensures names == ContactsOf(addresses).names
    ensures emails == ContactsOf(addresses).emails
  {
    names, emails := [], [];
    if addresses.Some? {
      var es := FindAll(addresses.value, AddressTag);
      var i := 0;
      while i < |es|
        invariant 0 <= i <= |es|
        invariant emails == EmailsOf(es[..i])
        invariant names == NamesOf(es[..i])
      {
        var address := es[i];
        assert es[..i + 1][..i] == es[..i];
        var email := Attr(address, AddressEmailAttr);
        if email.Some? {
          emails := emails + [email.value];
        }
        var name := Attr(address, AddressNameAttr);
        if name.Some? && name != email {
          names := names + [name.value];
        }
        i := i + 1;
      }
      assert es[..|es|] == es;
    }
  }

  /** An address collected by `EmailsOf` comes from some element, and every
      element's email attribute is collected. */
  lemma {:induction false} EmailsOfMember(es: seq<Element>, x: string)
    ensures x in EmailsOf(es) <==> exists i :: 0 <= i < |es| && Attr(es[i], AddressEmailAttr) == Some(x)
  {
    if es != [] {
      var init := es[..|es| - 1];
      EmailsOfMember(init, x);
      if exists i :: 0 <= i < |init| && Attr(init[i], AddressEmailAttr) == Some(x) {
        var i :| 0 <= i < |init| && Attr(init[i], AddressEmailAttr) == Some(x);
        assert es[i] == init[i];
      }
      if exists i :: 0 <= i < |es| && Attr(es[i], AddressEmailAttr) == Some(x) {
        var i :| 0 <= i < |es| && Attr(es[i], AddressEmailAttr) == Some(x);
        if i < |init| { assert init[i] == es[i]; }
      }
    }
  }

  /** A name is listed exactly when some element carries it as a name that
      differs from that element's email. */
  lemma {:induction false} NamesOfMember(es: seq<Element>, n: string)
    ensures n in NamesOf(es) <==>
      exists i :: 0 <= i < |es| && Attr(es[i], AddressNameAttr) == Some(n) && Attr(es[i], AddressEmailAttr) != Some(n)
  {
    if es != [] {
      var init := es[..|es| - 1];
      NamesOfMember(init, n);
      if exists i :: 0 <= i < |init| && Attr(init[i], AddressNameAttr) == Some(n) && Attr(init[i], AddressEmailAttr) != Some(n) {
        var i :| 0 <= i < |init| && Attr(init[i], AddressNameAttr) == Some(n) && Attr(init[i], AddressEmailAttr) != Some(n);
        assert es[i] == init[i];
      }
      if exists i :: 0 <= i < |es| && Attr(es[i], AddressNameAttr) == Some(n) && Attr(es[i], AddressEmailAttr) != Some(n) {
        var i :| 0 <= i < |es| && Attr(es[i], AddressNameAttr) == Some(n) && Attr(es[i], AddressEmailAttr) != Some(n);
        if i < |init| { assert init[i] == es[i]; }
      }
    }
  }

  /** Document order: the addresses of an earlier run of elements come before
      those of a later one. */
  lemma {:induction false} ContactsAppend(a: seq<Element>, b: seq<Element>)
    ensures EmailsOf(a + b) == EmailsOf(a) + EmailsOf(b)
    ensures NamesOf(a + b) == NamesOf(a) + NamesOf(b)
    decreases |b|
  {
    if b == [] {
      assert a + b == a;
    } else {
      var b' := b[..|b| - 1];
      assert (a + b)[..|a + b| - 1] == a + b';
      assert (a + b)[|a + b| - 1] == b[|b| - 1];
      ContactsAppend(a, b');
    }
  }

  /** The per-role and combined lists `get_addresses` returns. */
  datatype Addresses = Addresses(
    names: seq<string>,
    emails: seq<string>,
    author: seq<string>,
    frm: seq<string>,
    to: seq<string>,
    cc: seq<string>,
    bcc: seq<string>)

  /** `get_addresses`: names and emails over all roles in the order To, From,
      CC, BCC, Sender; `frm` and `author` from the From and Sender roles only;
      to/cc/bcc are the role's own emails. */
  function GetAddresses(email: Element): (r: Addresses)
  {
    var from := ContactsOf(Find(email, FromTag));
    var sender := ContactsOf(Find(email, SenderTag));
    var to := ContactsOf(Find(email, ToTag));
    var cc := ContactsOf(Find(email, CcTag));
    var bcc := ContactsOf(Find(email, BccTag));
    Addresses(
      to.names + from.names + cc.names + bcc.names + sender.names,
      to.emails + from.emails + cc.emails + bcc.emails + sender.emails,
      from.names + sender.names,
      from.emails + sender.emails,
      to.emails,
      cc.emails,
      bcc.emails)
  }

  /** The combined names and emails run over the five role containers in the
      order To, From, CC, BCC, Sender; `frm` and `author` take the From then
      the Sender container; To, CC and BCC keep their own emails. */
  lemma GetAddressesOrder(email: Element)
    ensures GetAddresses(email).to == ContactsOf(Find(email, ToTag)).emails
    ensures GetAddresses(email).cc == ContactsOf(Find(email, CcTag)).emails
    ensures GetAddresses(email).bcc == ContactsOf(Find(email, BccTag)).emails
    ensures GetAddresses(email).frm == ContactsOf(Find(email, FromTag)).emails + ContactsOf(Find(email, SenderTag)).emails
    ensures GetAddresses(email).author == ContactsOf(Find(email, FromTag)).names + ContactsOf(Find(email, SenderTag)).names
    ensures GetAddresses(email).emails ==
      ContactsOf(Find(email, ToTag)).emails + ContactsOf(Find(email, FromTag)).emails +
      ContactsOf(Find(email, CcTag)).emails + ContactsOf(Find(email, BccTag)).emails +
      ContactsOf(Find(email, SenderTag)).emails
    ensures GetAddresses(email).names ==
      ContactsOf(Find(email, ToTag)).names + ContactsOf(Find(email, FromTag)).names +
      ContactsOf(Find(email, CcTag)).names + ContactsOf(Find(email, BccTag)).names +
      ContactsOf(Find(email, SenderTag)).names
  {
  }

  /** The combined email list is exactly the From/Sender, To, CC and BCC
      headers taken together, and every author is among the names. */
  lemma GetAddressesShares(email: Element)
    ensures var r := GetAddresses(email);
      multiset(r.emails) == multiset(r.to) + multiset(r.frm) + multiset(r.cc) + multiset(r.bcc)
    ensures var r := GetAddresses(email);
      multiset(r.author) <= multiset(r.names)
  {
  }

  // ---------------------------------------------------------------------
  // Attachments.

  /** An open byte stream on the archive member `entry`; the stream itself is
      not modelled. */
  datatype Handle = Handle(entry: string)

  /** One attachment's metadata: `file_path` and `file_handle` are present
      only when the attachment names an archive member. */
  datatype Attachment = Attachment(
    fileName: Option<string>,
    mimeType: Option<string>,
    filePath: Option<string>,
    fileHandle: Option<Handle>)

  /** The metadata dictionary built for one `messageAttachment` element. */
  function AttachmentOf(a: Element): (r: Attachment)
    ensures r.fileName == Attr(a, AttachmentNameAttr) && r.mimeType == Attr(a, AttachmentTypeAttr)
    ensures r.filePath == Attr(a, AttachmentUrlAttr)
    ensures r.fileHandle.Some? <==> r.filePath.Some?
    ensures r.fileHandle.Some? ==> r.fileHandle.value.entry == r.filePath.value
  {
    var url := Attr(a, AttachmentUrlAttr);
    Attachment(
      Attr(a, AttachmentNameAttr),
      Attr(a, AttachmentTypeAttr),
      url,
      if url.Some? then Some(Handle(url.value)) else None)
  }

  /** The `messageAttachment` elements below the first attachment list. */
  function AttachmentElements(email: Element): (r: seq<Element>)
  {
    var list := Find(email, AttachmentListTag);
    if list.None? then [] else FindAll(list.value, AttachmentTag)
  }

  /** `get_attachments`: one metadata entry per attachment element below the
      first attachment list, in document order; none without a list. */
  method GetAttachments(email: Element) returns (attachments: seq<Attachment>)
    ensures |attachments| == |AttachmentElements(email)|
    ensures Find(email, AttachmentListTag).None? ==> attachments == []
    ensures forall i :: 0 <= i < |attachments| ==> attachments[i] == AttachmentOf(AttachmentElements(email)[i])
    ensures attachments == Attachments(email)
  {
    attachments := [];
    var list := Find(email, AttachmentListTag);
    if list.Some? {
      var es := FindAll(list.value, AttachmentTag);
      for i := 0 to |es|
        invariant |attachments| == i
        invariant forall k :: 0 <= k < i ==> attachments[k] == AttachmentOf(es[k])
      {
        var attachment := es[i];
        var url := Attr(attachment, AttachmentUrlAttr);
        var file := Attachment(Attr(attachment, AttachmentNameAttr), Attr(attachment, AttachmentTypeAttr), None, None);
        if url.Some? {
          file := file.(filePath := url, fileHandle := Some(Handle(url.value)));
        }
        attachments := attachments + [file];
      }
    }
  }

  /** The attachment list, as a value, for use by the record specification. */
  function Attachments(email: Element): (r: seq<Attachment>)
  {
    var es := AttachmentElements(email);
    seq(|es|, i requires 0 <= i < |es| => AttachmentOf(es[i]))
  }
}
