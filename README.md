# olmparser core in Dafny

This project models `olm.py`, a converter from Outlook for Mac archives (`.olm`)
to mail messages. An `.olm` file is a zip archive. `main` walks its member names,
keeps those that name a message record, parses each one's XML, and turns the first
`email` element into a record with these parts:

- headers: Message-ID, Date, Subject, From, To, CC, BCC;
- the body, keyed by its MIME type;
- attachment metadata;
- the names and addresses of everyone involved;
- the title, the author and the creation time.

`make_email` then renders the record as a message. Its header fields are the
string headers as they are and the list headers joined with `", "`. It has one
`text/html` or `text/plain` part.

Modules, one per layer of the program:

- `ElementTree` (`tree.dfy`): the XML tree as a value. `Element(tag, attrs, text, children)`. `find`/`findall` with `.//tag` are modelled as the first match and all matches among the proper descendants, in document (pre-)order. `get` is modelled as attribute lookup.
- `Text` (`text.dfy`): Python's `str.strip()`, `str.replace('E0', '')`, the `in` test on strings and `', '.join`.
- `Extractors` (`extractors.dfy`): `get_id`, `get_date`, `get_body`, `get_contacts`, `get_addresses`, `get_attachments`.
- `Assembler` (`assembler.dfy`): `parse_message` after the XML parse, i.e. the header dictionary and the returned record.
- `Builder` (`builder.dfy`): `make_email`.
- `Archive` (`archive.dfy`): the member filter and loop of `main`.

Where the source raises (`AttributeError` on a missing tag, `TypeError` when `main`
indexes a `None` result), the model states what the source needs as a precondition:

- `IdDefined`, `DateDefined`, `SubjectDefined` and `BodyDefined` (together `RecordDefined`);
- `BodyRenderable`;
- `AllMessagesParse`.

Absent values (`find` returning `None`, a `None` body text) are `Option`s.

A `None` from `parse_message` for an unparsable (probably corrupt) member,
olm.py:143-147, looks meant to skip that member. The code does not skip it:
`main` then fails on `parsed['headers']`. The model follows the code, so `ExportArchive` requires
every message member to parse.

## Model

| member | source | states |
|---|---|---|
| ElementTree.Find | olm.py:21 | `find('.//tag')` is `None` exactly when there is no match; otherwise it is the first match of `findall`, and that match carries the tag |
| ElementTree.FindAll | olm.py:60 | `findall('.//tag')`: the tag selection of the proper descendants in pre-order; `FindAllMember` proves it is exactly the tagged descendants and `FindAllNested` that nested matches are kept |
| ElementTree.Tagged | olm.py:104 | selecting by tag keeps at most the input and only elements with that tag |
| ElementTree.TaggedMember | olm.py:104 | an element is selected iff it is in the input and has the tag |
| ElementTree.TaggedAppend | olm.py:104 | selection by tag distributes over concatenation, so document order is kept |
| ElementTree.ForestContains | olm.py:104 | every root of a forest, and every descendant of one, is in the forest's pre-order listing |
| ElementTree.DescendantTransitive | olm.py:104 | a descendant of a descendant is a descendant |
| ElementTree.FindAllMember | olm.py:104 | `findall('.//tag')` returns exactly the proper descendants that carry the tag |
| ElementTree.FindAllNested | olm.py:60 | a match nested below another match is also found, so nested matches are all returned |
| ElementTree.FindIsFirst | olm.py:21 | `find` returns a descendant, and no descendant with the tag comes before it in document order |
| ElementTree.FirstTagged | olm.py:21 | the index of the first element with the tag: every earlier element has another tag, and it is the first selected |
| ElementTree.FirstTaggedBound | olm.py:21 | any element with the tag bounds that first index, so the selection is non-empty |
| Text.TrimStart | olm.py:24 | drops exactly a whitespace prefix and stops at a non-space |
| Text.TrimEnd | olm.py:24 | drops exactly a whitespace suffix and stops at a non-space |
| Text.Strip | olm.py:24 | the result is a slice of the input whose outside is all whitespace, and it neither starts nor ends with whitespace |
| Text.StripIdempotent | olm.py:24 | stripping twice equals stripping once |
| Text.RemoveE0 | olm.py:41 | removing `E0` never lengthens the text |
| Text.Markers | olm.py:41 | `k` copies of `E0` have length `2k` |
| Text.RemoveMarkersPrefix | olm.py:41 | a leading run of `E0` markers is removed entirely |
| Text.RemoveE0Empty | olm.py:41 | the replace yields the empty string only on a run of `E0` markers |
| Text.RemoveE0IsOne | olm.py:41-42 | the HTML flag reads `1` iff the text is `E0`-markers, then `1`, then `E0`-markers |
| Text.RemoveE0IsOneOnly | olm.py:41-42 | a flag text that becomes `1` has that marker shape |
| Text.RemoveE0SinglePass | olm.py:41 | examples: `1E0` becomes `1`; `EE001` becomes `E01` (the removal does not re-scan), so that flag is not set |
| Text.Contains | olm.py:206-208 | `sub in s`; `ContainsAt` proves it holds iff `sub` occurs at some offset of `s` |
| Text.ContainsAt | olm.py:206-208 | the substring test holds iff the marker occurs at some position |
| Text.Join | olm.py:186 | `sep.join(items)`; `JoinAppend` and `JoinLength` prove it is the items with one separator between neighbours |
| Text.JoinAppend | olm.py:186 | joining one more item appends the separator and the item |
| Text.JoinLength | olm.py:186 | the joined length is the sum of the item lengths plus one separator between each pair of adjacent items |
| Extractors.FirstPresent | olm.py:21-23 | the primary tag when it exists, otherwise the fallback tag; present iff either tag exists |
| Extractors.GetId | olm.py:20-24 | the stripped text of the message-copy id tag, or of the conversation id tag when the first is missing |
| Extractors.GetDate | olm.py:27-32 | the stripped text of the sent-time tag, or of the received-time tag when the first is missing |
| Extractors.HtmlFlagSet | olm.py:36-42 | the has-HTML tag exists, has text, and that text with `E0` removed is `1`; `RemoveE0IsOne` gives the texts for which this holds |
| Extractors.BodyTag | olm.py:38-45 | the HTML body tag when the flag is set, otherwise the plain body tag; `RenderedRecordPart` proves the rendered part carries its stripped text |
| Extractors.GetBody | olm.py:35-53 | exactly one MIME type; `text/html` iff the flag with `E0` removed reads `1`; the payload is the chosen tag's stripped text, or `None` when that tag has no text |
| Extractors.StripOpt | olm.py:46-51 | a missing body text stays `None`; a present one is stripped |
| Extractors.EmailsOf | olm.py:104-107 | there is at most one email per address element |
| Extractors.NamesOf | olm.py:108-110 | there is at most one name per address element |
| Extractors.ContactsOf | olm.py:100-103 | a missing container gives no names and no emails |
| Extractors.GetContacts | olm.py:100-114 | the loop's names and emails are `ContactsOf` of the container |
| Extractors.EmailsOfMember | olm.py:104-107 | an email is collected iff some address element has it as its address attribute |
| Extractors.NamesOfMember | olm.py:108-110 | a name is collected iff some address element has it as its name attribute and the name differs from that element's email |
| Extractors.ContactsAppend | olm.py:104-110 | contacts of concatenated address lists concatenate, so document order is kept |
| Extractors.GetAddresses | olm.py:78-97 | the five role containers' contacts combined; `GetAddressesOrder` states each of the seven results, `GetAddressesShares` that the combined emails are the four address headers together and the authors are among the names |
| Extractors.GetAddressesOrder | olm.py:78-97 | to, cc and bcc are their containers' emails; `frm`/`author` are From then Sender; names and emails run over To, From, CC, BCC, Sender in that order |
| Extractors.GetAddressesShares | olm.py:91-95 | the combined emails are, as a multiset, exactly the To, From+Sender, CC and BCC headers; every author is among the names |
| Extractors.AttachmentOf | olm.py:61-73 | name and content type are the attributes; path and handle are present together, exactly when the URL attribute is, and the handle opens that path |
| Extractors.GetAttachments | olm.py:56-75 | one entry per attachment element below the attachment list, in order, each `AttachmentOf` its element; none without a list; the result is the value `Attachments` the record specification uses |
| Assembler.FieldNameInjective | olm.py:118-126 | distinct keys name distinct header fields (`From`, `To`, `Subject`, `Message-ID`, `CC`, `BCC`, `Date`), so keying headers by `Header` is faithful to the string keys |
| Assembler.Title | olm.py:154-157 | `None` iff there is no subject tag; otherwise the tag's stripped text |
| Assembler.RecordHeaders | olm.py:151-163 | the seven keys, holding the id, the date, the title or `None`, and the four address lists |
| Assembler.HeaderUpdates | olm.py:118-163 | `parse_message`'s assignments, in its order, starting from all-`None` headers, give `RecordHeaders` |
| Assembler.RecordOf | olm.py:149-177 | the header keys are the seven names; `created_at` is the Date header; the Subject header is `None` iff there is no subject tag, and is the title otherwise |
| Assembler.RecordOfFields | olm.py:151-177 | the record's id, date, title, address headers, names, emails, author, body and attachments are the extractors' results |
| Assembler.ParseMessage | olm.py:146-177 | `None` iff there is no document or it has no `email` element; otherwise the record of the first `email` element |
| Builder.FieldText | olm.py:183-186 | the field text of a header that is not `None`: a string as it is, a list joined with `", "`; `Render` states this per header |
| Builder.BodyPart | olm.py:188-193 | no part without a body; an `html` part when the body has `text/html`, else a `plain` part |
| Builder.Render | olm.py:180-193 | a field for exactly the headers that are not `None`; strings verbatim; lists joined with `", "`; the part is `BodyPart` |
| Builder.MakeEmail | olm.py:180-198 | the header loop and the body branch build `Render(headers, body)`; the attachments are ignored |
| Builder.RenderedRecordFields | olm.py:149-193 | a rendered record has all seven fields, less Subject exactly when there is no subject tag; Subject is the title |
| Builder.RenderedRecordValues | olm.py:151-186 | the rendered Message-ID and Date are the extracted id and date (Date equals `created_at`); From/To/CC/BCC are the address lists joined with `", "` |
| Builder.RenderedRecordPart | olm.py:36-53 | the rendered part is HTML iff the has-HTML flag is set, with the chosen body tag's stripped text |
| Builder.RenderedFields | olm.py:182-186 | when only Subject can be `None`, the fields are the seven names less Subject exactly when it is `None` |
| Archive.IsMessageEntry | olm.py:206-209 | a name is processed when it does not contain `com.microsoft.__Attachments` and contains `message_`; `MessageEntriesMember` proves the filter keeps exactly these |
| Archive.MessageEntries | olm.py:205-209 | the processed members are no more than the listing, and each passes the name filter |
| Archive.MessageEntriesMember | olm.py:205-209 | a member is processed iff it is listed and its name has `message_` but not `com.microsoft.__Attachments` |
| Archive.MessageEntriesAppend | olm.py:205 | the filter distributes over concatenation, so listing order is kept |
| Archive.MessageEntriesParse | olm.py:211 | when every message member parses, so does every processed member |
| Archive.Exported | olm.py:211-213 | the message rendered from the record of one parsing member; `MakeEmail` and `ParseMessage` are proved to compute it in `ExportArchive` |
| Archive.ExportedAll | olm.py:205-213 | one message per processed member |
| Archive.ExportedAllAt | olm.py:211-213 | the `k`-th message is the rendering of the `k`-th processed member |
| Archive.ExportedAllSnoc | olm.py:205-213 | processing one more member appends its message |
| Archive.ExportArchive | olm.py:201-215 | the messages of `main`'s loop are, in order, the renderings of the processed members |

## Left out

- Opening the zip archive and its members (`zipfile`, `zip.open`, olm.py:135 and olm.py:204) and `load_attachment` (olm.py:15-17) are not modelled. A handle is just the member name it would open, so the `KeyError` for a missing member is not modelled either.
- The XML parse and its `huge_tree` retry (olm.py:136-144) are not modelled. The parsed document, or `None` when both attempts fail, is an input to `ParseMessage` and part of each `Archive.Entry`.
- Extractors.GetDate: `datetime.strptime` and `isoformat` (olm.py:31-32) are not modelled, because they are a foreign calendar library. The result is the stripped timestamp text, and the `ValueError` on a malformed timestamp is absent.
- Extractors.GetBody: `.encode('utf-8')` (olm.py:51) is the identity on `seq<char>`; text encodings are not modelled.
- Builder.Render: Python 2's `isinstance(v, str)` test (olm.py:183) is false for `unicode` text, so a non-ASCII header would be dropped. The model has a single string type and renders every text header.
- Builder.Message: header order and MIME serialisation (`MIMEMultipart`, `MIMEText`, `as_string`) are not modelled. The fields are a map, and a part is its subtype and payload. The `attachments is not []` branch (olm.py:194-196) does nothing and is not modelled.
- Printing each message (olm.py:215) and `dump_tags` (olm.py:9-12) are output only and are left out.
- Text.Strip: only the six ASCII whitespace characters Python 2 strips from a byte string are stripped. Unicode whitespace is not modelled.
- Assembler.ParseMessage: the loop over `doc.findall('//email')` returns on its first pass, so it is modelled as a choice of the first `email` element. That path is read as `.//email` from the root.
- Element tail text and namespaces play no part in the core and are not modelled.
- Archive.ExportArchive: a message member that does not parse makes `main` fail. This is excluded by a precondition, not modelled as an abort.
- Archive.Entry: each listed name comes with its own document. The source opens members by name (olm.py:135), and `zipfile` resolves a duplicate name to its last member, so two listed members with the same name would both render that member's message. Duplicate member names are not modelled.
