/**
 * The loop of `main`: every archive member whose name marks it as a message
 * record is parsed and rendered, in the order of the archive listing. Opening
 * the archive and the XML parse of each member are not modelled: each member
 * comes with the document its parse produced (`None` when both parse attempts
 * failed).
 */
module Archive {
  import opened Wrappers
  import opened ElementTree
  import opened Text
  import opened Assembler
  import opened Builder

  const AttachmentsMarker := "com.microsoft.__Attachments"
  const MessageMarker := "message_"

  /** Names of attachment members are skipped; the rest are processed when
      they name a message record. */
  predicate IsMessageEntry(name: string)
  {
    !Contains(name, AttachmentsMarker) && Contains(name, MessageMarker)
  }

  /** One archive member: its name and the outcome of parsing it. */
  datatype Entry = Entry(name: string, doc: Option<Element>)

  /** The members `main` processes, in listing order. */
  function MessageEntries(listing: seq<Entry>): (r: seq<Entry>)
    ensures |r| <= |listing|
    ensures forall i :: 0 <= i < |r| ==> IsMessageEntry(r[i].name)
  {
    if listing == [] then []
    else
      var last := listing[|listing| - 1];
      MessageEntries(listing[..|listing| - 1]) + (if IsMessageEntry(last.name) then [last] else [])
  }

  /** A member is processed exactly when its name passes the filter. */
  lemma {:induction false} MessageEntriesMember(listing: seq<Entry>, e: Entry)
    ensures e in MessageEntries(listing) <==> e in listing && IsMessageEntry(e.name)
  {
    if listing != [] {
      var init := listing[..|listing| - 1];
      MessageEntriesMember(init, e);
      assert listing == init + [listing[|listing| - 1]];
    }
  }

  /** Listing order is kept: the processed members of a listing are those of
      its first part followed by those of the rest. */
  lemma {:induction false} MessageEntriesAppend(a: seq<Entry>, b: seq<Entry>)
    ensures MessageEntries(a + b) == MessageEntries(a) + MessageEntries(b)
    decreases |b|
  {
    if b == [] {
      assert a + b == a;
    } else {
      var b' := b[..|b| - 1];
      assert (a + b)[..|a + b| - 1] == a + b';
      assert (a + b)[|a + b| - 1] == b[|b| - 1];
      MessageEntriesAppend(a, b');
    }
  }

  /** The parse of a message member must yield a record: `main` indexes the
      result of `parse_message` and fails on `None`. */
  predicate Parses(doc: Option<Element>)
  {
    doc.Some? && FirstEmail(doc.value).Some? && RecordDefined(FirstEmail(doc.value).value)
  }

  /** The message rendered for one member. */
  function Exported(e: Entry): (m: Message)
    requires Parses(e.doc)
  {
    var r := RecordOf(FirstEmail(e.doc.value).value);
    Render(r.headers, Some(r.body))
  }

  /** Every message member of the listing can be parsed into a record. */
  predicate AllMessagesParse(listing: seq<Entry>)
  {
    forall i :: 0 <= i < |listing| && IsMessageEntry(listing[i].name) ==> Parses(listing[i].doc)
  }

  /** The processed members of such a listing all parse. */
  lemma {:induction false} MessageEntriesParse(listing: seq<Entry>)
    requires AllMessagesParse(listing)
    ensures AllParse(MessageEntries(listing))
  {
    if listing != [] {
      var init := listing[..|listing| - 1];
      assert AllMessagesParse(init) by {
        forall i | 0 <= i < |init| && IsMessageEntry(init[i].name) ensures Parses(init[i].doc) {
          assert init[i] == listing[i];
        }
      }
      MessageEntriesParse(init);
    }
  }

  /** Every member of `entries` parses into a record. */
  predicate AllParse(entries: seq<Entry>)
  {
    forall i :: 0 <= i < |entries| ==> Parses(entries[i].doc)
  }

  /** Dropping the last member keeps every member parsing. */
  lemma AllParseInit(entries: seq<Entry>)
    requires AllParse(entries) && entries != []
    ensures AllParse(entries[..|entries| - 1])
  {
    var init := entries[..|entries| - 1];
    forall i | 0 <= i < |init| ensures Parses(init[i].doc) {
      assert init[i] == entries[i];
    }
  }

  /** The messages written for `entries`, in order. */
  function ExportedAll(entries: seq<Entry>): (ms: seq<Message>)
    requires AllParse(entries)
    ensures |ms| == |entries|
  {
    if entries == [] then []
    else
      AllParseInit(entries);
      ExportedAll(entries[..|entries| - 1]) + [Exported(entries[|entries| - 1])]
  }

  /** The `k`-th message written is the rendering of the `k`-th member. */
  lemma {:induction false} ExportedAllAt(entries: seq<Entry>, k: nat)
    requires AllParse(entries)
    requires k < |entries|
    ensures ExportedAll(entries)[k] == Exported(entries[k])
  {
    AllParseInit(entries);
    var init := entries[..|entries| - 1];
    if k < |entries| - 1 {
      ExportedAllAt(init, k);
      ExportedAllStep(entries, k);
      assert init[k] == entries[k];
    } else {
      ExportedAllLast(entries);
    }
  }

  /** The last message written renders the last member. */
  lemma ExportedAllLast(entries: seq<Entry>)
    requires AllParse(entries) && entries != []
    ensures ExportedAll(entries)[|entries| - 1] == Exported(entries[|entries| - 1])
  {
    AllParseInit(entries);
  }

  /** The messages written before the last member are those of the shorter
      listing. */
  lemma ExportedAllStep(entries: seq<Entry>, k: nat)
    requires AllParse(entries) && k < |entries| - 1
    ensures AllParse(entries[..|entries| - 1])
    ensures ExportedAll(entries)[k] == ExportedAll(entries[..|entries| - 1])[k]
  {
    AllParseInit(entries);
  }

  /** The filter, one member further along the listing. */
  lemma MessageEntriesStep(listing: seq<Entry>, i: nat)
    requires i < |listing|
    ensures MessageEntries(listing[..i + 1]) ==
      MessageEntries(listing[..i]) + (if IsMessageEntry(listing[i].name) then [listing[i]] else [])
  {
    assert listing[..i + 1][..i] == listing[..i];
  }

  /** A prefix of a listing whose message members parse has the same
      property. */
  lemma PrefixParses(listing: seq<Entry>, i: nat)
    requires AllMessagesParse(listing) && i <= |listing|
    ensures AllMessagesParse(listing[..i])
  {
    var prefix := listing[..i];
    forall j | 0 <= j < |prefix| && IsMessageEntry(prefix[j].name) ensures Parses(prefix[j].doc) {
      assert prefix[j] == listing[j];
    }
  }

  /** Rendering one more member appends its message. */
  lemma ExportedAllSnoc(entries: seq<Entry>, e: Entry)
    requires AllParse(entries + [e])
    ensures AllParse(entries) && Parses(e.doc)
    ensures ExportedAll(entries + [e]) == ExportedAll(entries) + [Exported(e)]
  {
    var all := entries + [e];
    AllParseInit(all);
    assert all[..|all| - 1] == entries;
    assert all[|all| - 1] == e;
  }

  /** `main`'s loop over the archive listing: skip names that are not
      message records, parse and render the others. A message member whose
      parse gives no record stops the run, so every one must parse. */
  method ExportArchive(listing: seq<Entry>) returns (out: seq<Message>)
    requires AllMessagesParse(listing)
    ensures AllParse(MessageEntries(listing))
    ensures out == ExportedAll(MessageEntries(listing))
  {
    out := [];
    for i := 0 to |listing|
      invariant AllParse(MessageEntries(listing[..i]))
      invariant out == ExportedAll(MessageEntries(listing[..i]))
    {
      var info := listing[i];
      ghost var done, next := MessageEntries(listing[..i]), MessageEntries(listing[..i + 1]);
      MessageEntriesStep(listing, i);
      PrefixParses(listing, i + 1);
      MessageEntriesParse(listing[..i + 1]);
      if Contains(info.name, AttachmentsMarker) {
        assert next == done;
        continue;
      }
      if !Contains(info.name, MessageMarker) {
        assert next == done;
        continue;
      }
      assert next == done + [info];
      ExportedAllSnoc(done, info);
      var parsed := ParseMessage(info.doc);
      var email := MakeEmail(parsed.value.headers, Some(parsed.value.body), parsed.value.attachments);
      assert email == Exported(info);
      out := out + [email];
    }
    assert listing[..|listing|] == listing;
  }
}
