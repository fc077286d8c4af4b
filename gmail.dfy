/**
 * The mailbox side: one record per listed inbox message, built from the message's
 * headers, snippet and parts, and the search for the first downloadable attachment.
 * The Gmail service is not modelled; what it returns is taken as input.
 */
module Gmail {
  import opened Wrappers

  /** One `{'name': …, 'value': …}` entry of a message's headers. */
  datatype Header = Header(name: string, value: string)

  /** One payload part: its `filename` (absent or a string) and the `attachmentId` of its
      body, if the body has one. */
  datatype Part = Part(filename: Option<string>, attachmentId: Option<string>)

  /** What fetching one message returns: headers, the parts of the payload (absent when the
      payload has no `parts`) and the snippet (absent when missing). */
  datatype MessageDetail = MessageDetail(headers: seq<Header>, parts: Option<seq<Part>>, snippet: Option<string>)

  /** The record built for one message. */
  datatype EmailRecord = EmailRecord(id: string, subject: string, sender: string, snippet: string, hasAttachment: bool)

  const NoSubject: string := "No Subject"
  const UnknownSender: string := "Unknown Sender"

  // --------------------------------------------------------------- headers

  /** `{d['name']: d['value'] for d in headers}`: a later entry overwrites an earlier one. */
  function HeaderMap(headers: seq<Header>): map<string, string>
    decreases |headers|
  {
    if headers == [] then map[]
    else
      var h := headers[|headers| - 1];
      HeaderMap(headers[..|headers| - 1])[h.name := h.value]
  }

  /** Index of the last header called `name`, or -1 when there is none. */
  function LastNamed(headers: seq<Header>, name: string): (i: int)
    ensures -1 <= i < |headers|
    ensures i >= 0 ==> headers[i].name == name
    ensures forall j :: i < j < |headers| ==> headers[j].name != name
    decreases |headers|
  {
    if headers == [] then -1
    else if headers[|headers| - 1].name == name then |headers| - 1
    else LastNamed(headers[..|headers| - 1], name)
  }

  /** A name is in the header map exactly when some header has it, and it maps to the value
      of the last such header. */
  lemma {:induction false} HeaderMapLastWins(headers: seq<Header>, name: string)
    ensures var i := LastNamed(headers, name);
      (name in HeaderMap(headers) <==> i >= 0)
      && (i >= 0 ==> HeaderMap(headers)[name] == headers[i].value)
    decreases |headers|
  {
    if headers != [] {
      HeaderMapLastWins(headers[..|headers| - 1], name);
    }
  }

  /** `headers.get(name, default)` on the header map. */
  function Lookup(headers: seq<Header>, name: string, default: string): string {
    var m := HeaderMap(headers);
    if name in m then m[name] else default
  }

  /** The looked-up value is the last header's with that name, or the default when no header
      has it. */
  lemma LookupIsLastOrDefault(headers: seq<Header>, name: string, default: string)
    ensures var i := LastNamed(headers, name);
      Lookup(headers, name, default) == if i >= 0 then headers[i].value else default
  {
    HeaderMapLastWins(headers, name);
  }

  // ----------------------------------------------------------- attachments

  /** `part.get('filename')` is truthy: present and not empty. */
  predicate HasFilename(p: Part) {
    p.filename.Some? && p.filename.value != ""
  }

  /** The parts of a payload, an absent `parts` counting as none. */
  function PartsOf(parts: Option<seq<Part>>): seq<Part> {
    parts.GetOr([])
  }

  /** `any(part.get('filename') for part in parts)` */
  predicate HasAttachment(parts: Option<seq<Part>>) {
    exists i :: 0 <= i < |PartsOf(parts)| && HasFilename(PartsOf(parts)[i])
  }

  /** The record of a listed message: subject and sender from the headers with their
      defaults, the snippet or "", and the attachment flag. */
  function MakeRecord(id: string, detail: MessageDetail): EmailRecord {
    EmailRecord(
      id,
      Lookup(detail.headers, "Subject", NoSubject),
      Lookup(detail.headers, "From", UnknownSender),
      detail.snippet.GetOr(""),
      HasAttachment(detail.parts))
  }

  /** The fields of a record: the subject is the last `Subject` header or "No Subject", the
      sender the last `From` header or "Unknown Sender", the snippet "" when missing, and the
      flag says whether some part has a non-empty file name. */
  lemma RecordFields(id: string, detail: MessageDetail)
    ensures var r := MakeRecord(id, detail);
      var s := LastNamed(detail.headers, "Subject");
      var f := LastNamed(detail.headers, "From");
      r.id == id
      && r.subject == (if s >= 0 then detail.headers[s].value else NoSubject)
      && r.sender == (if f >= 0 then detail.headers[f].value else UnknownSender)
      && (detail.snippet.None? ==> r.snippet == "")
      && (detail.snippet.Some? ==> r.snippet == detail.snippet.value)
      && (r.hasAttachment <==> exists i :: 0 <= i < |PartsOf(detail.parts)| && HasFilename(PartsOf(detail.parts)[i]))
  {
    LookupIsLastOrDefault(detail.headers, "Subject", NoSubject);
    LookupIsLastOrDefault(detail.headers, "From", UnknownSender);
  }

  /** `get_recent_emails`: one record per listed message, in listing order. `listing` holds
      the ids of the listed messages (absent when the listing has no `messages`), and
      `fetch` stands for fetching the details of one message by id. */
  method RecentEmails(listing: Option<seq<string>>, fetch: string -> MessageDetail)
    returns (records: seq<EmailRecord>)
    ensures |records| == |listing.GetOr([])|
    ensures forall i :: 0 <= i < |records| ==> records[i].id == listing.GetOr([])[i]
    ensures forall i :: 0 <= i < |records| ==>
      records[i] == MakeRecord(listing.GetOr([])[i], fetch(listing.GetOr([])[i]))
  {
    var ids := listing.GetOr([]);
    records := [];
    for i := 0 to |ids|
      invariant |records| == i
      invariant forall k :: 0 <= k < i ==> records[k] == MakeRecord(ids[k], fetch(ids[k]))
    {
      var detail := fetch(ids[i]);
      records := records + [MakeRecord(ids[i], detail)];
    }
  }

  /** A part `get_attachment` can download: a non-empty file name and an attachment id. */
  predicate Downloadable(p: Part) {
    HasFilename(p) && p.attachmentId.Some?
  }

  /** Index of the first downloadable part, or `|parts|` when there is none. */
  function FirstDownloadable(parts: seq<Part>): (k: nat)
    ensures k <= |parts|
    ensures k < |parts| ==> Downloadable(parts[k])
    ensures forall j :: 0 <= j < k ==> !Downloadable(parts[j])
    decreases |parts|
  {
    if parts == [] then 0
    else if Downloadable(parts[0]) then 0
    else 1 + FirstDownloadable(parts[1..])
  }

  /** `get_attachment` without the download: the file name and attachment id of the first
      downloadable part, or nothing when no part is downloadable. */
  method FirstAttachment(parts: Option<seq<Part>>) returns (found: Option<(string, string)>)
    ensures found.None? <==> forall i :: 0 <= i < |PartsOf(parts)| ==> !Downloadable(PartsOf(parts)[i])
    ensures var ps := PartsOf(parts);
      var k := FirstDownloadable(ps);
      found.Some? ==> k < |ps| && found.value == (ps[k].filename.value, ps[k].attachmentId.value)
  {
    var ps := PartsOf(parts);
    for i := 0 to |ps|
      invariant forall j :: 0 <= j < i ==> !Downloadable(ps[j])
    {
      var p := ps[i];
      if p.filename.Some? && p.filename.value != "" && p.attachmentId.Some? {
        FirstIsUnique(ps, i);
        return Some((p.filename.value, p.attachmentId.value));
      }
    }
    return None;
  }

  /** A downloadable part preceded only by parts that are not is the first downloadable one. */
  lemma {:induction false} FirstIsUnique(parts: seq<Part>, i: nat)
    requires i < |parts| && Downloadable(parts[i])
    requires forall j :: 0 <= j < i ==> !Downloadable(parts[j])
    ensures FirstDownloadable(parts) == i
    decreases i
  {
    if i > 0 {
      FirstIsUnique(parts[1..], i - 1);
    }
  }

  /** A downloadable part makes the message count as having an attachment. */
  lemma DownloadableIsFlagged(parts: Option<seq<Part>>, i: nat)
    requires i < |PartsOf(parts)| && Downloadable(PartsOf(parts)[i])
    ensures HasAttachment(parts)
  {
  }

  /** The flag does not ask for an attachment id: a message can be flagged as having an
      attachment while no part of it can be downloaded. */
  lemma FlaggedWithoutDownload()
    ensures exists parts :: (HasAttachment(parts)
      && forall i :: 0 <= i < |PartsOf(parts)| ==> !Downloadable(PartsOf(parts)[i]))
  {
    var parts := Some([Part(Some("tender.pdf"), None)]);
    assert HasFilename(PartsOf(parts)[0]);
    assert HasAttachment(parts);
  }
}
