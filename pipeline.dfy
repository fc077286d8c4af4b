/**
 * What the Generate button does for one listed email: summarise the email from its
 * snippet, fetch the first downloadable attachment, extract its text by type and, when
 * that text is not blank, summarise it and build the summary table from both summaries.
 * The summariser's replies are inputs: each is the sequence of chunks it streams back.
 */
module Pipeline {
  import opened Wrappers
  import opened Text
  import G = Gmail
  import E = Extraction
  import T = SummaryTable

  const NoSnippet: string := "No snippet available."

  /** The text the email summary is asked for: the snippet, or a fixed note when the
      snippet is empty. */
  function EmailText(email: G.EmailRecord): (text: string)
    ensures text != ""
    ensures email.snippet != "" ==> text == email.snippet
    ensures email.snippet == "" ==> text == NoSnippet
  {
    if email.snippet != "" then email.snippet else NoSnippet
  }

  // -------------------------------------------------------------- streaming

  /** A streamed chunk is passed on when it has a non-empty `text`. */
  predicate HasText(chunk: Option<string>) {
    chunk.Some? && chunk.value != ""
  }

  /** The texts a reply stream yields, in order. */
  function Delivered(chunks: seq<Option<string>>): (texts: seq<string>)
    ensures |texts| <= |chunks|
    ensures forall k :: 0 <= k < |texts| ==> texts[k] != ""
    decreases |chunks|
  {
    if chunks == [] then []
    else
      var c := chunks[|chunks| - 1];
      Delivered(chunks[..|chunks| - 1]) + (if HasText(c) then [c.value] else [])
  }

  /** The text of every chunk, "" standing for a chunk without text. */
  function ChunkTexts(chunks: seq<Option<string>>): (texts: seq<string>)
    ensures |texts| == |chunks|
    decreases |chunks|
  {
    if chunks == [] then []
    else ChunkTexts(chunks[..|chunks| - 1]) + [chunks[|chunks| - 1].GetOr("")]
  }

  /** The non-empty texts of a sequence, in order: a filter defined from the front. */
  function NonEmpty(texts: seq<string>): (kept: seq<string>)
    ensures forall k :: 0 <= k < |kept| ==> kept[k] in texts && kept[k] != ""
    decreases |texts|
  {
    if texts == [] then []
    else (if texts[0] != "" then [texts[0]] else []) + NonEmpty(texts[1..])
  }

  lemma {:induction false} NonEmptyAppend(a: seq<string>, b: seq<string>)
    ensures NonEmpty(a + b) == NonEmpty(a) + NonEmpty(b)
    decreases |a|
  {
    if a != [] {
      var head := if a[0] != "" then [a[0]] else [];
      assert (a + b)[0] == a[0] && (a + b)[1..] == a[1..] + b;
      assert NonEmpty(a + b) == head + NonEmpty(a[1..] + b);
      NonEmptyAppend(a[1..], b);
      AppendAssoc(head, NonEmpty(a[1..]), NonEmpty(b));
    } else {
      assert a + b == b;
    }
  }

  /** A reply stream yields exactly the non-empty chunk texts, in chunk order. */
  lemma {:induction false} DeliveredIsNonEmptyTexts(chunks: seq<Option<string>>)
    ensures Delivered(chunks) == NonEmpty(ChunkTexts(chunks))
    decreases |chunks|
  {
    if chunks != [] {
      var init, c := chunks[..|chunks| - 1], chunks[|chunks| - 1];
      DeliveredIsNonEmptyTexts(init);
      NonEmptyAppend(ChunkTexts(init), [c.GetOr("")]);
      assert NonEmpty([c.GetOr("")]) == (if HasText(c) then [c.value] else []) by {
        assert [c.GetOr("")][1..] == [];
      }
    }
  }

  lemma ConcatSnoc(parts: seq<string>, part: string)
    ensures Concat(parts + [part]) == Concat(parts) + part
  {
    assert (parts + [part])[..|parts|] == parts;
  }

  /** Skipping the chunks without text leaves the accumulated reply unchanged: it is the
      concatenation of every chunk's text. */
  lemma {:induction false} SkippingChangesNothing(chunks: seq<Option<string>>)
    ensures Concat(Delivered(chunks)) == Concat(ChunkTexts(chunks))
    decreases |chunks|
  {
    if chunks != [] {
      var init, c := chunks[..|chunks| - 1], chunks[|chunks| - 1];
      SkippingChangesNothing(init);
      ConcatSnoc(ChunkTexts(init), c.GetOr(""));
      if HasText(c) {
        ConcatSnoc(Delivered(init), c.value);
      } else {
        assert Delivered(chunks) == Delivered(init);
      }
    }
  }

  /** Accumulating a streamed reply with `+=`: the result is the concatenation of the
      delivered texts. */
  method CollectReply(chunks: seq<Option<string>>) returns (reply: string)
    ensures reply == Concat(Delivered(chunks))
  {
    reply := "";
    for i := 0 to |chunks|
      invariant reply == Concat(Delivered(chunks[..i]))
    {
      var c := chunks[i];
      assert chunks[..i + 1][..i] == chunks[..i];
      if c.Some? && c.value != "" {
        assert Delivered(chunks[..i + 1]) == Delivered(chunks[..i]) + [c.value];
        ConcatSnoc(Delivered(chunks[..i]), c.value);
        reply := reply + c.value;
      } else {
        assert Delivered(chunks[..i + 1]) == Delivered(chunks[..i]);
      }
    }
    assert chunks[..|chunks|] == chunks;
  }

  // ------------------------------------------------------------ attachment

  /** What processing the attachment leads to: none to process, no usable text in it, or
      the combined summary with its table and the name offered for the download. */
  datatype Outcome =
    | NoAttachment
    | NoText
    | Summarised(summary: string, table: T.TableDoc, downloadName: string)

  /** `filename and file_data`: a non-empty name and non-empty contents. */
  predicate Attached(found: Option<(string, seq<bv8>)>) {
    found.Some? && found.value.0 != "" && found.value.1 != []
  }

  /** The attachment step: `found` is the file name and contents fetched for the email,
      `lib` what the extraction libraries make of those contents, `emailSummary` the email
      summary already streamed and `summaryChunks` the reply to the tender prompt. */
  method ProcessAttachment(found: Option<(string, seq<bv8>)>, lib: E.LibraryOutput,
                           emailSummary: string, summaryChunks: seq<Option<string>>)
    returns (outcome: Outcome)
    ensures outcome.NoAttachment? <==> !Attached(found)
    ensures Attached(found) ==>
      var text := E.ExtractedText(E.Extension(found.value.0), lib);
      (outcome.NoText? <==> Strip(text) == "")
    ensures outcome.Summarised? ==>
      Attached(found)
      && outcome.summary == emailSummary + Concat(Delivered(summaryChunks))
      && T.IsTableFor(outcome.table, outcome.summary)
      && outcome.downloadName == found.value.0 + "_summary.docx"
  {
    if !(found.Some? && found.value.0 != "" && found.value.1 != []) {
      return NoAttachment;
    }
    var filename := found.value.0;
    var text := E.ExtractAttachmentText(filename, lib);
    if Strip(text) == "" {
      return NoText;
    }
    var summaryText := CollectReply(summaryChunks);
    var summary := emailSummary + summaryText;
    var table := T.GenerateTable(summary);
    outcome := Summarised(summary, table, filename + "_summary.docx");
  }

  /** The whole Generate action for one email. `parts` are the payload parts of the
      message, `download` stands for fetching and decoding the attachment with a given id,
      and the two chunk sequences are the replies to the email prompt and to the tender
      prompt. */
  method Generate(parts: Option<seq<G.Part>>, download: string -> seq<bv8>, lib: E.LibraryOutput,
                  emailChunks: seq<Option<string>>, summaryChunks: seq<Option<string>>)
    returns (emailSummary: string, outcome: Outcome)
    ensures emailSummary == Concat(Delivered(emailChunks))
    ensures var ps := G.PartsOf(parts);
      var k := G.FirstDownloadable(ps);
      outcome.NoAttachment? <==> k == |ps| || download(ps[k].attachmentId.value) == []
    ensures var ps := G.PartsOf(parts);
      var k := G.FirstDownloadable(ps);
      outcome.NoText? <==>
        k < |ps| && download(ps[k].attachmentId.value) != []
        && Strip(E.ExtractedText(E.Extension(ps[k].filename.value), lib)) == ""
    ensures var ps := G.PartsOf(parts);
      var k := G.FirstDownloadable(ps);
      outcome.Summarised? ==>
        k < |ps|
        && Strip(E.ExtractedText(E.Extension(ps[k].filename.value), lib)) != ""
        && outcome.summary == emailSummary + Concat(Delivered(summaryChunks))
        && T.IsTableFor(outcome.table, outcome.summary)
        && outcome.downloadName == ps[k].filename.value + "_summary.docx"
  {
    emailSummary := CollectReply(emailChunks);
    var att := G.FirstAttachment(parts);
    var found: Option<(string, seq<bv8>)> := None;
    if att.Some? {
      found := Some((att.value.0, download(att.value.1)));
    }
    outcome := ProcessAttachment(found, lib, emailSummary, summaryChunks);
  }
}
