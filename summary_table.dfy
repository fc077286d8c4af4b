/**
 * The summary formatter (`generate_table_word`): one left-to-right pass over the
 * lines of a markdown-like summary that collects (key, values) sections, a title
 * taken from the first `#` line, and the two-column table rendered from them.
 */
module SummaryTable {
  import opened Wrappers
  import opened Text

  /** One parsed section: a bold heading and the list items found under it. */
  datatype Row = Row(key: string, values: seq<string>)

  /** The rendered document: heading paragraph and table cells, header row first. */
  datatype TableDoc = TableDoc(heading: string, cells: seq<(string, string)>)

  const DefaultTitle: string := "Table"
  const Header: (string, string) := ("Parameter", "Description")

  /** The character class `[-\d.]` of the list-marker pattern. */
  const Markers: set<char> := {'-', '.'} + Digits

  // ---------------------------------------------------------------- title

  /** A line whose stripped form starts with `#`. */
  predicate IsTitleLine(line: string) {
    StartsWith(Strip(line), "#")
  }

  /** `l.strip().lstrip('#').strip()` */
  function TitleText(line: string): string {
    Strip(TrimLeft(Strip(line), {'#'}))
  }

  /** The document title: the text of the first `#` line, or "Table" when there is none. */
  function Title(lines: seq<string>): (t: string)
    ensures (forall i :: 0 <= i < |lines| ==> !IsTitleLine(lines[i])) ==> t == DefaultTitle
    ensures forall i :: (0 <= i < |lines| && IsTitleLine(lines[i])
                         && forall j :: 0 <= j < i ==> !IsTitleLine(lines[j])) ==> t == TitleText(lines[i])
    decreases |lines|
  {
    if lines == [] then DefaultTitle
    else if IsTitleLine(lines[0]) then TitleText(lines[0])
    else Title(lines[1..])
  }

  // ------------------------------------------------------ line patterns

  /** What the parse loop looks at: `line.lstrip('#').strip()`. */
  function Normalize(line: string): string {
    Strip(TrimLeft(line, {'#'}))
  }

  /** `re.match(r'^\*\*.*\*\*$', line)`: at least four characters, `**` at both ends,
      no newline (which `.` does not match). */
  predicate IsBold(line: string) {
    |line| >= 4 && StartsWith(line, "**") && line[|line| - 2..] == "**" && '\n' !in line
  }

  /** `line.strip('*').strip()` */
  function BoldKey(line: string): string {
    Strip(Trim(line, {'*'}))
  }

  /** `re.match(r'^\d+\.', line)`: a run of digits followed by a period. */
  predicate IsNumbered(line: string) {
    var d := |line| - |TrimLeft(line, Digits)|;
    0 < d < |line| && line[d] == '.'
  }

  /** `line.startswith('-') or re.match(r'^\d+\.', line)` */
  predicate IsListItem(line: string) {
    StartsWith(line, "-") || IsNumbered(line)
  }

  /** `re.sub(r'^[-\d.]+\s*', '', line)`: remove a leading run of `-`, digits and `.`,
      then the whitespace after it. */
  function CleanItem(line: string): string {
    var m := TrimLeft(line, Markers);
    if |m| == |line| then line else TrimLeft(m, Spaces)
  }

  /** The first `n` characters of `line` are a maximal run `line[..m]` of marker characters
      followed by whitespace. */
  predicate MarkerRunThenSpaces(line: string, m: nat, n: nat) {
    0 < m <= n <= |line|
    && (forall k :: 0 <= k < m ==> line[k] in Markers)
    && (m < |line| ==> line[m] !in Markers)
    && (forall k :: m <= k < n ==> line[k] in Spaces)
  }

  /** Length of the run of marker characters that starts the line. */
  function MarkerRun(line: string): nat {
    TrimLeftSpec(line, Markers);
    |line| - |TrimLeft(line, Markers)|
  }

  /** `re.sub(r'^[-\d.]+\s*', '', line)` removes exactly a prefix of the line: when the line
      starts with a marker character, the longest run of marker characters and then the
      longest run of whitespace after it; otherwise nothing. */
  lemma CleanItemIsSuffix(line: string)
    ensures |CleanItem(line)| <= |line| && CleanItem(line) == line[|line| - |CleanItem(line)|..]
    ensures line != [] && line[0] in Markers ==>
      MarkerRunThenSpaces(line, MarkerRun(line), |line| - |CleanItem(line)|)
    ensures line != [] && line[0] in Markers && CleanItem(line) != [] ==> CleanItem(line)[0] !in Spaces
    ensures !(line != [] && line[0] in Markers) ==> CleanItem(line) == line
  {
    var rest := TrimLeft(line, Markers);
    TrimLeftSpec(line, Markers);
    if |rest| < |line| {
      var m := |line| - |rest|;
      var r := TrimLeft(rest, Spaces);
      TrimLeftSpec(rest, Spaces);
      assert CleanItem(line) == r;
      assert forall k :: m <= k < |line| - |r| ==> line[k] == rest[k - m];
      assert m < |line| ==> line[m] == rest[0];
      assert MarkerRunThenSpaces(line, m, |line| - |r|);
    }
  }

  /** Every list item starts with a marker character, so its stored text is shorter. */
  lemma ListItemLosesMarker(line: string)
    requires IsListItem(line)
    ensures line != [] && line[0] in Markers
    ensures |CleanItem(line)| < |line|
  {
    if !StartsWith(line, "-") {
      TrimLeftSpec(line, Digits);
    }
    CleanItemIsSuffix(line);
  }

  // ------------------------------------------------ line classification

  /** What one line is to the parse loop, tested in the loop's order. */
  datatype LineKind = Heading(key: string) | Item(text: string) | Plain

  function Classify(line: string): LineKind {
    var l := Normalize(line);
    if IsBold(l) then Heading(BoldKey(l))
    else if IsListItem(l) then Item(CleanItem(l))
    else Plain
  }

  function Kinds(lines: seq<string>): (ks: seq<LineKind>)
    ensures |ks| == |lines|
    decreases |lines|
  {
    if lines == [] then [] else [Classify(lines[0])] + Kinds(lines[1..])
  }

  lemma {:induction false} KindAt(lines: seq<string>, i: nat)
    requires i < |lines|
    ensures Kinds(lines)[i] == Classify(lines[i])
    decreases i
  {
    if i > 0 {
      KindAt(lines[1..], i - 1);
    }
  }

  // ------------------------------------------- reference definition

  /** Python's truth value of the pending key (`None` and "" are false). */
  predicate Truthy(key: Option<string>) {
    key.Some? && key.value != ""
  }

  /** Number of leading lines before the next heading. */
  function BodyLength(ks: seq<LineKind>): (n: nat)
    ensures n <= |ks|
    ensures n < |ks| ==> ks[n].Heading?
    decreases |ks|
  {
    if ks == [] || ks[0].Heading? then 0 else 1 + BodyLength(ks[1..])
  }

  /** The lines counted by `BodyLength` are not headings. */
  lemma {:induction false} BodyLengthSpec(ks: seq<LineKind>)
    ensures forall j :: 0 <= j < BodyLength(ks) ==> !ks[j].Heading?
    decreases |ks|
  {
    if ks != [] && !ks[0].Heading? {
      BodyLengthSpec(ks[1..]);
      forall j | 0 < j < BodyLength(ks) ensures !ks[j].Heading? {
        assert ks[j] == ks[1..][j - 1];
      }
    }
  }

  /** Texts of the list items, in order (duplicates kept). */
  function ItemsOf(ks: seq<LineKind>): seq<string>
    decreases |ks|
  {
    if ks == [] then []
    else
      var init := ItemsOf(ks[..|ks| - 1]);
      match ks[|ks| - 1]
      case Item(t) => init + [t]
      case _ => init
  }

  /** Keep the first occurrence of every element. */
  function Dedup<T(==)>(s: seq<T>): seq<T>
    decreases |s|
  {
    if s == [] then []
    else
      var d := Dedup(s[..|s| - 1]);
      if s[|s| - 1] in d then d else d + [s[|s| - 1]]
  }

  /** The sections of a classified summary, defined block by block: lines before the
      first heading are ignored; every heading owns the lines up to the next heading; a
      heading with a non-empty key yields one row holding the distinct item texts of its
      block, one with an empty key yields nothing. */
  function SectionsOf(ks: seq<LineKind>): seq<Row>
    decreases |ks|
  {
    if ks == [] then []
    else if !ks[0].Heading? then SectionsOf(ks[1..])
    else
      var n := BodyLength(ks[1..]);
      HeadRows(ks[0], ks[1..1 + n]) + SectionsOf(ks[1 + n..])
  }

  /** The row a heading contributes with the lines of its block: none for an empty key. */
  function HeadRows(h: LineKind, body: seq<LineKind>): seq<Row>
    requires h.Heading?
  {
    if h.key == "" then [] else [Row(h.key, Dedup(ItemsOf(body)))]
  }

  function Sections(lines: seq<string>): seq<Row> {
    SectionsOf(Kinds(lines))
  }

  // ------------------------------------------------- the parse loop

  /** The loop's variables: the pending key, its values and the rows emitted so far. */
  datatype ParseState = ParseState(key: Option<string>, values: seq<string>, data: seq<Row>)

  const Start := ParseState(None, [], [])

  /** `data.append((key, values))` when the pending key is truthy. */
  function Flush(st: ParseState): seq<Row> {
    if Truthy(st.key) then st.data + [Row(st.key.value, st.values)] else st.data
  }

  /** `if cleaned not in values: values.append(cleaned)` for an item; other lines add nothing. */
  function AddValue(values: seq<string>, k: LineKind): seq<string> {
    if k.Item? && k.text !in values then values + [k.text] else values
  }

  /** One iteration of the loop on a classified line. */
  function Step(st: ParseState, k: LineKind): ParseState {
    if k.Heading? then ParseState(Some(k.key), [], Flush(st))
    else if Truthy(st.key) then st.(values := AddValue(st.values, k))
    else st
  }

  /** The loop's state after the lines `ks`. */
  function Run(ks: seq<LineKind>): ParseState
    decreases |ks|
  {
    if ks == [] then Start else Step(Run(ks[..|ks| - 1]), ks[|ks| - 1])
  }

  /** Index of the last heading, or -1. */
  function LastHeading(ks: seq<LineKind>): (last: int)
    ensures -1 <= last < |ks|
    ensures last >= 0 ==> ks[last].Heading?
    ensures forall j :: last < j < |ks| ==> !ks[j].Heading?
    decreases |ks|
  {
    if ks == [] then -1
    else if ks[|ks| - 1].Heading? then |ks| - 1
    else LastHeading(ks[..|ks| - 1])
  }

  /** The parse loop of `generate_table_word`: a pending key and value list, flushed into
      the result at every heading and at the end of input. */
  method ParseSections(lines: seq<string>) returns (data: seq<Row>)
    ensures data == Sections(lines)
  {
    ghost var ks := Kinds(lines);
    data := [];
    var key: Option<string> := None;
    var values: seq<string> := [];
    var i := 0;
    while i < |lines|
      invariant 0 <= i <= |lines|
      invariant ParseState(key, values, data) == Run(ks[..i])
    {
      KindAt(lines, i);
      assert ks[..i + 1][..i] == ks[..i];
      var line := Normalize(lines[i]);
      if IsBold(line) {
        if Truthy(key) {
          data := data + [Row(key.value, values)];
        }
        key := Some(BoldKey(line));
        values := [];
      } else if Truthy(key) && IsListItem(line) {
        var cleaned := CleanItem(line);
        if cleaned !in values {
          values := values + [cleaned];
        }
      }
      i := i + 1;
    }
    if Truthy(key) {
      data := data + [Row(key.value, values)];
    }
    assert ks[..|ks|] == ks;
    FlushIsSections(ks);
  }

  /** What the loop's variables hold after the lines `ks`: nothing before the first
      heading; afterwards the last heading's key, the distinct item texts since it (if its
      key is non-empty) and the sections of everything before it. */
  ghost predicate Shape(ks: seq<LineKind>, st: ParseState) {
    var last := LastHeading(ks);
    (last == -1 ==> st == Start)
    && (last >= 0 ==>
          st.key == Some(ks[last].key) && st.data == SectionsOf(ks[..last])
          && st.values == (if ks[last].key != "" then Dedup(ItemsOf(ks[last + 1..])) else []))
  }

  lemma {:induction false} RunShape(ks: seq<LineKind>)
    ensures Shape(ks, Run(ks))
    decreases |ks|, 1
  {
    if ks != [] {
      var init := ks[..|ks| - 1];
      RunShape(init);
      if ks[|ks| - 1].Heading? {
        FlushIsSections(init);
        HeadingStepShape(ks);
      } else {
        OtherStepShape(ks);
      }
    }
  }

  lemma HeadingStepShape(ks: seq<LineKind>)
    requires ks != [] && ks[|ks| - 1].Heading?
    requires Flush(Run(ks[..|ks| - 1])) == SectionsOf(ks[..|ks| - 1])
    ensures Shape(ks, Run(ks))
  {
    assert ks[|ks|..] == [];
  }

  lemma OtherStepShape(ks: seq<LineKind>)
    requires ks != [] && !ks[|ks| - 1].Heading?
    requires Shape(ks[..|ks| - 1], Run(ks[..|ks| - 1]))
    ensures Shape(ks, Run(ks))
  {
    var init, k := ks[..|ks| - 1], ks[|ks| - 1];
    var st := Run(init);
    assert Run(ks) == Step(st, k);
    var last := LastHeading(init);
    assert LastHeading(ks) == last;
    if last >= 0 {
      assert st.key == Some(ks[last].key) && st.data == SectionsOf(init[..last]);
      LastSlices(ks, last);
      InBlockStep(ks, last, st);
      assert Run(ks).data == SectionsOf(ks[..last]);
    } else {
      assert Run(ks) == Start;
    }
  }

  /** A non-heading last line inside the block of the heading at `last`: the key and the
      rows stay, the values follow the items of the block. */
  lemma InBlockStep(ks: seq<LineKind>, last: nat, st: ParseState)
    requires last < |ks| - 1 && ks[last].Heading? && !ks[|ks| - 1].Heading?
    requires st.key == Some(ks[last].key)
    requires st.values == (if ks[last].key != "" then Dedup(ItemsOf(ks[last + 1..|ks| - 1])) else [])
    ensures var st' := Step(st, ks[|ks| - 1]);
      st'.key == st.key && st'.data == st.data
      && st'.values == (if ks[last].key != "" then Dedup(ItemsOf(ks[last + 1..])) else [])
  {
    var body, k := ks[last + 1..|ks| - 1], ks[|ks| - 1];
    BlockStep(st, body, k);
    assert ks[last + 1..] == body + [k];
  }

  /** Slices of a prefix are slices of the whole. */
  lemma LastSlices<T>(s: seq<T>, a: nat)
    requires a < |s| - 1
    ensures s[..|s| - 1][..a] == s[..a] && s[..|s| - 1][a + 1..] == s[a + 1..|s| - 1]
    ensures s[a + 1..] == s[a + 1..|s| - 1] + [s[|s| - 1]]
  {
  }

  /** A non-heading line inside the block of a heading: the values follow the items of
      the block when the key is non-empty and stay empty otherwise. */
  lemma BlockStep(st: ParseState, body: seq<LineKind>, k: LineKind)
    requires !k.Heading? && st.key.Some?
    requires st.values == (if st.key.value != "" then Dedup(ItemsOf(body)) else [])
    ensures Step(st, k) == st.(values := if st.key.value != "" then Dedup(ItemsOf(body + [k])) else [])
  {
    ItemStep(body, k);
  }

  /** Flushing after the last line gives exactly the block-by-block sections. */
  lemma {:induction false} FlushIsSections(ks: seq<LineKind>)
    ensures Flush(Run(ks)) == SectionsOf(ks)
    decreases |ks|, 2
  {
    RunShape(ks);
    var st, last := Run(ks), LastHeading(ks);
    assert Shape(ks, st);
    assert ks[..|ks|] == ks;
    if last == -1 {
      NoHeadingNoSections(ks);
    } else {
      CloseSection(ks, last, |ks|);
      assert ks[last + 1..|ks|] == ks[last + 1..];
      assert Flush(st) == SectionsOf(ks[..last]) + HeadRows(ks[last], ks[last + 1..]);
    }
  }

  /** One more line in a block: an item adds its text unless already present, any other
      line leaves the values as they are. */
  lemma ItemStep(body: seq<LineKind>, k: LineKind)
    ensures Dedup(ItemsOf(body + [k])) == AddValue(Dedup(ItemsOf(body)), k)
  {
    assert (body + [k])[..|body|] == body;
  }

  /** Lines without any heading produce no rows. */
  lemma {:induction false} NoHeadingNoSections(ks: seq<LineKind>)
    requires forall j :: 0 <= j < |ks| ==> !ks[j].Heading?
    ensures SectionsOf(ks) == []
    decreases |ks|
  {
    if ks != [] {
      NoHeadingNoSections(ks[1..]);
    }
  }

  /** `BodyLength` is the length of the leading run of non-headings. */
  lemma BodyLengthIs(ks: seq<LineKind>, m: nat)
    requires m <= |ks|
    requires forall j :: 0 <= j < m ==> !ks[j].Heading?
    requires m < |ks| ==> ks[m].Heading?
    ensures BodyLength(ks) == m
  {
    BodyLengthSpec(ks);
  }

  /** A heading, a block without headings and what follows: the block is one section. */
  lemma HeadingBlock(h: LineKind, body: seq<LineKind>, rest: seq<LineKind>)
    requires h.Heading?
    requires forall j :: 0 <= j < |body| ==> !body[j].Heading?
    requires rest == [] || rest[0].Heading?
    ensures SectionsOf([h] + body + rest) == HeadRows(h, body) + SectionsOf(rest)
  {
    var ks := [h] + body + rest;
    assert ks[1..] == body + rest;
    assert BodyLength(body + rest) == |body| by {
      forall j | 0 <= j < |body| ensures !(body + rest)[j].Heading? {
        assert (body + rest)[j] == body[j];
      }
      if rest != [] {
        assert (body + rest)[|body|] == rest[0];
      }
      BodyLengthIs(body + rest, |body|);
    }
    assert ks[1..1 + |body|] == body;
    assert ks[1 + |body|..] == rest;
  }

  /** Sections split at a heading: what comes before it and what starts at it are parsed
      independently. */
  lemma {:induction false} SectionsAppend(a: seq<LineKind>, b: seq<LineKind>)
    requires b == [] || b[0].Heading?
    ensures SectionsOf(a + b) == SectionsOf(a) + SectionsOf(b)
    decreases |a|, 1
  {
    if a == [] {
      assert a + b == b;
    } else if !a[0].Heading? {
      assert (a + b)[0] == a[0] && (a + b)[1..] == a[1..] + b;
      SectionsAppend(a[1..], b);
      SkipStep(a + b);
    } else {
      HeadingAppend(a, b);
    }
  }

  lemma {:induction false} HeadingAppend(a: seq<LineKind>, b: seq<LineKind>)
    requires a != [] && a[0].Heading?
    requires b == [] || b[0].Heading?
    ensures SectionsOf(a + b) == SectionsOf(a) + SectionsOf(b)
    decreases |a|, 0
  {
    var n := BodyLength(a[1..]);
    var body, tail := a[1..1 + n], a[1 + n..];
    BodyLengthSpec(a[1..]);
    Split3(a, n, b);
    HeadingBlock(a[0], body, tail);
    HeadingBlock(a[0], body, tail + b);
    SectionsAppend(tail, b);
    AppendAssoc(HeadRows(a[0], body), SectionsOf(tail), SectionsOf(b));
  }

  /** The block of a leading heading is its first section. */
  lemma SectionsStep(ks: seq<LineKind>, n: nat)
    requires ks != [] && ks[0].Heading? && n == BodyLength(ks[1..])
    ensures SectionsOf(ks) == HeadRows(ks[0], ks[1..1 + n]) + SectionsOf(ks[1 + n..])
  {
    BodyLengthSpec(ks[1..]);
    Split3(ks, n, []);
    HeadingBlock(ks[0], ks[1..1 + n], ks[1 + n..]);
  }

  /** A line before any heading contributes nothing. */
  lemma SkipStep(ks: seq<LineKind>)
    requires ks != [] && !ks[0].Heading?
    ensures SectionsOf(ks) == SectionsOf(ks[1..])
  {
  }

  /** A sequence as its head, the next `n` elements and the rest. */
  lemma Split3<T>(s: seq<T>, n: nat, b: seq<T>)
    requires 1 + n <= |s|
    ensures s == [s[0]] + s[1..1 + n] + s[1 + n..]
    ensures s + b == [s[0]] + s[1..1 + n] + (s[1 + n..] + b)
    ensures forall j :: 0 <= j < n ==> s[1..1 + n][j] == s[1..][j]
    ensures 1 + n < |s| ==> s[1 + n..][0] == s[1..][n]
  {
  }

  /** Closing the block of the heading at `last` when the loop meets the next heading
      (or the end of input) at `i`. */
  lemma CloseSection(ks: seq<LineKind>, last: nat, i: nat)
    requires last < i <= |ks|
    requires ks[last].Heading?
    requires forall j :: last < j < i ==> !ks[j].Heading?
    ensures SectionsOf(ks[..i]) == SectionsOf(ks[..last]) + HeadRows(ks[last], ks[last + 1..i])
  {
    assert ks[..i] == ks[..last] + ks[last..i];
    SectionsAppend(ks[..last], ks[last..i]);
    assert ks[last..i] == [ks[last]] + ks[last + 1..i] + [];
    HeadingBlock(ks[last], ks[last + 1..i], []);
  }

  // ------------------------------------------------- properties

  /** Keys of the headings with a non-empty key, in input order. */
  function HeadingKeys(ks: seq<LineKind>): seq<string>
    decreases |ks|
  {
    if ks == [] then []
    else if ks[0].Heading? && ks[0].key != "" then [ks[0].key] + HeadingKeys(ks[1..])
    else HeadingKeys(ks[1..])
  }

  function Keys(rows: seq<Row>): seq<string>
    decreases |rows|
  {
    if rows == [] then [] else [rows[0].key] + Keys(rows[1..])
  }

  lemma {:induction false} HeadingKeysSkipBody(ks: seq<LineKind>, n: nat)
    requires n <= |ks|
    requires forall j :: 0 <= j < n ==> !ks[j].Heading?
    ensures HeadingKeys(ks) == HeadingKeys(ks[n..])
    decreases n
  {
    if n > 0 {
      HeadingKeysSkipBody(ks[1..], n - 1);
      assert ks[1..][n - 1..] == ks[n..];
    }
  }

  /** One row per heading with a non-empty key, in input order and with that key. */
  lemma {:induction false} SectionKeys(ks: seq<LineKind>)
    ensures Keys(SectionsOf(ks)) == HeadingKeys(ks)
    decreases |ks|
  {
    if ks != [] {
      if !ks[0].Heading? {
        SectionKeys(ks[1..]);
        SkipStep(ks);
      } else {
        var n := BodyLength(ks[1..]);
        SectionKeys(ks[1 + n..]);
        BodyLengthSpec(ks[1..]);
        HeadingKeysSkipBody(ks[1..], n);
        assert ks[1..][n..] == ks[1 + n..];
        var rest := SectionsOf(ks[1 + n..]);
        var rows: seq<Row> := HeadRows(ks[0], ks[1..1 + n]);
        SectionsStep(ks, n);
        if ks[0].key == "" {
          assert rows + rest == rest;
        } else {
          assert (rows + rest)[0].key == ks[0].key && (rows + rest)[1..] == rest;
        }
      }
    }
  }

  predicate Distinct<T(==)>(s: seq<T>) {
    forall i, j :: 0 <= i < j < |s| ==> s[i] != s[j]
  }

  /** Index of the first occurrence of `x`, or `|s|`. */
  function FirstIndex<T(==)>(s: seq<T>, x: T): (i: nat)
    ensures i <= |s|
    ensures i < |s| <==> x in s
    ensures i < |s| ==> s[i] == x
    ensures forall k :: 0 <= k < i ==> s[k] != x
    decreases |s|
  {
    if s == [] then 0 else if s[0] == x then 0 else 1 + FirstIndex(s[1..], x)
  }

  /** `Dedup` keeps exactly the elements of its input, each once, in the order of their
      first occurrence. */
  lemma {:induction false} DedupSpec<T>(s: seq<T>)
    ensures Distinct(Dedup(s))
    ensures forall x :: x in Dedup(s) ==> x in s
    ensures forall x :: x in s ==> x in Dedup(s)
    ensures forall i, j :: 0 <= i < j < |Dedup(s)| ==> FirstIndex(s, Dedup(s)[i]) < FirstIndex(s, Dedup(s)[j])
    decreases |s|
  {
    if s != [] {
      var init := s[..|s| - 1];
      var c := s[|s| - 1];
      DedupSpec(init);
      assert s == init + [c];
      forall x | x in init
        ensures FirstIndex(s, x) == FirstIndex(init, x)
      {
        var k := FirstIndex(init, x);
        assert s[k] == x;
        assert forall m :: 0 <= m < k ==> s[m] == init[m];
      }
      if c !in init {
        var d := Dedup(init);
        assert Dedup(s) == d + [c];
        assert FirstIndex(s, c) == |init|;
        forall i | 0 <= i < |d|
          ensures FirstIndex(s, d[i]) < FirstIndex(s, c)
        {
          assert d[i] in d;
          assert d[i] in init;
        }
      }
    }
  }

  /** Every row's values are distinct. */
  lemma {:induction false} SectionValuesDistinct(ks: seq<LineKind>)
    ensures forall r :: r in SectionsOf(ks) ==> Distinct(r.values)
    decreases |ks|
  {
    if ks != [] {
      if !ks[0].Heading? {
        SectionValuesDistinct(ks[1..]);
        SkipStep(ks);
      } else {
        var n := BodyLength(ks[1..]);
        SectionValuesDistinct(ks[1 + n..]);
        DedupSpec(ItemsOf(ks[1..1 + n]));
        SectionsStep(ks, n);
      }
    }
  }

  /** A heading whose key strips to "" (such as `****`) yields no row, and the list items
      under it are dropped: the result is that of the lines after its block. */
  lemma EmptyHeadingDropsItems(h: LineKind, body: seq<LineKind>, rest: seq<LineKind>)
    requires h == Heading("")
    requires forall j :: 0 <= j < |body| ==> !body[j].Heading?
    requires rest == [] || rest[0].Heading?
    ensures SectionsOf([h] + body + rest) == SectionsOf(rest)
  {
    HeadingBlock(h, body, rest);
  }

  /** Some line of `ks` is a list item with text `v`. */
  predicate ItemLine(ks: seq<LineKind>, v: string) {
    exists k :: 0 <= k < |ks| && ks[k] == Item(v)
  }

  lemma ItemLineWithin(ks: seq<LineKind>, part: seq<LineKind>, a: nat, b: nat, v: string)
    requires a <= b <= |ks| && part == ks[a..b] && ItemLine(part, v)
    ensures ItemLine(ks, v)
  {
    var k :| 0 <= k < |part| && part[k] == Item(v);
    assert ks[a + k] == part[k];
  }

  lemma {:induction false} ItemsComeFromLines(ks: seq<LineKind>)
    ensures forall v :: v in ItemsOf(ks) ==> ItemLine(ks, v)
    decreases |ks|
  {
    if ks != [] {
      var init := ks[..|ks| - 1];
      ItemsComeFromLines(init);
      forall v | v in ItemsOf(ks)
        ensures ItemLine(ks, v)
      {
        if v in ItemsOf(init) {
          ItemLineWithin(ks, init, 0, |ks| - 1, v);
        } else {
          assert ks[|ks| - 1] == Item(v);
        }
      }
    }
  }

  /** Every value of every row of `SectionsOf(ks)` is the text of a list-item line of `ks`. */
  predicate ValuesFromItems(ks: seq<LineKind>) {
    forall r, v :: r in SectionsOf(ks) && v in r.values ==> ItemLine(ks, v)
  }

  /** Every value in the output is the text of some list-item line of the input. */
  lemma {:induction false} ValuesComeFromItemLines(ks: seq<LineKind>)
    ensures ValuesFromItems(ks)
    decreases |ks|
  {
    if ks == [] {
      assert SectionsOf(ks) == [];
    } else if !ks[0].Heading? {
      ValuesComeFromItemLines(ks[1..]);
      SkippedLineValues(ks);
    } else {
      var n := BodyLength(ks[1..]);
      ValuesComeFromItemLines(ks[1 + n..]);
      HeadingBlockValues(ks, n);
    }
  }

  lemma SkippedLineValues(ks: seq<LineKind>)
    requires ks != [] && !ks[0].Heading? && ValuesFromItems(ks[1..])
    ensures ValuesFromItems(ks)
  {
    var tail := ks[1..];
    SkipStep(ks);
    forall r, v | r in SectionsOf(ks) && v in r.values
      ensures ItemLine(ks, v)
    {
      ItemLineWithin(ks, tail, 1, |ks|, v);
    }
  }

  lemma HeadingBlockValues(ks: seq<LineKind>, n: nat)
    requires ks != [] && ks[0].Heading? && n == BodyLength(ks[1..])
    requires ValuesFromItems(ks[1 + n..])
    ensures ValuesFromItems(ks)
  {
    var body, tail := ks[1..1 + n], ks[1 + n..];
    HeadValuesFromBody(ks[0], body);
    SectionsStep(ks, n);
    JoinedValues(ks, HeadRows(ks[0], body), SectionsOf(tail), n);
  }

  /** Rows whose values come from the block `ks[1..1 + n]`, followed by rows whose values
      come from the lines after it: all their values come from `ks`. */
  lemma JoinedValues(ks: seq<LineKind>, head: seq<Row>, rest: seq<Row>, n: nat)
    requires 1 + n <= |ks|
    requires forall r, v :: r in head && v in r.values ==> ItemLine(ks[1..1 + n], v)
    requires forall r, v :: r in rest && v in r.values ==> ItemLine(ks[1 + n..], v)
    ensures forall r, v :: r in head + rest && v in r.values ==> ItemLine(ks, v)
  {
    forall r, v | r in head + rest && v in r.values
      ensures ItemLine(ks, v)
    {
      if r in head {
        ItemLineWithin(ks, ks[1..1 + n], 1, 1 + n, v);
      } else {
        ItemLineWithin(ks, ks[1 + n..], 1 + n, |ks|, v);
      }
    }
  }

  lemma HeadValuesFromBody(h: LineKind, body: seq<LineKind>)
    requires h.Heading?
    ensures forall r, v :: r in HeadRows(h, body) && v in r.values ==> ItemLine(body, v)
  {
    ItemsComeFromLines(body);
    DedupSpec(ItemsOf(body));
  }

  // ------------------------------------------------------- rendering

  /** The table row of one section: its key and its values, one per line. */
  function Cell(r: Row): (string, string) {
    (r.key, Join("\n", r.values))
  }

  /** Table cells for `rows`: the fixed header, then one cell pair per row, in order. */
  predicate RendersRows(cells: seq<(string, string)>, rows: seq<Row>) {
    |cells| == |rows| + 1 && cells[0] == Header
    && forall j :: 0 <= j < |rows| ==> cells[j + 1] == Cell(rows[j])
  }

  /** What `generate_table_word` builds from a summary text. */
  predicate IsTableFor(doc: TableDoc, summary: string) {
    var lines := SplitLines(summary);
    doc.heading == Title(lines) && RendersRows(doc.cells, Sections(lines))
  }

  /** At most one document fits a summary. */
  lemma TableIsDetermined(d1: TableDoc, d2: TableDoc, summary: string)
    requires IsTableFor(d1, summary) && IsTableFor(d2, summary)
    ensures d1 == d2
  {
    CellsDetermined(d1.cells, d2.cells, Sections(SplitLines(summary)));
  }

  lemma CellsDetermined(c1: seq<(string, string)>, c2: seq<(string, string)>, rows: seq<Row>)
    requires RendersRows(c1, rows) && RendersRows(c2, rows)
    ensures c1 == c2
  {
    forall j | 0 <= j < |c1| ensures c1[j] == c2[j] {
      if j > 0 {
        assert c1[j] == Cell(rows[j - 1]);
      }
    }
  }

  /** `generate_table_word` without the `.docx` serialisation. */
  method GenerateTable(summary: string) returns (doc: TableDoc)
    ensures IsTableFor(doc, summary)
  {
    var lines := SplitLines(summary);
    var data := ParseSections(lines);
    var cells := RenderCells(data);
    doc := TableDoc(Title(lines), cells);
  }

  /** The table loop: the header row, then one row per section. */
  method RenderCells(data: seq<Row>) returns (cells: seq<(string, string)>)
    ensures RendersRows(cells, data)
  {
    cells := [Header];
    for j := 0 to |data|
      invariant RendersRows(cells, data[..j])
    {
      cells := cells + [Cell(data[j])];
    }
    assert data[..|data|] == data;
  }
}
