/** CSV ingestion: a permissive, line-oriented parser that turns uploaded text
    into question drafts. Header columns are found by keyword, every field is
    coerced to a default, and rows with fewer than two fields are dropped. */
module CsvParser {
  import opened Seqs
  import opened Text
  import opened Types

  // ---------------------------------------------------------------------------
  // Splitting one data line (quote-toggling, no escapes, no embedded newlines)
  // ---------------------------------------------------------------------------

  /** The splitter's state after a prefix of the line: the fields closed so
      far (untrimmed), the field being built, and whether a quote is open. */
  datatype LineScan = LineScan(fields: seq<string>, current: string, inQuotes: bool)

  /** One character of the splitter: a quote toggles the mode and is dropped,
      an unquoted comma closes the field, anything else is kept. */
  function ScanStep(st: LineScan, c: char): LineScan {
    if c == '"' then st.(inQuotes := !st.inQuotes)
    else if c == ',' && !st.inQuotes then LineScan(st.fields + [st.current], "", st.inQuotes)
    else st.(current := st.current + [c])
  }

  /** The splitter's state after reading `s` from the start. */
  function Scan(s: string): LineScan {
    if s == [] then LineScan([], "", false) else ScanStep(Scan(s[..|s| - 1]), s[|s| - 1])
  }

  function TrimAll(pieces: seq<string>): (r: seq<string>)
    ensures |r| == |pieces|
    ensures forall i :: 0 <= i < |r| ==> r[i] == Trim(pieces[i])
  {
    seq(|pieces|, i requires 0 <= i < |pieces| => Trim(pieces[i]))
  }

  /** The fields of a data line: those closed by commas, then the last one, all trimmed. */
  function LineFields(line: string): seq<string> {
    var st := Scan(line);
    TrimAll(st.fields + [st.current])
  }

  /** The number of double quotes in `s`. */
  function Quotes(s: string): nat {
    if s == [] then 0 else Quotes(s[..|s| - 1]) + (if s[|s| - 1] == '"' then 1 else 0)
  }

  /** The number of commas in `s` preceded by an even number of quotes,
      that is, the commas outside quotes. */
  function UnquotedCommas(s: string): nat {
    if s == [] then 0
    else
      var p := s[..|s| - 1];
      UnquotedCommas(p) + (if s[|s| - 1] == ',' && Quotes(p) % 2 == 0 then 1 else 0)
  }

  lemma {:induction false} ScanCounts(s: string)
    ensures Scan(s).inQuotes <==> Quotes(s) % 2 == 1
    ensures |Scan(s).fields| == UnquotedCommas(s)
  {
    if s != [] {
      var p, c := s[..|s| - 1], s[|s| - 1];
      ScanCounts(p);
      var st := Scan(p);
      assert Scan(s) == ScanStep(st, c);
      assert Quotes(s) == Quotes(p) + (if c == '"' then 1 else 0);
      assert UnquotedCommas(s) == UnquotedCommas(p) + (if c == ',' && Quotes(p) % 2 == 0 then 1 else 0);
      if c == '"' {
        assert Scan(s).fields == st.fields;
      } else if c == ',' && !st.inQuotes {
        assert |Scan(s).fields| == |st.fields| + 1;
      } else {
        assert Scan(s).fields == st.fields;
      }
    }
  }

  lemma {:induction false} ScanClean(s: string)
    ensures '"' !in Scan(s).current
    ensures forall i :: 0 <= i < |Scan(s).fields| ==> '"' !in Scan(s).fields[i]
  {
    if s != [] {
      ScanClean(s[..|s| - 1]);
    }
  }

  /** A line splits into one more field than it has commas outside quotes;
      no field keeps a quote character and every field is trimmed. */
  lemma LineFieldsSpec(line: string)
    ensures |LineFields(line)| == 1 + UnquotedCommas(line)
    ensures forall i :: 0 <= i < |LineFields(line)| ==>
              '"' !in LineFields(line)[i] && Trim(LineFields(line)[i]) == LineFields(line)[i]
  {
    var st := Scan(line);
    var raw := st.fields + [st.current];
    ScanCounts(line);
    ScanClean(line);
    forall i | 0 <= i < |raw|
      ensures '"' !in LineFields(line)[i] && Trim(LineFields(line)[i]) == LineFields(line)[i]
    {
      assert '"' !in raw[i];
      TrimKeepsAbsent(raw[i], '"');
      TrimIdempotent(raw[i]);
    }
  }

  /** `parseCSVLine`: the character loop that builds the fields. */
  method ParseCSVLine(line: string) returns (result: seq<string>)
    ensures result == LineFields(line)
  {
    result := [];
    var current := "";
    var inQuotes := false;
    for i := 0 to |line|
      invariant result == TrimAll(Scan(line[..i]).fields)
      invariant current == Scan(line[..i]).current
      invariant inQuotes == Scan(line[..i]).inQuotes
    {
      assert line[..i + 1][..i] == line[..i];
      var c := line[i];
      if c == '"' {
        inQuotes := !inQuotes;
      } else if c == ',' && !inQuotes {
        result := result + [Trim(current)];
        current := "";
      } else {
        current := current + [c];
      }
    }
    assert line[..|line|] == line;
    result := result + [Trim(current)];
  }

  // ---------------------------------------------------------------------------
  // Field coercions
  // ---------------------------------------------------------------------------

  /** `parseDifficulty`: lower-cased, trimmed, then searched for "easy" and "hard". */
  function ParseDifficulty(value: string): Difficulty {
    var lower := Trim(ToLower(value));
    if Contains(lower, "easy") then Easy
    else if Contains(lower, "hard") then Hard
    else Medium
  }

  /** Trimming never matters: "easy" anywhere in the lower-cased value wins,
      then "hard", and everything else is Medium. */
  lemma ParseDifficultyMeaning(value: string)
    ensures ParseDifficulty(value) == Easy <==> Contains(ToLower(value), "easy")
    ensures ParseDifficulty(value) == Hard <==> !Contains(ToLower(value), "easy") && Contains(ToLower(value), "hard")
    ensures ParseDifficulty(value) == Medium <==> !Contains(ToLower(value), "easy") && !Contains(ToLower(value), "hard")
  {
    ContainsTrim(ToLower(value), "easy");
    ContainsTrim(ToLower(value), "hard");
  }

  /** Characters deleted from a topics field before it is split. */
  const TopicNoise: set<char> := {'[', ']', '"'}

  /** Characters a topics field is split on. */
  const TopicSeparators: set<char> := {',', ';', '|'}

  /** The trimmed pieces of a topics field, before empty ones are dropped. */
  function TopicPieces(value: string): seq<string> {
    TrimAll(Split(RemoveChars(value, TopicNoise), TopicSeparators))
  }

  /** `parseTopics`. */
  function ParseTopics(value: string): seq<string> {
    if value == "" then [] else Filter(TopicPieces(value), t => |t| > 0)
  }

  /** Every trimmed piece of a topics field is free of brackets, quotes and separators. */
  lemma TopicPiecesClean(value: string)
    ensures forall k :: 0 <= k < |TopicPieces(value)| ==>
              Trim(TopicPieces(value)[k]) == TopicPieces(value)[k] &&
              forall c :: c in TopicPieces(value)[k] ==> c !in TopicNoise && c !in TopicSeparators
  {
    var stripped := RemoveChars(value, TopicNoise);
    var pieces := Split(stripped, TopicSeparators);
    RemoveCharsSpec(value, TopicNoise);
    SplitPieces(stripped, TopicSeparators);
    SplitChars(stripped, TopicSeparators);
    forall k | 0 <= k < |pieces|
      ensures Trim(TopicPieces(value)[k]) == TopicPieces(value)[k]
      ensures forall c :: c in TopicPieces(value)[k] ==> c !in TopicNoise && c !in TopicSeparators
    {
      TrimIdempotent(pieces[k]);
      TrimmedPieceClean(value, stripped, pieces[k]);
    }
  }

  /** A trimmed piece keeps only characters of its (clean) untrimmed piece. */
  lemma TrimmedPieceClean(value: string, stripped: string, piece: string)
    requires forall c :: c in stripped ==> c !in TopicNoise
    requires forall k :: 0 <= k < |piece| ==> piece[k] !in TopicSeparators && piece[k] in stripped
    ensures forall c :: c in Trim(piece) ==> c !in TopicNoise && c !in TopicSeparators
  {
    var a, b := TrimIsSlice(piece);
    forall c | c in Trim(piece) ensures c !in TopicNoise && c !in TopicSeparators {
      var m :| 0 <= m < |Trim(piece)| && Trim(piece)[m] == c;
      assert piece[a + m] == c;
    }
  }

  /** The topics are the non-empty trimmed pieces, in source order; none is
      empty, untrimmed, or holds a bracket, a quote or a separator. */
  lemma ParseTopicsSpec(value: string)
    ensures value == "" ==> ParseTopics(value) == []
    ensures value != "" ==> IsSubseq(ParseTopics(value), TopicPieces(value))
    ensures value != "" ==> forall t :: t in ParseTopics(value) <==> t in TopicPieces(value) && t != ""
    ensures value != "" ==>
              forall t :: multiset(ParseTopics(value))[t] == (if t != "" then multiset(TopicPieces(value))[t] else 0)
    ensures forall i :: 0 <= i < |ParseTopics(value)| ==>
              var t := ParseTopics(value)[i];
              t != "" && Trim(t) == t && forall c :: c in t ==> c !in TopicNoise && c !in TopicSeparators
  {
    if value != "" {
      var nonEmpty := (t: string) => |t| > 0;
      var pieces := TopicPieces(value);
      FilterIsSubseq(pieces, nonEmpty);
      forall t ensures t in ParseTopics(value) <==> t in pieces && t != "" {
        FilterMembership(pieces, nonEmpty, t);
      }
      forall t ensures multiset(ParseTopics(value))[t] == if t != "" then multiset(pieces)[t] else 0 {
        FilterCount(pieces, nonEmpty, t);
      }
      TopicPiecesClean(value);
      forall i | 0 <= i < |ParseTopics(value)|
        ensures var t := ParseTopics(value)[i];
                t != "" && Trim(t) == t && forall c :: c in t ==> c !in TopicNoise && c !in TopicSeparators
      {
        var t := ParseTopics(value)[i];
        assert t in ParseTopics(value);
        var k :| 0 <= k < |pieces| && pieces[k] == t;
      }
    }
  }

  /** `parseBoolean`: an absent or empty value is false; otherwise the
      trimmed, lower-cased value must be "true", "yes" or "1". */
  function ParseBoolean(value: Option<string>): bool {
    if value.None? || value.value == "" then false
    else
      var lower := Trim(ToLower(value.value));
      lower == "true" || lower == "yes" || lower == "1"
  }

  /** Surrounding whitespace does not change the verdict. */
  lemma ParseBooleanIgnoresPadding(v: string, c: char)
    requires IsWhitespace(c)
    ensures ParseBoolean(Some([c] + v)) == ParseBoolean(Some(v))
    ensures ParseBoolean(Some(v + [c])) == ParseBoolean(Some(v))
  {
    var l := ToLower(v);
    assert ToLower([c] + v) == [c] + l by {
      assert LowerChar(c) == c;
    }
    assert ToLower(v + [c]) == l + [c] by {
      assert LowerChar(c) == c;
    }
    TrimCons(l, c);
    TrimSnoc(l, c);
  }

  /** A leading whitespace character is trimmed away. */
  lemma TrimCons(l: string, c: char)
    requires IsWhitespace(c)
    ensures Trim([c] + l) == Trim(l)
  {
    assert ([c] + l)[1..] == l;
  }

  /** A trailing whitespace character is trimmed away. */
  lemma TrimSnoc(l: string, c: char)
    requires IsWhitespace(c)
    ensures Trim(l + [c]) == Trim(l)
  {
    TrimStartSnoc(l, c);
    if TrimStart(l) != [] {
      var t := TrimStart(l);
      assert (t + [c])[..|t|] == t;
    }
  }

  /** Appending a whitespace character to a line only lengthens its trimmed-front part. */
  lemma {:induction false} TrimStartSnoc(l: string, c: char)
    requires IsWhitespace(c)
    ensures TrimStart(l + [c]) == if TrimStart(l) == [] then [] else TrimStart(l) + [c]
  {
    if l != [] {
      assert (l + [c])[0] == l[0];
      if IsWhitespace(l[0]) {
        TrimStartSnoc(l[1..], c);
        assert (l + [c])[1..] == l[1..] + [c];
      }
    } else {
      assert [c][1..] == [];
    }
  }

  /** Upper case does not change the verdict. */
  lemma ParseBooleanIgnoresCase(v: string)
    ensures ParseBoolean(Some(ToLower(v))) == ParseBoolean(Some(v))
  {
    assert ToLower(ToLower(v)) == ToLower(v);
  }

  // ---------------------------------------------------------------------------
  // Header and rows
  // ---------------------------------------------------------------------------

  /** The header line split on every comma (not quote-aware), each name
      trimmed and lower-cased. */
  function Headers(line: string): seq<string> {
    var names := Split(line, {','});
    seq(|names|, i requires 0 <= i < |names| => ToLower(Trim(names[i])))
  }

  /** `headers.findIndex(h => h.includes(keyword))`: the first header holding
      the keyword, or -1 when none does. */
  function FindColumn(headers: seq<string>, keyword: string): (k: int)
    ensures -1 <= k < |headers|
    ensures k == -1 <==> forall i :: 0 <= i < |headers| ==> !Contains(headers[i], keyword)
    ensures k >= 0 ==> Contains(headers[k], keyword) && forall i :: 0 <= i < k ==> !Contains(headers[i], keyword)
  {
    if headers == [] then -1
    else if Contains(headers[0], keyword) then 0
    else
      var k := FindColumn(headers[1..], keyword);
      if k == -1 then -1 else k + 1
  }

  /** The column index of each field, -1 for a column the header lacks. */
  datatype Columns = Columns(
    difficulty: int, title: int, frequency: int, acceptance: int,
    link: int, topics: int, completed: int)

  function ColumnsOf(headers: seq<string>): Columns {
    Columns(
      FindColumn(headers, "difficulty"), FindColumn(headers, "title"),
      FindColumn(headers, "frequency"), FindColumn(headers, "acceptance"),
      FindColumn(headers, "link"), FindColumn(headers, "topic"),
      FindColumn(headers, "completed"))
  }

  /** `values[index]`: undefined outside the row, including at index -1. */
  function Field(values: seq<string>, index: int): Option<string> {
    if 0 <= index < |values| then Some(values[index]) else None
  }

  /** `field || fallback`: an absent or empty field is replaced. */
  function OrDefault(field: Option<string>, fallback: string): string {
    if field.Some? && field.value != "" then field.value else fallback
  }

  /** The title a row falls back to: `Question ${i}`. */
  function DefaultTitle(i: nat): (t: string)
    ensures t != [] && IsTrimmed(t)
  {
    var digits := NatToString(i);
    assert !IsWhitespace(digits[|digits| - 1]);
    "Question " + digits
  }

  /** The draft built from the fields of the data line at index `i` of the
      non-blank lines. */
  function RowDraft(values: seq<string>, cols: Columns, i: nat): (d: Draft)
    ensures d.title != [] && IsTrimmed(d.title)
  {
    var title := Field(values, cols.title);
    Draft(
      ParseDifficulty(OrDefault(Field(values, cols.difficulty), "Medium")),
      if title.Some? && Trim(title.value) != "" then Trim(title.value) else DefaultTitle(i),
      match Field(values, cols.frequency)
        case None => Zero
        case Some(v) => FromText(v),
      match Field(values, cols.acceptance)
        case None => Zero
        case Some(v) => FromText(RemoveFirst(v, '%')),
      match Field(values, cols.link)
        case None => ""
        case Some(v) => Trim(v),
      ParseTopics(OrDefault(Field(values, cols.topics), "")),
      ParseBoolean(Field(values, cols.completed)))
  }

  /** A field the row does not have (its column is missing, or the row is
      short) takes its default. */
  lemma AbsentFieldsDefault(values: seq<string>, cols: Columns, i: nat)
    ensures Field(values, cols.difficulty).None? ==> RowDraft(values, cols, i).difficulty == Medium
    ensures Field(values, cols.title).None? ==> RowDraft(values, cols, i).title == DefaultTitle(i)
    ensures Field(values, cols.frequency).None? ==> RowDraft(values, cols, i).frequency == Zero
    ensures Field(values, cols.acceptance).None? ==> RowDraft(values, cols, i).acceptanceRate == Zero
    ensures Field(values, cols.link).None? ==> RowDraft(values, cols, i).link == ""
    ensures Field(values, cols.topics).None? ==> RowDraft(values, cols, i).topics == []
    ensures Field(values, cols.completed).None? ==> !RowDraft(values, cols, i).completed
  {
    ParseDifficultyMeaning("Medium");
    assert ToLower("Medium") == "medium";
    assert !Contains("medium", "easy") && !Contains("medium", "hard") by {
      NoMatchInMedium();
    }
  }

  lemma NoMatchInMedium()
    ensures !Contains("medium", "easy") && !Contains("medium", "hard")
  {
    var m := "medium";
    assert m[..4][0] == 'm' && m[..4][0] != "easy"[0] && m[..4][0] != "hard"[0];
    assert m[1..][..4][1] == 'd' && m[1..][..4][1] != "easy"[1] && m[1..][..4][0] != "hard"[0];
    assert m[1..][1..][..4][0] == 'd' && m[1..][1..][..4][0] != "easy"[0] && m[1..][1..][..4][0] != "hard"[0];
    assert |m[1..][1..][1..]| == 3;
  }

  /** A missing or blank title becomes "Question " followed by the decimal
      digits of the row's index; a given title is the field itself with only
      surrounding whitespace removed. */
  lemma RowTitle(values: seq<string>, cols: Columns, i: nat) returns (a: nat, b: nat)
    ensures var t := Field(values, cols.title);
            var title := RowDraft(values, cols, i).title;
            (t.None? || Trim(t.value) == "") ==>
              |title| > 9 && title[..9] == "Question "
              && (forall k :: 9 <= k < |title| ==> '0' <= title[k] <= '9')
              && DecimalValue(title[9..]) == i
    ensures var t := Field(values, cols.title);
            var title := RowDraft(values, cols, i).title;
            t.Some? && Trim(t.value) != "" ==>
              a <= b <= |t.value| && title == t.value[a..b]
              && (forall k :: 0 <= k < a ==> IsWhitespace(t.value[k]))
              && (forall k :: b <= k < |t.value| ==> IsWhitespace(t.value[k]))
  {
    var t := Field(values, cols.title);
    var title := RowDraft(values, cols, i).title;
    if t.Some? && Trim(t.value) != "" {
      a, b := TrimIsSlice(t.value);
    } else {
      a, b := 0, 0;
      var digits := NatToString(i);
      assert title == "Question " + digits;
      assert title[9..] == digits;
      NatToStringRoundTrip(i);
    }
  }

  // ---------------------------------------------------------------------------
  // The whole file
  // ---------------------------------------------------------------------------

  /** `content.split('\n').filter(line => line.trim())`. */
  function Lines(content: string): seq<string> {
    Filter(Split(content, {'\n'}), line => Trim(line) != "")
  }

  /** The fields of every line, as `parseCSVLine` splits them. */
  function SplitLines(lines: seq<string>): (r: seq<seq<string>>)
    ensures |r| == |lines|
  {
    seq(|lines|, i requires 0 <= i < |lines| => LineFields(lines[i]))
  }

  /** The items made of the data lines before index `n` (the header is
      line 0) that have at least two fields, given the fields of every line. */
  function CollectRows<T>(rows: seq<seq<string>>, n: nat, make: (seq<string>, nat) -> T): seq<T>
    requires n <= |rows|
  {
    if n <= 1 then []
    else CollectRows(rows, n - 1, make) + (if |rows[n - 1]| < 2 then [] else [make(rows[n - 1], n - 1)])
  }

  /** The row builder for a file's columns. */
  function RowMaker(cols: Columns): (seq<string>, nat) -> Draft {
    (values: seq<string>, i: nat) => RowDraft(values, cols, i)
  }

  /** The columns a file's header names. */
  function FileColumns(content: string): Columns
    requires |Lines(content)| >= 1
  {
    ColumnsOf(Headers(Lines(content)[0]))
  }

  /** The fields of every non-blank line of a file. */
  function FileRows(content: string): (r: seq<seq<string>>)
    ensures |r| == |Lines(content)|
  {
    SplitLines(Lines(content))
  }

  /** The drafts `parseCSV` returns for `content`. */
  function Parsed(content: string): seq<Draft> {
    var lines := Lines(content);
    if |lines| < 2 then [] else CollectRows(FileRows(content), |lines|, RowMaker(FileColumns(content)))
  }

  /** `parseCSV`: fewer than two non-blank lines give no rows; otherwise the
      header names the columns and the data lines are read one by one. */
  method ParseCSV(content: string) returns (drafts: seq<Draft>)
    ensures drafts == Parsed(content)
  {
    var lines := Lines(content);
    if |lines| < 2 {
      return [];
    }
    var cols := ColumnsOf(Headers(lines[0]));
    drafts := CollectDrafts(lines, RowMaker(cols));
    ParsedUnfold(content);
  }

  /** The index loop of `parseCSV` over the data lines: a line with fewer
      than two fields is skipped, any other becomes the draft `make` builds
      from its fields and its index. */
  method CollectDrafts(lines: seq<string>, make: (seq<string>, nat) -> Draft) returns (drafts: seq<Draft>)
    ensures drafts == CollectRows(SplitLines(lines), |lines|, make)
  {
    ghost var rows := SplitLines(lines);
    drafts := [];
    if |lines| < 2 {
      return;
    }
    for i := 1 to |lines|
      invariant drafts == CollectRows(rows, i, make)
    {
      var values := ParseCSVLine(lines[i]);
      assert values == rows[i];
      CollectRowsStep(rows, i, make);
      if |values| >= 2 {
        drafts := drafts + [make(values, i)];
      }
    }
  }

  /** With a header and at least one more line, the drafts are collected from
      the fields of the lines with the header's columns. */
  lemma ParsedUnfold(content: string)
    requires |Lines(content)| >= 2
    ensures Parsed(content) ==
              CollectRows(SplitLines(Lines(content)), |Lines(content)|, RowMaker(ColumnsOf(Headers(Lines(content)[0]))))
  {
  }

  /** One more line either adds its item or, when it is short, nothing. */
  lemma CollectRowsStep<T>(rows: seq<seq<string>>, i: nat, make: (seq<string>, nat) -> T)
    requires 1 <= i < |rows|
    ensures CollectRows(rows, i + 1, make) ==
              CollectRows(rows, i, make) + (if |rows[i]| < 2 then [] else [make(rows[i], i)])
  {
  }

  /** The data lines kept before index `n`, in increasing order, together
      with the items made of them. */
  lemma {:induction false} KeptRowsUpTo<T>(rows: seq<seq<string>>, n: nat, make: (seq<string>, nat) -> T)
    returns (kept: seq<nat>)
    requires n <= |rows|
    ensures |kept| == |CollectRows(rows, n, make)|
    ensures forall j :: 0 <= j < |kept| ==>
              1 <= kept[j] < n && |rows[kept[j]]| >= 2
              && CollectRows(rows, n, make)[j] == make(rows[kept[j]], kept[j])
    ensures forall j, j' :: 0 <= j < j' < |kept| ==> kept[j] < kept[j']
    ensures forall k :: 1 <= k < n && |rows[k]| >= 2 ==> k in kept
  {
    if n <= 1 {
      kept := [];
    } else {
      var prev := KeptRowsUpTo(rows, n - 1, make);
      var before, after := CollectRows(rows, n - 1, make), CollectRows(rows, n, make);
      if |rows[n - 1]| >= 2 {
        kept := prev + [n - 1];
        assert after == before + [make(rows[n - 1], n - 1)];
        forall j | 0 <= j < |prev|
          ensures 1 <= kept[j] < n && |rows[kept[j]]| >= 2 && after[j] == make(rows[kept[j]], kept[j])
        {
          assert kept[j] == prev[j] && after[j] == before[j];
        }
      } else {
        kept := prev;
        assert after == before;
      }
      forall k | 1 <= k < n && |rows[k]| >= 2 ensures k in kept {
        if k < n - 1 {
          assert k in prev;
        }
      }
    }
  }

  /** A file with fewer than two non-blank lines yields nothing (and no error).
      Otherwise every non-blank line after the header whose fields number at
      least two yields one draft, in file order, and no other line does;
      `FileRows(content)[k]` is `LineFields(Lines(content)[k])`. */
  lemma ParsedRows(content: string) returns (kept: seq<nat>)
    ensures |Lines(content)| < 2 ==> Parsed(content) == [] && kept == []
    ensures |kept| == |Parsed(content)|
    ensures |Lines(content)| >= 2 ==> |Parsed(content)| <= |Lines(content)| - 1
    ensures forall j, j' :: 0 <= j < j' < |kept| ==> kept[j] < kept[j']
    ensures forall j :: 0 <= j < |kept| ==>
              var rows := FileRows(content);
              1 <= kept[j] < |rows| && |rows[kept[j]]| >= 2
              && Parsed(content)[j] == RowDraft(rows[kept[j]], FileColumns(content), kept[j])
    ensures forall k :: 1 <= k < |Lines(content)| && |FileRows(content)[k]| >= 2 ==> k in kept
  {
    var lines := Lines(content);
    if |lines| < 2 {
      kept := [];
    } else {
      var make := RowMaker(FileColumns(content));
      kept := KeptRowsUpTo(FileRows(content), |lines|, make);
      DistinctBelow(kept, |lines|);
    }
  }

  /** A strictly increasing sequence of indices in [1, n) has at most n - 1 elements. */
  lemma {:induction false} DistinctBelow(rows: seq<nat>, n: nat)
    requires forall j :: 0 <= j < |rows| ==> 1 <= rows[j] < n
    requires forall j, j' :: 0 <= j < j' < |rows| ==> rows[j] < rows[j']
    ensures |rows| <= if n == 0 then 0 else n - 1
  {
    if rows != [] {
      var last := rows[|rows| - 1];
      DistinctBelow(rows[..|rows| - 1], last);
    }
  }

  /** The parser reads exactly the non-blank lines of the text, in order and
      each as often as it occurs: none is skipped and none is blank. */
  lemma LinesSpec(content: string)
    ensures IsSubseq(Lines(content), Split(content, {'\n'}))
    ensures forall i :: 0 <= i < |Lines(content)| ==> Trim(Lines(content)[i]) != ""
    ensures forall x :: multiset(Lines(content))[x] ==
                        (if Trim(x) != "" then multiset(Split(content, {'\n'}))[x] else 0)
  {
    var pieces, nonBlank := Split(content, {'\n'}), (line: string) => Trim(line) != "";
    FilterIsSubseq(pieces, nonBlank);
    forall x
      ensures multiset(Lines(content))[x] == (if Trim(x) != "" then multiset(pieces)[x] else 0)
    {
      FilterCount(pieces, nonBlank, x);
    }
  }
}
