/** The pure parts of the client page: the goal labels and badge colours,
    the check made when a PDF is picked, the analysis history, and the rows
    and column widths of the spreadsheet export. */
module Page {
  import opened Common
  import opened JsText
  import opened Prompt
  import opened Generate

  // ---------------------------------------------------------------------
  // Goal labels and badge colours

  const SdgLabels: map<int, string> := map[
    1 := "No Poverty",
    2 := "Zero Hunger",
    3 := "Good Health & Well-Being",
    4 := "Quality Education",
    5 := "Gender Equality",
    6 := "Clean Water & Sanitation",
    7 := "Affordable & Clean Energy",
    8 := "Decent Work & Economic Growth",
    9 := "Industry, Innovation & Infrastructure",
    10 := "Reduced Inequalities",
    11 := "Sustainable Cities & Communities",
    12 := "Responsible Consumption & Production",
    13 := "Climate Action",
    14 := "Life Below Water",
    15 := "Life on Land",
    16 := "Peace, Justice & Strong Institutions",
    17 := "Partnerships for the Goals"
  ]

  const SdgColors: map<int, string> := map[
    1 := "bg-red-600",
    2 := "bg-amber-600",
    3 := "bg-green-600",
    4 := "bg-red-700",
    5 := "bg-orange-500",
    6 := "bg-cyan-500",
    7 := "bg-yellow-500",
    8 := "bg-rose-700",
    9 := "bg-orange-600",
    10 := "bg-pink-600",
    11 := "bg-amber-500",
    12 := "bg-yellow-700",
    13 := "bg-green-700",
    14 := "bg-blue-600",
    15 := "bg-emerald-600",
    16 := "bg-blue-800",
    17 := "bg-indigo-700"
  ]

  const FallbackColor := "bg-gray-500"

  /** The seventeen goal numbers. */
  predicate IsGoal(n: int) {
    1 <= n <= 17
  }

  /** Both tables are keyed by exactly the goals 1..17. */
  lemma GoalTables()
    ensures forall n :: n in SdgLabels <==> IsGoal(n)
    ensures forall n :: n in SdgColors <==> IsGoal(n)
  {
  }

  /** `SDG_COLORS[sdg] ?? "bg-gray-500"`. */
  function BadgeColor(sdg: int): string {
    if sdg in SdgColors then SdgColors[sdg] else FallbackColor
  }

  /** Every goal has a colour other than the grey fallback, and every
      other number gets the fallback. */
  lemma BadgeColorFallback(sdg: int)
    ensures IsGoal(sdg) ==> BadgeColor(sdg) != FallbackColor
    ensures !IsGoal(sdg) ==> BadgeColor(sdg) == FallbackColor
  {
    GoalTables();
    if IsGoal(sdg) {
      assert SdgColors[sdg] != FallbackColor;
    }
  }

  // ---------------------------------------------------------------------
  // The analysis result as the client types it

  datatype Lesson = Lesson(title: string, mainSummary: string, whyItMatters: string)

  datatype Challenge = Challenge(title: string, description: string, location: Option<string>)

  /** `Result`: `challenges` may be missing from what the model returns. */
  datatype AnalysisResult = AnalysisResult(
    authors: Option<string>,
    datePublished: Option<string>,
    journal: Option<string>,
    locationConstraint: Option<string>,
    sdgPrimary: int,
    sdgSecondary: seq<int>,
    summary: string,
    lesson: Lesson,
    challenges: Option<seq<Challenge>>)

  /** The JSON keys of `Result`. */
  const ResultKeys: set<string> := {
    "authors", "date_published", "journal", "location_constraint", "sdg_primary",
    "sdg_secondary", "summary", "lesson", "challenges"
  }

  /** The prompt asks for every key the client reads except
      `location_constraint` and `challenges`. */
  lemma PromptOmitsClientKeys()
    ensures SchemaKeys() <= ResultKeys
    ensures ResultKeys - SchemaKeys() == {"location_constraint", "challenges"}
  {
    SchemaKeySets();
  }

  // ---------------------------------------------------------------------
  // Picking a PDF

  /** The picker's state: the error line and the selected file. */
  datatype Picker = Picker(error: string, file: Option<Upload>)

  /** `handleFile(f)`: ignore a missing file, refuse a non-PDF type, then
      an oversized file, otherwise clear the error and select the file.
      The browser's check agrees with the server's, message for message. */
  function HandleFile(state: Picker, f: Option<Upload>): (s: Picker)
    ensures f.None? ==> s == state
    ensures f.Some? && UploadError(f.value).Some? ==> s == Picker(UploadError(f.value).value, state.file)
    ensures f.Some? && UploadError(f.value).None? ==> s == Picker("", f)
  {
    if f.None? then state
    else if f.value.mimeType != PdfMimeType then state.(error := NotPdfMessage)
    else if |f.value.bytes| > MaxPdfSize then state.(error := TooLargeMessage)
    else Picker("", f)
  }

  // ---------------------------------------------------------------------
  // History

  datatype HistoryEntry = HistoryEntry(source: string, result: AnalysisResult, analyzedAt: string)

  /** `addToHistory(source, r)`; `now` is `new Date().toISOString()`. */
  function AddToHistory(history: seq<HistoryEntry>, source: string, r: AnalysisResult, now: string): (h: seq<HistoryEntry>)
    ensures |h| == |history| + 1
    ensures h[..|history|] == history
    ensures h[|history|] == HistoryEntry(source, r, now)
  {
    history + [HistoryEntry(source, r, now)]
  }

  // ---------------------------------------------------------------------
  // Export rows

  /** The export's column headers, in the order of the row object's keys. */
  const Headers: seq<string> := [
    "Source", "Analyzed At", "Authors", "Journal", "Date Published", "Location",
    "Primary SDG", "Secondary SDGs", "Summary", "Lesson Title", "Main Finding",
    "Why It Matters", "Challenge 1", "Challenge 1 Location", "Challenge 2",
    "Challenge 2 Location", "Challenge 3", "Challenge 3 Location"
  ]

  /** The number of columns of the export, one per header. */
  const ColumnCount := 18

  /** `v ?? ""`. */
  function OrEmpty(v: Option<string>): string {
    if v.Some? then v.value else ""
  }

  /** `` `SDG ${n} — ${labels[n] ?? ""}` ``, where the page passes
      `SdgLabels` for `labels`. */
  function PrimaryCell(n: int, labels: map<int, string>): string {
    "SDG " + IntToString(n) + " \U{2014} " + (if n in labels then labels[n] else "")
  }

  /** `"SDG " + k`, one per secondary goal. */
  function SecondaryNames(xs: seq<int>): (names: seq<string>)
    ensures |names| == |xs|
    ensures forall i :: 0 <= i < |xs| ==> names[i] == "SDG " + IntToString(xs[i])
  {
    if |xs| == 0 then []
    else
      var rest := SecondaryNames(xs[1..]);
      assert forall i :: 1 <= i < |xs| ==> rest[i - 1] == "SDG " + IntToString(xs[i]);
      ["SDG " + IntToString(xs[0])] + rest
  }

  /** `xs.map(s => "SDG " + s).join(", ")`. */
  function SecondaryCell(xs: seq<int>): string {
    Join(SecondaryNames(xs), ", ")
  }

  /** `challenges?.[k]`. */
  function ChallengeAt(cs: Option<seq<Challenge>>, k: nat): Option<Challenge> {
    if cs.Some? && k < |cs.value| then Some(cs.value[k]) else None
  }

  /** `` challenges?.[k] ? `${title}: ${description}` : "" ``. */
  function ChallengeCell(cs: Option<seq<Challenge>>, k: nat): string {
    match ChallengeAt(cs, k)
    case Some(c) => c.title + ": " + c.description
    case None => ""
  }

  /** `challenges?.[k]?.location ?? ""`. */
  function ChallengeLocationCell(cs: Option<seq<Challenge>>, k: nat): string {
    match ChallengeAt(cs, k)
    case Some(c) => OrEmpty(c.location)
    case None => ""
  }

  /** One spreadsheet row, cell `i` under `Headers[i]`. The goal labels
      are a parameter, `SdgLabels` on the page, so that facts about the
      other cells do not carry the table's text. */
  function ExportRow(h: HistoryEntry, labels: map<int, string>): (row: seq<string>)
    ensures |row| == ColumnCount
  {
    var r := h.result;
    [ h.source, h.analyzedAt, OrEmpty(r.authors), OrEmpty(r.journal), OrEmpty(r.datePublished),
      OrEmpty(r.locationConstraint), PrimaryCell(r.sdgPrimary, labels), SecondaryCell(r.sdgSecondary),
      r.summary, r.lesson.title, r.lesson.mainSummary, r.lesson.whyItMatters,
      ChallengeCell(r.challenges, 0), ChallengeLocationCell(r.challenges, 0),
      ChallengeCell(r.challenges, 1), ChallengeLocationCell(r.challenges, 1),
      ChallengeCell(r.challenges, 2), ChallengeLocationCell(r.challenges, 2) ]
  }

  /** `history.map(...)`: one row per entry, in history order. */
  function ExportRows(history: seq<HistoryEntry>, labels: map<int, string>): (rows: seq<seq<string>>)
    ensures |rows| == |history|
    ensures forall i :: 0 <= i < |rows| ==> |rows[i]| == ColumnCount
  {
    seq(|history|, i requires 0 <= i < |history| => ExportRow(history[i], labels))
  }

  // ---------------------------------------------------------------------
  // Column widths

  /** `Math.max(header.length, ...rows.map(r => r[key].length))` for the
      column at index `k`. */
  function Longest(header: string, rows: seq<seq<string>>, k: nat): (n: nat)
    requires forall i :: 0 <= i < |rows| ==> k < |rows[i]|
    ensures n >= |header|
    ensures forall i :: 0 <= i < |rows| ==> n >= |rows[i][k]|
    ensures n == |header| || exists i :: 0 <= i < |rows| && n == |rows[i][k]|
    decreases |rows|
  {
    if |rows| == 0 then |header|
    else
      var rest := Longest(header, rows[1..], k);
      assert forall i :: 1 <= i < |rows| ==> rows[1..][i - 1] == rows[i];
      if |rows[0][k]| > rest then |rows[0][k]| else rest
  }

  function Min(a: int, b: int): int {
    if a <= b then a else b
  }

  /** `Object.keys(rows[0] || {}).map(key => ({ wch: Math.min(maxLen + 2, 60) }))`:
      no rows, no columns. */
  function ColumnWidths(rows: seq<seq<string>>): (ws: seq<nat>)
    requires forall i :: 0 <= i < |rows| ==> |rows[i]| == ColumnCount
    ensures |rows| == 0 ==> ws == []
    ensures |rows| > 0 ==> |ws| == ColumnCount
    ensures forall k :: 0 <= k < |ws| ==> ws[k] <= 60
  {
    if |rows| == 0 then []
    else seq(|Headers|, k requires 0 <= k < |Headers| => Min(Longest(Headers[k], rows, k) + 2, 60))
  }

  // ---------------------------------------------------------------------
  // Properties

  /** Adding an entry adds its row at the end and leaves the other rows
      as they were. */
  lemma ExportRowsAppend(history: seq<HistoryEntry>, source: string, r: AnalysisResult, now: string,
                           labels: map<int, string>)
    ensures ExportRows(AddToHistory(history, source, r, now), labels)
         == ExportRows(history, labels) + [ExportRow(HistoryEntry(source, r, now), labels)]
  {
  }

  /** The cells computed from the entry: the primary goal at column 6, the
      secondary goals at column 7, and each of the three challenges as a
      text cell followed by a location cell from column 12 on. */
  lemma ExportRowComputedCells(h: HistoryEntry, labels: map<int, string>)
    ensures var row := ExportRow(h, labels);
      && row[6] == PrimaryCell(h.result.sdgPrimary, labels)
      && row[7] == SecondaryCell(h.result.sdgSecondary)
      && forall k :: 0 <= k < 3 ==>
           && row[12 + 2 * k] == ChallengeCell(h.result.challenges, k)
           && row[13 + 2 * k] == ChallengeLocationCell(h.result.challenges, k)
  {
  }

  /** The cells taken straight from the entry, with a missing author list,
      journal, date or location written as the empty string. */
  lemma ExportRowPlainCells(h: HistoryEntry, labels: map<int, string>)
    ensures var row := ExportRow(h, labels);
      && row[0] == h.source && row[1] == h.analyzedAt
      && (h.result.authors.None? ==> row[2] == "")
      && (h.result.journal.None? ==> row[3] == "")
      && (h.result.datePublished.None? ==> row[4] == "")
      && (h.result.locationConstraint.None? ==> row[5] == "")
      && (h.result.authors.Some? ==> row[2] == h.result.authors.value)
      && (h.result.journal.Some? ==> row[3] == h.result.journal.value)
      && (h.result.datePublished.Some? ==> row[4] == h.result.datePublished.value)
      && (h.result.locationConstraint.Some? ==> row[5] == h.result.locationConstraint.value)
      && row[8] == h.result.summary
      && row[9] == h.result.lesson.title
      && row[10] == h.result.lesson.mainSummary
      && row[11] == h.result.lesson.whyItMatters
  {
  }

  /** The primary cell is `SDG n — ` followed by the goal's label, which
      is never empty; an unknown number keeps the dash and has no label. */
  lemma PrimaryCellLabel(n: int)
    ensures PrimaryCell(n, SdgLabels) == "SDG " + IntToString(n) + " \U{2014} " + (if IsGoal(n) then SdgLabels[n] else "")
    ensures IsGoal(n) ==> SdgLabels[n] != ""
  {
    GoalTables();
    var head := "SDG " + IntToString(n) + " \U{2014} ";
    var name := if n in SdgLabels then SdgLabels[n] else "";
    assert PrimaryCell(n, SdgLabels) == head + name;
    if IsGoal(n) {
      assert SdgLabels[n] != "";
    }
  }

  /** The secondary cell is empty exactly when there are no secondary goals. */
  lemma SecondaryCellEmpty(xs: seq<int>)
    ensures SecondaryCell(xs) == "" <==> |xs| == 0
  {
    if |xs| == 1 {
      assert SecondaryNames(xs)[0] == "SDG " + IntToString(xs[0]);
    }
  }

  /** One more secondary goal adds `, SDG k` to a non-empty cell. */
  lemma SecondaryCellAppend(xs: seq<int>, x: int)
    requires |xs| > 0
    ensures SecondaryCell(xs + [x]) == SecondaryCell(xs) + ", " + "SDG " + IntToString(x)
  {
    assert SecondaryNames(xs + [x]) == SecondaryNames(xs) + ["SDG " + IntToString(x)];
    JoinAppend(SecondaryNames(xs), "SDG " + IntToString(x), ", ");
  }

  /** Challenge `k` (counting from 0) fills its two cells when it exists
      and leaves them empty otherwise. */
  lemma ChallengeCells(cs: Option<seq<Challenge>>, k: nat)
    ensures cs.Some? && k < |cs.value| ==>
      ChallengeCell(cs, k) == cs.value[k].title + ": " + cs.value[k].description
      && ChallengeLocationCell(cs, k) == OrEmpty(cs.value[k].location)
    ensures (cs.None? || k >= |cs.value|) ==> ChallengeCell(cs, k) == "" && ChallengeLocationCell(cs, k) == ""
  {
  }

  /** Challenges after the third are not exported. */
  lemma OnlyThreeChallenges(h: HistoryEntry, labels: map<int, string>)
    requires h.result.challenges.Some? && |h.result.challenges.value| >= 3
    ensures ExportRow(h, labels) == ExportRow(h.(result := h.result.(challenges := Some(h.result.challenges.value[..3]))), labels)
  {
  }

  /** A column is as wide as its longest cell or header plus two, capped
      at 60; it is 60 exactly when something in it has 58 or more
      characters. */
  lemma ColumnWidthRule(rows: seq<seq<string>>, k: nat)
    requires forall i :: 0 <= i < |rows| ==> |rows[i]| == ColumnCount
    requires |rows| > 0 && k < ColumnCount
    ensures var w := ColumnWidths(rows)[k];
      && (w >= Min(|Headers[k]| + 2, 60))
      && (forall i :: 0 <= i < |rows| ==> w >= Min(|rows[i][k]| + 2, 60))
      && (w == 60 <==> (|Headers[k]| >= 58 || exists i :: 0 <= i < |rows| && |rows[i][k]| >= 58))
      && (w < 60 ==> w == |Headers[k]| + 2 || exists i :: 0 <= i < |rows| && w == |rows[i][k]| + 2)
  {
    var n := Longest(Headers[k], rows, k);
    assert ColumnWidths(rows)[k] == Min(n + 2, 60);
  }

  /** The widths for the rows of a history: none for an empty history,
      one per header otherwise, each at most 60. */
  lemma HistoryWidths(history: seq<HistoryEntry>, labels: map<int, string>)
    ensures var ws := ColumnWidths(ExportRows(history, labels));
      && (|history| == 0 <==> ws == [])
      && (|history| > 0 ==> |ws| == 18)
      && forall k :: 0 <= k < |ws| ==> ws[k] <= 60
  {
  }
}
