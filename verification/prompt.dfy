/** `buildPrompt(inputType, title?)`: the instruction text sent to the
    language model. It is a fixed preamble, one sentence that depends on
    the input mode, an optional `Title:` line, the task list and the JSON
    schema the model is asked to fill in. */
module Prompt {
  import opened Common
  import opened JsText

  /** The `inputType` argument: `"pdf"` or `"text"`. */
  datatype InputType = Pdf | Text

  const Preamble := "You are a research intelligence assistant. "

  /** The mode-dependent sentence that follows the preamble. */
  function Description(t: InputType): string {
    match t
    case Pdf => "The research paper PDF is attached. Analyze the full paper."
    case Text => "Analyze the following research paper text."
  }

  /** `title ? "Title: ${title}\n" : ""`: JavaScript treats both a missing
      title and the empty string as false. */
  function TitleLine(title: Option<string>): (r: string)
    ensures r == "" <==> title.None? || title.value == ""
    ensures r != "" ==> 8 <= |r| && StartsWith(r, "Title: ") && r[7..|r| - 1] == title.value && r[|r| - 1] == '\n'
  {
    if title.Some? && title.value != "" then "Title: " + title.value + "\n" else ""
  }

  /** The numbered task list, from `Your tasks:` to the blank line after it
      (the range `1–17` is written with an en dash). */
  const TasksHeading := "Your tasks:\n"

  const TaskItems :=
    "1. Extract the author(s), publication date, and journal name (if available).\n"
    + "2. Identify what problem the paper studies.\n"
    + "3. What it finds or concludes.\n"
    + "4. Why it matters in the real world.\n"
    + "5. Which UN Sustainable Development Goal(s) it most closely relates to (use SDG numbers 1\U{2013}17).\n\n"

  const Tasks := TasksHeading + TaskItems

  /** The instruction line before the schema (with an em dash). */
  const Instruction := "Return ONLY valid JSON matching this exact schema \U{2014} no markdown, no code fences, no extra text:\n\n"

  // ---------------------------------------------------------------------
  // The schema, kept as data so that its keys can be reasoned about

  /** The placeholder after a key: either a quoted `"<…>"` description or
      a bare one such as `<number 1-17>`. */
  datatype Hint = Quoted(text: string) | Bare(text: string)

  /** A top-level schema entry: a key with a placeholder, or a key whose
      value is an object of keyed placeholders. */
  datatype Field = Leaf(key: string, hint: Hint) | Group(key: string, members: seq<(string, Hint)>)

  const LessonMembers: seq<(string, Hint)> := [
    ("title", Quoted("a readable, engaging title for the key lesson")),
    ("main_summary", Quoted("what the paper is saying, explained simply")),
    ("why_it_matters", Quoted("why this matters in the real world"))
  ]

  const SchemaFields: seq<Field> := [
    Leaf("authors", Quoted("comma-separated list of author names, or null if not found")),
    Leaf("date_published", Quoted("publication date as found in the paper, e.g. '2023', 'March 2024', '2024-01-15', or null if not found")),
    Leaf("journal", Quoted("journal or conference name, or null if not found")),
    Leaf("sdg_primary", Bare("<number 1-17>")),
    Leaf("sdg_secondary", Bare("[<number>, ...]")),
    Leaf("summary", Quoted("plain-language summary of the paper in 2-3 sentences")),
    Group("lesson", LessonMembers)
  ]

  function RenderHint(h: Hint): string {
    match h
    case Quoted(t) => "\"<" + t + ">\""
    case Bare(t) => t
  }

  /** One `"key": value` line at the given indentation. */
  function RenderMember(indent: string, key: string, h: Hint): string {
    indent + "\"" + key + "\": " + RenderHint(h)
  }

  function RenderField(f: Field): string {
    match f
    case Leaf(k, h) => RenderMember("  ", k, h)
    case Group(k, ms) =>
      "  \"" + k + "\": {\n"
      + Join(seq(|ms|, i requires 0 <= i < |ms| => RenderMember("    ", ms[i].0, ms[i].1)), ",\n")
      + "\n  }"
  }

  /** The schema block that closes every prompt. */
  function SchemaText(): string {
    "{\n" + Join(seq(|SchemaFields|, i requires 0 <= i < |SchemaFields| => RenderField(SchemaFields[i])), ",\n") + "\n}"
  }

  /** The keys the model is asked to return at the top level. */
  function SchemaKeys(): set<string> {
    set i | 0 <= i < |SchemaFields| :: SchemaFields[i].key
  }

  /** The keys asked for inside `lesson`. */
  function LessonKeys(): set<string> {
    set i | 0 <= i < |LessonMembers| :: LessonMembers[i].0
  }

  /** The instruction line followed by the schema. */
  function SchemaBlock(): string {
    Instruction + SchemaText()
  }

  /** Everything after the optional title line; it depends on no argument. */
  function Closing(): string {
    Tasks + SchemaBlock()
  }

  /** Where the optional title line goes: after the preamble, the
      description and one blank line. */
  function TitleOffset(t: InputType): nat {
    |Preamble| + |Description(t)| + 2
  }

  /** The prompt laid out from its variable parts: the preamble, the
      description, a blank line, the title line and the closing text. */
  function Assemble(description: string, titleLine: string, closing: string): string {
    Preamble + description + "\n\n" + titleLine + closing
  }

  /** `buildPrompt(inputType, title)`. */
  function BuildPrompt(t: InputType, title: Option<string>): string {
    Assemble(Description(t), TitleLine(title), Closing())
  }

  /** Where each part lies in an assembled prompt. */
  lemma AssembleParts(description: string, titleLine: string, closing: string)
    ensures var r := Assemble(description, titleLine, closing);
      && |r| == |Preamble| + |description| + 2 + |titleLine| + |closing|
      && r[..|Preamble|] == Preamble
      && r[|Preamble|..|Preamble| + |description|] == description
      && r[|Preamble| + |description|..|Preamble| + |description| + 2] == "\n\n"
      && r[|Preamble| + |description| + 2..|Preamble| + |description| + 2 + |titleLine|] == titleLine
      && r[|r| - |closing|..] == closing
      && r[|Preamble| + |description|..] == "\n\n" + titleLine + closing
  {
    var r := Assemble(description, titleLine, closing);
    assert r == Preamble + (description + ("\n\n" + (titleLine + closing)));
  }

  /** The length of an assembled prompt is the sum of its parts. */
  lemma AssembleLength(description: string, titleLine: string, closing: string)
    ensures |Assemble(description, titleLine, closing)| == |Preamble| + |description| + 2 + |titleLine| + |closing|
  {
  }

  /** The layout of every prompt: it opens with the preamble and the
      description, the title line sits at the title offset, and the
      closing text ends it. */
  lemma PromptLayout(t: InputType, title: Option<string>)
    ensures var r := BuildPrompt(t, title);
      && StartsWith(r, Preamble)
      && r[|Preamble|..|Preamble| + |Description(t)|] == Description(t)
      && r[|Preamble| + |Description(t)|..TitleOffset(t)] == "\n\n"
      && r[TitleOffset(t)..TitleOffset(t) + |TitleLine(title)|] == TitleLine(title)
      && EndsWith(r, Closing())
  {
    AssembleParts(Description(t), TitleLine(title), Closing());
  }

  // ---------------------------------------------------------------------
  // Properties

  /** An empty title adds no line: `buildPrompt(m, "") == buildPrompt(m)`. */
  lemma EmptyTitleIsNoTitle(t: InputType)
    ensures BuildPrompt(t, Some("")) == BuildPrompt(t, None)
  {
  }

  /** With a non-empty title line the assembled prompt is the untitled one
      with that line spliced in right after the blank line. */
  lemma AssembleWithTitle(description: string, line: string, closing: string)
    ensures var plain := Assemble(description, "", closing);
      var k := |Preamble| + |description| + 2;
      && k <= |plain|
      && Assemble(description, line, closing) == plain[..k] + line + plain[k..]
      && plain[k..] == closing
  {
    AssembleParts(description, "", closing);
    var plain := Assemble(description, "", closing);
    var k := |Preamble| + |description| + 2;
    var head := Preamble + description + "\n\n";
    assert plain == head + closing;
    assert plain[..k] == head;
  }

  /** A non-empty title inserts exactly `Title: <title>\n` at the title
      offset, and the text around it is the untitled prompt. */
  lemma TitleInserted(t: InputType, title: string)
    requires title != ""
    ensures var plain := BuildPrompt(t, None);
      var k := TitleOffset(t);
      && k <= |plain|
      && BuildPrompt(t, Some(title)) == plain[..k] + "Title: " + title + "\n" + plain[k..]
  {
    var plain := BuildPrompt(t, None);
    var k := TitleOffset(t);
    var line := "Title: " + title + "\n";
    assert BuildPrompt(t, Some(title)) == plain[..k] + line + plain[k..] by {
      assert TitleLine(Some(title)) == line;
      AssembleWithTitle(Description(t), line, Closing());
    }
    SpliceTitle(plain[..k], title, plain[k..]);
  }

  /** The title offset is right before `Your tasks:`, whatever the title. */
  lemma TasksFollowTitle(t: InputType, title: Option<string>)
    ensures var r := BuildPrompt(t, title);
      var k := TitleOffset(t) + |TitleLine(title)|;
      k <= |r| && StartsWith(r[k..], TasksHeading)
  {
    var r := BuildPrompt(t, title);
    var k := TitleOffset(t) + |TitleLine(title)|;
    assert k <= |r| && r[k..] == Closing() by {
      AssembleTail(Description(t), TitleLine(title), Closing());
    }
    ClosingStartsWithTasks();
  }

  /** What follows the title line in the assembled prompt is the closing text. */
  lemma AssembleTail(description: string, line: string, closing: string)
    ensures var r := Assemble(description, line, closing);
      |Preamble| + |description| + 2 + |line| <= |r|
      && r[|Preamble| + |description| + 2 + |line|..] == closing
  {
  }

  /** Regrouping the pieces of a spliced title line. */
  lemma SpliceTitle(before: string, title: string, after: string)
    ensures before + "Title: " + title + "\n" + after == before + ("Title: " + title + "\n") + after
  {
  }

  /** The closing text opens with the task list heading. */
  lemma ClosingStartsWithTasks()
    ensures StartsWith(Closing(), TasksHeading)
  {
    PrefixOfConcat(TasksHeading, TaskItems, SchemaBlock());
  }

  /** The first of three concatenated texts is a prefix of the whole. */
  lemma PrefixOfConcat(a: string, b: string, c: string)
    ensures StartsWith(a + b + c, a)
  {
    assert (a + b + c)[..|a|] == a;
  }

  /** The pdf and text prompts agree outside the description sentence: the
      same preamble before it and the same text after it. */
  lemma ModesDifferOnlyInDescription(title: Option<string>)
    ensures var p := BuildPrompt(Pdf, title);
      var q := BuildPrompt(Text, title);
      && StartsWith(p, Preamble) && StartsWith(q, Preamble)
      && p[|Preamble| + |Description(Pdf)|..] == q[|Preamble| + |Description(Text)|..]
      && Description(Pdf) != Description(Text)
  {
    AssembleAfterDescription(Description(Pdf), TitleLine(title), Closing());
    AssembleAfterDescription(Description(Text), TitleLine(title), Closing());
    DescriptionsDiffer();
  }

  /** An assembled prompt opens with the preamble, and what follows the
      description does not depend on it. */
  lemma AssembleAfterDescription(description: string, titleLine: string, closing: string)
    ensures var r := Assemble(description, titleLine, closing);
      && StartsWith(r, Preamble)
      && |Preamble| + |description| <= |r|
      && r[|Preamble| + |description|..] == "\n\n" + titleLine + closing
  {
    AssembleParts(description, titleLine, closing);
  }

  lemma DescriptionsDiffer()
    ensures Description(Pdf) != Description(Text)
  {
    assert |Description(Pdf)| != |Description(Text)|;
  }

  /** Whatever the arguments, the prompt ends with the instruction line
      and the schema block. */
  lemma EndsWithSchema(t: InputType, title: Option<string>)
    ensures EndsWith(BuildPrompt(t, title), SchemaBlock())
  {
    var r := BuildPrompt(t, title);
    PromptLayout(t, title);
    SuffixOfSuffix(r, Tasks, SchemaBlock());
  }

  /** A suffix of a suffix is a suffix. */
  lemma SuffixOfSuffix(r: string, a: string, b: string)
    requires EndsWith(r, a + b)
    ensures EndsWith(r, b)
  {
    assert r[|r| - |b|..] == (a + b)[|a|..];
  }

  /** A title of `n` characters lengthens the prompt by `n + 8`. */
  lemma TitleLength(t: InputType, title: string)
    requires title != ""
    ensures |BuildPrompt(t, Some(title))| == |BuildPrompt(t, None)| + |title| + 8
  {
    AssembleLength(Description(t), TitleLine(Some(title)), Closing());
    AssembleLength(Description(t), TitleLine(None), Closing());
  }

  /** The schema asks for exactly these top-level keys, and for exactly
      `title`, `main_summary` and `why_it_matters` inside `lesson`. */
  lemma SchemaKeySets()
    ensures SchemaKeys() == {"authors", "date_published", "journal", "sdg_primary", "sdg_secondary", "summary", "lesson"}
    ensures LessonKeys() == {"title", "main_summary", "why_it_matters"}
  {
    assert SchemaFields[0].key == "authors";
    assert SchemaFields[1].key == "date_published";
    assert SchemaFields[2].key == "journal";
    assert SchemaFields[3].key == "sdg_primary";
    assert SchemaFields[4].key == "sdg_secondary";
    assert SchemaFields[5].key == "summary";
    assert SchemaFields[6].key == "lesson";
    assert LessonMembers[0].0 == "title";
    assert LessonMembers[1].0 == "main_summary";
    assert LessonMembers[2].0 == "why_it_matters";
  }
}
