/** The intent classifier of the natural-language count queries: it turns a
    Spanish question into one "canonical query" string. Without a configured
    external classifier it applies a keyword heuristic; with one, it sends a
    prompt, and maps the tag the classifier answers to a canonical query.
    The network call is an input here: `HttpReply` is what the call produced
    (an exception, or a status and the text extracted from the body). */
module AiProvider {
  import opened Wrappers
  import opened Text
  import opened Employees

  /* ------------------------------------------------------------------ */
  /* Canonical queries                                                    */
  /* ------------------------------------------------------------------ */

  const TotalQuery: string := "contar todos los empleados"
  const StatusQueryPrefix: string := "contar empleados en estado "
  const InactiveQuery: string := StatusQueryPrefix + "Inactivo"
  const VacationQuery: string := StatusQueryPrefix + "Vacation"
  const ActiveQuery: string := StatusQueryPrefix + "Active"

  /** `prefix` followed by `value` between double quotes. */
  function Quoted(prefix: string, value: string): string {
    prefix + "\"" + value + "\""
  }

  const DepartmentQueryPrefix: string := "contar empleados por departamento "
  const PositionQueryPrefix: string := "contar empleados por cargo "

  function DepartmentQuery(name: string): string {
    Quoted(DepartmentQueryPrefix, name)
  }

  function PositionQuery(text: string): string {
    Quoted(PositionQueryPrefix, text)
  }

  /** The parameters the heuristic writes in place of a real name or text. */
  const NamePlaceholder: string := "<nombre>"
  const TextPlaceholder: string := "<texto>"

  /** What a canonical query asks for. */
  datatype Intent =
    | AllEmployees
    | InStatus(status: EmployeeStatus)
    | InDepartment(name: string)
    | WithPosition(text: string)

  /** The canonical query of an intent; every one starts with "contar ". */
  function Render(i: Intent): (r: string)
    ensures StartsWith(r, "contar ") && |r| >= |TotalQuery|
  {
    match i
    case AllEmployees =>
      assert TotalQuery[..7] == "contar ";
      TotalQuery
    case InStatus(Inactive) =>
      assert InactiveQuery[..7] == "contar ";
      InactiveQuery
    case InStatus(Vacation) =>
      assert VacationQuery[..7] == "contar ";
      VacationQuery
    case InStatus(Active) =>
      assert ActiveQuery[..7] == "contar ";
      ActiveQuery
    case InDepartment(name) =>
      assert DepartmentQuery(name)[..7] == "contar ";
      DepartmentQuery(name)
    case WithPosition(text) =>
      assert PositionQuery(text)[..7] == "contar ";
      PositionQuery(text)
  }

  ghost predicate IsCanonical(s: string) {
    exists i: Intent :: Render(i) == s
  }

  /** The parameter of the intent, if any, is written in upper case. */
  predicate IsUpperIntent(i: Intent) {
    match i
    case InDepartment(name) => Upper(name) == name
    case WithPosition(text) => Upper(text) == text
    case _ => true
  }

  function UpperIntent(i: Intent): Intent {
    match i
    case InDepartment(name) => InDepartment(Upper(name))
    case WithPosition(text) => WithPosition(Upper(text))
    case _ => i
  }

  /* ------------------------------------------------------------------ */
  /* Keyword heuristic                                                    */
  /* ------------------------------------------------------------------ */

  /** The keywords of the heuristic, in the order they are tried. */
  const HeuristicKeywords: seq<string> := ["departamento", "inactivo", "vacaciones", "auxiliar", "cargo"]

  /** `BasicHeuristics`: the first keyword found in the lower-cased question
      decides; "auxiliar" and "cargo" share a rule. The department and
      position forms carry a placeholder instead of a name. */
  function BasicHeuristics(question: string): (r: string)
    ensures r == DepartmentQuery(NamePlaceholder) || r == InactiveQuery || r == VacationQuery
         || r == PositionQuery(TextPlaceholder) || r == TotalQuery
    ensures IsCanonical(r) && StartsWith(r, "contar ")
    ensures Contains(Lower(question), "departamento") ==> r == DepartmentQuery(NamePlaceholder)
    ensures r == TotalQuery <==> forall w | w in HeuristicKeywords :: !Contains(Lower(question), w)
  {
    var lower := Lower(question);
    var i :=
      if Contains(lower, "departamento") then InDepartment(NamePlaceholder)
      else if Contains(lower, "inactivo") then InStatus(Inactive)
      else if Contains(lower, "vacaciones") then InStatus(Vacation)
      else if Contains(lower, "auxiliar") || Contains(lower, "cargo") then WithPosition(TextPlaceholder)
      else AllEmployees;
    Render(i)
  }

  /** The heuristic reads the question without regard to case. */
  lemma HeuristicsIgnoreCase(a: string, b: string)
    requires Lower(a) == Lower(b)
    ensures BasicHeuristics(a) == BasicHeuristics(b)
  {
  }

  /** A keyword earlier in the order wins over every later one. */
  lemma HeuristicsFirstMatch(question: string, k: nat)
    requires k < |HeuristicKeywords| && Contains(Lower(question), HeuristicKeywords[k])
    requires forall j | 0 <= j < k :: !Contains(Lower(question), HeuristicKeywords[j])
    ensures BasicHeuristics(question) == [
      DepartmentQuery(NamePlaceholder), InactiveQuery, VacationQuery,
      PositionQuery(TextPlaceholder), PositionQuery(TextPlaceholder)][k]
  {
    if k == 1 {
      assert !Contains(Lower(question), HeuristicKeywords[0]);
    } else if k == 2 {
      assert !Contains(Lower(question), HeuristicKeywords[0]);
      assert !Contains(Lower(question), HeuristicKeywords[1]);
    } else if k == 3 {
      assert !Contains(Lower(question), HeuristicKeywords[0]);
      assert !Contains(Lower(question), HeuristicKeywords[1]);
      assert !Contains(Lower(question), HeuristicKeywords[2]);
    } else if k == 4 {
      assert !Contains(Lower(question), HeuristicKeywords[0]);
      assert !Contains(Lower(question), HeuristicKeywords[1]);
      assert !Contains(Lower(question), HeuristicKeywords[2]);
      assert !Contains(Lower(question), HeuristicKeywords[3]);
    }
  }

  /* ------------------------------------------------------------------ */
  /* Tags of the external classifier                                      */
  /* ------------------------------------------------------------------ */

  /** The answer the prompt asks the classifier to give for an intent. */
  function RenderTag(i: Intent): string {
    match i
    case AllEmployees => "TODO"
    case InStatus(s) => "ESTADO" + StatusTagSuffix(s)
    case InDepartment(name) => Quoted("DEPARTAMENTO:", name)
    case WithPosition(text) => Quoted("CARGO:", text)
  }

  function StatusTagSuffix(s: EmployeeStatus): string {
    match s
    case Inactive => ":INACTIVO"
    case Vacation => ":VACACIONES"
    case Active => ":ACTIVO"
  }

  /** `ExtractQuoted`: the characters strictly between the first and the
      last double quote, or "" unless there are two of them. */
  function ExtractQuoted(text: string): (r: string)
    ensures multiset(text)['"'] < 2 ==> r == []
    ensures r == [] || |r| + 2 <= |text|
    ensures Upper(text) == text ==> Upper(r) == r
  {
    var start := IndexOfChar(text, '"');
    var end := LastIndexOfChar(text, '"');
    if start >= 0 && end > start then
      TwoOccurrences(text, '"', start, end);
      UpperSlice(text, start + 1, end);
      text[start + 1..end]
    else
      []
  }

  /** Text outside the outermost quotes does not matter, and quotes inside
      them are kept. */
  lemma ExtractQuotedBetween(a: string, m: string, b: string)
    requires '"' !in a && '"' !in b
    ensures ExtractQuoted(a + "\"" + m + "\"" + b) == m
  {
    var s := a + ['"'] + m + ['"'] + b;
    FirstAndLastChar(a, m, b, '"');
    assert ExtractQuoted(s) == s[|a| + 1..|a| + 1 + |m|];
  }

  /** The value of a quoted parameter is read back whole. */
  lemma ExtractQuotedOf(prefix: string, value: string)
    requires '"' !in prefix
    ensures ExtractQuoted(Quoted(prefix, value)) == value
  {
    ExtractQuotedBetween(prefix, value, "");
    assert Quoted(prefix, value) == prefix + "\"" + value + "\"" + "";
  }

  /** `MapToCanonical`: the trimmed, upper-cased tag selects the canonical
      query by its prefix; a department or position tag carries the quoted
      text, which is therefore upper case. */
  function MapToCanonical(aiText: string): (r: string)
    ensures exists i: Intent :: r == Render(i) && IsUpperIntent(i)
  {
    UpperIdempotent(Trim(aiText));
    Render(TagIntent(Upper(Trim(aiText))))
  }

  /** The intent an upper-cased, trimmed tag names, decided by its prefix. */
  function TagIntent(text: string): (i: Intent)
    ensures Upper(text) == text ==> IsUpperIntent(i)
  {
    if StartsWith(text, "DEPARTAMENTO") then InDepartment(ExtractQuoted(text))
    else if StartsWith(text, "ESTADO") then
      if Contains(text, "INACTIVO") then InStatus(Inactive)
      else if Contains(text, "VACACION") then InStatus(Vacation)
      else InStatus(Active)
    else if StartsWith(text, "CARGO") then WithPosition(ExtractQuoted(text))
    else AllEmployees
  }

  /** A tag that begins and ends with a visible character is not trimmed. */
  lemma UntrimmedTag(tag: string)
    requires tag != [] && !IsWhiteSpace(tag[0]) && !IsWhiteSpace(tag[|tag| - 1])
    ensures Trim(tag) == tag
  {
    TrimWhereInner([], tag, [], IsWhiteSpace);
    assert [] + tag + [] == tag;
  }

  lemma NotStartsWith(s: string, p: string)
    requires s != [] && p != [] && s[0] != p[0]
    ensures !StartsWith(s, p)
  {
    if |p| <= |s| {
      assert s[0..|p|][0] == s[0];
    }
  }

  /** After "ESTADO", an INACTIVO anywhere wins over a VACACION anywhere, and
      a tag with neither means active. */
  lemma StatusTagPrecedence(rest: string)
    requires rest == [] || !IsWhiteSpace(rest[|rest| - 1])
    ensures Contains(Upper(rest), "INACTIVO") ==>
      MapToCanonical("ESTADO" + rest) == InactiveQuery
    ensures !Contains(Upper(rest), "INACTIVO") && Contains(Upper(rest), "VACACION") ==>
      MapToCanonical("ESTADO" + rest) == VacationQuery
    ensures !Contains(Upper(rest), "INACTIVO") && !Contains(Upper(rest), "VACACION") ==>
      MapToCanonical("ESTADO" + rest) == ActiveQuery
  {
    StatusTagText(rest);
    MapToCanonicalOf("ESTADO" + rest, "ESTADO" + Upper(rest));
    StatusTagIntent(Upper(rest));
  }

  lemma StatusTagText(rest: string)
    requires rest == [] || !IsWhiteSpace(rest[|rest| - 1])
    ensures Upper(Trim("ESTADO" + rest)) == "ESTADO" + Upper(rest)
  {
    var tag := "ESTADO" + rest;
    assert tag[0] == 'E' && tag[|tag| - 1] == if rest == [] then 'O' else rest[|rest| - 1];
    UntrimmedTag(tag);
    UpperAppend("ESTADO", rest);
  }

  lemma StatusTagIntent(u: string)
    ensures TagIntent("ESTADO" + u) ==
      if Contains(u, "INACTIVO") then InStatus(Inactive)
      else if Contains(u, "VACACION") then InStatus(Vacation)
      else InStatus(Active)
  {
    var text := "ESTADO" + u;
    NotStartsWith(text, "DEPARTAMENTO");
    assert text[..6] == "ESTADO";
    ContainsAfter("ESTADO", u, "INACTIVO");
    ContainsAfter("ESTADO", u, "VACACION");
  }

  /** The prompt's contract, decoded: every tag shape the prompt lists maps
      back to the canonical query of its intent, with the parameter upper-cased
      (a parameter must not itself hold a double quote). */
  lemma TagRoundTrip(i: Intent)
    requires i.InDepartment? ==> '"' !in i.name
    requires i.WithPosition? ==> '"' !in i.text
    ensures MapToCanonical(RenderTag(i)) == Render(UpperIntent(i))
  {
    match i
    case InDepartment(name) => DepartmentTagRoundTrip(name);
    case WithPosition(text) => PositionTagRoundTrip(text);
    case InStatus(s) => StatusTagRoundTrip(s);
    case AllEmployees => TotalTagRoundTrip();
  }

  /** The tag "TODO" maps to the total query. */
  lemma TotalTagRoundTrip()
    ensures MapToCanonical(RenderTag(AllEmployees)) == TotalQuery
  {
    var tag := RenderTag(AllEmployees);
    TotalTagText(tag);
    MapToCanonicalOf(tag, tag);
    NotStartsWith(tag, "DEPARTAMENTO");
    NotStartsWith(tag, "ESTADO");
    NotStartsWith(tag, "CARGO");
  }

  lemma TotalTagText(tag: string)
    requires tag == "TODO"
    ensures Upper(Trim(tag)) == tag
  {
    UntrimmedTag(tag);
    assert Upper(tag) == tag;
  }

  /** `MapToCanonical` is decided by the trimmed, upper-cased text. */
  lemma MapToCanonicalOf(aiText: string, text: string)
    requires Upper(Trim(aiText)) == text
    ensures MapToCanonical(aiText) == Render(TagIntent(text))
  {
  }

  /** The prefix of the trimmed, upper-cased reply decides the query: the
      quoted value is embedded upper-cased for a department or position, a
      status reply is read by the words INACTIVO and VACACION, and a
      reply with none of the three prefixes, "TODO" included, asks for the
      total. */
  lemma MapToCanonicalByPrefix(aiText: string)
    ensures var t := Upper(Trim(aiText));
      && (StartsWith(t, "DEPARTAMENTO") ==>
            MapToCanonical(aiText) == DepartmentQuery(ExtractQuoted(t)) && Upper(ExtractQuoted(t)) == ExtractQuoted(t))
      && (!StartsWith(t, "DEPARTAMENTO") && StartsWith(t, "ESTADO") ==>
            MapToCanonical(aiText) ==
              if Contains(t, "INACTIVO") then InactiveQuery
              else if Contains(t, "VACACION") then VacationQuery
              else ActiveQuery)
      && (!StartsWith(t, "DEPARTAMENTO") && !StartsWith(t, "ESTADO") && StartsWith(t, "CARGO") ==>
            MapToCanonical(aiText) == PositionQuery(ExtractQuoted(t)) && Upper(ExtractQuoted(t)) == ExtractQuoted(t))
      && (!StartsWith(t, "DEPARTAMENTO") && !StartsWith(t, "ESTADO") && !StartsWith(t, "CARGO") ==>
            MapToCanonical(aiText) == TotalQuery)
  {
    var t := Upper(Trim(aiText));
    UpperIdempotent(Trim(aiText));
    MapToCanonicalOf(aiText, t);
  }

  /** A tag `prefix"param"` whose prefix is upper case and has no quote is
      read as its prefix and the upper-cased parameter. */
  lemma QuotedTag(prefix: string, param: string)
    requires prefix != [] && !IsWhiteSpace(prefix[0]) && Upper(prefix) == prefix && '"' !in prefix
    requires '"' !in param
    ensures Upper(Trim(Quoted(prefix, param))) == Quoted(prefix, Upper(param))
    ensures ExtractQuoted(Quoted(prefix, Upper(param))) == Upper(param)
  {
    QuotedTagTrim(prefix, param);
    QuotedUpper(prefix, param);
    ExtractQuotedOf(prefix, Upper(param));
  }

  lemma QuotedTagTrim(prefix: string, param: string)
    requires prefix != [] && !IsWhiteSpace(prefix[0])
    ensures Trim(Quoted(prefix, param)) == Quoted(prefix, param)
  {
    var tag := Quoted(prefix, param);
    assert tag[0] == prefix[0] && tag[|tag| - 1] == '"';
    UntrimmedTag(tag);
  }

  lemma QuotedUpper(prefix: string, param: string)
    requires Upper(prefix) == prefix
    ensures Upper(Quoted(prefix, param)) == Quoted(prefix, Upper(param))
  {
    UpperAppend(prefix, "\"");
    UpperAppend(prefix + "\"", param);
    UpperAppend(prefix + "\"" + param, "\"");
  }

  lemma DepartmentTagRoundTrip(name: string)
    requires '"' !in name
    ensures MapToCanonical(RenderTag(InDepartment(name))) == DepartmentQuery(Upper(name))
  {
    DepartmentTagText(name);
    DepartmentTagIntent(name);
    MapToCanonicalOf(RenderTag(InDepartment(name)), Quoted("DEPARTAMENTO:", Upper(name)));
  }

  lemma DepartmentTagText(name: string)
    requires '"' !in name
    ensures Upper(Trim(RenderTag(InDepartment(name)))) == Quoted("DEPARTAMENTO:", Upper(name))
  {
    QuotedTag("DEPARTAMENTO:", name);
  }

  lemma DepartmentTagIntent(name: string)
    requires '"' !in name
    ensures TagIntent(Quoted("DEPARTAMENTO:", Upper(name))) == InDepartment(Upper(name))
  {
    var text := Quoted("DEPARTAMENTO:", Upper(name));
    assert text[..12] == "DEPARTAMENTO";
    CaseKeepsBlankAndQuotes(name);
    ExtractQuotedOf("DEPARTAMENTO:", Upper(name));
  }

  lemma PositionTagRoundTrip(text: string)
    requires '"' !in text
    ensures MapToCanonical(RenderTag(WithPosition(text))) == PositionQuery(Upper(text))
  {
    PositionTagText(text);
    PositionTagIntent(text);
    MapToCanonicalOf(RenderTag(WithPosition(text)), Quoted("CARGO:", Upper(text)));
  }

  lemma PositionTagText(text: string)
    requires '"' !in text
    ensures Upper(Trim(RenderTag(WithPosition(text)))) == Quoted("CARGO:", Upper(text))
  {
    QuotedTag("CARGO:", text);
  }

  lemma PositionTagIntent(text: string)
    requires '"' !in text
    ensures TagIntent(Quoted("CARGO:", Upper(text))) == WithPosition(Upper(text))
  {
    var upper := Quoted("CARGO:", Upper(text));
    NotStartsWith(upper, "DEPARTAMENTO");
    NotStartsWith(upper, "ESTADO");
    assert upper[..5] == "CARGO";
    CaseKeepsBlankAndQuotes(text);
    ExtractQuotedOf("CARGO:", Upper(text));
  }

  lemma StatusTagRoundTrip(s: EmployeeStatus)
    ensures MapToCanonical(RenderTag(InStatus(s))) == Render(InStatus(s))
  {
    var rest := StatusTagSuffix(s);
    StatusTagPrecedence(rest);
    StatusTagWords(s);
  }

  /** Which of INACTIVO and VACACION each status tag holds after "ESTADO". */
  lemma StatusTagWords(s: EmployeeStatus)
    ensures var rest := Upper(StatusTagSuffix(s));
      && (Contains(rest, "INACTIVO") <==> s == Inactive)
      && (Contains(rest, "VACACION") <==> s == Vacation)
  {
    match s
    case Inactive => InactiveTagWords(Upper(StatusTagSuffix(s)));
    case Vacation => VacationTagWords(Upper(StatusTagSuffix(s)));
    case Active => ActiveTagWords(Upper(StatusTagSuffix(s)));
  }

  lemma InactiveTagWords(rest: string)
    requires rest == ":INACTIVO"
    ensures Contains(rest, "INACTIVO") && !Contains(rest, "VACACION")
  {
    assert rest[1..] == "INACTIVO";
    ContainsAt(rest, "INACTIVO", 1);
    assert rest == ":INA" + "CTIVO";
    NotContainsSplitAt(":INA", "CTIVO", "VACACION", 2);
  }

  lemma VacationTagWords(rest: string)
    requires rest == ":VACACIONES"
    ensures !Contains(rest, "INACTIVO") && Contains(rest, "VACACION")
  {
    assert rest[1..9] == "VACACION";
    ContainsAt(rest, "VACACION", 1);
    NotContainsMissingChar(rest, "INACTIVO", 'T');
  }

  lemma ActiveTagWords(rest: string)
    requires rest == ":ACTIVO"
    ensures !Contains(rest, "INACTIVO") && !Contains(rest, "VACACION")
  {
    NotContainsShort(rest, "INACTIVO");
    NotContainsShort(rest, "VACACION");
  }

  /* ------------------------------------------------------------------ */
  /* Prompt and request                                                   */
  /* ------------------------------------------------------------------ */

  /** A line of the prompt that shows a tag shape. */
  function ShapeLine(shape: string): string {
    "- " + shape + "\n"
  }

  /** A worked example of the prompt: a question and the tag expected for it. */
  function ExampleLine(question: string, i: Intent): string {
    "\"" + question + "\" -> " + RenderTag(i) + "\n"
  }

  const ExampleDepartment: Intent := InDepartment("Tecnología")
  const ExampleStatus: Intent := InStatus(Inactive)
  const ExamplePosition: Intent := WithPosition("auxiliar")

  const PromptIntro: string :=
    "\nEres un clasificador. Dada una pregunta en español sobre empleados, responde SOLO con uno de estos formatos:\n"

  const DepartmentShape: string := RenderTag(InDepartment("<nombre_departamento>"))
  const PositionShape: string := RenderTag(WithPosition("<texto_cargo>"))

  /** The status tags, on one line. */
  const StatusShapes: string :=
    RenderTag(InStatus(Inactive)) + " | " + RenderTag(InStatus(Vacation)) + " | " + RenderTag(InStatus(Active))

  const PromptExamples: string :=
    "\nEjemplos:\n"
    + ExampleLine("¿Cuántos empleados pertenecen al departamento de Tecnología?", ExampleDepartment)
    + ExampleLine("¿Cuántos están inactivos?", ExampleStatus)
    + ExampleLine("¿Cuántos auxiliares hay?", ExamplePosition)
    + ExampleLine("Total de empleados", AllEmployees)

  /** The instructions in front of the question: the four tag shapes, the
      worked examples, and the label of the question. */
  const PromptHead: string :=
    PromptIntro + ShapeLine(DepartmentShape) + ShapeLine(StatusShapes) + ShapeLine(PositionShape)
    + ShapeLine(RenderTag(AllEmployees)) + PromptExamples + "\nPregunta: "

  const PromptTail: string := "\nResponde solo con el formato indicado, sin explicaciones."

  /** `BuildPrompt`: the fixed instructions, then the question word for word,
      then the closing instruction. */
  function BuildPrompt(question: string): (r: string)
    ensures |r| == |PromptHead| + |question| + |PromptTail|
    ensures r[..|PromptHead|] == PromptHead
    ensures r[|PromptHead|..|PromptHead| + |question|] == question
    ensures r[|PromptHead| + |question|..] == PromptTail
  {
    PromptHead + question + PromptTail
  }

  /** A shape line contains its shape. */
  lemma ShapeLineContains(shape: string)
    ensures Contains(ShapeLine(shape), shape)
  {
    ContainsInMiddle("- ", shape, "\n");
  }

  /** What a piece of the prompt contains, the prompt contains. */
  lemma ContainsThroughPrompt(x: string, t: string, a: string, b: string, c: string, e: string)
    requires Contains(x, t)
    ensures Contains(x + a + b + c + e, t)
  {
    ContainsExtend(x, t, a);
    ContainsExtend(x + a, t, b);
    ContainsExtend(x + a + b, t, c);
    ContainsExtend(x + a + b + c, t, e);
  }

  /** Each status tag is on the status line. */
  lemma StatusLineContains(a: string, b: string, c: string)
    ensures var line := ShapeLine(a + " | " + b + " | " + c);
            Contains(line, a) && Contains(line, b) && Contains(line, c)
  {
    var st := a + " | " + b + " | " + c;
    ShapeLineContains(st);
    ContainsAt(a, a, 0);
    ContainsThroughPrompt(a, a, " | ", b, " | ", c);
    ContainsInMiddle(a + " | ", b, " | ");
    ContainsExtend(a + " | " + b + " | ", b, c);
    ContainsAt(c, c, 0);
    ContainsExtend(c, c, a + " | " + b + " | ");
    ContainsTransitive(ShapeLine(st), st, a);
    ContainsTransitive(ShapeLine(st), st, b);
    ContainsTransitive(ShapeLine(st), st, c);
  }

  /** In a prompt laid out as `BuildPrompt` lays it out, a text found in one
      of the shape lines is found in the prompt. */
  lemma ShapeInPrompt(intro: string, d: string, st: string, p: string, all: string,
                      examples: string, lbl: string, question: string, tail: string, t: string)
    requires Contains(ShapeLine(d), t) || Contains(ShapeLine(st), t) || Contains(ShapeLine(p), t)
             || Contains(ShapeLine(all), t)
    ensures Contains(intro + ShapeLine(d) + ShapeLine(st) + ShapeLine(p) + ShapeLine(all)
                     + examples + lbl + question + tail, t)
  {
    var s1 := intro + ShapeLine(d);
    var s2 := s1 + ShapeLine(st);
    var s3 := s2 + ShapeLine(p);
    var s4 := s3 + ShapeLine(all);
    if Contains(ShapeLine(d), t) {
      ContainsExtend(ShapeLine(d), t, intro);
      ContainsExtend(s1, t, ShapeLine(st));
    } else if Contains(ShapeLine(st), t) {
      ContainsExtend(ShapeLine(st), t, s1);
    }
    if Contains(ShapeLine(d), t) || Contains(ShapeLine(st), t) {
      ContainsExtend(s2, t, ShapeLine(p));
    } else if Contains(ShapeLine(p), t) {
      ContainsExtend(ShapeLine(p), t, s2);
    }
    if Contains(s3, t) {
      ContainsExtend(s3, t, ShapeLine(all));
    } else {
      ContainsExtend(ShapeLine(all), t, s3);
    }
    ContainsThroughPrompt(s4, t, examples, lbl, question, tail);
  }

  /** Every shape, and every tag of the status line, is found in such a
      prompt, whatever its pieces are. */
  lemma ShapesInPrompt(intro: string, d: string, a: string, b: string, c: string, p: string, all: string,
                       examples: string, lbl: string, question: string, tail: string)
    ensures var h := intro + ShapeLine(d) + ShapeLine(a + " | " + b + " | " + c) + ShapeLine(p)
                     + ShapeLine(all) + examples + lbl + question + tail;
            Contains(h, d) && Contains(h, a) && Contains(h, b) && Contains(h, c) && Contains(h, p)
            && Contains(h, all)
  {
    var st := a + " | " + b + " | " + c;
    ShapeLineContains(d);
    StatusLineContains(a, b, c);
    ShapeLineContains(p);
    ShapeLineContains(all);
    ShapeInPrompt(intro, d, st, p, all, examples, lbl, question, tail, d);
    ShapeInPrompt(intro, d, st, p, all, examples, lbl, question, tail, a);
    ShapeInPrompt(intro, d, st, p, all, examples, lbl, question, tail, b);
    ShapeInPrompt(intro, d, st, p, all, examples, lbl, question, tail, c);
    ShapeInPrompt(intro, d, st, p, all, examples, lbl, question, tail, p);
    ShapeInPrompt(intro, d, st, p, all, examples, lbl, question, tail, all);
  }

  /** The prompt shows the classifier the tag shape of every kind of intent
      and every status. */
  lemma PromptListsTags(question: string)
    ensures Contains(BuildPrompt(question), DepartmentShape)
    ensures Contains(BuildPrompt(question), RenderTag(InStatus(Inactive)))
    ensures Contains(BuildPrompt(question), RenderTag(InStatus(Vacation)))
    ensures Contains(BuildPrompt(question), RenderTag(InStatus(Active)))
    ensures Contains(BuildPrompt(question), PositionShape)
    ensures Contains(BuildPrompt(question), RenderTag(AllEmployees))
  {
    ShapesInPrompt(PromptIntro, DepartmentShape, RenderTag(InStatus(Inactive)), RenderTag(InStatus(Vacation)),
                   RenderTag(InStatus(Active)), PositionShape, RenderTag(AllEmployees), PromptExamples,
                   "\nPregunta: ", question, PromptTail);
  }

  /** `Uri`: the key is appended as a query parameter, after "?" when the URL
      has none yet and after "&" when it already has one. */
  function RequestUri(apiUrl: string, apiKey: string): (r: string)
    ensures |r| == |apiUrl| + 5 + |apiKey|
    ensures r[..|apiUrl|] == apiUrl && r[|apiUrl| + 1..] == "key=" + apiKey
    ensures r[|apiUrl|] == (if '?' in apiUrl then '&' else '?')
    ensures '?' in r
  {
    ContainsChar(apiUrl, '?');
    var r := if Contains(apiUrl, "?") then apiUrl + "&key=" + apiKey else apiUrl + "?key=" + apiKey;
    assert r[|apiUrl| + 1..] == "key=" + apiKey;
    assert '?' in apiUrl ==> r[..|apiUrl|] == apiUrl;
    r
  }

  /* ------------------------------------------------------------------ */
  /* Routing                                                              */
  /* ------------------------------------------------------------------ */

  /** The two configuration entries; `None` is a missing entry. */
  datatype Configuration = Configuration(apiUrl: Option<string>, apiKey: Option<string>)

  predicate IsConfigured(config: Configuration) {
    config.apiUrl.Some? && !IsBlank(config.apiUrl.value)
    && config.apiKey.Some? && !IsBlank(config.apiKey.value)
  }

  /** What the HTTP call produced: it threw (a transport failure or a
      cancellation), or it answered with a status that is a success or not
      and, for the root provider, the text extracted from the body. */
  datatype HttpReply = Thrown | Replied(success: bool, text: string)

  datatype Request = Request(uri: string, prompt: string)

  /** The query, and the request sent for it if one was. */
  datatype Outcome = Outcome(request: Option<Request>, query: string)

  /** The exception that the call threw, passed on to the caller. */
  datatype Fault = TransportFailure

  /** The classifier's text is used only when the provider is configured, the
      call succeeded and the text is not blank. */
  predicate UsesClassifier(config: Configuration, reply: HttpReply) {
    IsConfigured(config) && reply.Replied? && reply.success && !IsBlank(reply.text)
  }

  /** `BuildSqlLikeQueryAsync`. */
  function BuildSqlLikeQuery(question: string, config: Configuration, reply: HttpReply): (r: Result<Outcome, Fault>)
    ensures !IsConfigured(config) ==> r == Success(Outcome(None, BasicHeuristics(question)))
    ensures IsConfigured(config) ==> (r.Failure? <==> reply.Thrown?)
    ensures IsConfigured(config) && r.Success? ==>
      r.value.request == Some(Request(RequestUri(config.apiUrl.value, config.apiKey.value), BuildPrompt(question)))
    ensures r.Success? ==> IsCanonical(r.value.query)
    ensures r.Success? ==> r.value.query ==
                           if UsesClassifier(config, reply) then MapToCanonical(reply.text)
                           else BasicHeuristics(question)
  {
    if !IsConfigured(config) then
      Success(Outcome(None, BasicHeuristics(question)))
    else
      var request := Request(RequestUri(config.apiUrl.value, config.apiKey.value), BuildPrompt(question));
      match reply
      case Thrown => Failure(TransportFailure)
      case Replied(success, text) =>
        if !success || IsBlank(text) then Success(Outcome(Some(request), BasicHeuristics(question)))
        else Success(Outcome(Some(request), MapToCanonical(text)))
  }
}
