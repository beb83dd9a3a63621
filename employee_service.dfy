/** The resolver of the natural-language count queries (`AskAiAsync`): it
    lower-cases the canonical query and the question, picks at most one count
    of the repository by a fixed precedence (position, then department, then
    status, then the total), and answers with the question, the canonical
    query and the decimal count. */
module EmployeeService {
  import opened Wrappers
  import opened Text
  import opened Employees
  import opened AiProvider

  /* ------------------------------------------------------------------ */
  /* The count call                                                       */
  /* ------------------------------------------------------------------ */

  /** The one repository count the resolver asks for, or none. */
  datatype CountCall =
    | NoCall
    | CountAll
    | CountStatus(status: EmployeeStatus)
    | CountDepartment(name: string)
    | CountPosition(text: string)

  /** The value of `result` after the call: 0 when no call is made. */
  function Eval(call: CountCall, es: seq<Employee>): (n: nat)
    ensures n <= |es|
    ensures call == NoCall ==> n == 0
    ensures call == CountAll ==> n == |es|
  {
    match call
    case NoCall => 0
    case CountAll => Count(es)
    case CountStatus(s) => CountByStatus(es, s)
    case CountDepartment(name) =>
      CountWhereMonotonic(es, DepartmentNamed(Lower(name)), HasDepartment);
      CountByDepartmentName(es, name)
    case CountPosition(text) => CountByPosition(es, text)
  }

  /** `AiQueryResponse`. */
  datatype AiQueryResponse = AiQueryResponse(question: string, sqlLikeQuery: string, result: string)

  /* ------------------------------------------------------------------ */
  /* Parameters of the query                                              */
  /* ------------------------------------------------------------------ */

  /** `ExtractQuotedValue`: the slice from the first double quote up to (not
      including) the last one, with double quotes trimmed from both ends; ""
      unless there are two quotes. */
  function ExtractQuotedValue(text: string): (r: string)
    ensures multiset(text)['"'] < 2 ==> r == []
    ensures r == [] || (r[0] != '"' && r[|r| - 1] != '"')
  {
    var start := IndexOfChar(text, '"');
    var end := LastIndexOfChar(text, '"');
    if start >= 0 && end > start then
      TwoOccurrences(text, '"', start, end);
      TrimWhere(text[start..end], IsQuote)
    else
      []
  }

  /** The value is what the provider's `ExtractQuoted` gives, less any quotes
      at its ends: the opening quote kept in the slice is trimmed away. */
  lemma ExtractQuotedValueTrims(text: string)
    ensures ExtractQuotedValue(text) == TrimWhere(ExtractQuoted(text), IsQuote)
  {
    var start := IndexOfChar(text, '"');
    var end := LastIndexOfChar(text, '"');
    if start >= 0 && end > start {
      assert text[start..end] == [text[start]] + text[start + 1..end];
      TrimWhereDropsFirst('"', text[start + 1..end], IsQuote);
    }
  }

  /** The value of a quoted parameter without quotes of its own is read back
      whole. */
  lemma ExtractQuotedValueOf(prefix: string, value: string)
    requires '"' !in prefix && '"' !in value
    ensures ExtractQuotedValue(Quoted(prefix, value)) == value
  {
    ExtractQuotedOf(prefix, value);
    ExtractQuotedValueTrims(Quoted(prefix, value));
    TrimWhereKeeps(value, IsQuote);
  }

  /** The value is the text between the first and the last double quote,
      with the quotes at its ends trimmed away. */
  lemma ExtractQuotedValueBetween(a: string, m: string, b: string)
    requires '"' !in a && '"' !in b
    ensures ExtractQuotedValue(a + "\"" + m + "\"" + b) == TrimWhere(m, IsQuote)
  {
    ExtractQuotedBetween(a, m, b);
    ExtractQuotedValueTrims(a + "\"" + m + "\"" + b);
  }

  /** Lower-casing a query with a quoted part lower-cases the part between
      its first and last quote. */
  lemma LowerAroundQuotes(a: string, m: string, b: string)
    requires '"' !in a && '"' !in b
    ensures Lower(a + "\"" + m + "\"" + b) == Lower(a) + "\"" + Lower(m) + "\"" + Lower(b)
    ensures '"' !in Lower(a) && '"' !in Lower(b)
  {
    LowerQuoted(a, m);
    LowerAppend(a + "\"" + m + "\"", b);
    CaseKeepsBlankAndQuotes(a);
    CaseKeepsBlankAndQuotes(b);
  }

  const DepartmentMarker: string := "departamento de"

  /** The words after the first occurrence of `marker`, or none without
      it. */
  function WordsAfter(question: string, marker: string): (words: seq<string>)
    ensures !Contains(question, marker) ==> words == []
  {
    var idx := IndexOf(question, marker);
    if idx >= 0 then SplitOnSpace(Trim(question[idx + |marker|..])) else []
  }

  /** `ExtractDepartmentFromQuestion`: after the first "departamento de", the
      first word, or the first two words joined by one space when the second
      is longer than three characters, with `.?!,;` trimmed from both ends;
      without a word there, a department named by a keyword, or "". */
  function ExtractDepartmentFromQuestion(question: string): (r: string)
    ensures r == [] || (!IsEndPunctuation(r[0]) && !IsEndPunctuation(r[|r| - 1]))
    ensures !Contains(question, DepartmentMarker) && Contains(question, "tecnolog") ==> r == "tecnología"
    ensures (!Contains(question, DepartmentMarker) && !Contains(question, "tecnolog")
             && !Contains(question, "recursos humanos") && !Contains(question, "operacion")
             && !Contains(question, "operación")) ==> r == []
  {
    var parts := WordsAfter(question, DepartmentMarker);
    if |parts| > 0 then
      var candidate := if |parts| > 1 && |parts[1]| > 3 then parts[0] + " " + parts[1] else parts[0];
      TrimWhere(candidate, IsEndPunctuation)
    else if Contains(question, "tecnolog") then "tecnología"
    else if Contains(question, "recursos humanos") then "recursos humanos"
    else if Contains(question, "operacion") || Contains(question, "operación") then "operaciones"
    else []
  }

  predicate HasNoWhiteSpace(w: string) {
    forall i | 0 <= i < |w| :: !IsWhiteSpace(w[i])
  }

  lemma NoSpaceIn(w: string)
    requires HasNoWhiteSpace(w)
    ensures ' ' !in w
  {
    forall i | 0 <= i < |w| ensures w[i] != ' ' {
      assert !IsWhiteSpace(w[i]);
    }
  }

  /** The words after the first marker are those of the text after it, read
      by `Trim` and `Split`. */
  lemma WordsAfterFirst(pre: string, marker: string, m: string)
    requires marker != [] && !Contains(pre + marker[..|marker| - 1], marker)
    requires m != [] && !IsWhiteSpace(m[0]) && !IsWhiteSpace(m[|m| - 1])
    ensures WordsAfter(pre + marker + (" " + m), marker) == SplitOnSpace(m)
  {
    var q := pre + marker + (" " + m);
    FirstOccurrence(pre, marker, " " + m);
    assert q[|pre| + |marker|..] == " " + m;
    TrimLeadingSpace(m);
  }

  /** One word after the marker is the department, less its end punctuation. */
  lemma DepartmentFromOneWord(pre: string, w: string)
    requires !Contains(pre + DepartmentMarker[..|DepartmentMarker| - 1], DepartmentMarker)
    requires w != [] && HasNoWhiteSpace(w)
    ensures ExtractDepartmentFromQuestion(pre + DepartmentMarker + (" " + w)) == TrimWhere(w, IsEndPunctuation)
  {
    NoSpaceIn(w);
    SplitOneWord(w);
    WordsAfterFirst(pre, DepartmentMarker, w);
  }

  /** With at least two words after the marker, the second word is kept only
      when it is longer than three characters. */
  lemma DepartmentFromTail(pre: string, m: string)
    requires !Contains(pre + DepartmentMarker[..|DepartmentMarker| - 1], DepartmentMarker)
    requires m != [] && !IsWhiteSpace(m[0]) && !IsWhiteSpace(m[|m| - 1])
    requires |SplitOnSpace(m)| >= 2
    ensures var parts := SplitOnSpace(m);
      ExtractDepartmentFromQuestion(pre + DepartmentMarker + (" " + m))
      == TrimWhere(if |parts[1]| > 3 then parts[0] + " " + parts[1] else parts[0], IsEndPunctuation)
  {
    WordsAfterFirst(pre, DepartmentMarker, m);
  }

  /** Whatever follows the first marker, tabs and runs of blanks included:
      the words of the trimmed tail decide the name, and a tail without words
      falls back to the keywords of the whole question. */
  lemma DepartmentFromAnyTail(pre: string, tail: string)
    requires !Contains(pre + DepartmentMarker[..|DepartmentMarker| - 1], DepartmentMarker)
    ensures var q := pre + DepartmentMarker + tail;
      var parts := SplitOnSpace(Trim(tail));
      ExtractDepartmentFromQuestion(q) ==
        if |parts| > 0 then
          TrimWhere(if |parts| > 1 && |parts[1]| > 3 then parts[0] + " " + parts[1] else parts[0],
                    IsEndPunctuation)
        else if Contains(q, "tecnolog") then "tecnología"
        else if Contains(q, "recursos humanos") then "recursos humanos"
        else if Contains(q, "operacion") || Contains(q, "operación") then "operaciones"
        else []
  {
    var q := pre + DepartmentMarker + tail;
    FirstOccurrence(pre, DepartmentMarker, tail);
    assert q[|pre| + |DepartmentMarker|..] == tail;
  }

  /** The first two words after the marker, separated by any number of
      spaces and followed by any further text: the second word is kept only
      when it is longer than three characters, and the end punctuation is
      trimmed from the result. */
  lemma DepartmentFromTwoWords(pre: string, w1: string, gap: string, w2: string, rest: string)
    requires !Contains(pre + DepartmentMarker[..|DepartmentMarker| - 1], DepartmentMarker)
    requires w1 != [] && HasNoWhiteSpace(w1) && w2 != [] && HasNoWhiteSpace(w2)
    requires gap != [] && forall i | 0 <= i < |gap| :: gap[i] == ' '
    requires rest == [] || (rest[0] == ' ' && !IsWhiteSpace(rest[|rest| - 1]))
    ensures ExtractDepartmentFromQuestion(pre + DepartmentMarker + (" " + (w1 + gap + w2 + rest)))
         == TrimWhere(if |w2| > 3 then w1 + " " + w2 else w1, IsEndPunctuation)
  {
    var m := w1 + gap + w2 + rest;
    assert m[0] == w1[0];
    assert m[|m| - 1] == if rest == [] then w2[|w2| - 1] else rest[|rest| - 1];
    NoSpaceIn(w1);
    NoSpaceIn(w2);
    SplitLeadingWords(w1, gap, w2, rest);
    DepartmentFromTail(pre, m);
  }

  /** Without "departamento de", the department is read from the first
      keyword found, in the order "tecnolog", "recursos humanos",
      "operacion"/"operación". */
  lemma DepartmentFromKeywords(question: string)
    requires !Contains(question, DepartmentMarker)
    ensures ExtractDepartmentFromQuestion(question) ==
      if Contains(question, "tecnolog") then "tecnología"
      else if Contains(question, "recursos humanos") then "recursos humanos"
      else if Contains(question, "operacion") || Contains(question, "operación") then "operaciones"
      else []
  {
    assert WordsAfter(question, DepartmentMarker) == [];
  }

  /* ------------------------------------------------------------------ */
  /* Keywords of the canonical queries                                    */
  /* ------------------------------------------------------------------ */

  /** A pattern of the prefix is a pattern of the quoted query. */
  lemma QuotedHas(prefix: string, value: string, p: string)
    requires Contains(prefix, p)
    ensures Contains(Quoted(prefix, value), p)
  {
    ContainsExtend(prefix, p, "\"");
    ContainsExtend(prefix + "\"", p, value);
    ContainsExtend(prefix + "\"" + value, p, "\"");
  }

  /** A quote-free pattern the prefix lacks is in the quoted query exactly
      when it is in the value, which is then not blank. */
  lemma QuotedHasIff(prefix: string, value: string, p: string)
    requires p != [] && '"' !in p && !IsWhiteSpace(p[0]) && !Contains(prefix, p)
    ensures Contains(Quoted(prefix, value), p) <==> Contains(value, p)
    ensures Contains(value, p) ==> !IsBlank(value)
  {
    if Contains(value, p) {
      ContainsExtend(value, p, prefix + "\"");
      ContainsExtend(prefix + "\"" + value, p, "\"");
      ContainsVisible(value, p);
    } else {
      NotContainsJoin(prefix, '"', value, p);
      NotContainsShort([], p);
      NotContainsJoin(prefix + ['"'] + value, '"', [], p);
      assert prefix + ['"'] + value + ['"'] + [] == Quoted(prefix, value);
    }
  }

  /** What the resolver reads in a quoted query whose prefix is lower case. */
  lemma QuotedQueryLower(prefix: string, value: string)
    requires Lower(prefix) == prefix && '"' !in prefix && '"' !in value
    ensures Lower(Quoted(prefix, value)) == Quoted(prefix, Lower(value))
    ensures ExtractQuotedValue(Lower(Quoted(prefix, value))) == Lower(value)
    ensures IsBlank(Lower(value)) == IsBlank(value)
  {
    LowerQuoted(prefix, value);
    CaseKeepsBlankAndQuotes(value);
    ExtractQuotedValueOf(prefix, Lower(value));
  }

  /* Facts about the literal prefixes, one per lemma: each is cheap alone. */

  lemma DepartmentPrefixLower(prefix: string)
    requires prefix == DepartmentQueryPrefix
    ensures Lower(prefix) == prefix
  {
    LowerKeeps(prefix);
  }

  lemma DepartmentPrefixNoQuote(prefix: string)
    requires prefix == DepartmentQueryPrefix
    ensures '"' !in prefix
  {
  }

  lemma DepartmentPrefixHasDepartment(prefix: string)
    requires prefix == DepartmentQueryPrefix
    ensures Contains(prefix, "departamento")
  {
    assert prefix == "contar empleados por " + "departamento" + " ";
    ContainsInMiddle("contar empleados por ", "departamento", " ");
  }

  lemma DepartmentPrefixNoPosition(prefix: string)
    requires prefix == DepartmentQueryPrefix
    ensures !Contains(prefix, "cargo")
  {
    assert 'g' !in prefix;
    NotContainsMissingChar(prefix, "cargo", 'g');
  }

  lemma PositionPrefixLower(prefix: string)
    requires prefix == PositionQueryPrefix
    ensures Lower(prefix) == prefix
  {
    LowerKeeps(prefix);
  }

  lemma PositionPrefixNoQuote(prefix: string)
    requires prefix == PositionQueryPrefix
    ensures '"' !in prefix
  {
  }

  lemma PositionPrefixHasPosition(prefix: string)
    requires prefix == PositionQueryPrefix
    ensures Contains(prefix, "cargo")
  {
    assert prefix == "contar empleados por " + "cargo" + " ";
    ContainsInMiddle("contar empleados por ", "cargo", " ");
  }

  lemma StatusPrefixLower(prefix: string)
    requires prefix == StatusQueryPrefix
    ensures Lower(prefix) == prefix
  {
    LowerKeeps(prefix);
  }

  lemma StatusPrefixLacks(prefix: string)
    requires prefix == StatusQueryPrefix
    ensures '"' !in prefix && 'g' !in prefix
  {
  }

  lemma StatusPrefixHasState(prefix: string)
    requires prefix == StatusQueryPrefix
    ensures Contains(prefix, "estado")
  {
    assert prefix == "contar empleados en " + "estado" + " ";
    ContainsInMiddle("contar empleados en ", "estado", " ");
  }

  /** The only "d" of the prefix that could start "departamento" is
      followed by no "p". */
  lemma StatusQueryNoDepartment(prefix: string, w: string)
    requires prefix == StatusQueryPrefix && 'p' !in w
    ensures !Contains(prefix + w, "departamento")
  {
    var a, b := "contar emplea", "dos en estado ";
    assert prefix + w == a + (b + w);
    ContainsAfter(a, b + w, "departamento");
    NotContainsMissingChar(b + w, "departamento", 'p');
  }

  /** After the prefix, "inactivo" and "vacaciones" can only be found in the
      status word. */
  lemma StatusQueryWordDecides(prefix: string, w: string)
    requires prefix == StatusQueryPrefix
    ensures Contains(prefix + w, "inactivo") <==> Contains(w, "inactivo")
    ensures Contains(prefix + w, "vacaciones") <==> Contains(w, "vacaciones")
  {
    ContainsAfter(prefix, w, "inactivo");
    ContainsAfter(prefix, w, "vacaciones");
  }

  /** A status query names a status and neither a department nor a position;
      it holds "vacaciones" only if its word does. */
  lemma StatusQueryWords(prefix: string, w: string)
    requires prefix == StatusQueryPrefix
    requires 'g' !in w && 'p' !in w && '"' !in w
    ensures var q := prefix + w;
      && Lower(prefix) == prefix && '"' !in q
      && !Contains(q, "cargo") && !Contains(q, "departamento") && Contains(q, "estado")
      && (Contains(q, "vacaciones") <==> Contains(w, "vacaciones"))
      && (Contains(q, "inactivo") <==> Contains(w, "inactivo"))
  {
    StatusPrefixLower(prefix);
    StatusPrefixLacks(prefix);
    NotContainsMissingChar(prefix + w, "cargo", 'g');
    StatusQueryNoDepartment(prefix, w);
    StatusPrefixHasState(prefix);
    ContainsExtend(prefix, "estado", w);
    StatusQueryWordDecides(prefix, w);
  }

  /** The lower-cased words that end the three status queries. */
  lemma InactiveWord(word: string)
    requires word == "Inactivo"
    ensures var w := Lower(word);
      'g' !in w && 'p' !in w && '"' !in w && Contains(w, "inactivo") && !Contains(w, "vacaciones")
  {
    var w := Lower(word);
    assert w == "inactivo";
    ContainsAt(w, "inactivo", 0);
    NotContainsShort(w, "vacaciones");
  }

  lemma VacationWord(word: string)
    requires word == "Vacation"
    ensures var w := Lower(word);
      'g' !in w && 'p' !in w && '"' !in w && !Contains(w, "inactivo") && !Contains(w, "vacaciones")
  {
    var w := Lower(word);
    assert w == "vacation";
    NotContainsSameLength(w, "inactivo");
    NotContainsShort(w, "vacaciones");
  }

  lemma ActiveWord(word: string)
    requires word == "Active"
    ensures var w := Lower(word);
      'g' !in w && 'p' !in w && '"' !in w && !Contains(w, "inactivo") && !Contains(w, "vacaciones")
  {
    var w := Lower(word);
    assert w == "active";
    NotContainsShort(w, "inactivo");
    NotContainsShort(w, "vacaciones");
  }

  lemma TotalQueryLower(q: string)
    requires q == TotalQuery
    ensures Lower(q) == q
  {
    LowerKeeps(q);
  }

  lemma TotalQueryLacks(q: string)
    requires q == TotalQuery
    ensures '"' !in q && 'g' !in q
  {
  }

  lemma TotalQueryNoDepartment(q: string)
    requires q == TotalQuery
    ensures !Contains(q, "departamento")
  {
    assert q == "contar todos los em" + "pleados";
    NotContainsSplitAt("contar todos los em", "pleados", "departamento", 2);
  }

  lemma TotalQueryNoState(q: string)
    requires q == TotalQuery
    ensures !Contains(q, "estado")
  {
    assert q == "contar todos los " + "empleados";
    ContainsAfter("contar todos los ", "empleados", "estado");
    NotContainsMissingChar("empleados", "estado", 't');
  }

  /** The total query names no keyword of the resolver. */
  lemma TotalQueryWords(q: string)
    requires q == TotalQuery
    ensures Lower(q) == q && '"' !in q
    ensures !Contains(q, "cargo") && !Contains(q, "departamento") && !Contains(q, "estado")
  {
    TotalQueryLower(q);
    TotalQueryLacks(q);
    NotContainsMissingChar(q, "cargo", 'g');
    TotalQueryNoDepartment(q);
    TotalQueryNoState(q);
  }

  /* ------------------------------------------------------------------ */
  /* Resolution                                                           */
  /* ------------------------------------------------------------------ */

  /** The count `AskAiAsync` makes for a canonical query and the question. */
  function ResolveCall(query: string, question: string): (c: CountCall)
    ensures Contains(Lower(question), "auxiliar") ==> c.CountPosition?
    ensures c.CountPosition? ==>
      !IsBlank(c.text) && (Contains(Lower(query), "cargo") || Contains(Lower(question), "auxiliar"))
    ensures c.CountDepartment? ==>
      !IsBlank(c.name) && Contains(Lower(query), "departamento")
      && !Contains(Lower(query), "cargo") && !Contains(Lower(question), "auxiliar")
    ensures c.CountStatus? <==>
      Contains(Lower(query), "estado") && !Contains(Lower(query), "departamento")
      && !Contains(Lower(query), "cargo") && !Contains(Lower(question), "auxiliar")
    ensures c.CountStatus? ==>
      c.status == (if Contains(Lower(query), "inactivo") then Inactive
                   else if Contains(Lower(query), "vacaciones") then Vacation
                   else Active)
    ensures c == CountAll <==>
      !Contains(Lower(query), "estado") && !Contains(Lower(query), "departamento")
      && !Contains(Lower(query), "cargo") && !Contains(Lower(question), "auxiliar")
    ensures c == NoCall <==>
      !Contains(Lower(question), "auxiliar") && IsBlank(ExtractQuotedValue(Lower(query)))
      && (Contains(Lower(query), "cargo")
          || (Contains(Lower(query), "departamento") && IsBlank(ExtractDepartmentFromQuestion(Lower(question)))))
  {
    var normalized := Lower(query);
    var questionLower := Lower(question);
    if Contains(normalized, "cargo") || Contains(questionLower, "auxiliar") then
      var role := ExtractQuotedValue(normalized);
      if !IsBlank(role) then CountPosition(role)
      else if Contains(questionLower, "auxiliar") then
        assert !IsWhiteSpace("auxiliar"[0]);
        CountPosition("auxiliar")
      else NoCall
    else if Contains(normalized, "departamento") then
      var quoted := ExtractQuotedValue(normalized);
      var name := if IsBlank(quoted) then ExtractDepartmentFromQuestion(questionLower) else quoted;
      if !IsBlank(name) then CountDepartment(name) else NoCall
    else if Contains(normalized, "estado") then
      if Contains(normalized, "inactivo") then CountStatus(Inactive)
      else if Contains(normalized, "vacaciones") then CountStatus(Vacation)
      else CountStatus(Active)
    else CountAll
  }

  /** `AskAiAsync`: the canonical query of the provider, then at most one
      count; a transport failure of the provider is passed on. */
  function AskAi(question: string, config: Configuration, reply: HttpReply, es: seq<Employee>)
    : (r: Result<AiQueryResponse, Fault>)
    ensures r.Failure? <==> BuildSqlLikeQuery(question, config, reply).Failure?
    ensures r.Success? ==>
      var query := BuildSqlLikeQuery(question, config, reply).value.query;
      && r.value.question == question
      && r.value.sqlLikeQuery == query
      && r.value.result == NatToString(Eval(ResolveCall(query, question), es))
      && DecimalValue(r.value.result) == Eval(ResolveCall(query, question), es)
      && (ResolveCall(query, question) == NoCall ==> r.value.result == "0")
  {
    var outcome :- BuildSqlLikeQuery(question, config, reply);
    var n := Eval(ResolveCall(outcome.query, question), es);
    DecimalRoundTrip(n);
    Success(AiQueryResponse(question, outcome.query, NatToString(n)))
  }

  /* ------------------------------------------------------------------ */
  /* What each canonical query resolves to                                */
  /* ------------------------------------------------------------------ */

  /** A question that mentions "auxiliar" is resolved as a position count
      whatever the canonical query. */
  predicate MentionsAuxiliar(question: string) {
    Contains(Lower(question), "auxiliar")
  }

  /** A query without quotes, "cargo" or "departamento" is read by its
      "estado" and status words alone. */
  lemma ResolveUnquoted(query: string, question: string)
    requires '"' !in Lower(query)
    requires !Contains(Lower(query), "cargo") && !Contains(Lower(query), "departamento")
    ensures ResolveCall(query, question) ==
      if MentionsAuxiliar(question) then CountPosition("auxiliar")
      else if !Contains(Lower(query), "estado") then CountAll
      else if Contains(Lower(query), "inactivo") then CountStatus(Inactive)
      else if Contains(Lower(query), "vacaciones") then CountStatus(Vacation)
      else CountStatus(Active)
  {
    assert multiset(Lower(query))['"'] == 0;
  }

  /** A query naming "departamento" and not "cargo" is read by its quoted
      value `v`, or the question when `v` is blank. */
  lemma ResolveQuotedDepartment(query: string, question: string, v: string)
    requires ExtractQuotedValue(Lower(query)) == v
    requires Contains(Lower(query), "departamento") && !Contains(Lower(query), "cargo")
    ensures ResolveCall(query, question) ==
      if MentionsAuxiliar(question) then
        (if IsBlank(v) then CountPosition("auxiliar") else CountPosition(v))
      else if !IsBlank(v) then CountDepartment(v)
      else
        var d := ExtractDepartmentFromQuestion(Lower(question));
        if IsBlank(d) then NoCall else CountDepartment(d)
  {
  }

  /** A query naming "cargo" is read by its quoted value `v`. */
  lemma ResolveQuotedPosition(query: string, question: string, v: string)
    requires ExtractQuotedValue(Lower(query)) == v && Contains(Lower(query), "cargo")
    ensures ResolveCall(query, question) ==
      if !IsBlank(v) then CountPosition(v)
      else if MentionsAuxiliar(question) then CountPosition("auxiliar")
      else NoCall
  {
  }

  /** The total query counts everyone. */
  lemma ResolveTotal(question: string)
    ensures ResolveCall(TotalQuery, question) ==
      if MentionsAuxiliar(question) then CountPosition("auxiliar") else CountAll
  {
    var q := TotalQuery;
    TotalQueryWords(q);
    ResolveUnquoted(q, question);
  }

  /** A status query counts a status, but only "inactivo" is told apart: the
      vacation query ("... Vacation") lacks "vacaciones" and so counts the
      active employees. */
  lemma ResolveStatus(s: EmployeeStatus, question: string)
    ensures ResolveCall(Render(InStatus(s)), question) ==
      if MentionsAuxiliar(question) then CountPosition("auxiliar")
      else CountStatus(if s == Inactive then Inactive else Active)
  {
    var prefix := StatusQueryPrefix;
    var word := match s case Inactive => "Inactivo" case Vacation => "Vacation" case Active => "Active";
    match s {
      case Inactive => InactiveWord(word);
      case Vacation => VacationWord(word);
      case Active => ActiveWord(word);
    }
    var q := prefix + word;
    assert Render(InStatus(s)) == q;
    LowerAppend(prefix, word);
    StatusQueryWords(prefix, Lower(word));
    ResolveUnquoted(q, question);
  }

  /** What the resolver reads in a department query built on a lower-case
      prefix that names "departamento" and not "cargo". */
  lemma DepartmentQueryRead(prefix: string, name: string)
    requires Lower(prefix) == prefix && '"' !in prefix && '"' !in name
    requires Contains(prefix, "departamento")
    ensures var q := Lower(Quoted(prefix, name));
      && ExtractQuotedValue(q) == Lower(name)
      && Contains(q, "departamento")
      && IsBlank(Lower(name)) == IsBlank(name)
  {
    QuotedQueryLower(prefix, name);
    QuotedHas(prefix, Lower(name), "departamento");
  }

  /** "cargo" is in a quoted query whose prefix lacks it exactly when it is
      in the value. */
  lemma QuotedCargo(prefix: string, value: string)
    requires !Contains(prefix, "cargo")
    ensures Contains(Quoted(prefix, value), "cargo") <==> Contains(value, "cargo")
    ensures Contains(value, "cargo") ==> !IsBlank(value)
  {
    var p := "cargo";
    assert p[0] == 'c' && '"' !in p;
    QuotedHasIff(prefix, value, p);
  }

  /** The department resolution, for any such prefix. */
  lemma ResolveDepartmentAfter(prefix: string, name: string, question: string)
    requires Lower(prefix) == prefix && '"' !in prefix && '"' !in name
    requires Contains(prefix, "departamento") && !Contains(prefix, "cargo")
    ensures ResolveCall(Quoted(prefix, name), question) ==
      if MentionsAuxiliar(question) then
        (if IsBlank(name) then CountPosition("auxiliar") else CountPosition(Lower(name)))
      else if Contains(Lower(name), "cargo") then CountPosition(Lower(name))
      else if !IsBlank(name) then CountDepartment(Lower(name))
      else
        var d := ExtractDepartmentFromQuestion(Lower(question));
        if IsBlank(d) then NoCall else CountDepartment(d)
  {
    DepartmentQueryRead(prefix, name);
    LowerQuoted(prefix, name);
    QuotedCargo(prefix, Lower(name));
    if Contains(Lower(name), "cargo") {
      ResolveQuotedPosition(Quoted(prefix, name), question, Lower(name));
    } else {
      ResolveQuotedDepartment(Quoted(prefix, name), question, Lower(name));
    }
  }

  /** A department query counts the quoted department; a blank name falls
      back to the department the question names; a name holding "cargo" is
      taken for a position. */
  lemma ResolveDepartment(name: string, question: string)
    requires '"' !in name
    ensures ResolveCall(DepartmentQuery(name), question) ==
      if MentionsAuxiliar(question) then
        (if IsBlank(name) then CountPosition("auxiliar") else CountPosition(Lower(name)))
      else if Contains(Lower(name), "cargo") then CountPosition(Lower(name))
      else if !IsBlank(name) then CountDepartment(Lower(name))
      else
        var d := ExtractDepartmentFromQuestion(Lower(question));
        if IsBlank(d) then NoCall else CountDepartment(d)
  {
    var prefix := DepartmentQueryPrefix;
    DepartmentPrefixLower(prefix);
    DepartmentPrefixNoQuote(prefix);
    DepartmentPrefixHasDepartment(prefix);
    DepartmentPrefixNoPosition(prefix);
    ResolveDepartmentAfter(prefix, name, question);
  }

  /** A position query counts the quoted text; a blank text counts nothing,
      or "auxiliar" when the question mentions it. */
  lemma ResolvePosition(text: string, question: string)
    requires '"' !in text
    ensures ResolveCall(PositionQuery(text), question) ==
      if !IsBlank(text) then CountPosition(Lower(text))
      else if MentionsAuxiliar(question) then CountPosition("auxiliar")
      else NoCall
  {
    var prefix := PositionQueryPrefix;
    PositionPrefixLower(prefix);
    PositionPrefixNoQuote(prefix);
    PositionPrefixHasPosition(prefix);
    QuotedQueryLower(prefix, text);
    QuotedHas(prefix, Lower(text), "cargo");
    ResolveQuotedPosition(Quoted(prefix, text), question, Lower(text));
  }

  /** For any query with a quoted part, the department or position counted
      is the lower-cased text between the first and the last quote, quotes
      trimmed; only the fallbacks count something else. */
  lemma ResolveCountsQuotedText(query: string, question: string, a: string, m: string, b: string)
    requires query == a + "\"" + m + "\"" + b && '"' !in a && '"' !in b
    ensures var c := ResolveCall(query, question);
      var v := TrimWhere(Lower(m), IsQuote);
      && (c.CountPosition? ==> c.text == if IsBlank(v) then "auxiliar" else v)
      && (c.CountDepartment? ==>
            c.name == if IsBlank(v) then ExtractDepartmentFromQuestion(Lower(question)) else v)
  {
    LowerAroundQuotes(a, m, b);
    ExtractQuotedValueBetween(Lower(a), Lower(m), Lower(b));
  }

  /* ------------------------------------------------------------------ */
  /* The count an intent asks for                                         */
  /* ------------------------------------------------------------------ */

  /** The repository count an intent asks for, read literally. */
  function Intended(i: Intent): CountCall {
    match i
    case AllEmployees => CountAll
    case InStatus(s) => CountStatus(s)
    case InDepartment(name) => CountDepartment(name)
    case WithPosition(text) => CountPosition(text)
  }

  /** The parameter of an intent can be carried by a canonical query and read
      back: it holds no double quote and is not blank. */
  predicate HasReadableParameter(i: Intent) {
    match i
    case InDepartment(name) => '"' !in name && !IsBlank(name)
    case WithPosition(text) => '"' !in text && !IsBlank(text)
    case _ => true
  }

  /** The intents the resolver reads back as asked: all but the vacation
      status (read as active) and department names holding "cargo" (read as
      positions). */
  predicate ResolvesAsAsked(i: Intent) {
    && HasReadableParameter(i)
    && i != InStatus(Vacation)
    && (i.InDepartment? ==> !Contains(Lower(i.name), "cargo"))
  }

  /** For a question without "auxiliar", resolving the canonical query of an
      intent counts what the intent asks for (names and texts compared
      without regard to case, as the repository does). */
  lemma ResolveMatchesIntent(i: Intent, question: string, es: seq<Employee>)
    requires ResolvesAsAsked(i) && !MentionsAuxiliar(question)
    ensures Eval(ResolveCall(Render(i), question), es) == Eval(Intended(i), es)
  {
    match i
    case AllEmployees => ResolveTotal(question);
    case InStatus(s) => ResolveStatus(s, question);
    case InDepartment(name) =>
      ResolveDepartment(name, question);
      LowerIdempotent(name);
      DepartmentCountIgnoresCase(es, Lower(name), name);
    case WithPosition(text) =>
      ResolvePosition(text, question);
      LowerIdempotent(text);
      PositionCountIgnoresCase(es, Lower(text), text);
  }

  /** The converse: an intent outside `ResolvesAsAsked` with a readable
      parameter is resolved to some other count. */
  lemma ResolveMisreads(i: Intent, question: string)
    requires HasReadableParameter(i) && !ResolvesAsAsked(i) && !MentionsAuxiliar(question)
    ensures i == InStatus(Vacation) ==> ResolveCall(Render(i), question) == CountStatus(Active)
    ensures i.InDepartment? ==> ResolveCall(Render(i), question) == CountPosition(Lower(i.name))
  {
    match i
    case InStatus(s) => ResolveStatus(s, question);
    case InDepartment(name) => ResolveDepartment(name, question);
  }

  /** The same parameter upper-cased asks for the same count. */
  lemma IntendedIgnoresCase(i: Intent, es: seq<Employee>)
    ensures Eval(Intended(UpperIntent(i)), es) == Eval(Intended(i), es)
  {
    match i
    case InDepartment(name) =>
      LowerOfUpper(name);
      DepartmentCountIgnoresCase(es, Upper(name), name);
    case WithPosition(text) =>
      LowerOfUpper(text);
      PositionCountIgnoresCase(es, Upper(text), text);
    case _ =>
  }

  /** Upper-casing keeps an intent readable back as asked. */
  lemma UpperKeepsResolvable(i: Intent)
    requires ResolvesAsAsked(i)
    ensures ResolvesAsAsked(UpperIntent(i))
  {
    match i
    case InDepartment(name) =>
      CaseKeepsBlankAndQuotes(name);
      LowerOfUpper(name);
    case WithPosition(text) =>
      CaseKeepsBlankAndQuotes(text);
    case _ =>
  }

  /** Every tag begins with a visible letter. */
  lemma TagNotBlank(i: Intent)
    ensures !IsBlank(RenderTag(i))
  {
    var t := RenderTag(i);
    match i
    case AllEmployees => assert t[0] == 'T';
    case InStatus(s) => assert t[0] == 'E';
    case InDepartment(name) => assert t[0] == 'D';
    case WithPosition(text) => assert t[0] == 'C';
  }

  /** End to end: when the classifier answers the tag of an intent the
      resolver reads back as asked, and the question does not mention
      "auxiliar", the response holds the count the intent asks for. */
  lemma AskAiClassified(question: string, config: Configuration, i: Intent, es: seq<Employee>)
    requires IsConfigured(config) && ResolvesAsAsked(i) && !MentionsAuxiliar(question)
    ensures var r := AskAi(question, config, Replied(true, RenderTag(i)), es);
      && r.Success?
      && r.value.sqlLikeQuery == Render(UpperIntent(i))
      && r.value.result == NatToString(Eval(Intended(i), es))
      && DecimalValue(r.value.result) == Eval(Intended(i), es)
  {
    TagNotBlank(i);
    TagRoundTrip(i);
    UpperKeepsResolvable(i);
    ResolveMatchesIntent(UpperIntent(i), question, es);
    IntendedIgnoresCase(i, es);
  }

  /* ------------------------------------------------------------------ */
  /* The heuristic path                                                   */
  /* ------------------------------------------------------------------ */

  lemma NamePlaceholderRead(n: string)
    requires n == NamePlaceholder
    ensures '"' !in n && !IsBlank(n) && Lower(n) == n && !Contains(Lower(n), "cargo")
  {
    assert !IsWhiteSpace(n[0]);
    LowerKeeps(n);
    NotContainsMissingChar(n, "cargo", 'c');
  }

  lemma TextPlaceholderRead(t: string)
    requires t == TextPlaceholder
    ensures '"' !in t && !IsBlank(t) && Lower(t) == t
  {
    assert !IsWhiteSpace(t[0]);
    LowerKeeps(t);
  }

  /** On the heuristic's queries the resolver always makes a call: the
      placeholders are non-blank quoted values, so the department fallback on
      the question is never reached, and a department is always counted by
      the name "<nombre>". */
  lemma ResolveHeuristic(question: string)
    ensures var c := ResolveCall(BasicHeuristics(question), question);
      && c != NoCall
      && (c.CountDepartment? ==> c.name == NamePlaceholder)
      && (Contains(Lower(question), "departamento") ==>
            c == if MentionsAuxiliar(question) then CountPosition(NamePlaceholder)
                 else CountDepartment(NamePlaceholder))
      && ((forall w | w in HeuristicKeywords :: !Contains(Lower(question), w)) ==> c == CountAll)
      && c != CountStatus(Vacation)
  {
    var r := BasicHeuristics(question);
    if r == DepartmentQuery(NamePlaceholder) {
      NamePlaceholderRead(NamePlaceholder);
      ResolveDepartment(NamePlaceholder, question);
    } else if r == InactiveQuery {
      ResolveStatus(Inactive, question);
    } else if r == VacationQuery {
      ResolveStatus(Vacation, question);
    } else if r == PositionQuery(TextPlaceholder) {
      TextPlaceholderRead(TextPlaceholder);
      ResolvePosition(TextPlaceholder, question);
    } else {
      assert HeuristicKeywords[3] == "auxiliar";
      ResolveTotal(question);
    }
  }

  /** A question about vacations (without "departamento", "inactivo" or
      "auxiliar") is resolved as a count of the active employees. */
  lemma VacationQuestionCountsActive(question: string)
    requires Contains(Lower(question), "vacaciones") && !MentionsAuxiliar(question)
    requires !Contains(Lower(question), "departamento") && !Contains(Lower(question), "inactivo")
    ensures BasicHeuristics(question) == VacationQuery
    ensures ResolveCall(BasicHeuristics(question), question) == CountStatus(Active)
  {
    assert HeuristicKeywords[0] == "departamento" && HeuristicKeywords[1] == "inactivo";
    assert HeuristicKeywords[2] == "vacaciones";
    HeuristicsFirstMatch(question, 2);
    assert BasicHeuristics(question) == Render(InStatus(Vacation));
    ResolveStatus(Vacation, question);
  }

  /** The literal "auxiliar" fallback is reached on the heuristic path: a
      question about inactive employees that mentions "auxiliar" gets the
      status query, whose quoted value is blank. */
  lemma HeuristicAuxiliarFallback(question: string)
    requires Contains(Lower(question), "inactivo") && MentionsAuxiliar(question)
    requires !Contains(Lower(question), "departamento")
    ensures ResolveCall(BasicHeuristics(question), question) == CountPosition("auxiliar")
  {
    assert HeuristicKeywords[0] == "departamento" && HeuristicKeywords[1] == "inactivo";
    HeuristicsFirstMatch(question, 1);
    ResolveStatus(Inactive, question);
  }

  /** End to end without the classifier: a question about vacations answers
      the number of active employees. */
  lemma AskAiVacationQuestion(question: string, config: Configuration, reply: HttpReply, es: seq<Employee>)
    requires !IsConfigured(config)
    requires Contains(Lower(question), "vacaciones") && !MentionsAuxiliar(question)
    requires !Contains(Lower(question), "departamento") && !Contains(Lower(question), "inactivo")
    ensures var r := AskAi(question, config, reply, es);
      r.Success? && r.value.sqlLikeQuery == VacationQuery
      && r.value.result == NatToString(CountByStatus(es, Active))
      && DecimalValue(r.value.result) == CountByStatus(es, Active)
  {
    VacationQuestionCountsActive(question);
  }
}
