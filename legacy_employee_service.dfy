/** The earlier variant of the resolver (the `src` tree): it reads only the
    lower-cased query, never the question, with department before status
    before position before the total, and without any fallback. */
module LegacyEmployeeService {
  import opened Wrappers
  import opened Text
  import opened Employees
  import opened AiProvider
  import opened EmployeeService
  import LegacyAiProvider

  /** The count the variant's `AskAiAsync` makes for a query. */
  function LegacyResolveCall(query: string): (c: CountCall)
    ensures c.CountDepartment? <==>
      Contains(Lower(query), "departamento") && !IsBlank(ExtractQuotedValue(Lower(query)))
    ensures c.CountDepartment? ==> !IsBlank(c.name)
    ensures c.CountStatus? <==> !Contains(Lower(query), "departamento") && Contains(Lower(query), "estado")
    ensures c.CountStatus? ==>
      c.status == (if Contains(Lower(query), "inactivo") then Inactive
                   else if Contains(Lower(query), "vacaciones") then Vacation
                   else Active)
    ensures c.CountPosition? <==>
      !Contains(Lower(query), "departamento") && !Contains(Lower(query), "estado")
      && Contains(Lower(query), "cargo") && !IsBlank(ExtractQuotedValue(Lower(query)))
    ensures c.CountPosition? ==> !IsBlank(c.text)
    ensures c == CountAll <==>
      !Contains(Lower(query), "departamento") && !Contains(Lower(query), "estado")
      && !Contains(Lower(query), "cargo")
  {
    var normalized := Lower(query);
    if Contains(normalized, "departamento") then
      var departmentName := ExtractQuotedValue(normalized);
      if !IsBlank(departmentName) then CountDepartment(departmentName) else NoCall
    else if Contains(normalized, "estado") then
      if Contains(normalized, "inactivo") then CountStatus(Inactive)
      else if Contains(normalized, "vacaciones") then CountStatus(Vacation)
      else CountStatus(Active)
    else if Contains(normalized, "cargo") then
      var role := ExtractQuotedValue(normalized);
      if !IsBlank(role) then CountPosition(role) else NoCall
    else CountAll
  }

  /** `AskAiAsync` of the variant: the query of the variant's provider, then
      at most one count. */
  function LegacyAskAi(question: string, config: Configuration, reply: HttpReply, es: seq<Employee>)
    : (r: Result<AiQueryResponse, Fault>)
    ensures r.Failure? <==> LegacyAiProvider.BuildSqlLikeQuery(question, config, reply).Failure?
    ensures r.Success? ==>
      var query := LegacyAiProvider.BuildSqlLikeQuery(question, config, reply).value.query;
      && r.value.question == question
      && r.value.sqlLikeQuery == query
      && r.value.result == NatToString(Eval(LegacyResolveCall(query), es))
      && DecimalValue(r.value.result) == Eval(LegacyResolveCall(query), es)
      && (LegacyResolveCall(query) == NoCall ==> r.value.result == "0")
  {
    var outcome :- LegacyAiProvider.BuildSqlLikeQuery(question, config, reply);
    var n := Eval(LegacyResolveCall(outcome.query), es);
    DecimalRoundTrip(n);
    Success(AiQueryResponse(question, outcome.query, NatToString(n)))
  }

  /** For any query with a quoted part, raw replies of the classifier
      included, the department or position counted is the lower-cased text
      between the first and the last quote, quotes trimmed, and a blank one
      counts nothing. */
  lemma LegacyCountsQuotedText(query: string, a: string, m: string, b: string)
    requires query == a + "\"" + m + "\"" + b && '"' !in a && '"' !in b
    ensures var c := LegacyResolveCall(query);
      var v := TrimWhere(Lower(m), IsQuote);
      && (Contains(Lower(query), "departamento") ==>
            c == if IsBlank(v) then NoCall else CountDepartment(v))
      && (!Contains(Lower(query), "departamento") && !Contains(Lower(query), "estado")
          && Contains(Lower(query), "cargo") ==>
            c == if IsBlank(v) then NoCall else CountPosition(v))
  {
    LowerAroundQuotes(a, m, b);
    ExtractQuotedValueBetween(Lower(a), Lower(m), Lower(b));
  }

  /* ------------------------------------------------------------------ */
  /* What each canonical query resolves to                                */
  /* ------------------------------------------------------------------ */

  /** A query without quotes or "departamento" is read by "estado", its
      status words and "cargo"; "cargo" without a quoted value counts
      nothing. */
  lemma LegacyResolveUnquoted(query: string)
    requires '"' !in Lower(query) && !Contains(Lower(query), "departamento")
    ensures LegacyResolveCall(query) ==
      if Contains(Lower(query), "estado") then
        (if Contains(Lower(query), "inactivo") then CountStatus(Inactive)
         else if Contains(Lower(query), "vacaciones") then CountStatus(Vacation)
         else CountStatus(Active))
      else if Contains(Lower(query), "cargo") then NoCall
      else CountAll
  {
    assert multiset(Lower(query))['"'] == 0;
  }

  lemma LegacyResolveTotal()
    ensures LegacyResolveCall(TotalQuery) == CountAll
  {
    var q := TotalQuery;
    TotalQueryWords(q);
    LegacyResolveUnquoted(q);
  }

  /** The vacation query counts the active employees here too. */
  lemma LegacyResolveStatus(s: EmployeeStatus)
    ensures LegacyResolveCall(Render(InStatus(s))) == CountStatus(if s == Inactive then Inactive else Active)
  {
    var prefix := StatusQueryPrefix;
    var word := match s case Inactive => "Inactivo" case Vacation => "Vacation" case Active => "Active";
    match s {
      case Inactive => InactiveWord(word);
      case Vacation => VacationWord(word);
      case Active => ActiveWord(word);
    }
    var q := prefix + word;
    assert Render(InStatus(s)) == q;
    LowerAppend(prefix, word);
    StatusQueryWords(prefix, Lower(word));
    LegacyResolveUnquoted(q);
  }

  /** A department query counts the quoted department, even a name holding
      "cargo"; a blank name counts nothing. */
  lemma LegacyResolveDepartment(name: string)
    requires '"' !in name
    ensures LegacyResolveCall(DepartmentQuery(name)) ==
      if IsBlank(name) then NoCall else CountDepartment(Lower(name))
  {
    var prefix := DepartmentQueryPrefix;
    DepartmentPrefixLower(prefix);
    DepartmentPrefixNoQuote(prefix);
    DepartmentPrefixHasDepartment(prefix);
    DepartmentQueryRead(prefix, name);
  }

  lemma HeadLacksD(a: string)
    requires a == "contar emplea"
    ensures 'd' !in a
  {
  }

  lemma TailLacksDepartment(b: string)
    requires b == "dos por cargo "
    ensures !Contains(b, "departamento")
  {
    assert 'e' !in b;
    NotContainsMissingChar(b, "departamento", 'e');
  }

  lemma PositionPrefixNoDepartment(prefix: string)
    requires prefix == PositionQueryPrefix
    ensures !Contains(prefix, "departamento")
  {
    var a, b, p := "contar emplea", "dos por cargo ", "departamento";
    assert prefix == a + b;
    HeadLacksD(a);
    TailLacksDepartment(b);
    assert p[0] == 'd';
    ContainsAfter(a, b, p);
  }

  lemma HeadLacksE(a: string)
    requires a == "contar "
    ensures 'e' !in a
  {
  }

  lemma TailLacksState(b: string)
    requires b == "empleados por cargo "
    ensures !Contains(b, "estado")
  {
    assert 't' !in b;
    NotContainsMissingChar(b, "estado", 't');
  }

  lemma PositionPrefixNoState(prefix: string)
    requires prefix == PositionQueryPrefix
    ensures !Contains(prefix, "estado")
  {
    var a, b, p := "contar ", "empleados por cargo ", "estado";
    assert prefix == a + b;
    HeadLacksE(a);
    TailLacksState(b);
    assert p[0] == 'e';
    ContainsAfter(a, b, p);
  }

  /** What the variant reads in a position query: the quoted text, lower-cased,
      and "cargo". */
  lemma PositionQueryRead(prefix: string, text: string)
    requires prefix == PositionQueryPrefix && '"' !in text
    ensures var q := Lower(Quoted(prefix, text));
      && ExtractQuotedValue(q) == Lower(text)
      && IsBlank(Lower(text)) == IsBlank(text)
      && Contains(q, "cargo")
  {
    PositionPrefixLower(prefix);
    PositionPrefixNoQuote(prefix);
    PositionPrefixHasPosition(prefix);
    QuotedQueryLower(prefix, text);
    QuotedHas(prefix, Lower(text), "cargo");
  }

  /** A keyword missing from the prefix is in the lower-cased query exactly
      when it is in the lower-cased text. */
  lemma QuotedLowerHasIff(prefix: string, text: string, p: string)
    requires Lower(prefix) == prefix && '"' !in prefix && '"' !in text
    requires p != [] && '"' !in p && !IsWhiteSpace(p[0]) && !Contains(prefix, p)
    ensures Contains(Lower(Quoted(prefix, text)), p) <==> Contains(Lower(text), p)
  {
    QuotedQueryLower(prefix, text);
    QuotedHasIff(prefix, Lower(text), p);
  }

  /** "departamento" or "estado" in the quoted text of a position query win
      over "cargo". */
  lemma PositionQueryKeywords(prefix: string, text: string)
    requires prefix == PositionQueryPrefix && '"' !in text
    ensures var q := Lower(Quoted(prefix, text));
      && (Contains(q, "departamento") <==> Contains(Lower(text), "departamento"))
      && (Contains(q, "estado") <==> Contains(Lower(text), "estado"))
  {
    PositionPrefixLower(prefix);
    PositionPrefixNoQuote(prefix);
    PositionPrefixNoDepartment(prefix);
    PositionPrefixNoState(prefix);
    var d, e := "departamento", "estado";
    assert d[0] == 'd' && '"' !in d && e[0] == 'e' && '"' !in e;
    QuotedLowerHasIff(prefix, text, d);
    QuotedLowerHasIff(prefix, text, e);
  }

  /** A position query counts the quoted text, unless the text holds
      "departamento" (then it is counted as a department name) or "estado";
      a blank text counts nothing. */
  lemma LegacyResolvePosition(text: string)
    requires '"' !in text
    ensures Contains(Lower(text), "departamento") ==>
      LegacyResolveCall(PositionQuery(text)) == CountDepartment(Lower(text))
    ensures !Contains(Lower(text), "departamento") && !Contains(Lower(text), "estado") ==>
      LegacyResolveCall(PositionQuery(text)) == if IsBlank(text) then NoCall else CountPosition(Lower(text))
  {
    var prefix := PositionQueryPrefix;
    PositionQueryRead(prefix, text);
    PositionQueryKeywords(prefix, text);
    if Contains(Lower(text), "departamento") {
      assert "departamento"[0] == 'd';
      ContainsVisible(Lower(text), "departamento");
    }
  }

  /* ------------------------------------------------------------------ */
  /* The two resolvers compared                                           */
  /* ------------------------------------------------------------------ */

  /** The intents the variant reads back as asked: all but the vacation
      status and position texts that hold "departamento" or "estado". */
  predicate LegacyResolvesAsAsked(i: Intent) {
    && HasReadableParameter(i)
    && i != InStatus(Vacation)
    && (i.WithPosition? ==> !Contains(Lower(i.text), "departamento") && !Contains(Lower(i.text), "estado"))
  }

  /** Resolving the canonical query of an intent counts what the intent asks
      for, whatever the question. */
  lemma LegacyResolveMatchesIntent(i: Intent, es: seq<Employee>)
    requires LegacyResolvesAsAsked(i)
    ensures Eval(LegacyResolveCall(Render(i)), es) == Eval(Intended(i), es)
  {
    match i
    case AllEmployees => LegacyResolveTotal();
    case InStatus(s) => LegacyResolveStatus(s);
    case InDepartment(name) =>
      LegacyResolveDepartment(name);
      LowerIdempotent(name);
      DepartmentCountIgnoresCase(es, Lower(name), name);
    case WithPosition(text) =>
      LegacyResolvePosition(text);
      LowerIdempotent(text);
      PositionCountIgnoresCase(es, Lower(text), text);
  }

  /** On a canonical query both variants read back as asked, and a question
      without "auxiliar", the two resolvers give the same count. */
  lemma ResolversAgree(i: Intent, question: string, es: seq<Employee>)
    requires ResolvesAsAsked(i) && LegacyResolvesAsAsked(i) && !MentionsAuxiliar(question)
    ensures Eval(ResolveCall(Render(i), question), es) == Eval(LegacyResolveCall(Render(i)), es)
  {
    ResolveMatchesIntent(i, question, es);
    LegacyResolveMatchesIntent(i, es);
  }

  /** Where the two resolvers part: a department name holding "cargo" is a
      position for the later one and a department for the earlier one; an
      "auxiliar" question turns the total into a position count only in the
      later one. */
  lemma ResolversDiffer(name: string, question: string)
    requires '"' !in name && Contains(Lower(name), "cargo") && !MentionsAuxiliar(question)
    ensures ResolveCall(DepartmentQuery(name), question) == CountPosition(Lower(name))
    ensures LegacyResolveCall(DepartmentQuery(name)) == CountDepartment(Lower(name))
  {
    ResolveDepartment(name, question);
    LegacyResolveDepartment(name);
    var p := "cargo";
    assert p[0] == 'c';
    ContainsVisible(Lower(name), p);
    CaseKeepsBlankAndQuotes(name);
  }

  /** With "auxiliar" in the question, the total query is a count of
      auxiliaries for the later resolver and of everyone for the earlier. */
  lemma AuxiliarDiffers(question: string)
    requires MentionsAuxiliar(question)
    ensures ResolveCall(TotalQuery, question) == CountPosition("auxiliar")
    ensures LegacyResolveCall(TotalQuery) == CountAll
  {
    ResolveTotal(question);
    LegacyResolveTotal();
  }

  /** On the heuristic's queries, and a question without "auxiliar", the two
      resolvers make the same call. */
  lemma HeuristicResolversAgree(question: string)
    requires !MentionsAuxiliar(question)
    ensures ResolveCall(BasicHeuristics(question), question) == LegacyResolveCall(BasicHeuristics(question))
  {
    var r := BasicHeuristics(question);
    if r == DepartmentQuery(NamePlaceholder) {
      NamePlaceholderRead(NamePlaceholder);
      ResolveDepartment(NamePlaceholder, question);
      LegacyResolveDepartment(NamePlaceholder);
    } else if r == InactiveQuery {
      ResolveStatus(Inactive, question);
      LegacyResolveStatus(Inactive);
    } else if r == VacationQuery {
      ResolveStatus(Vacation, question);
      LegacyResolveStatus(Vacation);
    } else if r == PositionQuery(TextPlaceholder) {
      TextPlaceholderRead(TextPlaceholder);
      ResolvePosition(TextPlaceholder, question);
      PlaceholderHasNoKeyword(TextPlaceholder);
      LegacyResolvePosition(TextPlaceholder);
    } else {
      ResolveTotal(question);
      LegacyResolveTotal();
    }
  }

  lemma PlaceholderHasNoKeyword(t: string)
    requires t == TextPlaceholder
    ensures !Contains(Lower(t), "departamento") && !Contains(Lower(t), "estado")
  {
    TextPlaceholderRead(t);
    NotContainsShort(t, "departamento");
    NotContainsMissingChar(t, "estado", 's');
  }

  /** The raw reply "TODO", which the later provider maps to the total query,
      reaches the earlier resolver as it is and, holding none of its keywords,
      is also read as a count of every employee. */
  lemma RawReplyCountsAll(question: string, config: Configuration, es: seq<Employee>)
    requires IsConfigured(config)
    ensures var r := LegacyAskAi(question, config, Replied(true, "TODO"), es);
      && r.Success? && r.value.sqlLikeQuery == "TODO"
      && r.value.result == NatToString(|es|) && DecimalValue(r.value.result) == |es|
  {
    LegacyAiProvider.PassesTodo(question, config);
    RawTodoCall("TODO");
  }

  lemma RawTodoCall(reply: string)
    requires reply == "TODO"
    ensures LegacyResolveCall(reply) == CountAll
  {
    var t := Lower(reply);
    NotContainsShort(t, "departamento");
    NotContainsShort(t, "estado");
    NotContainsShort(t, "cargo");
  }
}
