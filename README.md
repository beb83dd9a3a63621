# TalentoPlus natural-language count queries, in Dafny

TalentoPlus is an HR application. An administrator can ask a question in Spanish about
the staff ("¿Cuántos empleados están inactivos?"), and the application answers with a
number. The answer comes from two steps:

1. **The AI provider** (`AiProvider.BuildSqlLikeQueryAsync`) turns the question into a
   *SQL-like query*. When no external classifier is configured, the call fails with a
   non-success status, or the reply is blank, a keyword heuristic is used instead. The
   current provider also asks the classifier for a tag (`DEPARTAMENTO:"…"`, `ESTADO:…`,
   `CARGO:"…"`, `TODO`) and maps it to one of four canonical queries:
   - `contar todos los empleados`
   - `contar empleados en estado Inactivo|Vacation|Active`
   - `contar empleados por departamento "<name>"`
   - `contar empleados por cargo "<text>"`
2. **The employee service** (`EmployeeService.AskAiAsync`) lower-cases that query and
   makes one count through the employee repository: all employees, by status, by
   department name (ignoring case), or by a text contained in the position (ignoring case).

The repository holds two versions of both steps.

- **The later version** (the root `TalentoPlus.Infrastructure`) is modelled by the modules
  `AiProvider` and `EmployeeService`. Its provider sends a prompt listing the tags and
  adds the key to the URL. Its resolver gives "cargo", or an "auxiliar" in the question,
  precedence over "departamento". It falls back to a department named in the question.
- **The earlier version** (`src/TalentoPlus.Infrastructure`) is modelled by the modules
  `LegacyAiProvider` and `LegacyEmployeeService`. Its provider sends a one-line prompt
  with a bearer token and passes the raw reply body on unmapped. Its resolver reads the
  query alone, in the order department, status, position, total.

The employee store is a sequence of `Employee` values (module `Employees`). The
repository's count queries are functions over that sequence. The string operations of
.NET used on the way (ordinal `IndexOf`/`Contains`/`StartsWith`, `Trim`, `Split`,
invariant case mapping, `int.ToString`) are defined in module `Text`. The `Result`
and `Option` types are in `Wrappers`.

The HTTP exchange is a parameter. `Configuration` holds the two settings, which may be
missing. `HttpReply` is what the call produced: it threw, or it answered with a status
that is a success or not and a text. For the later provider, that text is the one
already extracted from the JSON body. An exception thrown by the call reaches the
caller as `Failure(TransportFailure)`.

What the model establishes about the code:

- **The canonical round trip.** For every intent whose parameter holds no double quote,
  mapping its classifier tag gives the canonical query of the same intent with the
  parameter in upper case (`AiProvider.TagRoundTrip`). For a question without
  "auxiliar", the resolver then counts what the intent asks for
  (`EmployeeService.ResolveMatchesIntent`, end to end in `EmployeeService.AskAiClassified`).
  This does not hold for two kinds of intent:
  - the vacation status: the canonical query says "Vacation", the resolver looks for
    "vacaciones", so it counts the **active** employees;
  - a department name containing "cargo": it is read as a position.

  `EmployeeService.ResolveMisreads` proves both.
- **The heuristic path.** The heuristic writes the placeholders `<nombre>` and `<texto>`,
  which are not blank. On this path a department question is therefore always counted
  against a department literally named `<nombre>`, and the fallback to a department
  named in the question is never reached (`EmployeeService.ResolveHeuristic`). The
  "auxiliar" fallback of the later resolver **is** reachable on the heuristic path:
  "inactivo" and "auxiliar" together give the status query, which the question turns
  into a count of positions containing "auxiliar"
  (`EmployeeService.HeuristicAuxiliarFallback`).
- **The two versions agree where both read an intent as asked.** Given a question without
  "auxiliar", they also make the same call on every heuristic query
  (`LegacyEmployeeService.ResolversAgree`, `LegacyEmployeeService.HeuristicResolversAgree`).
  The lemmas `ResolversDiffer`, `AuxiliarDiffers` and `RawReplyCountsAll` show where
  they part.

Three further facts about the code that the model keeps:

- Neither provider catches exceptions. An exception from `PostAsync` or from reading
  the body propagates to the caller.
- The active status is `Active`, in the canonical query and in the enum.
- In the later resolver, an "auxiliar" question whose query quotes a department name
  counts positions containing that lower-cased name, not "auxiliar": the quoted value
  is not blank, so the literal "auxiliar" is never tried.

## Model

| member | source | states |
|---|---|---|
| Employees.CountWhere | TalentoPlus.Infrastructure/Repositories/EmployeeRepository.cs:56-77 | a filtered count is at most the store's size; it is 0 exactly when no employee passes and the size exactly when all pass |
| Employees.CountWhereAppend | TalentoPlus.Infrastructure/Repositories/EmployeeRepository.cs:56-77 | counting over two concatenated stores adds the two counts |
| Employees.CountWhereMonotonic | TalentoPlus.Infrastructure/Repositories/EmployeeRepository.cs:56-77 | a weaker filter never counts fewer employees |
| Employees.CountWhereAgree | TalentoPlus.Infrastructure/Repositories/EmployeeRepository.cs:56-77 | filters that agree on every employee give the same count |
| Employees.Count | TalentoPlus.Infrastructure/Repositories/EmployeeRepository.cs:56-59 | `CountAsync` counts every employee, and no status count exceeds it |
| Employees.CountByStatus | TalentoPlus.Infrastructure/Repositories/EmployeeRepository.cs:61-64 | the status count is 0 exactly when no employee has that status |
| Employees.CountByDepartmentName | TalentoPlus.Infrastructure/Repositories/EmployeeRepository.cs:66-71 | only employees with a department count; the count is 0 exactly when no department name equals the given one ignoring case |
| Employees.CountByPosition | TalentoPlus.Infrastructure/Repositories/EmployeeRepository.cs:73-77 | the count is 0 exactly when no lower-cased position contains the lower-cased text; the empty text counts everyone |
| Employees.GetByDocument | TalentoPlus.Infrastructure/Repositories/EmployeeRepository.cs:32-36 | a found employee is stored and has that document; none is found exactly when no one has it |
| Employees.StatusCountsPartition | TalentoPlus.Infrastructure/Repositories/EmployeeRepository.cs:56-64 | the active, inactive and vacation counts add up to the total |
| Employees.UnassignedNeverCounted | TalentoPlus.Infrastructure/Repositories/EmployeeRepository.cs:66-71 | adding an employee without a department changes no department count |
| Employees.DepartmentCountIgnoresCase | TalentoPlus.Infrastructure/Repositories/EmployeeRepository.cs:66-71 | names equal up to case give the same department count |
| Employees.PositionCountIgnoresCase | TalentoPlus.Infrastructure/Repositories/EmployeeRepository.cs:73-77 | texts equal up to case give the same position count |
| Employees.PositionCountNarrows | TalentoPlus.Infrastructure/Repositories/EmployeeRepository.cs:73-77 | a longer text containing a shorter one never matches more positions |
| Text.LowerIdempotent | TalentoPlus.Infrastructure/Services/EmployeeService.cs:216-217 | lower-casing twice is lower-casing once |
| Text.LowerAppend | TalentoPlus.Infrastructure/Services/EmployeeService.cs:216 | lower-casing distributes over concatenation |
| Text.TrimWhere | TalentoPlus.Infrastructure/Services/EmployeeService.cs:282 | `Trim(chars)` never lengthens the text and leaves no stripped character at either end |
| Text.TrimWhereInner | TalentoPlus.Infrastructure/Services/EmployeeService.cs:302 | trimming removes exactly the stripped characters around a core that starts and ends with kept ones |
| Text.IndexOf | TalentoPlus.Infrastructure/Services/EmployeeService.cs:291 | the ordinal `IndexOf` is -1 exactly when there is no match, otherwise the first match |
| Text.IndexOfChar | TalentoPlus.Infrastructure/Services/EmployeeService.cs:278 | `IndexOf(char)` is -1 exactly when the character is absent, otherwise its first position |
| Text.LastIndexOfChar | TalentoPlus.Infrastructure/Services/EmployeeService.cs:279 | `LastIndexOf(char)` is -1 exactly when the character is absent, otherwise its last position |
| Text.SplitOnSpace | TalentoPlus.Infrastructure/Services/EmployeeService.cs:295 | `Split(' ', RemoveEmptyEntries)` gives non-empty words without spaces that concatenate to the text minus its spaces |
| Text.SplitSkipsSpaces | TalentoPlus.Infrastructure/Services/EmployeeService.cs:295 | spaces in front of the text produce no token, so runs of spaces are empty entries that are removed |
| Text.SplitFirstWord | TalentoPlus.Infrastructure/Services/EmployeeService.cs:295 | a space-free word followed by nothing or a space is the first token, and the rest of the text gives the remaining tokens |
| Text.SplitLeadingWords | TalentoPlus.Infrastructure/Services/EmployeeService.cs:295 | two words separated by any number of spaces are the first two tokens, whatever follows |
| Text.SplitTwoWords | TalentoPlus.Infrastructure/Services/EmployeeService.cs:295 | two words joined by one space split back into the two words |
| Text.NatToString | TalentoPlus.Infrastructure/Services/EmployeeService.cs:272 | `int.ToString` of a count is a non-empty digit string, starting with '0' only for zero |
| Text.DecimalRoundTrip | TalentoPlus.Infrastructure/Services/EmployeeService.cs:272 | the decimal text of a count reads back as that count |
| AiProvider.Render | TalentoPlus.Infrastructure/Services/AiProvider.cs:128-153 | every canonical query starts with "contar " |
| AiProvider.BasicHeuristics | TalentoPlus.Infrastructure/Services/AiProvider.cs:66-87 | the result is one of the five heuristic queries, it is canonical, "departamento" always wins, and the total is given exactly when no keyword occurs |
| AiProvider.HeuristicsIgnoreCase | TalentoPlus.Infrastructure/Services/AiProvider.cs:68 | questions equal up to case get the same heuristic query |
| AiProvider.HeuristicsFirstMatch | TalentoPlus.Infrastructure/Services/AiProvider.cs:69-84 | the first keyword found, in the source's order "departamento", "inactivo", "vacaciones", "auxiliar", "cargo", decides the query; "auxiliar" and "cargo" both give the position query |
| AiProvider.ExtractQuoted | TalentoPlus.Infrastructure/Services/AiProvider.cs:155-164 | without two double quotes the result is empty; otherwise it is shorter than the text by at least the two quotes; upper-case text gives an upper-case value |
| AiProvider.ExtractQuotedBetween | TalentoPlus.Infrastructure/Services/AiProvider.cs:155-164 | the text between the only two quotes is returned whole |
| AiProvider.ExtractQuotedOf | TalentoPlus.Infrastructure/Services/AiProvider.cs:155-164 | the value quoted after a quote-free prefix is read back |
| AiProvider.MapToCanonical | TalentoPlus.Infrastructure/Services/AiProvider.cs:128-153 | every reply maps to the canonical query of some intent whose parameter is upper case |
| AiProvider.TagIntent | TalentoPlus.Infrastructure/Services/AiProvider.cs:131-152 | the intent read from an upper-case tag has an upper-case parameter |
| AiProvider.MapToCanonicalByPrefix | TalentoPlus.Infrastructure/Services/AiProvider.cs:128-153 | the trimmed upper-cased reply's prefix decides: a department or position query with the upper-case quoted value embedded, a status query read by INACTIVO before VACACION and otherwise Active, and the total query for any other reply, "TODO" included |
| AiProvider.StatusTagPrecedence | TalentoPlus.Infrastructure/Services/AiProvider.cs:137-144 | after "ESTADO", "INACTIVO" wins over "VACACION", and neither gives Active |
| AiProvider.StatusTagIntent | TalentoPlus.Infrastructure/Services/AiProvider.cs:137-144 | the status intent of an "ESTADO" tag follows the same precedence |
| AiProvider.TagRoundTrip | TalentoPlus.Infrastructure/Services/AiProvider.cs:128-153 | mapping the tag of any intent with a quote-free parameter gives that intent's canonical query, parameter upper-cased |
| AiProvider.TotalTagRoundTrip | TalentoPlus.Infrastructure/Services/AiProvider.cs:152 | the tag "TODO" maps to the total query |
| AiProvider.DepartmentTagRoundTrip | TalentoPlus.Infrastructure/Services/AiProvider.cs:131-135 | a `DEPARTAMENTO:"name"` tag maps to the department query of the upper-cased name |
| AiProvider.PositionTagRoundTrip | TalentoPlus.Infrastructure/Services/AiProvider.cs:146-150 | a `CARGO:"text"` tag maps to the position query of the upper-cased text |
| AiProvider.StatusTagRoundTrip | TalentoPlus.Infrastructure/Services/AiProvider.cs:137-144 | each status tag maps to its own status query |
| AiProvider.StatusTagWords | TalentoPlus.Infrastructure/Services/AiProvider.cs:139-141 | a status tag holds "INACTIVO" exactly for Inactive and "VACACION" exactly for Vacation |
| AiProvider.BuildPrompt | TalentoPlus.Infrastructure/Services/AiProvider.cs:89-107 | the prompt is the fixed instructions, the question word for word, then the closing line |
| AiProvider.PromptListsTags | TalentoPlus.Infrastructure/Services/AiProvider.cs:92-97 | whatever the question, the prompt lists every tag shape the mapping understands |
| AiProvider.RequestUri | TalentoPlus.Infrastructure/Services/AiProvider.cs:47-49 | the URI is the configured URL, then '&' if it already has a '?' and '?' otherwise, then `key=` and the key |
| AiProvider.BuildSqlLikeQuery | TalentoPlus.Infrastructure/Services/AiProvider.cs:20-64 | unconfigured gives the heuristic with no request; configured fails exactly when the call throws; the request carries the URI and prompt; the query is always canonical, and is the mapped reply exactly when the classifier is usable |
| EmployeeService.Eval | TalentoPlus.Infrastructure/Services/EmployeeService.cs:219-265 | a count never exceeds the store's size; no call gives 0 and the total gives the size |
| EmployeeService.ExtractQuotedValue | TalentoPlus.Infrastructure/Services/EmployeeService.cs:276-286 | without two double quotes the value is empty; a value never starts or ends with a quote |
| EmployeeService.ExtractQuotedValueTrims | TalentoPlus.Infrastructure/Services/EmployeeService.cs:276-286 | the value is the provider's quoted text with quotes trimmed from both ends |
| EmployeeService.ExtractQuotedValueOf | TalentoPlus.Infrastructure/Services/EmployeeService.cs:276-286 | a quote-free value quoted after a quote-free prefix is read back exactly |
| EmployeeService.ExtractQuotedValueBetween | TalentoPlus.Infrastructure/Services/EmployeeService.cs:276-286 | for any text, the value is the text between the first and the last quote with quotes trimmed from its ends |
| EmployeeService.LowerAroundQuotes | TalentoPlus.Infrastructure/Services/EmployeeService.cs:216 | lower-casing a query keeps its quotes where they were and lower-cases the text between them |
| EmployeeService.WordsAfter | TalentoPlus.Infrastructure/Services/EmployeeService.cs:291-295 | without the marker there are no words |
| EmployeeService.ExtractDepartmentFromQuestion | TalentoPlus.Infrastructure/Services/EmployeeService.cs:288-314 | the result has no end punctuation at either end; without "departamento de", "tecnolog" gives "tecnología", and no keyword gives "" |
| EmployeeService.WordsAfterFirst | TalentoPlus.Infrastructure/Services/EmployeeService.cs:291-295 | the words are those after the first occurrence of the marker |
| EmployeeService.DepartmentFromTail | TalentoPlus.Infrastructure/Services/EmployeeService.cs:294-302 | with two or more words after the marker, the name is the first word, plus the second when it is longer than three characters, punctuation trimmed |
| EmployeeService.DepartmentFromAnyTail | TalentoPlus.Infrastructure/Services/EmployeeService.cs:288-314 | for any text after the first "departamento de" (tabs, runs of blanks, trailing blanks included): the words of the trimmed tail decide the name, and a tail without words falls back to the keywords of the whole question |
| EmployeeService.DepartmentFromOneWord | TalentoPlus.Infrastructure/Services/EmployeeService.cs:296-302 | one word after "departamento de" is the name, punctuation trimmed |
| EmployeeService.DepartmentFromTwoWords | TalentoPlus.Infrastructure/Services/EmployeeService.cs:296-302 | for any two words after "departamento de", separated by any number of spaces and followed by any text, the second joins the name only when it is longer than three characters, and end punctuation is trimmed |
| EmployeeService.DepartmentFromKeywords | TalentoPlus.Infrastructure/Services/EmployeeService.cs:306-313 | without "departamento de", "tecnolog", "recursos humanos" and "operacion"/"operación" are tried in that order, else "" |
| EmployeeService.ResolveCall | TalentoPlus.Infrastructure/Services/EmployeeService.cs:216-266 | "auxiliar" in the question forces a position count; a department count needs "departamento" and no "cargo"; status and total counts exactly under their keyword conditions, the status being Inactive for "inactivo", else Vacation for "vacaciones", else Active; nothing is counted exactly when the quoted value and the fallbacks are blank |
| EmployeeService.AskAi | TalentoPlus.Infrastructure/Services/EmployeeService.cs:212-274 | fails exactly when the provider fails; otherwise the response echoes the question and query, and its result is the decimal text of the count the query resolves to (digits only, no leading zero, "0" when nothing is counted) |
| EmployeeService.ResolveUnquoted | TalentoPlus.Infrastructure/Services/EmployeeService.cs:221-265 | a quote-free query without "cargo" or "departamento" gives "auxiliar", the status by precedence, or the total |
| EmployeeService.ResolveQuotedDepartment | TalentoPlus.Infrastructure/Services/EmployeeService.cs:221-244 | a department query gives the quoted name, else the name found in the question, else nothing; "auxiliar" turns it into a position count |
| EmployeeService.ResolveQuotedPosition | TalentoPlus.Infrastructure/Services/EmployeeService.cs:221-232 | a position query gives the quoted text, else "auxiliar" when the question has it, else nothing |
| EmployeeService.ResolveTotal | TalentoPlus.Infrastructure/Services/EmployeeService.cs:221-264 | the total query counts everyone unless the question says "auxiliar" |
| EmployeeService.ResolveStatus | TalentoPlus.Infrastructure/Services/EmployeeService.cs:247-261 | the Inactivo query counts inactive employees; the Vacation and Active queries count active ones |
| EmployeeService.ResolveDepartment | TalentoPlus.Infrastructure/Services/EmployeeService.cs:221-244 | the department query's outcome for every name and question, including a name with "cargo" read as a position |
| EmployeeService.ResolvePosition | TalentoPlus.Infrastructure/Services/EmployeeService.cs:221-232 | the position query counts its lower-cased text, or falls back to "auxiliar", or counts nothing |
| EmployeeService.ResolveCountsQuotedText | TalentoPlus.Infrastructure/Services/EmployeeService.cs:221-244 | for any query with a quoted part, the position counted is the lower-cased quoted text, or "auxiliar" when it is blank; the department counted is that text, or the name found in the question when it is blank |
| EmployeeService.ResolveMatchesIntent | TalentoPlus.Infrastructure/Services/EmployeeService.cs:216-265 | for a question without "auxiliar", the canonical query of every readable intent (except vacation and "cargo" names) counts what the intent asks for |
| EmployeeService.ResolveMisreads | TalentoPlus.Infrastructure/Services/EmployeeService.cs:221-255 | the vacation query counts active employees; a department name with "cargo" is counted as a position |
| EmployeeService.IntendedIgnoresCase | TalentoPlus.Infrastructure/Repositories/EmployeeRepository.cs:66-77 | upper-casing an intent's parameter does not change its count |
| EmployeeService.UpperKeepsResolvable | TalentoPlus.Infrastructure/Services/AiProvider.cs:130 | upper-casing by the mapping keeps an intent readable as asked |
| EmployeeService.TagNotBlank | TalentoPlus.Infrastructure/Services/AiProvider.cs:63 | every classifier tag is non-blank, so a reply of one is always mapped |
| EmployeeService.AskAiClassified | TalentoPlus.Infrastructure/Services/EmployeeService.cs:212-274 | end to end, a configured provider whose classifier replies with an intent's tag answers with the decimal text of the count that intent asks for |
| EmployeeService.ResolveHeuristic | TalentoPlus.Infrastructure/Services/EmployeeService.cs:221-265 | on a heuristic query something is always counted, a department is always the placeholder, and vacation is never counted |
| EmployeeService.VacationQuestionCountsActive | TalentoPlus.Infrastructure/Services/AiProvider.cs:77-80 | a vacation question on the heuristic path counts the active employees |
| EmployeeService.HeuristicAuxiliarFallback | TalentoPlus.Infrastructure/Services/EmployeeService.cs:228-231 | an "inactivo" and "auxiliar" question on the heuristic path counts positions containing "auxiliar" |
| EmployeeService.AskAiVacationQuestion | TalentoPlus.Infrastructure/Services/EmployeeService.cs:212-274 | end to end, unconfigured, a vacation question returns the Vacation query and the decimal text of the active count |
| LegacyAiProvider.LegacyPrompt | src/TalentoPlus.Infrastructure/Services/AiProvider.cs:30 | the prompt is the fixed sentence followed by the question word for word |
| LegacyAiProvider.BuildSqlLikeQuery | src/TalentoPlus.Infrastructure/Services/AiProvider.cs:19-39 | unconfigured gives the heuristic; configured fails exactly when the call throws; the request carries the URL, bearer key and prompt; the query is the raw reply exactly when it is usable |
| LegacyAiProvider.FallbackAgrees | src/TalentoPlus.Infrastructure/Services/AiProvider.cs:24-62 | when the reply is not used, both versions fall back to the same heuristic query |
| LegacyAiProvider.TodoIsNotCanonical | src/TalentoPlus.Infrastructure/Services/AiProvider.cs:38 | "TODO" is no canonical query |
| LegacyAiProvider.PassesRawReply | src/TalentoPlus.Infrastructure/Services/AiProvider.cs:37-38 | the reply "TODO" is passed on as a non-canonical query, where the later version maps it to the total |
| LegacyEmployeeService.LegacyResolveCall | src/TalentoPlus.Infrastructure/Services/EmployeeService.cs:206-244 | department, then status, then position, then total, each under its exact keyword condition, the status being Inactive for "inactivo", else Vacation for "vacaciones", else Active, raw replies included; quoted values are never blank when counted |
| LegacyEmployeeService.LegacyAskAi | src/TalentoPlus.Infrastructure/Services/EmployeeService.cs:203-252 | fails exactly when the provider fails; otherwise echoes question and query, and its result is the decimal text of the resolved count |
| LegacyEmployeeService.LegacyCountsQuotedText | src/TalentoPlus.Infrastructure/Services/EmployeeService.cs:209-240 | for any query with a quoted part, raw classifier replies included, the department or position counted is the lower-cased quoted text, and a blank one counts nothing |
| LegacyEmployeeService.LegacyResolveUnquoted | src/TalentoPlus.Infrastructure/Services/EmployeeService.cs:218-244 | a quote-free query without "departamento" gives status by precedence, nothing for "cargo", or the total |
| LegacyEmployeeService.LegacyResolveTotal | src/TalentoPlus.Infrastructure/Services/EmployeeService.cs:241-244 | the total query counts everyone, whatever the question |
| LegacyEmployeeService.LegacyResolveStatus | src/TalentoPlus.Infrastructure/Services/EmployeeService.cs:218-232 | the Inactivo query counts inactive; Vacation and Active count active |
| LegacyEmployeeService.LegacyResolveDepartment | src/TalentoPlus.Infrastructure/Services/EmployeeService.cs:209-217 | a department query counts the lower-cased name, even one with "cargo"; a blank name counts nothing |
| LegacyEmployeeService.PositionQueryRead | src/TalentoPlus.Infrastructure/Services/EmployeeService.cs:233-236 | the position query's quoted text is read back lower-cased |
| LegacyEmployeeService.PositionQueryKeywords | src/TalentoPlus.Infrastructure/Services/EmployeeService.cs:209-233 | a position query holds "departamento" or "estado" exactly when its text does |
| LegacyEmployeeService.LegacyResolvePosition | src/TalentoPlus.Infrastructure/Services/EmployeeService.cs:209-240 | a text with "departamento" is counted as a department; a text free of the other keywords is counted as a position, or nothing when blank |
| LegacyEmployeeService.LegacyResolveMatchesIntent | src/TalentoPlus.Infrastructure/Services/EmployeeService.cs:206-244 | the canonical query of every intent read as asked counts what the intent asks for |
| LegacyEmployeeService.ResolversAgree | src/TalentoPlus.Infrastructure/Services/EmployeeService.cs:206-244 | where both versions read an intent as asked and no "auxiliar" is asked, their counts agree |
| LegacyEmployeeService.ResolversDiffer | src/TalentoPlus.Infrastructure/Services/EmployeeService.cs:209-217 | a department name with "cargo" is a position for the later version and a department for the earlier |
| LegacyEmployeeService.AuxiliarDiffers | src/TalentoPlus.Infrastructure/Services/EmployeeService.cs:241-244 | with "auxiliar" asked, the total query counts auxiliaries in the later version and everyone in the earlier |
| LegacyEmployeeService.HeuristicResolversAgree | src/TalentoPlus.Infrastructure/Services/AiProvider.cs:41-62 | on every heuristic query, without "auxiliar", both versions make the same call |
| LegacyEmployeeService.RawReplyCountsAll | src/TalentoPlus.Infrastructure/Services/EmployeeService.cs:241-244 | the raw reply "TODO" reaches the earlier resolver as is and answers the decimal text of the number of employees |

## Left out

- EmployeeService.AskAi: fails only when the provider fails. The repository counts are modelled as total functions; in the source they are awaited without a catch, so a database error or a cancellation during the count also propagates out of `AskAiAsync`.
- LegacyEmployeeService.LegacyAskAi: the same holds for the earlier version. Its counts are total here, while in the source an exception from the database propagates.
- EmployeeService.DepartmentFromTwoWords: the length test `parts[1].Length > 3` is modelled as the number of Unicode characters. .NET counts UTF-16 code units, so a second word holding characters outside the Basic Multilingual Plane (an emoji, say) can be longer than three for .NET and not for the model. The same holds for every string length in module `Text`.
- Text.SplitOnSpace: its own contract states the tokens' contents but not where they begin and end. That is stated by the lemmas `SplitSkipsSpaces`, `SplitFirstWord` and `SplitLeadingWords`.
- `ExtractGeminiText` and all JSON handling: the later provider's reply is modelled as the extracted text (empty when extraction fails), the earlier one's as the body string.
- The HTTP exchange itself, `HttpClient`, cancellation tokens and `async`: the outcome of the call is a parameter. The earlier provider sets the `Authorization` header on a shared client; the model records the bearer key as a field of the request, not as a change to shared state.
- The configuration store: the two settings are given as optional strings.
- Case mapping: `ToLowerInvariant`, `ToUpperInvariant` and `ToLower` are modelled on the Latin-1 letters whose case partner is also in Latin-1 (A–Z, À–Þ without ×, and their lower-case partners). Every other character is left unchanged, including ÿ and µ, whose .NET partners lie outside Latin-1, and all letters beyond Latin-1.
- Culture-sensitive comparison: `IndexOf(string)` and `StartsWith(string)` are culture-sensitive in .NET and are modelled as ordinal comparisons (`Contains(string)` is ordinal already).
- Database translation: the LINQ filters are modelled with the same case mapping as above, not with the database's `LOWER` and collation. The order `FirstOrDefault` returns rows in is the order of the sequence.
- The earlier version's department count dereferences `Department!` without a null check; the model counts as `CountByDepartmentName` does and skips employees with no department.
- Integer width: counts are unbounded naturals; the source's `int` could overflow only past 2^31 − 1 employees.
- Everything else in the services and the repository (create, update, delete, import, PDF generation, e-mail, authentication, dashboard figures) is not part of this model.
