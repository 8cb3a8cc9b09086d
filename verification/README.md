# Requirements pipeline: a Dafny model

This project models the text-processing core of an AI-assisted requirements tool. The tool
takes meeting notes or an uploaded document and sends them to a text-generation service. It
then parses the free-text replies into three kinds of record:

- functional and non-functional **requirements** (`FR-001`, `NFR-002`, …);
- **user stories** (`US-001`, with a title, a story sentence, a priority, story points,
  dependencies and notes);
- **acceptance criteria** in GIVEN / WHEN / THEN form.

The model covers four parts of the tool:

- the retry loop of the requirements extractor;
- the three response parsers, with their regular expressions written out as explicit matchers;
- the display and export formatters;
- the document helpers: choosing a parser by file extension, the text each parser keeps, and
  the length check.

The generation service is a parameter. It is a function from the attempt number to an
`Outcome`: the response text, or the message of the exception it raised. The Word and PDF
libraries are parameters too: the paragraphs or page texts they read, or the message of
the exception they raise.

Modules:

| module | file | contents |
|---|---|---|
| `Wrappers` | `wrappers.dfy` | `Option`, `Result`, `Somes`, `Map` |
| `Text` | `text.dfy` | Python string operations (`strip`, `split`, `join`, `' '.join(s.split())`, `lower`, `capitalize`, `int` ↔ decimal, `{:03d}`) and their algebra |
| `Patterns` | `patterns.dfy` | the regular-expression building blocks: the lazy-group-with-lookahead search, `re.search` (`Leftmost`) and `re.findall` (`FindAll`) |
| `Generation` | `generation.dfy` | the service outcome and the overload test |
| `Requirements` | `requirements.dfy` | `RequirementsExtractor` |
| `Stories` | `stories.dfy` | `UserStoryGenerator` |
| `Criteria` | `criteria.dfy` | `AcceptanceCriteriaGenerator` |
| `Documents` | `documents.dfy` | `DocumentParser` |

Some behaviours of the code are easy to misread; the model keeps them as written:

- **Retries.** On an overload the code makes at most three calls in all, with two waits
  between them (2 s, then 4 s). The raise after the loop can never be reached, and
  `Requirements.CallWithRetry` proves this with `assert false`.
- **Requirement codes.** Not every emitted code has the form `FR-\d+` or `NFR-\d+`. The
  line-by-line fallback accepts a hyphenless `FR12`, and normalisation then puts `FR-` in
  front of it, giving `FR-FR12`. `Requirements.EmittedCode` admits exactly these two
  shapes.
- **The `FR` test.** The fallback's test `'FR' in line` also holds for lines that mention
  `NFR-…`.
- **Non-functional requirements.** Every non-functional header test of both requirement
  parsers is shadowed by the functional test before it. `Non-Functional Requirements`
  contains `Functional Requirements`, so the non-functional list is always empty
  (`Requirements.NonFunctionalHeaderIsFunctional`).
- **Story IDs.** The story-ID pattern `US-\d+` is matched ignoring case, so `us-12` is kept
  as written.
- **CSV export.** The JIRA export does not escape anything. Titles and story sentences are
  put between quotes as they are, so a quote or comma inside them breaks the row.

## Model

| member | source | states |
|---|---|---|
| Requirements.CallWithRetry | backend/services/requirements_extractor.py:52-99 | An unconfigured client fails with the not-configured error and makes no call. Otherwise the calls stop at the first attempt that is not an overload, and at most three are made. The reply is that attempt's response text or its wrapped error, or the overload error after three overloads. The waits are 2, 4, … seconds, one before each retry. |
| Requirements.SettledFacts | backend/services/requirements_extractor.py:81-97 | Every call before the last one was an overload. A wrapped error never carries an overload message. The overload error is returned exactly when all three calls were overloads. |
| Requirements.Extract | backend/services/requirements_extractor.py:52-79 | An unconfigured client fails, makes no call and waits for nothing. Otherwise the calls and waits are those of the retry loop. The result is a success exactly when the last call returned a response, and is then that response parsed. Otherwise it is the loop's error. |
| Requirements.SettledResponse | backend/services/requirements_extractor.py:59-97 | The loop settles on a response text exactly when the last call made returned one, and then on that text. |
| Requirements.ParseResponse | backend/services/requirements_extractor.py:71-79 | `raw_output` is attached exactly when the standard parse found something, and then equals the response. Otherwise the result is the alternative parse, without `raw_output`. The total is always the sum of the two lists. |
| Requirements.ParseRequirements | backend/services/requirements_extractor.py:101-132 | The functional list holds the items of the LAST stripped `##` section that mentions a functional title. The non-functional list is always empty. The total is the sum. Every item is well-formed. |
| Requirements.NonFunctionalHeaderIsFunctional | backend/services/requirements_extractor.py:121-126 | Every text that passes the non-functional header test also passes the functional one, so the `elif` branch is dead. |
| Requirements.ClassifyIsLastSection | backend/services/requirements_extractor.py:115-126 | For any item extractor, the loop over sections leaves the functional list equal to the items of the last functional section, and never fills the non-functional list. |
| Requirements.FindItems | backend/services/requirements_extractor.py:149-163 | `re.findall` of a structured pattern (bulleted, plain or bold) finds nothing exactly when the pattern matches at no position. Every code it finds has the form `P-\d+`. |
| Requirements.CodeHeadFound | backend/services/requirements_extractor.py:150-155 | Every head spelled out character by character (`[-*•]\s*P-\d+:`, a newline then `P-\d+:`, or `**P-\d+**:`) is recognised where it starts, with its code and the position after the colon. |
| Requirements.ItemFound | backend/services/requirements_extractor.py:150-155 | A structured line with at least one character after its colon is matched where it starts. The candidate carries the code and the lazily captured description, and the search resumes where that description ends. |
| Requirements.FindItemsFirst | backend/services/requirements_extractor.py:158-163 | The first item found is the leftmost match, followed by the items found after it. |
| Requirements.ItemLineFound | backend/services/requirements_extractor.py:149-163 | A section with a structured line anywhere in it yields items in that layout. |
| Requirements.LineMatchAt | backend/services/requirements_extractor.py:173 | A loose match at a position carries the code written there, which a separator follows. On a line without newlines the description is the non-empty rest of the line after the separators. |
| Requirements.SearchLineNone | backend/services/requirements_extractor.py:173 | `re.search` of the loose pattern finds nothing exactly when it matches at no position. |
| Requirements.SearchLineFirst | backend/services/requirements_extractor.py:173 | `re.search` of the loose pattern returns the leftmost match. |
| Requirements.ScanLine | backend/services/requirements_extractor.py:169-175 | A line gives at most one candidate, and only when its stripped form contains the prefix and a colon. For a line without newlines, the description is a proper suffix of the stripped line. |
| Requirements.ScanLineFinds | backend/services/requirements_extractor.py:169-175 | A line that passes the filter and has a loose match anywhere gives exactly one candidate. |
| Requirements.LineScan | backend/services/requirements_extractor.py:166-175 | The line-by-line fallback yields at most one candidate per line. Every candidate code is `P-?\d+`. |
| Requirements.LineScanEmpty | backend/services/requirements_extractor.py:166-175 | The fallback finds nothing exactly when no single line gives a candidate. |
| Requirements.LineScanAppend | backend/services/requirements_extractor.py:168-175 | The fallback treats lines one at a time: the candidates of two runs of lines are those of each, in order. |
| Requirements.Candidates | backend/services/requirements_extractor.py:158-176 | The bulleted pattern's matches are used alone whenever there are any. A hyphenless code can only come from the line scan. Every code is `P-?\d+`. |
| Requirements.Emit | backend/services/requirements_extractor.py:178-197 | A candidate yields a record exactly when its collapsed description is longer than ten characters. That record carries the collapsed description, a code of an emitted shape, and the kind that goes with the prefix. |
| Requirements.Normalize | backend/services/requirements_extractor.py:177-202 | At most one record per candidate, and every record is well-formed. |
| Requirements.NormalizeOne | backend/services/requirements_extractor.py:178-196 | A single candidate contributes exactly its own record when its description is meaningful, and nothing otherwise. |
| Requirements.NormalizeAppend | backend/services/requirements_extractor.py:177-202 | Candidates are handled one at a time: the records of two runs of candidates are those of each run, in candidate order. |
| Requirements.NormalizeEmpty | backend/services/requirements_extractor.py:177-202 | No record comes out exactly when no candidate's collapsed description is longer than ten characters. |
| Requirements.FixedCodeShape | backend/services/requirements_extractor.py:181-186 | The fixed form of a `P-?\d+` code is `P-\d+` or `P-P\d+`. |
| Requirements.AlternativeParse | backend/services/requirements_extractor.py:205-266 | The functional list is exactly the bulleted lines longer than 20 characters that lie under a functional header. They appear in document order, with the bullets removed, numbered `FR-001`, `FR-002`, …. The non-functional list is empty, and there is no `raw_output`. |
| Requirements.AltRunMatchesReference | backend/services/requirements_extractor.py:219-260 | The line loop, whatever its starting state on the invariant, agrees with the reference definition: each line's section is set by the last header above it. |
| Requirements.NoNonFunctionalSection | backend/services/requirements_extractor.py:229-237 | No line switches the alternative parse into the non-functional section. |
| Requirements.AlternativeCodesSequential | backend/services/requirements_extractor.py:247-253 | Record k carries code number k+1, and no two records share a code. |
| Requirements.FunctionalCodeValue | backend/services/requirements_extractor.py:249 | `FR-{n:03d}` is `FR-` followed by digits that read back as n. |
| Requirements.DisplayLayout | backend/services/requirements_extractor.py:279-297 | The display text is the functional block, then the non-functional block (each present only when its list is non-empty), then the total line and the counts line. |
| Patterns.FindAll | backend/services/criteria_generator.py:133-162 | `re.findall` from a position: the groups of successive matches come in order and never overlap, and the list is empty exactly when the pattern matches nowhere from that position on. |
| Patterns.FindAllFirst | backend/services/criteria_generator.py:133-162 | The first group `re.findall` returns is the one captured at the leftmost matching position, and the search then resumes where that match ended. |
| Patterns.CaptureFound | backend/services/criteria_generator.py:133-162 | `\s+(.+?)(?=…)` with `re.DOTALL` matches wherever the whitespace is present and the lookahead holds somewhere past the group's first character. |
| Stories.SplitRules | backend/services/story_generator.py:102 | Splitting at `\n---+\n` gives pieces and separators that reassemble to the text. Every separator is a rule, and no piece contains one. |
| Stories.ExtractStory | backend/services/story_generator.py:116-171 | The fields are well-shaped whatever the block says. The story ID is empty exactly when the ID pattern finds nothing. Each missing field keeps its default: empty, `Medium`, 0 or `None`. Each present field has its value: the ID as matched, title and dependencies stripped, user story and notes with whitespace collapsed, and the priority capitalised. |
| Stories.ExtractStoryPoints | backend/services/story_generator.py:157-160 | Present story points are the captured digits read as a decimal number. |
| Stories.Group | backend/services/story_generator.py:137-169 | What a field search captures has the field's shape: a case-insensitive `US-\d+`, a non-empty single line, a non-empty block, one of the three priorities, or a digit run. |
| Stories.GroupFirst | backend/services/story_generator.py:137-169 | The search takes the first position where the field's pattern matches, and the value is the group captured there. |
| Stories.GroupNone | backend/services/story_generator.py:137-169 | A field is missing exactly when its pattern matches at no position of the block. |
| Stories.StoryIdAtMatches | backend/services/story_generator.py:137 | The ID pattern matches at a position exactly when `**Story ID**:`, optional whitespace, `US-` and a digit start there, in any letter case. |
| Stories.HasStoryId | backend/services/story_generator.py:137-139 | A block has a story ID exactly when such a line occurs somewhere in it. |
| Stories.StoryOfHasId | backend/services/story_generator.py:104-111 | A piece yields a story exactly when, stripped, it has at least 50 characters and a story-ID line somewhere. |
| Stories.ChoiceBody | backend/services/story_generator.py:152-154 | A matched priority, capitalised, is `High`, `Medium` or `Low`. |
| Stories.StoryOf | backend/services/story_generator.py:104-111 | A piece yields a story exactly when its stripped text has at least 50 characters and a story ID. The story is then the fields of the stripped piece. |
| Stories.KeptStoriesAppend | backend/services/story_generator.py:104-113 | The stories of consecutive pieces are the stories of each run, in order. |
| Stories.KeptStoriesOne | backend/services/story_generator.py:104-111 | A single piece yields its story when it has one, and nothing otherwise. |
| Stories.ParseUserStories | backend/services/story_generator.py:89-113 | At most one story per piece. Every story kept has a story ID and well-shaped fields. |
| Stories.Generate | backend/services/story_generator.py:65-86 | The not-configured error is raised before any call. A failed call gives the prefixed error. A response gives its parsed stories, the raw text, and a count equal to the number of stories. |
| Stories.DisplayLayout | backend/services/story_generator.py:184-201 | The display text is the heading, then one block per story in order (the notes line only when there are notes), then the total line. |
| Stories.JiraLines | backend/services/story_generator.py:214-224 | For well-shaped stories, the CSV splits into exactly the header line and one row per story, in order. |
| Criteria.SplitScenarios | backend/services/criteria_generator.py:97-99 | Splitting at `**Scenario N:name**` gives pieces and headers that reassemble to the text. Every header is well-formed, with digits and a star-free name, and no piece contains a header. |
| Criteria.SplitFindsHeaders | backend/services/criteria_generator.py:98-99 | The split finds no header exactly when the text contains none. |
| Criteria.HeadTextAt | backend/services/criteria_generator.py:98 | Every well-formed header text in the input is recognised as a header. |
| Criteria.NoHeaderNoCriteria | backend/services/criteria_generator.py:97-111 | A text without scenario headers yields no criteria: the text before the first header is never used. |
| Criteria.ParseCriteria | backend/services/criteria_generator.py:85-111 | At most one criterion per scenario header. Each has a stripped, star-free name and three non-empty one-line clauses. |
| Criteria.ExtractCriterion | backend/services/criteria_generator.py:114-172 | A scenario is kept exactly when GIVEN, WHEN and THEN each have two or more groups, or one group that is not all whitespace. It then carries the name and the three clause texts. |
| Criteria.ClauseText | backend/services/criteria_generator.py:140-166 | The joined clause is on one line. It is empty exactly when there are no groups, or a single group of nothing but whitespace. |
| Criteria.DashAt | backend/services/criteria_generator.py:133-158 | A `-\s*KEYWORD\s+(.+?)` group starts after the dash and ends at the first place after its first character where its lookahead holds. |
| Criteria.DashAtShape | backend/services/criteria_generator.py:133-158 | Between the dash and the group lie whitespace, the keyword in any letter case, and at least one more whitespace character. |
| Criteria.KeywordGroup | backend/services/criteria_generator.py:133-158 | After the keyword come at least one whitespace character and a group that ends where its lookahead first holds. |
| Criteria.DashFound | backend/services/criteria_generator.py:133-158 | A dash, whitespace, the keyword and one whitespace character are always matched when the lookahead holds somewhere past the next character. |
| Criteria.ClauseFound | backend/services/criteria_generator.py:133-158 | A `- GIVEN`, `- WHEN` or `- THEN` followed by whitespace and at least one more character always gives that clause a group, since a lookahead alternative holds at the end of the text. |
| Criteria.AndAt | backend/services/criteria_generator.py:137-162 | A continuation group follows the keyword and ends where its lookahead first holds. |
| Criteria.AndAtIs | backend/services/criteria_generator.py:137-162 | The continuation is the group at the nearest `- AND` past the keyword's next character whose group the lookahead can close. |
| Criteria.AndAtFound | backend/services/criteria_generator.py:137-162 | Whenever such an `- AND` exists past the keyword's next character, a continuation is found. |
| Criteria.AndClauseFound | backend/services/criteria_generator.py:137-162 | The keyword followed by such an `- AND` always gives the clause a continuation group. |
| Criteria.ClauseStops | backend/services/criteria_generator.py:133-162 | Every GIVEN group stops before the next `- AND`, `- WHEN` or a final newline; WHEN before `- AND` or `- THEN`; THEN before `- AND` or `- **`. Every AND group stops only before the next clause's dash (or the end, after THEN). |
| Criteria.DashAdvancing | backend/services/criteria_generator.py:133-158 | Every `-\s*KEYWORD\s+(.+?)` match lies after where the search started and is non-empty, so `re.findall` over it terminates. |
| Criteria.AndAdvancing | backend/services/criteria_generator.py:137-162 | The same for the `(?:KEYWORD.+?)-\s*AND\s+(.+?)` continuation patterns. |
| Criteria.Generate | backend/services/criteria_generator.py:61-82 | The not-configured error is raised before any call. A failed call gives the prefixed error. A response gives its parsed criteria, the raw text, and a count equal to the number of criteria. |
| Criteria.DisplayLayout | backend/services/criteria_generator.py:185-199 | The display text is the heading, then one block per scenario numbered from 1, then the total line. |
| Criteria.GherkinDefaultFeature | backend/services/criteria_generator.py:202-213 | Called without a feature name, the Gherkin export opens with `Feature: User Story`. |
| Criteria.GherkinLines | backend/services/criteria_generator.py:213-222 | For criteria with one-line names and a one-line feature name, the output's lines are the feature line, a blank line, and then five lines per scenario. |
| Documents.Extension | backend/services/document_parser.py:117 | The extension is the lower-cased name's longest dot-free suffix: the whole name, or what follows its last dot. |
| Documents.ExtensionUnique | backend/services/document_parser.py:117 | That characterisation fixes the extension uniquely. |
| Documents.ExtensionOf | backend/services/document_parser.py:117 | A name that lower-cases to `stem.ext`, with no dot in `ext`, has extension `ext`. |
| Documents.ParseTxt | backend/services/document_parser.py:31-37 | The text is trimmed, and is empty exactly when the input is all whitespace. |
| Documents.ParseTxtIdempotent | backend/services/document_parser.py:37 | Parsing parsed text changes nothing. |
| Documents.NonBlank | backend/services/document_parser.py:60-62 | The kept paragraphs are non-blank members of the input, and none is kept exactly when all are blank. |
| Documents.NonBlankAppend | backend/services/document_parser.py:60-62 | Dropping blank paragraphs distributes over concatenation. |
| Documents.ParseDocx | backend/services/document_parser.py:59-67 | The text is trimmed, and is empty exactly when every paragraph is blank. |
| Documents.BlankParagraphsIgnored | backend/services/document_parser.py:59-67 | Inserting a blank paragraph anywhere does not change the text. |
| Documents.OneParagraph | backend/services/document_parser.py:59-67 | A single non-blank paragraph gives the same text as the plain-text parser. |
| Documents.ParsePdf | backend/services/document_parser.py:89-98 | The text is trimmed, and is empty exactly when every page is blank. |
| Documents.ParseDocument | backend/services/document_parser.py:116-130 | An unsupported extension fails with the unsupported-format message exactly when the extension is not txt, docx or pdf. Each supported extension gives that parser's text, or its prefixed error message. |
| Documents.ValidateText | backend/services/document_parser.py:134-151 | The text is valid exactly when, trimmed, it is non-empty and at least the minimum length. A blank text gets the no-content message, a short one the message naming the minimum, and a valid one the success message. |
| Documents.DefaultValidation | backend/services/document_parser.py:134-151 | With the default minimum, a text passes exactly when it has at least 50 characters once trimmed, and a short one is told that the minimum is 50. |
| Documents.ValidateParsed | backend/services/document_parser.py:134-151 | Validating the parsed text gives the same verdict and message as validating the raw text. |

## Left out

- Prompts and the service client: the prompt templates, the model name and the API key
  configuration are not modelled. The service is a function from attempt number to
  `Outcome`, and configuration is a boolean.
- Console output: the `print` calls in all three generators produce console output only and
  are not modelled.
- `time.sleep`: the waits are recorded as a sequence of seconds instead of being performed.
- The `IndexError`/`AttributeError` handler around each match in
  `_extract_requirement_items`: every match has two groups, so the handler never runs.
- The bytes branch of `parse_txt` (UTF-8 decoding and its error message) is not modelled:
  bytes and encodings are outside the model. The upload's text is given as a string.
- The internals of the Word and PDF libraries (`python-docx`, `PyPDF2`) are not modelled:
  their paragraphs, page texts or exception messages are inputs. A page whose text is
  `None` is not modelled.
- Case folding and `\d`: `lower`, `capitalize` and `re.IGNORECASE` are modelled for ASCII
  letters only, and `\d` is `0`–`9`. Python's Unicode case mappings and decimal digits are
  wider. (`\s` and `isspace` are modelled with Python's full whitespace set.)
- Stories.PointsField: a run of more than 4300 digits is read as its number. CPython 3.11
  and later reject such an `int()` conversion with a `ValueError`, which `generate` would
  report as a generation error. That limit is interpreter configuration and is not modelled.
- The example output in the acceptance-criteria generator's docstring is not replayed as a
  concrete instance.
- The module-level generator and parser instances and `is_configured` are plain state with
  no logic to model.
- Stories.ParseUserStories: its own contract gives only the bound and the shape of each
  kept story. Which stories are kept, and their order, is stated by `StoryOf`,
  `KeptStoriesOne` and `KeptStoriesAppend`, over the pieces `SplitRules` yields.
- Criteria.ParseCriteria: its own contract gives only the bound and the shape of each
  criterion. Which scenarios are kept is stated by `ExtractCriterion`, and the headers
  found by `SplitScenarios`, `SplitFindsHeaders` and `HeadTextAt`.
- Requirements.FindItems: its own contract does not give the descriptions. The first
  item and its description come from `ItemFound` and `FindItemsFirst`, which say that the
  leftmost match is taken and the search resumes where its description ends.
- Requirements.LineScan: its own contract gives only the bound and the code shape. The line
  filter and the rest-of-line description are stated per line by `ScanLine` and
  `ScanLineFinds`, and lifted to the section by `LineScanEmpty` and `LineScanAppend`.
- Stories.Group: its own contract gives only the shape of the capture. `GroupFirst` states
  that the first position where the pattern matches supplies the value, and `GroupNone`
  that a field is missing exactly when the pattern matches nowhere.
- Requirements.Normalize: its own contract gives only the bound and well-formedness. What
  each candidate contributes, and in what order, is stated by `NormalizeOne`,
  `NormalizeAppend` and `NormalizeEmpty`.
- Requirements.Candidates: the contract pins the result only when the bulleted pattern
  matches, or when a hyphenless code shows that the line scan ran. The preference of the
  plain over the bold pattern is in the definition, not in a separate property.
- Criteria.AndAt: its own contract states only where a continuation group ends. That it
  starts from the nearest `- AND`, and that one is found whenever it exists, is stated by
  `AndAtIs` and `AndAtFound`.
- Criteria.DashAt: its own contract states only where a group starts and ends. That a
  present clause line is matched is stated by `DashFound` and `ClauseFound`, and what lies
  between the dash and the group by `DashAtShape`.
- Patterns.FindAll: its own contract states order, non-overlap and when the list is empty.
  Which group comes first, and where the search resumes, is stated by `FindAllFirst`.
- Criteria.GherkinLines: requires one-line scenario names and a one-line feature name. A
  scenario name is `[^*]+`, which may span lines, and then the output has more lines.
