# DATA_HARVESTER enrichment pipeline in Dafny

This project models the logic of `app.py` in DATA_HARVESTER. The app is a
Streamlit tool. It loads a table from an uploaded file or a Google Sheet.
The user picks a column of entity names, and for each entity the app runs a
web search and asks a language model about it. It then extracts e-mail
addresses and phone numbers from the answer and returns one result row per
entity. The result can be downloaded or written to a new sheet.

The model covers:

- **Prompt templating** (`Templating`): `prompt.replace("{company}", entity)`, specified through split and join. It also covers the default prompt the app offers.
- **E-mail matching** (`EmailScan`): `re.findall` with the e-mail pattern, written as a left-to-right scanner. The scanner is proved to report exactly the leftmost-longest matches of the pattern's declarative meaning.
- **Field extraction** (`Extraction`): `extract_information`. It decides which of 'Email Address', 'Phone Numbers' and 'Result' a row receives.
- **Result rows** (`Rows`): Python dictionaries with insertion order, as `dict.__setitem__` and `dict.update` leave them.
- **The enrichment loop** (`Pipeline`): `process_data` as a method with a loop. The search engine and the model are oracles that can fail.
- **Tables** (`Tables`): the frame built from the sheet's values, the frame built from the result rows, entity selection with `dropna`, and the export body and requests.
- **Sheet URLs** (`SheetId`): the spreadsheet-id regular expression and the URL validation step.
- **Worked examples** (`Examples`): the two-entity run, one e-mail scan, and the sheet URLs.

External services are parameters:

- `Services.search` and `Services.complete` take the entity's position and the request, and return a reply or a failure.
- The phone-number matcher is a function parameter (`Extraction.PhoneMatcher`).
- The sheet API's reply is an argument of `Tables.LoadFromSheet`.
- The outcome of the two export API calls is given to `Tables.ExportToSheet` as two booleans.

Four behaviours of the code that are easy to overlook:

- `dropna` drops only missing cells. Empty strings stay entities.
- A model call that raises leaves the row with the entity alone. The row does not get an empty 'Result' field.
- The frame of result rows takes its columns from every row, in order of first appearance, as pandas does, not from the first row alone.
- A column that is absent, or whose label repeats, makes the selection fail (`Tables.SelectColumn`).

## Model

| member | source | states |
|---|---|---|
| Strings.Lower | app.py:132 | `prompt.lower()` on ASCII: same length, and each character is lowered where it is an upper-case letter |
| Strings.Contains | app.py:132 | `word in text` holds exactly when the word occurs at some position |
| Strings.Prefix | app.py:141 | `text[:200]` is a prefix of the text of length min(200, len(text)) |
| Strings.RunEnd | app.py:133 | a greedy character-class run stops at the first character outside the class, or at the end |
| Templating.SplitJoin | app.py:150 | the pieces between occurrences of `{company}`, joined by it again, give back the prompt |
| Templating.ReplaceAll | app.py:150 | `s.replace(pat, rep)` is `rep.join(s.split(pat))`: every piece between occurrences is kept and every occurrence becomes `rep` |
| Templating.Render | app.py:150 | the query for an entity; a prompt without `{company}` is sent as it is |
| Templating.SplitPiecesAreFree | app.py:150 | no piece left between replaced occurrences contains `{company}` |
| Templating.ReplaceWithoutOccurrence | app.py:150 | a prompt without `{company}` is returned unchanged |
| Templating.ReplaceByItself | app.py:150 | replacing `{company}` by itself changes nothing |
| Templating.ReplaceSkipsLead | app.py:150 | text before the first '{' passes through the replacement untouched |
| Templating.RenderIdempotent | app.py:150 | rendering a query that has no placeholder left changes nothing |
| Templating.DefaultPromptIgnoresEntity | app.py:251 | the default prompt, which names `{entity}`, is sent unchanged for every entity |
| Templating.CorrectedDefaultPromptNamesEntity | app.py:251 | with `{company}` in its place, the default query ends with the entity's name |
| EmailScan.MatchAt | app.py:133 | the end of the match tried at one position, after it; its meaning is stated by MatchAtSound, MatchAtComplete and MatchAtIsLongest |
| EmailScan.Scan | app.py:133 | `findall`'s left-to-right scan: every span lies in the text after the start; ScanIsLeftmostLongest states which spans these are |
| EmailScan.EmailSpans | app.py:133 | the match spans over the whole text, each non-empty and inside it; EmailSpansSpec states which spans these are |
| EmailScan.LastTldDot | app.py:133 | the right-most '.' followed by two letters in a range, which is where the greedy domain gives back characters |
| EmailScan.MatchAtSound | app.py:133 | what the scanner reports at a position is a match of the pattern |
| EmailScan.MatchAtComplete | app.py:133 | every match at a position is found, and the reported one is at least as long |
| EmailScan.MatchAtIsLongest | app.py:133 | at each position the scanner reports the longest match, or nothing exactly when no match starts there |
| EmailScan.ScanIsLeftmostLongest | app.py:133 | `findall` reports the leftmost-longest matches and continues after each one |
| EmailScan.LeftmostLongestUnique | app.py:133 | the leftmost-longest specification fixes the result of `findall` completely |
| EmailScan.LeftmostLongestOrdered | app.py:133 | matches come in text order and do not overlap |
| EmailScan.LeftmostLongestMatches | app.py:133 | every reported span is a longest match of the pattern |
| EmailScan.ShapeFacts | app.py:133 | a match holds exactly one '@' and ends in '.' and two or more letters |
| EmailScan.FindEmails | app.py:133 | one string per match, cut out of the text at the match's span |
| EmailScan.FoundEmailShape | app.py:133 | each returned address is a piece of the text with one '@' and a letter suffix |
| EmailScan.EmailSpansSpec | app.py:133 | the spans are the leftmost-longest ones, ordered and disjoint, with repeats kept |
| EmailScan.FindEmailsSpec | app.py:133 | the whole result of `findall`: pieces of the text, shaped as e-mails, in order and without overlap |
| Rows.Put | app.py:135 | `d[k] = v`: k maps to v, other keys are unchanged, and a new key goes last |
| Rows.NewKeys | app.py:165 | the keys of one dictionary that another lacks, and only those, without repeats |
| Rows.NewKeysAppend | app.py:165 | the new keys of a concatenation are the new keys of each part, in order |
| Rows.NewKeysOne | app.py:165 | a single key is new exactly when it is not present; with NewKeysAppend this fixes the order of the new keys |
| Rows.DedupAppend | app.py:165 | dropping repeats from `x + y` keeps x's first occurrences, then y's first occurrences that x lacks |
| Rows.Update | app.py:165 | `d.update(o)`: o's values win, d's keys keep their place, and o's new keys follow |
| Rows.UpdateKeyOrder | app.py:164-165 | `d.update(o)` orders its keys as d's keys followed by o's, each at its first occurrence |
| Rows.UpdateDisjoint | app.py:164-165 | updating with disjoint keys appends the other dictionary's keys in its order |
| Extraction.ExtractInformation | app.py:130-142 | 'Email Address' is present iff the prompt asks for e-mail and some address matched, with the matches as its value; the same for 'Phone Numbers'; 'Result' is present iff neither is; the result is never empty; keys come in source order |
| Extraction.ExtractedKeysAreFields | app.py:130-142 | the extracted keys are only 'Email Address', 'Phone Numbers' and 'Result' |
| Extraction.ExtractedEmails | app.py:132-135 | the 'Email Address' list is all the matches: pieces of the answer with one '@' and a letter suffix, in order and without overlap |
| Extraction.ExtractedPhones | app.py:136-139 | every phone number is a piece of the answer, given a matcher that reports pieces |
| Extraction.AsksIgnoresCase | app.py:132 | the test on the prompt gives the same answer for the prompt and its lower-cased form |
| Extraction.EmptyAnswer | app.py:140-141 | an empty answer with no phone match gives only 'Result' = "" |
| SheetId.SearchFrom | app.py:82 | `re.search` finds the left-most position where the marker is followed by an id character |
| SheetId.ParseSheetId | app.py:82-84 | an id is found iff the pattern occurs somewhere; the id is non-empty and made of `[A-Za-z0-9_-]` only |
| SheetId.ParseSheetIdSpec | app.py:82-84 | the id found is the one group 1 captures: the maximal id-character run after the left-most occurrence of the pattern |
| SheetId.ValidateSheetUrl | app.py:81-90 | an empty URL is "missing"; otherwise the id is set exactly when the pattern matches, and the URL is "invalid" otherwise |
| SheetId.SearchSkips | app.py:82 | positions where the pattern cannot match do not change the search result |
| Tables.MaxWidth | app.py:101 | the widest data row's width, which pandas compares with the header |
| Tables.LoadFromSheet | app.py:94-106 | an error gives "failed"; missing or empty values give "no data"; with data rows, loading fails exactly when the widest row is not as wide as the header; otherwise the header is `values[0]` and the rows are `values[1:]` padded with missing cells |
| Tables.LoadThenExport | app.py:101 | for rows as wide as the header, loading and then exporting gives the sheet's values back |
| Tables.LoadedCellsAreText | app.py:101 | every cell of a loaded frame is text or missing |
| Tables.ExportBody | app.py:201 | the export body is the header row followed by the frame's rows |
| Tables.ExportToSheet | app.py:172-207 | no request without credentials or with an empty name; otherwise a sheet is added first, and the body is written at `name!A1` only when that succeeds, with nothing sent after a failure; it reports success only when both calls succeed |
| Tables.ColumnsFrom | app.py:170 | the columns after the ones seen so far: every key of every row, once, and the earlier columns stay in front |
| Tables.ColumnsOf | app.py:170 | the frame's columns are all keys of all rows, each once |
| Tables.ColumnsFromFirstAppearance | app.py:170 | after the columns seen so far, the keys come in order of first appearance, row after row |
| Tables.ColumnsOfFirstAppearance | app.py:170 | the frame's columns are all keys of all rows in order of first appearance, as `pd.DataFrame(results)` orders them |
| Tables.ToFrame | app.py:170 | one frame row per result row, each as wide as the columns |
| Tables.FirstRowLeads | app.py:170 | the first row's keys are the first columns, in their order |
| Tables.CellOfFrame | app.py:170 | a cell holds its row's value for that column |
| Tables.ToFrameKeepsFields | app.py:170 | every field of every row is in the frame, under its own column |
| Tables.ToFrameMissing | app.py:170 | a cell is missing exactly where its row lacks the column's key |
| Tables.IndexOf | app.py:257 | the left-most position of a column label, or none when it is absent |
| Tables.SelectColumn | app.py:257 | `data[col]` gives a column exactly when the label occurs once, and the column holds that column's cells |
| Tables.SelectDistinctColumn | app.py:257 | in a frame whose labels do not repeat, selecting a label gives that column |
| Tables.DropNulls | app.py:257 | `dropna().tolist()` keeps only present values and is no longer than the column |
| Tables.DropNullsAppend | app.py:257 | dropping nulls works piece by piece, so order is kept |
| Tables.DropNullsKeepsPresent | app.py:257 | with no missing cells, every value is kept in place, repeats included |
| Tables.DropNullsCount | app.py:257 | the number of entities is the number of present cells |
| Tables.SelectEntities | app.py:257 | the entities are the present cells of the selected column |
| Pipeline.SearchResults | app.py:120-128 | a failed request or a missing 'organic_results' gives no hits; otherwise the organic results |
| Pipeline.Snippets | app.py:152 | one snippet per hit, in order, "" where a hit has none |
| Pipeline.SearchText | app.py:152 | every hit's snippet occurs in the search text |
| Pipeline.SnippetsInSearchText | app.py:152 | every part occurs in its space-join |
| Pipeline.FullPrompt | app.py:153 | the model's prompt is the query, then "\nSearch Results: ", then the search text |
| Pipeline.Extracted | app.py:150-162 | the extracted fields of one entity form a valid dictionary; ModelFailureRow, ModelAnswerRow and ExtractedSkipsEntity state which fields |
| Pipeline.EntityRow | app.py:163-165 | one result row, a valid dictionary; RowShape states its keys and values |
| Pipeline.ResultRows | app.py:145-166 | one valid row per entity; RowsFollowEntities states that row i names entity i |
| Pipeline.SearchFailurePrompt | app.py:126-128 | after a failed search the model gets the query and the label, with no search text |
| Pipeline.ProcessEntity | app.py:150-165 | one pass of the loop builds exactly the row `EntityRow` specifies for that entity and position |
| Pipeline.ProcessData | app.py:144-170 | the frame is built from one row per entity, each row as `EntityRow` specifies; the progress after entity t is (t+1, total) |
| Pipeline.ExtractedSkipsEntity | app.py:130-142 | the extracted fields never include the 'Entity' column, whatever the model answers |
| Pipeline.RowShape | app.py:164-165 | each row starts with 'Entity' holding the entity, followed by the extracted fields with their values |
| Pipeline.ModelFailureRow | app.py:155-165 | when the model call raises, the row holds only 'Entity' and has no 'Result' |
| Pipeline.ModelAnswerRow | app.py:155-165 | when the model answers, the row has at least one extracted field, and 'Result' exactly when no match field is present |
| Pipeline.RowsFollowEntities | app.py:149-166 | row i names entity i under 'Entity', first |
| Pipeline.EntityColumnFirst | app.py:164-170 | the processed frame's first column is 'Entity' |
| Pipeline.EntityColumnValues | app.py:164-170 | the 'Entity' column lists the entities in input order, repeats included |
| Pipeline.NoEntities | app.py:144-170 | no entities give an empty frame |
| Pipeline.ProgressRises | app.py:167 | the progress fraction is in (0, 1], rises strictly after each entity, and ends at 1 |
| Examples.PromptAsksEmail | app.py:132 | "Get email of {entity}" asks for e-mail |
| Examples.PromptAsksNoPhone | app.py:136 | that prompt does not ask for phone numbers |
| Examples.PromptHasNoPlaceholder | app.py:150 | that prompt is sent unchanged for every entity |
| Examples.AnswerEmails | app.py:133 | the e-mail matches of "reach us at a@b.com" are ["a@b.com"] |
| Examples.ScanSkipsWord | app.py:133 | a word of letters followed by a space starts no match |
| Examples.AlphaFields | app.py:130-142 | for that answer and prompt the only field is 'Email Address' = ["a@b.com"] |
| Examples.AlphaRow | app.py:155-165 | the first entity's row is Entity "Alpha" and 'Email Address' ["a@b.com"] |
| Examples.BetaRow | app.py:155-165 | an empty answer gives the row Entity "Beta" and 'Result' "" |
| Examples.TwoRowColumns | app.py:170 | those two rows give the columns Entity, Email Address, Result |
| Examples.TwoRowFrame | app.py:170 | those two rows give one missing cell in each frame row |
| Examples.TwoEntities | app.py:144-170 | the whole two-entity run gives the expected frame |
| Examples.UsualSheetUrl | app.py:82-84 | "https://docs.google.com/spreadsheets/d/ABC123/edit" yields "ABC123" |
| Examples.UrlWithoutMarker | app.py:87-88 | a URL without "/spreadsheets/d/" is invalid |

## Left out

- Streamlit UI is left out: radio buttons, text inputs, messages, progress-bar rendering and `sleep(0.1)`. Only the progress values are modelled, as `Pipeline.Progress`.
- OAuth, `token.pkl` pickling and credential refresh (app.py:42-72) are file I/O and foreign libraries. Only "credentials present or not" reaches `Tables.ExportToSheet`.
- The HTTP, search, model and sheet API calls are oracles or arguments, not modelled calls.
- `pd.read_csv` and `to_csv` (app.py:34, app.py:268) are library parsing and serialisation. Loading from a file is not modelled.
- dashboard.py is not part of this model. It repeats the sheet-id pattern and the `{company}` replacement of app.py, inside UI code.
- check.py is not part of this model. It only builds and prints a sample frame.
- Extraction.ExtractInformation: the phone-number pattern (app.py:137) is an abstract matcher, not a model of its `\b`, optional groups and backtracking. `Extraction.ExtractedPhones` assumes the matcher reports pieces of its input.
- Strings.Lower: only ASCII letters are lowered. Python's `str.lower` also maps other characters. The only ones it maps to ASCII letters are U+0130, which lowers to 'i' followed by U+0307, and U+212A, which lowers to 'k'. Neither can produce "email" or "phone", so the test on the prompt is unaffected.
- Pipeline.ProcessData: warnings (`st.error`) are not modelled. Each oracle call is indexed by the entity's position, so repeated queries may get different answers. Non-string snippets and non-object JSON replies are left out.
- Tables.LoadFromSheet: the error's text is not modelled. Cells are the strings the API returns. The pandas rule for ragged rows is modelled as padding to the widest row, or failing when that width differs from the header's.
- Tables.SelectColumn: a repeated label is modelled as a failed selection. pandas returns a frame there, which has no `tolist`.
- Tables.ExportBody: the frame's missing cells are sent as they are. How the API treats a NaN or a list cell is left to the service.
- Entities from a loaded sheet are text (`Tables.LoadedCellsAreText`). `Pipeline.ProcessData` takes them as strings. Numeric cells from a CSV file are out of scope.

## Findings

| source | as written | input that shows it | evidently intended | confidence | as-written member | corrected member |
|---|---|---|---|---|---|---|
| app.py:251 | the default prompt names `{entity}`, but app.py:150 replaces only `{company}`, so the entity never reaches the query | the default prompt with any entity, e.g. "Acme": the query sent is "Get me the email address and phone numbers of {entity}" | the default prompt uses `{company}`, so the query ends with the entity's name | not executed | Templating.DefaultPromptIgnoresEntity | Templating.CorrectedDefaultPromptNamesEntity |
