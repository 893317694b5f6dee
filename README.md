# Résumé shortlisting, modelled in Dafny

The shortlisting script works in these steps:

1. It collects the PDF résumés of a data folder and loads a job description and a keyword file.
2. It builds one prompt that holds the description, the keywords and the résumé texts, and sends it to a chat model.
3. It scrapes the file names that follow `Filename:` out of the model's reply.
4. It copies each found résumé into a freshly emptied shortlist folder. Each copy gets a rank prefix of at least two digits. A scraped name that is not in the data folder draws a warning instead.

This project models that core:

- the keyword filter, the prompt builder, the reply scraper, the copy loop and the selection loop of `main`;
- the Python string operations they rely on: `strip`, `isspace`, `endswith`, `join`, `replace(' ', '_')` and `{i:02d}`.

The modules are:

- `Text` (`text.dfy`): the Python string primitives over `seq<char>`, plus occurrence lemmas used to locate text inside a prompt.
- `Requirements` (`requirements.dfy`): `load_requirements`, taking the two files' contents, or their failure to be read, as inputs. The keyword list comprehension is the function `KeepKeywords`.
- `Prompt` (`prompt.dfy`): `build_prompt`.
  - `BuildPrompt` is a method with the source's `+=` loop, proved to produce `Render(TEMPLATE, …)`.
  - The text the prompt is made of is a `Template` value, and `TEMPLATE` holds the script's exact literals.
  - The lemmas hold for every template.
- `Scrape` (`scrape.dfy`): `re.findall(r'Filename:\s*(.*\.pdf)', …)` written as a scanner for this one pattern.
  - `MatchAt` is the engine's attempt at one offset, and `FindAll` is findall's scan loop.
  - `PatternMatches` is the pattern read as a language, defined without the scanner. `MatchAtCorrect` ties `MatchAt` to it.
  - `Scanned` is what findall promises about the list of matches. It is defined through `MatchAt`, the attempt at one offset, but not through the scan loop `FindAll`. `FindAllScanned` and `ScannedIsFindAll` tie the loop to it in both directions. It reaches `PatternMatches` only through `MatchAtCorrect`.
  - `ScrapeNames` is the strip comprehension.
- `Filer` (`filer.dfy`): the loop of `parse_and_save`.
  - The data folder is the set of names it holds.
  - The shortlist folder is a map from each file in it to the data-folder name it was copied from. It starts empty, which models `rmtree` plus `makedirs`.
  - The warnings are a list of names.
- `Pipeline` (`pipeline.dfy`): `main`. The directory listing, the PDF text extractor (`extract`) and the chat model (`llm`) are parameters.
- `Wrappers` (`wrappers.dfy`): the `Option` type.

Behaviour of the code worth knowing, which the model reproduces:

- **Keyword duplicates.** Line 38 drops only blank lines. A keyword that appears twice is kept twice (`Requirements.KeepKeywordsLine`).
- **Rank prefixes.** The rank is `enumerate(shortlisted, 1)` over every scraped name, and it counts names that were not found (`Filer.CopyRanks`). So the prefixes of the copied files strictly increase but can skip numbers, and the first file need not be `01`.
- **Names under "Rejected:".** The pattern has no notion of the reply's "Shortlisted:" and "Rejected:" sections. A `Filename:` under "Rejected:" is scraped like any other. `Scrape.Scanned` with `Scrape.MatchAtCorrect` states that a match is captured wherever in the reply it begins, except inside an earlier capture.
- **Several names on one line.** The group is greedy to the last `.pdf` of its line (`Scrape.GroupRunsToLastExtension`). In `Filename: a.pdf, Filename: b.pdf` on one line, the one capture is `a.pdf, Filename: b.pdf`, and the second marker is swallowed by it.

## Model

| member | source | states |
|---|---|---|
| Text.IsSpace | Resume_shortlisting/resume_shortlist.py:38 | Python's `str.isspace` for one character, the set that `strip()` removes and that `\s` matches in a `str` pattern. |
| Text.Strip | Resume_shortlisting/resume_shortlist.py:38 | `str.strip()`, never longer than its input; its content is stated by `StripSpec`. |
| Text.StripSpec | Resume_shortlisting/resume_shortlist.py:38 | `strip` removes a whitespace run from each end and keeps the middle as it stands in the input. A non-empty result neither starts nor ends with whitespace. The result is empty exactly when every character is whitespace (Python's `isspace` set). |
| Text.StripNoop | Resume_shortlisting/resume_shortlist.py:107 | A string that neither starts nor ends with whitespace is its own strip. |
| Text.StripIdempotent | Resume_shortlisting/resume_shortlist.py:38 | Stripping twice is stripping once. |
| Text.EndsWith | Resume_shortlisting/resume_shortlist.py:124 | `str.endswith`: the last characters of the string are the suffix. |
| Text.Join | Resume_shortlisting/resume_shortlist.py:46 | `sep.join(parts)`: the parts in order with `sep` between neighbours; where each part stands is stated by `JoinContainsPart`, where each separator stands by `JoinContainsSeparator`, and the total length by `JoinLength`. |
| Text.JoinContainsPart | Resume_shortlisting/resume_shortlist.py:46 | Every part occurs verbatim in `sep.join(parts)`, at the offset given by the lengths of the parts and separators before it. |
| Text.JoinContainsSeparator | Resume_shortlisting/resume_shortlist.py:46 | `sep` occurs verbatim right after every part but the last. |
| Text.JoinLength | Resume_shortlisting/resume_shortlist.py:46 | The join of no parts is empty; otherwise it ends exactly where its last part ends, so with the parts and separators placed nothing else is in it. |
| Text.ReplaceSpaces | Resume_shortlisting/resume_shortlist.py:113 | `replace(' ', '_')` keeps the length, turns each space (and only it) into `_` and leaves every other character in place, so no space remains. |
| Text.Pad2 | Resume_shortlisting/resume_shortlist.py:113 | `{i:02d}` is at least two characters, all decimal digits. |
| Text.Pad2Spec | Resume_shortlisting/resume_shortlist.py:113 | Below 100, `{i:02d}` is exactly the tens digit followed by the units digit. From 10 on it has no leading zero. With `ParsePad2RoundTrip` this fixes the text for every rank. |
| Text.ParsePad2RoundTrip | Resume_shortlisting/resume_shortlist.py:113 | The zero-padded numeral reads back as the number it was made from. |
| Text.LeadingDigitsOfRun | Resume_shortlisting/resume_shortlist.py:113 | A run of digits followed by a non-digit is exactly the numeral at the front of the string. |
| Requirements.KeepKeywords | Resume_shortlisting/resume_shortlist.py:38 | The comprehension never yields more keywords than there are lines. |
| Requirements.KeepKeywordsClean | Resume_shortlisting/resume_shortlist.py:38 | No kept keyword is empty or starts or ends with whitespace, so it is its own strip. |
| Requirements.KeepKeywordsAppend | Resume_shortlisting/resume_shortlist.py:38 | Filtering a file is filtering each half and concatenating, so order is kept. |
| Requirements.KeepKeywordsSingle | Resume_shortlisting/resume_shortlist.py:38 | One line is kept, stripped, exactly when it is not blank. |
| Requirements.KeepKeywordsLine | Resume_shortlisting/resume_shortlist.py:38 | Every non-blank line is kept, stripped, right after the keywords of the lines before it, whether or not it repeats an earlier keyword. A blank line adds nothing. |
| Requirements.KeepKeywordsSource | Resume_shortlisting/resume_shortlist.py:38 | Conversely, every kept keyword is the strip of a non-blank line, and the keywords before it are exactly those of the lines before that line. |
| Requirements.KeepKeywordsIdempotent | Resume_shortlisting/resume_shortlist.py:38 | Filtering the kept keywords again changes nothing. |
| Requirements.LoadRequirements | Resume_shortlisting/resume_shortlist.py:33-42 | If both files are read: the description as read and the filtered keyword lines. If either read fails: an empty description and no keywords. |
| Prompt.Truncate | Resume_shortlisting/resume_shortlist.py:61 | `content[:3000]` is the first `min(len, 3000)` characters, so a 3001-character text gives 3000 and a shorter text is kept whole. |
| Prompt.BuildPrompt | Resume_shortlisting/resume_shortlist.py:45-82 | The loop that appends one block per résumé produces the header, then every résumé's block in mapping order, then the instructions, with the script's literal text. |
| Prompt.Render | Resume_shortlisting/resume_shortlist.py:45-82 | The prompt text: the header with the job description and the joined keywords, the blocks of the résumés in order, then the instructions. |
| Prompt.BlocksSnoc | Resume_shortlisting/resume_shortlist.py:60-61 | Appending the next résumé's block to the prompt so far extends the blocks of the résumés before it by exactly that block. |
| Prompt.HeaderOccurrence | Resume_shortlisting/resume_shortlist.py:47-59 | Whatever stands in the header stands at the same offset in the prompt. |
| Prompt.PromptHasJobDescription | Resume_shortlisting/resume_shortlist.py:47-51 | The job description occurs verbatim in the prompt, right after the introduction. |
| Prompt.PromptHasKeywords | Resume_shortlisting/resume_shortlist.py:46-54 | The `", "`-joined keywords occur verbatim in the prompt, right after the skills heading. |
| Prompt.PromptHasKeyword | Resume_shortlisting/resume_shortlist.py:46-54 | Every single keyword occurs verbatim at its offset inside the joined keywords in the prompt. |
| Prompt.BlocksPrefix | Resume_shortlisting/resume_shortlist.py:60-61 | The block of `resumes[k]` stands right after the blocks of the résumés before it. |
| Prompt.BlockParts | Resume_shortlisting/resume_shortlist.py:61 | A block is the `Resume: ` label, the file name, the `Content:` label, the text cut to `min(len, 3000)` characters and the `---` separator, each at its offset, and nothing more. |
| Prompt.PromptHasBlock | Resume_shortlisting/resume_shortlist.py:60-61 | The block of every résumé stands in the prompt at its start offset, after the header and the blocks before it. |
| Prompt.PromptLength | Resume_shortlisting/resume_shortlist.py:45-82 | The prompt's length is the header's, plus per résumé its labels, its file name and `min(len, 3000)` characters, plus the instructions', so nothing else is in it. |
| Prompt.BlocksLengthIsLength | Resume_shortlisting/resume_shortlist.py:60-61 | The blocks' length is the sum over the résumés of labels, file name and cut content. |
| Scrape.PatternMatches | Resume_shortlisting/resume_shortlist.py:106 | The pattern as a language: at an offset, the marker, only whitespace up to the group, and a group of non-newline characters ending in `.pdf`. |
| Scrape.Scanned | Resume_shortlisting/resume_shortlist.py:106 | What findall returns: the match at the first offset where one begins, then the matches from where it ends. No match begins in a skipped gap or after the last match. |
| Scrape.SkipSpaces | Resume_shortlisting/resume_shortlist.py:106 | Greedy `\s*`: the whitespace run from the offset, stopping at a non-space (newlines included) or the end. |
| Scrape.LineEnd | Resume_shortlisting/resume_shortlist.py:106 | `.` reaches up to the first newline or the end of the text. |
| Scrape.LastExtensionEnd | Resume_shortlisting/resume_shortlist.py:106 | The last place, not past the limit, where a `.pdf` starting at or after the group start ends. If there is none, no place in range qualifies. |
| Scrape.MatchAt | Resume_shortlisting/resume_shortlist.py:106 | A successful attempt starts at its offset, has the group after the marker, and the group is at least `.pdf` long. |
| Scrape.MatchAtCorrect | Resume_shortlisting/resume_shortlist.py:106 | The attempt at an offset succeeds exactly when the pattern can match there. It then picks the split Python's backtracking picks: the longest whitespace run, then the longest group. |
| Scrape.GroupRunsToLastExtension | Resume_shortlisting/resume_shortlist.py:106 | Greed within a line: the group runs to the last `.pdf` on its line; no later `.pdf` ends before the line does. |
| Scrape.FindAll | Resume_shortlisting/resume_shortlist.py:106 | Every listed match is the engine's match at its own marker, at or after the scan start. |
| Scrape.FindAllScanned | Resume_shortlisting/resume_shortlist.py:106 | The scan loop keeps findall's promise: matches left to right, each at the first offset where one begins, the next searched from where it ended, and no match in any skipped gap or after the last one. |
| Scrape.ScannedFromEarlier | Resume_shortlisting/resume_shortlist.py:106 | An offset where no match begins can be put in front of a scan. |
| Scrape.ScannedFromMatch | Resume_shortlisting/resume_shortlist.py:106 | A match at the scan position followed by a scan from its end is a scan. |
| Scrape.FindAllSkips | Resume_shortlisting/resume_shortlist.py:106 | Offsets where no match begins are passed over without effect. |
| Scrape.ScannedIsFindAll | Resume_shortlisting/resume_shortlist.py:106 | Conversely, any list keeping findall's promise is the scan loop's result, so the promise determines the matches. |
| Scrape.ScannedInOrder | Resume_shortlisting/resume_shortlist.py:106 | The matches come in the order of their `Filename:` markers and do not overlap. |
| Scrape.FindAllGroups | Resume_shortlisting/resume_shortlist.py:106 | One group per match, in order, each the text the match captured. |
| Scrape.CaptureShape | Resume_shortlisting/resume_shortlist.py:106 | A captured group ends with `.pdf`, holds no newline and neither starts nor ends with whitespace. |
| Scrape.ScrapeNames | Resume_shortlisting/resume_shortlist.py:106-107 | One name per match. |
| Scrape.ScrapeNamesEmpty | Resume_shortlisting/resume_shortlist.py:106-107 | An empty reply gives no names. |
| Scrape.ScrapedName | Resume_shortlisting/resume_shortlist.py:106-107 | The strip changes no group: each name is the captured text as it stands in the reply, ends with `.pdf`, holds no newline and has no surrounding whitespace. |
| Filer.DestName | Resume_shortlisting/resume_shortlist.py:113 | The destination holds no space and is the padded rank, `_` and the name long. |
| Filer.DestNameParts | Resume_shortlisting/resume_shortlist.py:113 | The destination's leading digits are the zero-padded rank and parse back to it. Then comes `_`, then the name with spaces turned into underscores. |
| Filer.DestNameRankDigits | Resume_shortlisting/resume_shortlist.py:113 | A rank below 100 is written as exactly two digits and then `_`. From rank 10 on, the destination does not start with `0`. |
| Filer.DestNamesDiffer | Resume_shortlisting/resume_shortlist.py:113 | Different ranks never give the same destination, whatever the names. |
| Filer.DestNameExample | Resume_shortlisting/resume_shortlist.py:113 | Rank 1 and `a.pdf` give `01_a.pdf`. |
| Filer.Step | Resume_shortlisting/resume_shortlist.py:111-118 | A name is copied exactly when it is in the data folder, and then under its rank's destination name. Otherwise it is reported missing. |
| Filer.SaveShortlisted | Resume_shortlisting/resume_shortlist.py:110-118 | The loop takes, for each name, the step for its 1-based position in the whole scraped list. It leaves the emptied folder holding exactly those steps' copies and logs exactly their warnings. |
| Filer.FolderAndWarningsSnoc | Resume_shortlisting/resume_shortlist.py:112-118 | One more step adds its own file or its own warning, and nothing else. |
| Filer.FolderFromCopies | Resume_shortlisting/resume_shortlist.py:115 | Every file in the shortlist folder was put there by a copy of the plan, and every copy left its file there. |
| Filer.FolderWithoutOverwrites | Resume_shortlisting/resume_shortlist.py:115 | With distinct destinations, every file holds what its copy sent, and files plus warnings number the steps. |
| Filer.PlanDestinationsDistinct | Resume_shortlisting/resume_shortlist.py:110-113 | Two steps never share a destination, even for a repeated name. |
| Filer.SavedFolder | Resume_shortlisting/resume_shortlist.py:110-118 | After the loop the folder holds, under `DestName(i + 1, name)`, each scraped name present in the data folder and nothing else; every value is a data-folder name. Each scraped name is either one file or one warning. |
| Filer.RepeatedNameCopiedTwice | Resume_shortlisting/resume_shortlist.py:110-115 | A present name scraped twice is copied twice, under two different prefixes. |
| Filer.CopyRanks | Resume_shortlisting/resume_shortlist.py:110-113 | The rank on each copy is its name's 1-based position in the whole scraped list. So ranks of copies strictly increase and skip the positions of missing names. |
| Filer.AbsentCounts | Resume_shortlisting/resume_shortlist.py:112-118 | The missing names list every occurrence of a name absent from the data folder once, and nothing else. |
| Filer.WarningsForMissing | Resume_shortlisting/resume_shortlist.py:117-118 | The warnings are exactly the scraped names absent from the data folder, in scraped order. |
| Filer.MissingWarnedOnce | Resume_shortlisting/resume_shortlist.py:112-118 | Each occurrence of a missing name draws exactly one warning, and a present name draws none. |
| Filer.ParseAndSave | Resume_shortlisting/resume_shortlist.py:100-118 | Empty the shortlist folder, scrape the reply, then run the loop over the scraped names. |
| Filer.EmptyReplySavesNothing | Resume_shortlisting/resume_shortlist.py:100-118 | An empty reply leaves the shortlist folder empty and logs no warning. |
| Filer.FirstFoundSecondMissing | Resume_shortlisting/resume_shortlist.py:110-118 | Two names, the first present and the second missing, give one file under rank 1 and one warning for the second name. |
| Filer.OneFoundOneMissing | Resume_shortlisting/resume_shortlist.py:110-118 | Names `a.pdf`, `b.pdf` with only `a.pdf` present give one file, `01_a.pdf` from `a.pdf`, and one warning, for `b.pdf`. |
| Pipeline.KeyIndex | Resume_shortlisting/resume_shortlist.py:126 | Finds the position of a key in the dict, or reports that no entry has it. |
| Pipeline.Filenames | Resume_shortlisting/resume_shortlist.py:60 | The dict's keys in insertion order. |
| Pipeline.PdfEntries | Resume_shortlisting/resume_shortlist.py:123-124 | The listing entries ending with `.pdf`, and only those. |
| Pipeline.Put | Resume_shortlisting/resume_shortlist.py:126 | Dict assignment: the keys gain exactly the new key; keys stay distinct; each entry is the new one or an old one in place; a new key goes last. |
| Pipeline.SelectResumes | Resume_shortlisting/resume_shortlist.py:122-126 | The dict has one key per listed entry ending with `.pdf` and no other key, its keys are distinct, and each value is that file's extracted text. For a listing without repeats, the keys are the `.pdf` entries in listing order. |
| Pipeline.Analyze | Resume_shortlisting/resume_shortlist.py:85-97 | The model's reply, or the empty string when the call fails. |
| Pipeline.Existing | Resume_shortlisting/resume_shortlist.py:112 | A name exists in the data folder exactly when it is listed. |
| Pipeline.Shortlist | Resume_shortlisting/resume_shortlist.py:121-139 | The run stops with no résumés exactly when no listed entry ends with `.pdf`. Otherwise the prompt is built from the selected résumés and the loaded requirements, the reply is the model's answer or `""`, and the filer is run on the reply against the listed entries. |

## Left out

- PDF text extraction with `fitz` (lines 21-30) is a foreign library. The extracted text is the parameter `extract`, and its `strip()` and its error path, which returns `""`, belong to that parameter.
- Reading the job-description and keyword files, `load_dotenv`, the API key and the file's line splitting are I/O. `LoadRequirements` takes the file text and the list of lines, or `None` for a failed read.
- The chat-completion request (lines 85-97) is network I/O. It is the parameter `llm`, with `None` for a failed call.
- `os.listdir`, `os.path.exists`, `rmtree`, `makedirs` and `shutil.copy` are file-system I/O, modelled as follows:
  - The data folder is the listing. A name exists exactly when it is listed.
  - `os.path.join(DATA_FOLDER, filename)` with a name holding `/` or an absolute path reaches outside the data folder. The model does not capture this.
  - A copy is an entry of the shortlist-folder map. A copy that fails at run time (a destination holding `/`, a directory named like a résumé) is not modelled, and would raise in the script.
- Console prints and `logging` output are side effects. Only the warnings' order and names are modelled.
- General regular-expression semantics are out of scope. Only the one pattern of line 106 is modelled, as a hand-written scanner.
- `Scrape.MatchAtCorrect` proves that the attempt picks the split with the longest whitespace run, and then the longest group. That this is the split Python's backtracking engine picks is argued outside the proof, from the order in which the greedy `\s*` and `.*` give characters back. No model of the engine itself is part of the project.
- Text is `seq<char>` of Unicode scalar values, and no encoding is modelled. A Python `str` can also hold lone surrogates (U+D800 to U+DFFF), which a Dafny `char` cannot. Replies, names or keywords holding them are outside the model.
- `Pipeline.SelectResumes`: the listing order of `os.listdir` is arbitrary. The order of the keys is stated only for a listing without repeats, which is what a directory gives.

