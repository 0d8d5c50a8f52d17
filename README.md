# Resume parser and PDF text export, modelled in Dafny

The repository holds three Streamlit apps. `app_v2.py` is the resume parser:
- it reads a PDF's page texts and joins them into one document text;
- it takes the name from the NLP engine's PERSON entities;
- it finds emails and phone numbers with two regular expressions;
- it matches skills from a fixed vocabulary;
- it keeps education and project lines and profile sentences by keyword tests;
- it builds a seven-field record, shown on screen and persisted;
- it appends the record to a master table that grows by one row per upload.

`app.py` (PyMuPDF) and `app_v1.py` (pypdf) are PDF viewers. Each lets the user:
- pick a page with a slider;
- see the page's text, or a warning when the page has none;
- download a page-numbered export of all pages' text, under a name built from the uploaded file's name.

The project models all of this on values: page texts, entities and sentences are inputs.

- `wrappers.dfy`: `Option<T>`.
- `strings.dfy` (module `Strings`): the Python string operations used, over ASCII.
  - `isspace`, `lower`, substring tests, `join`, `split(c)`, `strip()`, `str(n)`.
  - Their algebra: join/split round trips, what strip and lower keep, and `str(n)` reads back as `n`.
- `patterns.dfy` (module `Patterns`): `re.findall` for the email and the phone pattern.
  - Each is modelled as the backtracking matcher runs it.
  - Emails are proved equal to a declarative definition: the whitespace-delimited tokens with an inner `@`.
  - Phones are proved to be phone-shaped, ordered and non-overlapping, with no candidate skipped.
- `resume_parser.dfy` (module `ResumeParser`):
  - the page-text assembly loop;
  - every field of the record, with the `""` / `"N/A"` sentinels.
- `master_csv.dfy` (module `MasterCsv`): the master-table merge.
  - The table is a class whose `Append` method follows the read–concatenate–write step of each upload.
- `viewer.dfy` holds three modules:
  - `Viewer`: what both viewers share, namely the export format, the download name, the page index and the text panel;
  - `FitzViewer`: the PyMuPDF export loop, which substitutes empty text for a page that raises;
  - `PypdfViewer`: the pypdf export loop, which has no handler, so a raise ends it with no export.

Two behaviours of the code worth noting:
- The persisted Name is `"N/A"` when there is no PERSON entity, not `""`. The code puts the display value into the record (`ResumeParser.RecordSentinels`).
- In `app_v2.py`, page extraction is not guarded. A page that raises stops the run, so the model takes page texts as `Option<string>` with no failure case. Only `app.py` substitutes empty text for a failing page.

## Model

| member | source | states |
|---|---|---|
| ResumeParser.AssembleText | app_v2.py:64-68 | the loop returns exactly the page texts, a missing text read as `""`, joined by `"\n\n"` in page order |
| ResumeParser.AssembledPageOccurs | app_v2.py:64-68 | every page's text occurs in the assembled text |
| ResumeParser.AssembledNextPage | app_v2.py:64-68 | one more page adds `"\n\n"` and its text at the end (its text alone for the first page); no page marker is inserted |
| ResumeParser.AssembledEmptyIff | app_v2.py:64-68 | the assembled text is empty exactly when there is at most one page and every page text is empty |
| ResumeParser.AssembledBlank | app_v2.py:64-68 | pages without text assemble into a text of whitespace |
| ResumeParser.BlankDocumentFindsNothing | app_v2.py:81-91 | a text of whitespace gives no email, no phone, no skill, no education line and no project line |
| ResumeParser.BlankPagesPersistEmpty | app_v2.py:64-113 | pages without text give a record whose emails, phones, skills, education and projects fields are all `""` |
| ResumeParser.NoSkillsInBlank | app_v2.py:87 | no skill starting with a non-space character is found in a text of whitespace |
| ResumeParser.NoKeywordLinesInBlank | app_v2.py:89 | no line of a text of whitespace holds a keyword starting with a non-space character |
| ResumeParser.KeptNone | app_v2.py:89 | a filter that no item passes keeps nothing |
| Patterns.BlankFindsNoEmail | app_v2.py:81 | a text of whitespace holds no email |
| Patterns.BlankFindsNoPhone | app_v2.py:82 | a text of whitespace holds no phone number |
| ResumeParser.PersonNamesFirst | app_v2.py:79 | PersonNames: the PERSON names are empty exactly when no entity is labelled PERSON; otherwise the first is the text of the earliest PERSON entity |
| ResumeParser.Name | app_v2.py:79-80 | `"N/A"` when no entity is labelled PERSON, otherwise the text of the first PERSON entity in the order given |
| Patterns.FindEmails | app_v2.py:81 | the matches equal the whitespace-delimited tokens that hold an `@` with a character before and after it, in order, duplicates kept |
| Patterns.EmailsMatchTokens | app_v2.py:81 | EmailsFrom: the backtracking matcher, run from any position, finds exactly those tokens |
| Patterns.EmailAtToken | app_v2.py:81 | a match starts at a position exactly when the run of non-space characters there is such a token, and the match is that whole run |
| Patterns.EmailTryFinds | app_v2.py:81 | backtracking the first `\S+` succeeds exactly when some `@` inside the run has a non-space character before and after it |
| Patterns.EmailTokensSound | app_v2.py:81 | every kept token holds an inner `@` and no whitespace |
| Patterns.FindEmailsAppend | app_v2.py:81 | on text split after a whitespace character, the matches are those of the first part followed by those of the second |
| Patterns.TokensOfJoin | app_v2.py:81 | words without spaces joined by single spaces tokenize back into the same words |
| Patterns.EmailExample | app_v2.py:81 | `"contact me at a.b@x.com or c@d"` gives `["a.b@x.com", "c@d"]` |
| Patterns.PhoneAtShape | app_v2.py:82 | PhoneAt: the matcher finds a phone at a position exactly when a `+` and ten digits, or ten digits, start there; the match is phone-shaped and takes up to twelve digits |
| Patterns.DigitsAtShape | app_v2.py:82 | ten to twelve digits match exactly when ten digits follow, and the match takes every following digit up to twelve |
| Patterns.PhoneSpansFrom | app_v2.py:82 | the matches are in left-to-right order, do not overlap, and each is an optional `+` followed by 10–12 digits |
| Patterns.PhoneSpansCover | app_v2.py:82 | every position where a phone can begin is covered by some match, so no candidate is skipped |
| Patterns.FindPhones | app_v2.py:82 | every match is an optional `+` followed by 10–12 digits, and a text of length n holds at most n/10 of them |
| Patterns.NoTenDigitsNoPhones | app_v2.py:82 | a text in which no ten-digit candidate begins, for instance one whose digit runs are all shorter than ten, gives no phone |
| ResumeParser.FoundSkills | app_v2.py:83-87 | a skill is found exactly when it is in the vocabulary and its lower-case form occurs in the lower-cased text; never more skills than the vocabulary has |
| ResumeParser.FoundSkillsSubsequence | app_v2.py:87 | the found skills are a subsequence of the vocabulary, in vocabulary order |
| ResumeParser.FoundSkillsDistinct | app_v2.py:87 | a vocabulary without duplicates gives found skills without duplicates |
| ResumeParser.SkillsListDistinct | app_v2.py:83-86 | the fixed skill list has no duplicates |
| ResumeParser.SkillsIgnoreCase | app_v2.py:87 | lower-casing the text does not change the skills found |
| ResumeParser.SkillInsideSkill | app_v2.py:87 | a skill whose lower-case form occurs inside a found skill is found too |
| ResumeParser.JavaInJavaScript | app_v2.py:83-87 | a text mentioning JavaScript yields both `"Java"` and `"JavaScript"` |
| ResumeParser.Kept | app_v2.py:89 | a filter keeps no more items than it is given |
| ResumeParser.KeptSound | app_v2.py:89 | every kept item is the strip of an input item that passes the test |
| ResumeParser.KeptOrigin | app_v2.py:89 | names, for each kept item, the input item it was stripped from, which passes the test |
| ResumeParser.KeptComplete | app_v2.py:89 | the strip of every input item that passes the test is kept |
| ResumeParser.KeptAppend | app_v2.py:89 | the filter works item by item: on a concatenation it is the concatenation of the results, so order and duplicates are kept |
| ResumeParser.KeptOne | app_v2.py:89 | one item is kept, stripped, exactly when it passes the test |
| ResumeParser.KeywordLinesShape | app_v2.py:88-91 | KeywordLines, EducationLines and ProjectLines: no more lines are kept than the text has after splitting at `'\n'`; each kept line contains a keyword, case-sensitively, and no `'\n'` |
| ResumeParser.KeywordLineKept | app_v2.py:89 | every `'\n'`-split line that contains a keyword is kept, stripped |
| ResumeParser.KeywordListsTrimmed | app_v2.py:88-91 | the education and project keywords are non-empty and begin and end with a non-space character, so stripping a line never removes one |
| ResumeParser.ProfileSentencesPass | app_v2.py:92 | ProfileSentences: every kept sentence, lower-cased, still contains `"passionate"` or `"skilled"` |
| ResumeParser.ExtractedItemsNonEmpty | app_v2.py:79-92 | no email, phone, skill, line or sentence extracted is the empty string |
| ResumeParser.RecordSentinels | app_v2.py:96-113 | Persisted: each persisted list field is `""` exactly when its list is empty, and the name is kept as it is, `"N/A"` included; the displayed record is the persisted one with `""` read as `"N/A"` |
| ResumeParser.DisplayedSentinels | app_v2.py:96-102 | Displayed: a field with no match is shown as `"N/A"`, any other field as its non-empty persisted text; the name is the same in both |
| ResumeParser.ExtractSound | app_v2.py:79-92 | Extract: the emails are email tokens, the phones are phone-shaped, the skills follow the skill list's order without repeats, every education or project line holds one of its keywords, and every profile sentence passes the profile test |
| ResumeParser.RecordLinesRoundTrip | app_v2.py:110-111 | a non-empty persisted education or projects field splits at `'\n'` back into exactly the kept lines |
| MasterCsv.Merge | app_v2.py:118-122 | the table grows by one row; the prior rows, or none, are kept in order; the new record is last |
| MasterCsv.UploadsAppend | app_v2.py:118-125 | Uploads: a series of uploads appends its records, in upload order, after the rows already there |
| MasterCsv.MasterTable.Append | app_v2.py:118-125 | the stored table becomes the merge of the old one and the new row, and the rows grow by exactly that row |
| MasterCsv.TwoUploads | app_v2.py:118-125 | two uploads into an absent table leave exactly the two records, in upload order |
| FitzViewer.ExportAll | app.py:85-92 | the loop's export is, for pages 1..n in order, `"\n\n===== Page k =====\n\n"` followed by the page text, with a raising or missing page reading as `""` |
| FitzViewer.FailedPageKeepsHeader | app.py:86-91 | a page whose extraction raises still contributes its header |
| Viewer.ExportHasPage | app.py:91 | every page's header followed by its text occurs in the export |
| Viewer.PageHeaderInjective | app.py:91 | distinct page numbers give distinct headers |
| Viewer.ExportNextPage | app.py:91-92 | Export: one more page appends its header and text at the end of the export |
| Viewer.ExportEmptyIff | app.py:92 | the export is empty exactly when there are no pages |
| FitzViewer.DownloadIffPages | app.py:97 | DownloadOffered: right after the export of these pages is prepared, a download is offered exactly when the document has at least one page |
| Viewer.Stem | app.py:101 | the whole name when it has no dot; otherwise the part before a dot after which no dot follows |
| Viewer.StemOfSplit | app.py:101 | for a name made of a stem, a dot and a dot-free extension, the stem is exactly that stem |
| Viewer.DownloadName | app.py:101 | the download name is the stem followed by `"_extracted.txt"`, so it always ends with that suffix |
| Viewer.LastIndexOf | app.py:101 | finds the last occurrence of the character, or reports correctly that there is none |
| Viewer.PageIndex | app.py:56-59 | 0 for at most one page; otherwise the slider value minus one, which is a page in range when the slider is |
| Viewer.PageIndexInRange | app_v1.py:55-58 | with the slider in [1, n], the index lies in [0, n-1] |
| Viewer.TextPanelWarning | app.py:72-80 | TextPanel: the error is shown exactly when extraction raised; the warning is shown exactly when the text is missing or whitespace-only; otherwise the text is shown as extracted |
| PypdfViewer.ExportAll | app_v1.py:76-80 | with no page raising, the page-numbered export of the page texts; a raising page ends the loop with no export |
| PypdfViewer.AgreesWithFitz | app_v1.py:78 | with no page raising, both viewers read the same page texts, a missing text as `""` |
| PypdfViewer.DownloadIffPages | app_v1.py:80-85 | right after the export of these pages is prepared with no page raising, a download is offered exactly when there is at least one page |
| Strings.Strip | app_v2.py:89 | the result is empty exactly when the input is all whitespace, otherwise it starts and ends with a non-space character and sits between whitespace-only ends of the input |
| Strings.StripKeepsPiece | app_v2.py:92 | a piece of the input that starts and ends with a non-space character survives stripping |
| Strings.LowerStrip | app_v2.py:92 | lower-casing and stripping commute |
| Strings.Split | app_v2.py:89 | a split gives at least one piece, no piece holds the separator, and no piece is longer than the text |
| Strings.JoinSnoc | app_v2.py:68 | Join: one more part adds the separator and the part at the end, or is the whole result when it is the first part |
| Strings.JoinContainsPart | app_v2.py:68 | every part occurs in the join |
| Strings.Lower | app_v2.py:87 | the lower-cased text has the same length, and each character is lower-cased on its own: `A`–`Z` become `a`–`z`, every other character, whitespace included, stays |
| Strings.JoinSplit | app_v2.py:89 | joining the pieces of a split at `c` with `c` gives back the text |
| Strings.SplitJoin | app_v2.py:110-111 | splitting at `c` a join by `c` of pieces without `c` gives back the pieces |
| Strings.JoinEmptyIff | app_v2.py:107-112 | a join of non-empty pieces is empty exactly when there are no pieces |
| Strings.NatToString | app.py:91 | the decimal form of a page number is a non-empty string of digits with no leading zero |
| Strings.ParseNatToString | app.py:91 | the decimal page number reads back as the number |
| Strings.NatToStringInjective | app.py:91 | distinct numbers have distinct decimal forms |

## Left out

- The Streamlit UI is not modelled: titles, the sidebar, metrics, expanders, buttons, spinners, `time.sleep` and the page image. It is presentation only. `session_state` is reduced to the stored export passed to `Viewer.DownloadOffered`.
- `PdfReader`, `fitz`, `extract_text` and `get_text` are not modelled. These foreign libraries become inputs: one `Extraction` or `Option<string>` per page.
- spaCy is not modelled. The entities, as (text, label) pairs, and the sentences are inputs.
- The pandas CSV read and write and `os.path.exists` are not modelled. They are file I/O, and `read_csv` may read a persisted `""` back as NaN. The table is its sequence of rows, and "no file" is `None`.
- The file-size display is not modelled; it is float formatting.
- Full Unicode is not modelled. `\S`, `\d`, `isspace` and `lower` are modelled over ASCII, and other characters are non-space, non-digit and unchanged by `lower`.
- Concurrency is not modelled. Two uploads racing on the CSV rewrite are outside the model; the code does nothing about it.
- The page selector and per-page text of `app_v2.py` (lines 72-76) are display-only. That text does not reach the record. `Viewer.PageIndex` is the same choice when there are two or more pages; that selector is shown only then, and only with the text option on.
- The page rendering of `app.py` (lines 62-68) is not modelled. The text panel of `app.py` uses the `page` loaded there, so if rendering fails before `page` is bound, the text panel raises too; the model only gives `Viewer.TextPanel` the extraction's outcome.
- Patterns.FindPhones: the concrete example `"call 9876543210 or +919876543210 ext 12"` is not proved. The general properties are proved instead: shape, order, non-overlap, no skipped candidate, and nothing from runs shorter than ten digits.
- PypdfViewer.ExportAll: an exception in the pypdf loop is modelled as "no new export". The run stops there, so an export stored by an earlier run stays in the session and is still offered. How Streamlit reports the error is not modelled.
- FitzViewer.DownloadIffPages: holds right after the export is prepared. The stored export is not tied to the current upload: it stays in the session until the button is pressed again. A later upload, even one with zero pages, is offered the earlier document's export under its own name.
- PypdfViewer.DownloadIffPages: holds right after the export is prepared, for the same reason. A stale export from an earlier upload, or from before a page raised, is still offered.
- Error reporting for a document that does not parse, and for a failed persist, is not modelled. The code does not handle either case and leaves it to Streamlit.
