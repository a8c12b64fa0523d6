# Resume analyzer: heuristic assessor and PDF text join

A Dafny model of the two routines of the resume analyzer's `app.py` that
hold logic:

- `fake_ai_analyze`, the offline "AI-style" assessor. It lower-cases the
  resume text, keeps every word of a fixed ten-word skill vocabulary that
  occurs in it (in vocabulary order), reads the years of experience from the
  first match of the pattern `(\d{1,2})\+?\s+years`, and scores the resume as
  `min(95, 50 + 5 * skills + 2 * years)`. The result is a record with the
  keys `skills`, `experience_years`, `summary`, `ats_score` and
  `improvements`; summary and improvements are fixed texts.
- `extract_text_from_pdf_file`, which joins the text of the pages of a PDF.
  Every page with non-empty text contributes that text plus a newline; pages
  without text contribute nothing; any exception makes the result `""`.

Both routines work by loops that build a result step by step, so each is a
`method` with a loop, proved equal to a specification function; the
properties the code promises are lemmas about those functions.

Files:

- `wrappers.dfy` — `Option`.
- `ascii_text.dfy` — module `AsciiText`: ASCII models of `str.lower()`,
  substring membership, `\d` and `\s`.
- `experience.dfy` — module `ExperiencePattern`: the years pattern, as a
  backtracking matcher at one start index (`MatchAt`), a declarative reading
  of the pattern (`PatternAt`), the proof that they agree, and the leftmost
  search that `re.search` performs (`FirstMatchFrom`, `SearchYears`).
- `assessor.dfy` — module `Assessor`: the vocabulary, the skill scan, the
  score, the result record and `FakeAiAnalyze`.
- `extraction.dfy` — module `Extraction`: the page join and `ExtractText`.

The PDF library is an input: `PdfSource` is either `Unreadable` (opening
raised) or the list of per-page outcomes of `extract_text()`, each of them
some text, `None`, or `Raised`.

The code has no role parameter, no `education_summary` key, no remote
reasoning client with retries and no webhook delivery, and the score is capped
at 95 rather than clamped to 0..100; the model follows the code.

## Model

| member | source | states |
|---|---|---|
| `AsciiText.Lower` | app.py:45 | lower-casing keeps the length and maps every character through the ASCII lower-case map |
| `AsciiText.LowerIdempotent` | app.py:45 | lower-casing an already lower-cased text changes nothing |
| `ExperiencePattern.GroupValue` | app.py:57 | the integer value of a one- or two-digit group is at most 99 |
| `ExperiencePattern.MatchAt` | app.py:55 | the matcher at one start index yields at most 99 |
| `ExperiencePattern.SpacesThenYearsSound` | app.py:55 | when the greedy `\s*` run is followed by "years", some whitespace run ending at an occurrence of "years" exists |
| `ExperiencePattern.SpacesThenYearsComplete` | app.py:55 | any whitespace run that ends at "years" is accepted by the greedy `\s*years` step |
| `ExperiencePattern.MatchAtSound` | app.py:55 | a value the matcher returns at index i is the digit-group value of an occurrence of `(\d{1,2})\+?\s+years` starting at i |
| `ExperiencePattern.MatchAtComplete` | app.py:55 | every occurrence of the pattern starting at i makes the matcher succeed at i with that occurrence's group value (two digits preferred, as the greedy quantifier does) |
| `ExperiencePattern.FirstMatchFrom` | app.py:55 | the reported match is at the leftmost start index where the matcher succeeds, and no match means the matcher fails everywhere |
| `ExperiencePattern.SearchYears` | app.py:55-57 | scanning start indices left to right returns exactly the leftmost match |
| `ExperiencePattern.ExperienceYearsLeftmost` | app.py:52-57 | the years are at most 99, are 0 when the pattern does not occur, and otherwise are the group value of the leftmost occurrence |
| `Assessor.FoundSkills` | app.py:46-50 | never more skills than vocabulary words |
| `Assessor.DetectSkills` | app.py:46-50 | the skill loop returns the vocabulary words occurring in the text, in vocabulary order |
| `Assessor.AtsScore` | app.py:60 | the score is exactly `min(95, 50 + 5*skills + 2*years)`: it is at most the cap and at most the sum, and equals one of them; hence it lies in 50..95 |
| `Assessor.FakeAiAnalyze` | app.py:39-71 | the method's record equals the specification `Assess` of the text, field by field |
| `Assessor.FoundSkillsMembership` | app.py:48-50 | a word is among the found skills exactly when it is a vocabulary word and a substring of the text |
| `Assessor.FoundSkillsSubsequence` | app.py:47-50 | the found skills are a subsequence of the vocabulary, so they keep its order |
| `Assessor.FoundSkillsDistinct` | app.py:47-50 | a vocabulary without repeats yields found skills without repeats |
| `Assessor.VocabularyDistinct` | app.py:47 | the ten vocabulary words are pairwise different |
| `Assessor.AssessSkills` | app.py:45-50 | `skills` holds exactly the vocabulary words occurring in the lower-cased text, in vocabulary order and without repeats |
| `Assessor.JavaFoundInJavaScript` | app.py:45-50 | substring matching on the lower-cased text reports "java" for the resume "JavaScript" |
| `Assessor.AssessYears` | app.py:52-57 | `experience_years` is at most 99, is 0 without a pattern occurrence, and otherwise is the group of the leftmost occurrence in the lower-cased text |
| `ExperiencePattern.LeftmostMatchSkipsThreeDigits` | app.py:55-57 | for "123 years" the matcher fails at the first digit, the leftmost match starts one index later with group 23, and the years are 23 |
| `Assessor.ThreeDigitResumeYears` | app.py:52-57 | the resume "123 years" is credited with 23 years |
| `Assessor.AssessScore` | app.py:60 | `ats_score` is `min(95, 50 + 5*len(skills) + 2*experience_years)` of the record's own fields, hence between 50 and 95 |
| `Assessor.AtsScoreMonotone` | app.py:60 | the score never decreases when the skill count or the years grow |
| `Assessor.AssessShape` | app.py:59-71 | the summary is the fixed non-empty text and the improvements are the fixed two hints, whatever the input |
| `Assessor.AssessCaseInsensitive` | app.py:45-55 | analysing the lower-cased text gives the same record as analysing the text |
| `Extraction.PageTexts` | app.py:29-30 | when no page raised, the page outcomes are exactly the extracted optional texts, one per page |
| `Extraction.ExtractText` | app.py:20-36 | an unopenable document or a page that raises yields ""; otherwise the result is the join of the page texts |
| `Extraction.JoinPagesAppend` | app.py:29-32 | joining a page list split in two is joining each part and concatenating, so pages stay in order |
| `Extraction.EmptyPageContributesNothing` | app.py:31-32 | a page with `None` or empty text leaves the joined text unchanged wherever it stands |
| `Extraction.JoinPagesLines` | app.py:25-32 | when page texts hold no newline, the joined text splits back into exactly the non-empty page texts, in order |

## Left out

- The Streamlit page (app.py:8-18, 74-119): uploader, buttons, preview truncation and rendering are presentation.
- The PDF parser itself (pdfplumber): its results enter the model as `PdfSource`.
- The `st.error` message of the exception path (app.py:34): only the returned `""` is modelled.
- The `TEST_MODE = False` branch (app.py:91-95): a placeholder that returns an empty dict.
- Unicode: `str.lower()`, `\d` and `\s` are modelled on ASCII only; non-ASCII characters are left unchanged by `Lower`, are not digits and are not whitespace.
- Determinism of the assessor holds because `Assess` is a function; there is no separate statement of it.
