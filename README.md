# ATS Resume Builder — export and preview core, in Dafny

This project models two parts of the resume builder.

- **PDF export** (`pdf_generator.dfy`, module `PdfGenerator`):
  - `sanitizeFilename` turns a user-typed name into a safe file stem.
  - `generatePDF` lays a captured image of the resume out on A4 pages and saves the file as `<name>.pdf`.
  - `downloadResumeAsPDF` sanitises the name and then calls `generatePDF`.
- **Resume preview** (`resume_preview.dfy`, module `ResumePreview`): the resume body that `ResumePreview` renders from the form data. It covers which blocks, lines and links appear, in which order, and with which placeholders.

Lengths in millimetres are exact `real`s.

The PDF is represented by the image placements it receives, one per page. An `addImage` call becomes a `Placement(x, y, width, height)`.

The rendered preview is a `Document` value: a `Header` followed by the optional sections, in order.

Locale date formatting is kept abstract. `MonthYear(raw)` stands for the "Mon YYYY" text of the raw date.

The sanitiser is specified against an independent reference definition. That definition splits the stripped input into its maximal whitespace-free runs (`Words`), joins them with single hyphens and lower-cases the result. If there are no words, the result is "resume".

The pagination loop of `generatePDF` is an imperative `while` loop, proved equal to a closed-form layout. Page `k` (counted from 0) is drawn at `y = 10 − 297·k`, and there are `1 + ⌊imgHeight/297⌋` pages.

Two behaviours of the code worth stating directly:

- A zero-height capture produces a one-page PDF (`PageCount(0) == 1`); the code raises no empty-content error.
- The loading overlay is removed only on the success path. This is DOM work and is not modelled.

## Model

| member | source | states |
|---|---|---|
| PdfGenerator.StripDisallowed | src/utils/pdfGenerator.js:131-132 | the result is no longer than the input and holds only ASCII letters, digits, '-', '_' and JavaScript whitespace (`[^a-z0-9-_\s]` with the `i` flag removed) |
| PdfGenerator.StripDisallowedKeepsAllowed | src/utils/pdfGenerator.js:131-132 | a string made only of allowed characters passes the first replace unchanged |
| PdfGenerator.StripDisallowedAppend | src/utils/pdfGenerator.js:131-132 | removing characters works piecewise: strip(a + b) == strip(a) + strip(b), so kept characters stay in order |
| PdfGenerator.Trim | src/utils/pdfGenerator.js:133 | `.trim()` leaves a string that is empty or starts and ends with a non-whitespace character |
| PdfGenerator.CollapseWhitespace | src/utils/pdfGenerator.js:134 | after `.replace(/\s+/g, "-")` no whitespace is left, and a string of allowed characters becomes one of letters, digits, '-' and '_' |
| PdfGenerator.LowerChar | src/utils/pdfGenerator.js:135 | on the ASCII-only text left after the first replace, `.toLowerCase()` maps each ASCII capital to its lower-case letter and leaves every other character unchanged |
| PdfGenerator.ToLower | src/utils/pdfGenerator.js:135 | lower-casing the ASCII-only text keeps its length, leaves no ASCII capital, changes no other character, and moves each capital to its lower-case letter |
| PdfGenerator.SanitizeFilename | src/utils/pdfGenerator.js:129-143 | the sanitised name is never empty and uses only lower-case letters, digits, '-' and '_' |
| PdfGenerator.CollapseTrimIsJoin | src/utils/pdfGenerator.js:133-134 | trimming and then collapsing equals joining the string's words with single hyphens: outer whitespace vanishes, each inner run becomes exactly one '-' |
| PdfGenerator.WordsSpellWordChars | src/utils/pdfGenerator.js:131-134 | the words, read in order, are exactly the input's kept non-whitespace characters in their original order |
| PdfGenerator.SanitizeFilenameIsJoinedWords | src/utils/pdfGenerator.js:129-143 | the sanitised name is the lower-cased hyphen-join of the words, whose characters are the input's letters, digits, '-' and '_' in order; "resume" when there are none |
| PdfGenerator.SafeNameIsFixed | src/utils/pdfGenerator.js:129-143 | a non-empty name in the safe alphabet is returned unchanged |
| PdfGenerator.SanitizeFilenameIdempotent | src/utils/pdfGenerator.js:129-143 | sanitising twice gives the same as sanitising once |
| PdfGenerator.SanitizeFilenameExample | src/utils/pdfGenerator.js:129-143 | "  My Resume!! 2024  " is sanitised to "my-resume-2024" |
| PdfGenerator.ScaledHeight | src/utils/pdfGenerator.js:47-49 | the image height keeps the capture's aspect ratio at 210 mm width: h · canvasWidth == canvasHeight · 210, and h ≥ 0 |
| PdfGenerator.PagePlacement | src/utils/pdfGenerator.js:67-84 | page k's image is at x = 10 and y = 10 − 297·k, 190 mm wide (210 minus both margins), at the full image height |
| PdfGenerator.PageCount | src/utils/pdfGenerator.js:62-87 | the loop emits n ≥ 1 pages with 297·(n−1) ≤ imgHeight < 297·n |
| PdfGenerator.PaginateImage | src/utils/pdfGenerator.js:62-87 | the first page plus the `while (heightLeft >= 0)` loop, as written, emit exactly the closed-form layout: PageCount pages, page k placed by PagePlacement(k) |
| PdfGenerator.PageCountIsBracket | src/utils/pdfGenerator.js:73-87 | n is the page count if and only if n ≥ 1 and 297·(n−1) ≤ imgHeight < 297·n |
| PdfGenerator.PageCountMonotone | src/utils/pdfGenerator.js:73-87 | a taller image never gets fewer pages |
| PdfGenerator.PageCountBoundaries | src/utils/pdfGenerator.js:73-87 | heights 0 and 296.5 give one page, 297 gives two, and 3.5·297 gives four |
| PdfGenerator.PageShowsSlice | src/utils/pdfGenerator.js:67-84 | page k shows exactly the image rows from 297·k − 10 up to 297·(k+1) − 10, so consecutive pages meet with no gap and no overlap |
| PdfGenerator.PaginationClipsTail | src/utils/pdfGenerator.js:73-87 | as written, a 290 mm image gets one page, and its row at 288 mm lands on no page |
| PdfGenerator.CoveringPageCount | src/utils/pdfGenerator.js:73-87 | the fewest pages whose slices reach the bottom row: n ≥ 1 with 297·(n−1) − 10 < imgHeight ≤ 297·n − 10 |
| PdfGenerator.PaginateImageCovering | src/utils/pdfGenerator.js:62-87 | the loop with its test corrected to `heightLeft > -10` emits CoveringPageCount pages, page k placed by PagePlacement(k) |
| PdfGenerator.CoveringPrintsEveryRow | src/utils/pdfGenerator.js:62-87 | with the corrected count, every image row lands inside some page |
| PdfGenerator.CoveringHasNoBlankPage | src/utils/pdfGenerator.js:62-87 | with the corrected count, every page shows some row of a non-empty image |
| PdfGenerator.CountsDifferOnlyOnClippedTail | src/utils/pdfGenerator.js:73-87 | the corrected count is the written count or one more, and the two are equal exactly when imgHeight ≤ 297·PageCount − 10 |
| PdfGenerator.FilenameOrDefault | src/utils/pdfGenerator.js:23 | a file name left out falls back to "resume"; a given one is used as is |
| PdfGenerator.GeneratePdf | src/utils/pdfGenerator.js:23-101 | it fails exactly when the capture fails; on success it saves `<filename>.pdf` with the as-written layout `Layout(h)` of the scaled height h: 1 + ⌊h/297⌋ pages, page k placed by PagePlacement(k) |
| PdfGenerator.DownloadName | src/utils/pdfGenerator.js:186-198 | the downloaded name ends in ".pdf" and its stem is non-empty and in the safe alphabet |
| PdfGenerator.DownloadResumeAsPdf | src/utils/pdfGenerator.js:186-205 | it fails exactly when the capture fails; on success the file is named DownloadName(filename) and its pages are the as-written layout `Layout(ScaledHeight(width, height))` of the capture |
| PdfGenerator.DownloadNameStable | src/utils/pdfGenerator.js:186-198 | downloading again under the stem of a downloaded file gives the same file name |
| PdfGenerator.DownloadNameExample | src/utils/pdfGenerator.js:186-198 | "  My Resume!! 2024  " downloads as "my-resume-2024.pdf" |
| PdfGenerator.DownloadNameDefault | src/utils/pdfGenerator.js:186-198 | with no name given, the file is "resume.pdf" |
| ResumePreview.RenderHeader | src/components/ResumePreview.js:83-117 | the name and title are never blank: each is the field when set, else "Your Name" or "Professional Title"; the summary shows exactly when set |
| ResumePreview.ContactLines | src/components/ResumePreview.js:91-110 | every contact line shows its own field, which is non-empty, and the lines run email, phone, location |
| ResumePreview.ContactShownIffSet | src/components/ResumePreview.js:92-109 | a contact line of a given kind shows if and only if its field is set |
| ResumePreview.DateLine | src/components/ResumePreview.js:137-150 | a date line shows if and only if there is a start date; the end is "Present" exactly for a current entry, and empty exactly when the entry is not current and has no end date; otherwise it is the end date |
| ResumePreview.CurrentHidesEndDate | src/components/ResumePreview.js:143-150 | for a current entry the stored end date makes no difference |
| ResumePreview.NoStartNoDates | src/components/ResumePreview.js:137 | without a start date neither the end date nor the current flag shows |
| ResumePreview.RenderExperience | src/components/ResumePreview.js:126-165 | an entry shows its position, company and date line; the description only when set; the achievement list only when non-empty, with all achievements in order |
| ResumePreview.EducationHeading | src/components/ResumePreview.js:181 | the heading is the degree, then a space, then "in <field>" exactly when a field is given |
| ResumePreview.RenderEducation | src/components/ResumePreview.js:177-209 | an entry shows its heading, institution and date line, and the highlights only when set |
| ResumePreview.BarFill | src/components/ResumePreview.js:235 | the bar width is 20% per level; levels 0..5 stay within 0..100%; it is full exactly at level 5 and empty exactly at level 0 |
| ResumePreview.BarFillMonotone | src/components/ResumePreview.js:235 | a higher level never draws a shorter bar |
| ResumePreview.SkillsOfKind | src/components/ResumePreview.js:227-228 | a column holds exactly the skills of that type, and no more of them than the list has |
| ResumePreview.SkillsOfKindAppend | src/components/ResumePreview.js:227-228 | the type filter distributes over concatenation, so the column keeps the list order |
| ResumePreview.OtherSkills | src/components/ResumePreview.js:226-259 | the skills that neither column shows are exactly those whose type is neither "technical" nor "soft" |
| ResumePreview.SkillColumnsPartition | src/components/ResumePreview.js:226-259 | the technical column, the soft column and the skills in neither add up to the whole list |
| ResumePreview.SkillBars | src/components/ResumePreview.js:229-240 | one bar per skill, in order, with the skill's name and BarFill of its level |
| ResumePreview.RenderSkills | src/components/ResumePreview.js:215-265 | the skills block always has both columns: the bars of the technical skills and the bars of the soft skills |
| ResumePreview.Links | src/components/ResumePreview.js:269-306 | every link points at its own address, which is non-empty; links run LinkedIn, GitHub, Portfolio; the row is non-empty exactly when one address is set |
| ResumePreview.LinkShownIffSet | src/components/ResumePreview.js:274-306 | a link of a given kind shows if and only if its address is set |
| ResumePreview.ExperienceEntries | src/components/ResumePreview.js:125-166 | one rendered entry per experience, in the list's order |
| ResumePreview.EducationEntries | src/components/ResumePreview.js:176-210 | one rendered entry per education, in the list's order |
| ResumePreview.Sections | src/components/ResumePreview.js:120-308 | at most four blocks, and none at all exactly when there are no experiences, educations or skills and no LinkedIn, GitHub or website address |
| ResumePreview.Render | src/components/ResumePreview.js:83-308 | the document is the header for the personal details, followed by the optional blocks |
| ResumePreview.SectionsInOrder | src/components/ResumePreview.js:120-308 | blocks always come in the order experience, education, skills, links, so none appears twice |
| ResumePreview.SectionsAppearWhenNonEmpty | src/components/ResumePreview.js:120-271 | experience, education and skills each show if and only if their list is non-empty; links show if and only if LinkedIn, GitHub or website is set |
| ResumePreview.BlocksFollowInput | src/components/ResumePreview.js:120-308 | every block shows what its input lists: all entries in order, both skill columns, the non-empty link row |
| ResumePreview.EmptyFormRendersHeaderOnly | src/components/ResumePreview.js:83-308 | a form with no entries, skills or links renders the header alone, with the name and title as entered |

## Left out

- Rasterising the page (html2canvas), drawing and saving with jsPDF, the JPEG encoding, the loading overlay and the error notification (DOM work, timers). A capture is a parameter (`Capture`). Every failure before the save, including prepareElementForPDF and the image wait, is `CaptureFailed`.
- prepareElementForPDF, the preview's own `downloadAsPDF` (html-to-image, a single unpaginated page named "resume.pdf"), the theme selector (it only logs) and the show/hide toggle: these are UI, not part of this core.
- Static markup: section titles, column titles, icons, CSS classes, `key` props and link targets. The link labels ("LinkedIn", "GitHub", "Portfolio") are fixed text of this markup.
- Locale formatting (`toLocaleDateString`) is kept abstract as `MonthYear(raw)`. Invalid dates ("Invalid Date") are not modelled.
- Floating-point rounding: all millimetre and percentage arithmetic is exact `real`.
- GeneratePdf: requires a capture width greater than zero. With width 0 the code divides by zero: a non-zero height gives an endless loop, and a zero height gives a NaN height.
- ScaledHeight: the code draws the image 190 mm wide but scales its height for 210 mm, so the printed image is stretched vertically by 210/190. The model keeps the code's numbers and proves nothing about the drawn aspect ratio.
- Form data with a missing list renders like an empty list. Fields are modelled as strings only; a missing field is taken as the empty string. Non-string field values (numbers and the like, which React would print) are not modelled. A skill level is an integer, and its bar width is computed without clamping, as in the code.

## Findings

| source | as written | input that shows it | evidently intended | confidence | as-written member | corrected member |
|---|---|---|---|---|---|---|
| src/utils/pdfGenerator.js:76 | the loop adds pages while `heightLeft >= 0`, giving 1 + ⌊h/297⌋ pages; because the image starts 10 mm down the first page, page k shows rows 297·k − 10 to 297·(k+1) − 10, and the last pages' bottom 10 mm can be left off | an image 290 mm tall: one page, and rows 287–290 mm fall below the sheet | every row of the captured resume is printed: continue while `heightLeft > -10`, giving ⌈(h+10)/297⌉ pages | medium, not executed | PdfGenerator.PaginationClipsTail | PdfGenerator.PaginateImageCovering |

`GeneratePdf` and `DownloadResumeAsPdf` keep the loop as written (`PaginateImage`), and all `PageCount` facts are about it; `PaginateImageCovering` and the `Covering*` lemmas describe the corrected loop only. The two counts differ only in the case `CountsDifferOnlyOnClippedTail` describes.
