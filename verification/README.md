# Resume editor core, modelled in Dafny

This project models the non-UI logic of the resume editor
(`resume_editor_latex_generator.py`): the structured resume document and its
sample defaults, the LaTeX compile step's engine choice and outcome, the PDF
preview data URI, the version store that saves PDFs under tagged uid names
with JSON sidecars and lists them newest first, and the form editor's text
parsing, save-back and "Add" buttons.

Modules, one per component:

- `Common` (`common.dfy`): `Option` and `Byte`.
- `ResumeModel` (`resume_model.dfy`): `Experience`, `Education`, `ResumeData` and the sample document.
- `Compiler` (`compiler.dfy`): the engine-preference loop as a method, the outcome branches as a function, and `CompileTexToPdf` over an abstract PATH (a set of executable names) and an abstract subprocess (a function from command line and TeX source to what the run produced).
- `Base64` (`base64.dfy`): standard base64 (section 4 of RFC 4648) with its decoder, and the `data:application/pdf;base64,` URI (RFC 2397).
- `VersionStore` (`version_store.dfy`): tag sanitisation, file names, and the versions directory as a class whose fields are its `*.pdf` files and its sidecars; saving updates them in place, listing reads them with a loop.
- `FormEditing` (`form_editing.dfy`): `strip`, `split(",")`, `splitlines`, `join`, the item parsing of the text areas, the block-building loops, the save-back, and the editing session whose document the "Add" buttons extend in place.

Two remarks on what the proofs show about the code:

- Because the form builds exactly one edited block per existing entry, the
  `exp_blocks or model.experience` fallback only ever substitutes an empty
  list for an empty list (`FormEditing.FallbackKeepsLength`).
- An untouched form saves the document back unchanged exactly when its lists
  are representable in the text areas: skills without commas, bullets and
  details without line breaks, every item non-empty and stripped, education
  details present, and no empty-string website (`FormEditing.UneditedSaveBack`
  for one direction, `FormEditing.UneditedSaveBackOnlyIf` for the other).

The code has no typed "no engine" failure: it returns no PDF and a fixed
message, and that is what is modelled. Artifacts and sidecars are written
directly, without a temporary file and rename.

## Model

| member | source | states |
|---|---|---|
| `ResumeModel.DefaultResume` | resume_editor_latex_generator.py:33-92 | the sample document has every string field non-empty, a website, 5 skills, 2 experience and 2 education entries |
| `Base64.Encode` | resume_editor_latex_generator.py:198 | the encoding of n bytes has length 4·⌈n/3⌉ and uses only the base64 alphabet and `=` |
| `Base64.EncodePadsOnlyAtEnd` | resume_editor_latex_generator.py:198 | `=` padding appears only in the last two positions |
| `Base64.DecodeEncode` | resume_editor_latex_generator.py:198 | decoding the encoding of any byte string gives back exactly those bytes |
| `Base64.EncodeInjective` | resume_editor_latex_generator.py:198 | two byte strings with the same encoding are equal |
| `Base64.Rfc4648Vectors` | resume_editor_latex_generator.py:198 | the encoder reproduces the test vectors of section 10 of RFC 4648 (`f`→`Zg==`, `fo`→`Zm8=`, `foo`→`Zm9v`, `foobar`→`Zm9vYmFy`), and bytes 251, 255 give `+/8=`, pinning the 6-bit values 62 and 63 to `+` and `/` |
| `Base64.PdfBytesToDataUri` | resume_editor_latex_generator.py:197-199 | the URI is the fixed `data:application/pdf;base64,` prefix followed by alphabet-or-pad characters, of total length prefix + 4·⌈n/3⌉ |
| `Base64.DataUriRoundTrip` | resume_editor_latex_generator.py:197-199 | stripping the prefix and decoding the URI yields the original PDF bytes |
| `Compiler.SelectEngine` | resume_editor_latex_generator.py:162-172 | no engine is chosen exactly when none of latexmk, xelatex, pdflatex is on PATH; otherwise the chosen command is on PATH and every preferred one is not |
| `Compiler.PreferenceOrder` | resume_editor_latex_generator.py:163-172 | the first available engine is latexmk iff latexmk is on PATH, xelatex iff latexmk is not and xelatex is, pdflatex iff neither is and pdflatex is |
| `Compiler.CompileOutcome` | resume_editor_latex_generator.py:178-194 | PDF bytes are returned iff the run finished with status 0 and `main.pdf` exists (and they are that file's bytes); a finished run's log is its captured output; a raised exception gives no PDF and `Compilation error: <message>` |
| `Compiler.CompileTexToPdf` | resume_editor_latex_generator.py:155-194 | with no engine on PATH nothing is run and the result is no PDF plus the fixed "No TeX engine found…" message; otherwise exactly the first available engine is run on the TeX source and the result is the outcome of that run; no path raises |
| `VersionStore.SanitizeTag` | resume_editor_latex_generator.py:205 | the sanitised tag contains only alphanumerics, `-` and `_` and is no longer than the tag |
| `VersionStore.SanitizeConcat` | resume_editor_latex_generator.py:205 | sanitising distributes over concatenation, so it keeps the kept characters in their original order |
| `VersionStore.SanitizeKeepsSafe` | resume_editor_latex_generator.py:205 | a tag made only of allowed characters is kept whole |
| `VersionStore.SanitizeDropsUnsafe` | resume_editor_latex_generator.py:205 | a tag made only of disallowed characters sanitises to the empty string |
| `VersionStore.SanitizeIdempotent` | resume_editor_latex_generator.py:205 | sanitising an already sanitised tag changes nothing |
| `VersionStore.VersionFilename` | resume_editor_latex_generator.py:204-208 | the name starts with `resume_`, ends with `.pdf`, and every character is an allowed tag character, `.`, or a character of the uid |
| `VersionStore.FilenameShape` | resume_editor_latex_generator.py:204-208 | an absent or empty tag gives `resume_<uid>.pdf`; a non-empty tag gives `resume_<safe>_<uid>.pdf`, so a tag that sanitises to nothing gives `resume__<uid>.pdf` |
| `VersionStore.FilenameStaysInDirectory` | resume_editor_latex_generator.py:205-209 | whatever the tag, the name contains no `/` unless the uid does |
| `VersionStore.FilenameDeterminesUid` | resume_editor_latex_generator.py:203-208 | whatever the two tags, equal names built from uids of equal length (every `str(uuid4())` has 36 characters) mean equal uids, so name uniqueness reduces to uid uniqueness |
| `VersionStore.TagsCanCollide` | resume_editor_latex_generator.py:204-208 | without equal uid lengths the reduction fails: tag `a` with uid `b` gives the same name as no tag with uid `a_b` |
| `VersionStore.ExampleTagName` | resume_editor_latex_generator.py:205-206 | the tag `a/b c!` yields `resume_abc_<uid>.pdf` |
| `VersionStore.SidecarName` | resume_editor_latex_generator.py:217 | the sidecar's name is the artifact's name followed by `.json` |
| `VersionStore.RecordFor` | resume_editor_latex_generator.py:226-234 | a PDF with a sidecar is listed with the sidecar's record unchanged; one without is listed with its own name, mtime and size |
| `VersionStore.OnePerPdf` | resume_editor_latex_generator.py:225 | a newest-first listing has exactly as many entries as there are PDFs |
| `VersionStore.SavedRecordListed` | resume_editor_latex_generator.py:209-217 | after a save, the listing's record for the new name carries that name, the save time and the artifact's length |
| `VersionStore.SaveListedOnce` | resume_editor_latex_generator.py:209-225 | after a save under a name not yet present, a newest-first listing has one more entry than before, and the new name is among them |
| `VersionStore.PdfIsNoSidecar` | resume_editor_latex_generator.py:217-225 | a name ending in `.pdf` is never a sidecar's name, since those end in `.json` |
| `VersionStore.VersionDir.constructor` | resume_editor_latex_generator.py:16-17 | the versions directory exists and is empty when first created |
| `VersionStore.VersionDir.Reopen` | resume_editor_latex_generator.py:16-17 | a directory that already holds earlier versions is opened with those PDFs and sidecars unchanged |
| `VersionStore.VersionDir.SaveVersion` | resume_editor_latex_generator.py:202-218 | the artifact is written under the tagged uid name and its sidecar records that name, the time and the byte length; nothing else changes; a fresh name adds exactly one PDF; a missing directory writes nothing |
| `VersionStore.VersionDir.NewestFirstOrder` | resume_editor_latex_generator.py:225 | every PDF is visited exactly once, by non-increasing mtime |
| `VersionStore.VersionDir.ListVersions` | resume_editor_latex_generator.py:221-236 | a missing directory lists nothing; otherwise one record per PDF, newest first, each the sidecar's record or one rebuilt from the file's stats; every visited file ends in `.pdf` and is never a sidecar |
| `FormEditing.TrimLeft` | resume_editor_latex_generator.py:285 | the result is the suffix left after removing leading whitespace and does not start with whitespace |
| `FormEditing.TrimRight` | resume_editor_latex_generator.py:285 | the result is the prefix left after removing trailing whitespace and does not end with whitespace |
| `FormEditing.Strip` | resume_editor_latex_generator.py:285 | the input is whitespace, then the result, then whitespace, and the result neither starts nor ends with whitespace |
| `FormEditing.Split` | resume_editor_latex_generator.py:285 | splitting gives at least one piece and no piece contains the separator |
| `FormEditing.JoinSplit` | resume_editor_latex_generator.py:284-285 | joining the pieces of a split with the separator gives the text back |
| `FormEditing.JoinShape` | resume_editor_latex_generator.py:284 | `join` (here and for bullets and details at lines 296 and 318): the first part opens the text, the last one closes it, and the length is the parts' total plus one separator between each two neighbours |
| `FormEditing.SplitLines` | resume_editor_latex_generator.py:298 | no line contains a line break and a non-empty text has at least one line |
| `FormEditing.SplitLinesOne` | resume_editor_latex_generator.py:298 | a non-empty text without line breaks is exactly one line |
| `FormEditing.SplitLinesCut` | resume_editor_latex_generator.py:298 | each line is the text up to the next boundary, and the lines after it are those of the rest of the text; `\r\n` counts as one boundary, any other break character as one |
| `FormEditing.SplitLinesJoin` | resume_editor_latex_generator.py:296-298 | non-empty break-free lines joined by `\n` split back into the same lines |
| `FormEditing.ParseItems` | resume_editor_latex_generator.py:285 | the items are non-empty and stripped, and there are no more items than pieces |
| `FormEditing.ParseItemsClean` | resume_editor_latex_generator.py:285 | non-empty stripped pieces are kept unchanged and in order |
| `FormEditing.ParseSkills` | resume_editor_latex_generator.py:284-285 | every parsed skill is non-empty, stripped and free of commas |
| `FormEditing.ParseLines` | resume_editor_latex_generator.py:298 | every parsed bullet or detail is non-empty, stripped and free of line breaks |
| `FormEditing.SkillsRoundTrip` | resume_editor_latex_generator.py:284-285 | skills that are non-empty, stripped and comma-free, shown joined by `", "`, parse back to the same list |
| `FormEditing.LinesRoundTrip` | resume_editor_latex_generator.py:295-298 | bullets or details that are non-empty, stripped and break-free, shown joined by `"\n"`, parse back to the same list |
| `FormEditing.ToExperience` | resume_editor_latex_generator.py:291-301 | the entry built from an expander has only non-empty, stripped, break-free bullets |
| `FormEditing.ToEducation` | resume_editor_latex_generator.py:313-323 | the entry built from an expander has a details list, of non-empty, stripped, break-free items |
| `FormEditing.BuildExperienceBlocks` | resume_editor_latex_generator.py:288-301 | one entry per expander, in expander order |
| `FormEditing.BuildEducationBlocks` | resume_editor_latex_generator.py:310-323 | one entry per expander, in expander order |
| `FormEditing.WebsiteFromText` | resume_editor_latex_generator.py:337 | the website is absent iff the text is empty, and otherwise is the text |
| `FormEditing.SaveBack` | resume_editor_latex_generator.py:332-342 | the new document takes the form's fields, the parsed skills, an absent website for empty text, and the edited experience and education blocks, falling back to the previous lists when there are no blocks |
| `FormEditing.Unedited` | resume_editor_latex_generator.py:277-320 | the untouched form has one expander per experience and per education entry |
| `FormEditing.UneditedSaveBack` | resume_editor_latex_generator.py:277-343 | saving back an untouched form gives back the document itself when its lists are representable in the text areas |
| `FormEditing.UneditedSaveBackOnlyIf` | resume_editor_latex_generator.py:277-343 | conversely, a document that an untouched form saves back unchanged is representable in the text areas |
| `FormEditing.FallbackKeepsLength` | resume_editor_latex_generator.py:288-341 | with one expander per entry, the saved lists have the document's lengths and the fallback only replaces an empty list by an empty list |
| `FormEditing.FormSession.constructor` | resume_editor_latex_generator.py:260-261 | a new session holds the sample document |
| `FormEditing.FormSession.AddExperience` | resume_editor_latex_generator.py:302-306 | exactly one placeholder experience is appended; earlier entries and all other fields are unchanged |
| `FormEditing.FormSession.AddEducation` | resume_editor_latex_generator.py:324-328 | exactly one placeholder education entry is appended; earlier entries and all other fields are unchanged |
| `FormEditing.FormSession.Submit` | resume_editor_latex_generator.py:331-343 | for a form with one expander per existing entry, the session's document becomes the save-back of the form over the previous document, and its experience and education lists keep their lengths |

## Left out

- Template rendering (`render_template_tex`, lines 150-152) and `DEFAULT_TEX` (lines 95-144): Jinja2's template semantics are a foreign library; the template is only data passed to it.
- `resume_builder.py`: PDF text extraction, the two hosted-model HTTP calls, the temporary file and the Gradio interface are I/O and network glue with no logic of their own.
- The real subprocess, `shutil.which`, the temporary directory and its clean-up, and all file reads and writes: they are the parameters `available`, `subprocess` and the fields of `VersionDir`. Writing `main.tex` (line 160) happens before the `try`, so a failure there would raise; that path is not modelled.
- `uuid4` randomness and uniqueness: the uid is a parameter; `FilenameDeterminesUid` reduces name uniqueness to uid uniqueness for uids of equal length (as `str(uuid4())` always gives), and uid uniqueness itself is probabilistic.
- Clocks and timestamps: `datetime.now()` is the parameter `now`, and the same reading is used as the new PDF's mtime; the ISO-8601 text of `created` is replaced by the integer timestamp.
- JSON: the sidecar is modelled as the record it holds; its text formatting (`indent=2`), parsing with `json.loads`, and a corrupted sidecar raising are not modelled.
- Pydantic validation (lines 270 and 368) and the reset-to-defaults on a corrupted document: library behaviour.
- The order between PDFs with equal mtimes: it depends on glob order and is left unspecified.
- VersionStore.VersionDir.SaveVersion: when the directory is missing the source's write raises; the model returns no name and writes nothing instead.
- VersionStore.SanitizeTag: Python's `isalnum` also accepts non-ASCII letters and digits; the model accepts ASCII letters and digits only.
- FormEditing.Strip: Python's `strip` removes every Unicode whitespace character; the model removes ASCII whitespace and the line-break characters of `splitlines` only.
- Streamlit layout, widgets, reruns and the rest of the session-state plumbing (lines 241-441 outside the parsing and save-back), including the display limit of 25 versions.
- The download button's suggested name (lines 410-412) is built from the raw tag, not the sanitised one, so unlike the saved name it can contain `/` or spaces; it is part of the UI and not modelled.
