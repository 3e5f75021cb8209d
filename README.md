# NDA redline pipeline — a Dafny model

The backend of this NDA validator takes an uploaded `.docx` and asks a local
language model which clauses are problematic. It then writes the model's
suggestions back into a copy of the document. A suggestion replaces the text
of the paragraph whose text matches exactly, and the new text is coloured red
(the *redline*). A *clean* copy turns every run black again. This project
models that pipeline in Dafny:

- **Document model** (`doc_model.dfy`, module `DocModel`). A document is a
  sequence of paragraphs. Each paragraph has a text and the colours of its
  runs.
  - The change map goes from original paragraph text to an entry. An
    analysis entry is a suggestion, a validation verdict and feedback. A
    feedback entry is a suggestion and feedback, with no verdict.
  - The text sent to the model is the paragraph texts joined with `"\n"`.
- **Document service** (`document_service.dfy`, module `DocumentService`).
  - The artifact paths, built with `os.path.join`, including its rule that an
    absolute second component discards the directory.
  - `get_document` and its not-found error.
  - The redline and the clean transform. Each is a loop that updates the
    paragraphs of an opened document in place, held in an `array`. Each is
    proved equal to a specification function (`Redlined`, `Cleaned`), and the
    properties are proved about those functions.
  - `process_upload`, `create_redline_document` and `create_clean_document`
    as operations on a `Disk`, the files under the two directories.
- **Analysis service** (`ai_service.dfy`, module `AiService`).
  - The two loops that fold the model's clause list into a change map. Both
    are proved equal to one fold function, `ChangesFrom`.
  - The two requests that end in a redline: `analyze_document` and
    `process_feedback`.

What the code does, as modelled:

- Matching is by exact text, once per paragraph, against the text the
  paragraph had before the pass. Keys that match no paragraph are silently
  ignored.
- When several clauses share an original text, the last one wins. The
  validator's overall `valid` and `feedback` are copied onto every analysis
  entry. Its per-clause `suggested_changes` are never read.
- `get_document` serves no file. It checks with `os.path.exists` for
  `{id}.docx` in `processed` when `clean` is set and in `uploads` otherwise,
  and returns that path with the id. The transforms write
  `{id}_redline.docx` and `{id}_clean.docx`. So a download that names a
  document by its own issued id is never given the path of either file, and
  the default download returns the path of the unredlined original
  (`DownloadNeverServesArtifacts`, `DownloadAfterPipeline`). The lookup does
  not validate the id, though: a request for `{id}_redline` or `{id}_clean`
  with `clean` set is given the path of exactly that document's redline or
  clean copy (`CraftedIdReachesArtifacts`).
- `process_feedback` first reads `uploads/{id}_analysis.json`, which no code
  in the repository writes. The directories are created with
  `exist_ok=True`, so files already there are kept, and the `Disk`
  constructor models a first start with both directories empty. On a disk
  that started empty and was written only by this service, the request
  therefore always fails. The contract of `AiService.ProcessFeedback` and the
  lemma `UploadSavesNoAnalysis` state this.
- No route calls `create_clean_document`. It is modelled anyway.
- `ai_service.py` uses `Document` at line 63 without importing it, so
  `analyze_document` would fail with a name error as written. The model
  follows the evident intent: open the upload and join its paragraph texts.
- The redline opens the upload, changes its paragraphs in place and saves
  them under the redline path. The upload entry on disk is untouched
  (`RedlineKeepsOriginal`).

## Model

| member | source | states |
|---|---|---|
| `DocModel.Texts` | backend/app/services/document_service.py:27 | one text per paragraph, in document order, empty paragraphs included |
| `DocModel.ExtractedTextLines` | backend/app/services/ai_service.py:64 | splitting the extracted text at newlines gives back exactly the paragraph texts of a non-empty document when no text contains a newline |
| `DocModel.JoinSplit` | backend/app/services/document_service.py:27 | joining the split lines of any text with `"\n"` gives the text back |
| `DocModel.SplitJoin` | backend/app/services/document_service.py:27 | splitting a `"\n"`-join of a non-empty list of newline-free texts gives back the texts |
| `DocModel.JoinLines` | backend/app/services/document_service.py:27 | the join of no texts is empty; otherwise its length is the texts' total length plus one separator between each neighbouring pair, so empty texts still count, and it starts with the first text |
| `DocModel.DocumentText` | backend/app/services/ai_service.py:64 | the extracted text of an empty document is empty; otherwise its length is the paragraph texts' total length plus one newline per neighbouring pair, and it starts with the first paragraph's text |
| `DocumentService.UploadPath` | backend/app/services/document_service.py:18 | the upload path has the length of `uploads/{id}.docx` (of `{id}.docx` for an absolute id) and, for a relative id, lies in `uploads` |
| `DocumentService.MetadataPath` | backend/app/services/document_service.py:36 | the metadata path has the length of `uploads/{id}_metadata.json` (of `{id}_metadata.json` for an absolute id) and, for a relative id, lies in `uploads` |
| `DocumentService.RedlinePath` | backend/app/services/document_service.py:63 | the redline path has the length of `processed/{id}_redline.docx` (of `{id}_redline.docx` for an absolute id) and, for a relative id, lies in `processed` |
| `DocumentService.CleanPath` | backend/app/services/document_service.py:81 | the clean path has the length of `processed/{id}_clean.docx` (of `{id}_clean.docx` for an absolute id) and, for a relative id, lies in `processed` |
| `DocumentService.DownloadPath` | backend/app/services/document_service.py:47-50 | the download path has the length of `{dir}/{id}.docx` (of `{id}.docx` for an absolute id) and, for a relative id, lies in `processed` when `clean` is set and in `uploads` otherwise |
| `DocumentService.RelativePaths` | backend/app/services/document_service.py:18-81 | for a relative id the five paths are exactly `uploads/{id}.docx`, `uploads/{id}_metadata.json`, `processed/{id}_redline.docx`, `processed/{id}_clean.docx` and `{processed or uploads}/{id}.docx` |
| `DocumentService.PathJoin` | backend/app/services/document_service.py:47-50 | the joined path always ends with the file name |
| `DocumentService.ArtifactPathsDistinct` | backend/app/services/document_service.py:62-63 | for one id, the upload, redline and clean paths are pairwise different, and neither download path is the redline or clean path |
| `DocumentService.DownloadDirectory` | backend/app/services/document_service.py:47-50 | for an issued id, the download path is under `processed` iff `clean` and under `uploads` iff not, and ends with `{id}.docx` |
| `DocumentService.DownloadNeverServesArtifacts` | backend/app/services/document_service.py:47-50 | for an issued id, the download path is never the redline or clean file of any document |
| `DocumentService.CraftedIdReachesArtifacts` | backend/app/services/document_service.py:47-50 | asking for `{id}_redline` or `{id}_clean` with `clean` set is given the path of exactly the redline or the clean copy of document `id` |
| `DocumentService.GetDocument` | backend/app/services/document_service.py:45-58 | succeeds iff the download path is present; on success returns exactly that download path and the unchanged id; otherwise not-found (404, "Document not found") |
| `DocumentService.CleanDownloadIsNoArtifact` | backend/app/services/document_service.py:47-50 | for a relative id, the clean download path is none of the upload, metadata, redline and clean files of that id |
| `DocumentService.DownloadIsNoRedline` | backend/app/services/document_service.py:47-50 | a download path whose id has no underscore is never the redline path of any document |
| `DocumentService.DownloadIsNoClean` | backend/app/services/document_service.py:47-50 | a download path whose id has no underscore is never the clean path of any document |
| `DocumentService.DownloadAfterPipeline` | backend/app/services/document_service.py:47-58 | with the upload, metadata, redline and clean files all present, the clean download is not-found and the default download is given the path of the original upload |
| `DocumentService.Recolored` | backend/app/services/document_service.py:72-73 | every run gets the given colour and the number of runs is kept |
| `DocumentService.AssignText` | backend/app/services/document_service.py:71 | after assigning a text, the paragraph reads that text |
| `DocumentService.RedlineParagraph` | backend/app/services/document_service.py:69-73 | a paragraph whose text is a key reads that entry's suggestion with every run red; any other paragraph is unchanged |
| `DocumentService.CleanParagraph` | backend/app/services/document_service.py:87-88 | a cleaned paragraph keeps its text and its run count, and every run is black |
| `DocumentService.Redlined` | backend/app/services/document_service.py:68-73 | the redline keeps the number of paragraphs |
| `DocumentService.Cleaned` | backend/app/services/document_service.py:86-88 | clean keeps the number of paragraphs |
| `DocumentService.RedlinedAt` | backend/app/services/document_service.py:68 | paragraph `i` of the result depends only on paragraph `i` of the input (one pass, no insertion or removal) |
| `DocumentService.CleanedAt` | backend/app/services/document_service.py:86 | paragraph `i` of the clean copy depends only on paragraph `i` of its input |
| `DocumentService.RedlineMatched` | backend/app/services/document_service.py:69-73 | a paragraph whose original text is a key gets that entry's suggestion as text, even when the suggestion is itself a key, and every run is red |
| `DocumentService.RedlineUnmatched` | backend/app/services/document_service.py:68-69 | a paragraph whose text is not a key keeps its text and run colours |
| `DocumentService.RedlineWithoutMatchIsIdentity` | backend/app/services/document_service.py:68-69 | if no paragraph text is a key, the document comes out unchanged |
| `DocumentService.RedlineEmptyChangesIsIdentity` | backend/app/services/document_service.py:68-69 | an empty change map leaves every document unchanged |
| `DocumentService.RedlineSameTextSameResult` | backend/app/services/document_service.py:69-71 | two paragraphs with the same matched text come out identical |
| `DocumentService.CleanKeepsTexts` | backend/app/services/document_service.py:86-88 | clean keeps every text and every run count, and makes every run black |
| `DocumentService.RecoloredTwice` | backend/app/services/document_service.py:87-88 | recolouring twice with one colour equals recolouring once |
| `DocumentService.CleanIdempotent` | backend/app/services/document_service.py:86-88 | cleaning twice equals cleaning once |
| `DocumentService.RedlineThenClean` | backend/app/services/document_service.py:68-88 | after redline then clean, each paragraph reads its suggestion if its original text was a key and its original text otherwise, with every run black |
| `DocumentService.RedlineExample` | backend/app/services/document_service.py:68-73 | the two-clause example: the first clause is revised and red, the second untouched; after clean the texts are the same and all runs are black |
| `DocumentService.ApplyRedline` | backend/app/services/document_service.py:68-73 | the in-place loop leaves the paragraphs equal to `Redlined` of the old paragraphs |
| `DocumentService.ApplyClean` | backend/app/services/document_service.py:86-88 | the in-place nested loop leaves the paragraphs equal to `Cleaned` of the old paragraphs |
| `DocumentService.Open` | backend/app/services/document_service.py:65 | opening a stored document gives a fresh array holding exactly its paragraphs |
| `DocumentService.RedlineFiles` | backend/app/services/document_service.py:62-75 | with an upload present, the redline path holds `Redlined` of the upload; without one the files are unchanged |
| `DocumentService.CleanFiles` | backend/app/services/document_service.py:78-91 | with a redline present, the clean path holds `Cleaned` of the redline; without one the files are unchanged |
| `DocumentService.ProcessUpload` | backend/app/services/document_service.py:15-43 | stores the document at `uploads/{id}.docx` and adds the metadata file; answers with the id, the fixed message and the extracted text |
| `DocumentService.PipelineDownloads` | backend/app/services/document_service.py:15-91 | on a fresh disk, after upload, redline and clean of one issued id, the clean lookup against the files present is not-found and the default lookup is given the upload's path |
| `DocumentService.RedlineKeepsOriginal` | backend/app/services/document_service.py:62-75 | the redline adds only the redline file, and every other file, the uploaded original included, is unchanged; without an upload nothing changes |
| `DocumentService.RedlineReplacesEarlierRedline` | backend/app/services/document_service.py:62-75 | a second redline overwrites the first one's output instead of compounding it |
| `DocumentService.CleanAfterRedline` | backend/app/services/document_service.py:78-91 | the clean file is `Cleaned` of the redline, and the upload and redline stay as they were |
| `DocumentService.CreateRedlineDocument` | backend/app/services/document_service.py:60-76 | writes `Redlined(upload, changes)` to the redline path and returns that path; a missing upload is a missing-file error with the disk unchanged |
| `DocumentService.CreateCleanDocument` | backend/app/services/document_service.py:78-91 | writes `Cleaned(redline)` to the clean path and returns that path; a missing redline is a missing-file error with the disk unchanged |
| `AiService.ChangesFrom` | backend/app/services/ai_service.py:79-85 | the keys of the folded change map are exactly the clauses' `original` values |
| `AiService.LastClauseWins` | backend/app/services/ai_service.py:80-85 | the entry for a key is made from the last clause carrying it |
| `AiService.EntryFromLastClause` | backend/app/services/ai_service.py:79-85 | every entry was produced by some clause with that original, and no later clause has it |
| `AiService.AnalysisEntriesUniform` | backend/app/services/ai_service.py:81-85 | every analysis entry has the validator's top-level `valid` and `feedback`, and the suggestion of a clause with that original |
| `AiService.AnalysisIgnoresSuggestedChanges` | backend/app/services/ai_service.py:76-85 | the analysis map does not depend on the validator's `suggested_changes` |
| `AiService.FeedbackEntries` | backend/app/services/ai_service.py:122-127 | every feedback entry has the user's feedback and no verdict, and the suggestion of a clause with that original |
| `AiService.BuildAnalysisChanges` | backend/app/services/ai_service.py:79-85 | the loop's map equals `ChangesFrom` with the validation as source, and its keys are the originals |
| `AiService.BuildFeedbackChanges` | backend/app/services/ai_service.py:122-127 | the loop's map equals `ChangesFrom` with the feedback as source, and its keys are the originals |
| `AiService.AnalysisPath` | backend/app/services/ai_service.py:107 | the previous-analysis path ends with `_analysis.json` and, for a relative id, lies in `uploads` |
| `AiService.UploadSavesNoAnalysis` | backend/app/services/document_service.py:36-37 | the metadata file an upload writes is never a saved analysis, so uploads keep a disk free of saved analyses |
| `AiService.AnalyzeDocument` | backend/app/services/ai_service.py:58-94 | missing upload: missing-file error, disk unchanged. Otherwise: the model gets the joined paragraph texts, the redline of the original with the analysis map is written, and the report holds the id, the clauses and the validation |
| `AiService.ProcessFeedback` | backend/app/services/ai_service.py:96-135 | without a saved analysis: missing-file error, disk unchanged. Otherwise: the redline of the original upload with the feedback map is written (the earlier redline is not used). On a disk with no saved analysis (as after a first start) it always fails |

## Left out

- The language-model calls: the Ollama clients, the prompt templates and `arun`. The parsed clause list and the validation record are parameters of `AnalyzeDocument` and `ProcessFeedback`. `AnalyzeDocument` returns the text handed to the model.
- JSON parsing and malformed model answers (`json.loads`). The parsed structures are modelled directly. `valid` is a boolean.
- python-docx internals. `AssignText` models setting `paragraph.text` as one uncoloured run holding the new text. No contract depends on that run count.
- Run colours: the model assumes python-docx accepts the plain `(255, 0, 0)` and `(0, 0, 0)` tuples the code assigns. The library is not part of this model, and its colour setter may insist on its own RGB colour type.
- Byte-level file I/O. A `.docx` file on the `Disk` is held as its parsed paragraphs. JSON files are held as their paths only.
- Uploads that python-docx cannot parse are not modelled: every upload is a parsed document.
- The contents of the metadata JSON file are not modelled; only its path is.
- UUID generation. The identifier is a parameter of `ProcessUpload`. `IssuedId` describes the characters `str(uuid4())` produces.
- The HTTP layer in `backend/app/main.py`, including its `.docx` suffix check. `backend/app/core/config.py` is not part of this model, because the service does not use it.
- The React frontend.
- `async`/`await`, because the requests have no concurrent logic.
