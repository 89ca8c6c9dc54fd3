# AI PDF Generator Pro: a verified model of its request pipeline

`pdfMaker1.py` is a single-page web app. The user describes a document. A
text-generation service writes a Python program that draws the document with
reportlab. The app screens the program against a deny-list and runs it as a
child process with a 60-second timeout. It then treats the newest `.pdf` in the
working directory as the result, records the attempt in a ten-entry history,
and deletes all but the three newest `.pdf` files.

This project models the deterministic parts of that pipeline and proves what
they promise. The parts are:

- the prompt clauses and the cleanup of the service's reply;
- the deny-list screen;
- the classification of the child's outcome;
- the stable newest-first listing;
- the bounded history;
- the request branch of `main` with its prune loop.

Modules follow the program's functions:

| module | models |
|---|---|
| `Wrappers` | `Option`, Python's `None`-or-value |
| `Text` | `str.isspace`, `strip`, `lstrip`, `rstrip`, substring `in`, `replace(p, "")` |
| `Synthesizer` | `generate_pdf_code` |
| `Screener` | `validate_code_safety` |
| `Executor` | `create_pdf_from_code` |
| `Listing` | `find_pdf_files` |
| `History` | `save_to_history`, as a function on sequences |
| `Pipeline` | the request branch of `main`, as the class `Session` |

`Session` holds the session state the request reads and changes:

- the history, absent until the first save;
- the last generated program;
- the working directory's entries, in listing order;
- a count of temporary script files the app did not remove.

Outside effects are parameters of `ProcessRequest`:

- The text-generation call is a function `PromptVars -> Option<string>`. `None` stands for the call raising.
- The child's run is a `ChildOutcome`: it exited with a code and output, it timed out, or it raised.
- `afterRun` is the directory as the execution leaves it. The generated program is untrusted and may change any file.
- `undeletable` is the set of `.pdf` names whose deletion raises; the loop swallows that error.
- `now` is the timestamp.

The code behaves in ways its description does not suggest. The model follows the code:

- The newest `.pdf` in the directory is reported whatever its age. No "created since the run started" filter exists.
- The temporary script is removed only when `subprocess.run` returns, whatever the exit code. On a timeout or an exception the app does not remove it. The model counts every script the app did not remove in `strayTempFiles`. That count can exceed the files actually left, because the untrusted child may have deleted its own script.
- A failed or empty code generation records no history entry; only runs that were attempted are recorded.
- Python's sort is stable, also with `reverse=True`. Files with equal modification times therefore keep their listing order; they are not put in reverse listing order.
- The timeout message does not include the child's stderr.

## Model

| member | source | states |
|---|---|---|
| `Text.TrimLeft` | pdfMaker1.py:74 | the result is a suffix of the input that is empty or starts with a non-space, and everything cut off is whitespace |
| `Text.TrimRight` | pdfMaker1.py:74 | the result is a prefix of the input that is empty or ends with a non-space, and everything cut off is whitespace |
| `Text.StripIsTrimmed` | pdfMaker1.py:74 | what `strip` returns starts and ends with a non-space, or is empty |
| `Text.StripIsSlice` | pdfMaker1.py:74 | what `strip` returns is a contiguous slice of its input, with only whitespace cut on either side |
| `Text.StripTrimmed` | pdfMaker1.py:74 | `strip` leaves already-trimmed text unchanged |
| `Text.RemoveAllAbsent` | pdfMaker1.py:74 | `replace(p, "")` leaves text without an occurrence of `p` unchanged |
| `Text.RemoveAllSkip` | pdfMaker1.py:74 | a prefix in which no occurrence starts is copied through, and the scan resumes after it |
| `Synthesizer.StyleClause` | pdfMaker1.py:33-35 | the style clause is empty exactly when no style is given; otherwise it is the fixed prefix followed by the style verbatim |
| `Synthesizer.GuidelinesBlock` | pdfMaker1.py:37-47 | the guidelines block is non-empty exactly when examples are requested, and is then the fixed block |
| `Synthesizer.GeneratePdfCode` | pdfMaker1.py:30-78 | the result is `None` exactly when the service call fails; otherwise the program text returned has no surrounding whitespace and contains no fence |
| `Synthesizer.NoFenceAfterRemoval` | pdfMaker1.py:74 | after every bare fence is deleted, no fence remains; deletion never glues two partial fences together |
| `Synthesizer.CleanCodeProperties` | pdfMaker1.py:74 | the cleaned program text has no surrounding whitespace and contains no fence |
| `Synthesizer.RemoveOpeningFence` | pdfMaker1.py:74 | deleting tagged fences from a fenced reply removes only the opening fence |
| `Synthesizer.RemoveClosingFence` | pdfMaker1.py:74 | deleting bare fences then removes only the closing fence |
| `Synthesizer.StripFramed` | pdfMaker1.py:74 | stripping a line break on both sides of trimmed text gives the text back |
| `Synthesizer.FenceRoundTrip` | pdfMaker1.py:74 | cleaning trimmed, fence-free program text wrapped in a tagged fence gives that text back exactly |
| `Screener.Matches` | pdfMaker1.py:154-157 | no more warnings than patterns |
| `Screener.ValidateCodeSafety` | pdfMaker1.py:147-159 | the loop returns the specified warnings: one per deny-listed pattern found, in deny-list order, at most ten |
| `Screener.MatchedIndices` | pdfMaker1.py:155-157 | the indices of matching patterns are indices of the deny-list |
| `Screener.MatchesAtIndices` | pdfMaker1.py:154-159 | warnings and matching indices correspond one to one, in strictly increasing deny-list order |
| `Screener.MatchedIndicesIff` | pdfMaker1.py:155-156 | an index is listed exactly when its pattern occurs in the program |
| `Screener.MatchesEmptyIff` | pdfMaker1.py:154-159 | there are no warnings exactly when no pattern occurs |
| `Screener.WarnedIff` | pdfMaker1.py:149-157 | a deny-listed pattern is warned about exactly when it occurs in the program |
| `Screener.ScreenBounds` | pdfMaker1.py:149-159 | at most ten warnings; none for text free of every pattern; each warning carries the fixed prefix |
| `Executor.ExitErrorMessage` | pdfMaker1.py:99-103 | the error is the stderr, extended by the install tip exactly when it names `ModuleNotFoundError` |
| `Executor.CreatePdfFromCode` | pdfMaker1.py:80-115 | exactly one of result and error is present. A result comes exactly on exit code zero. Each error has its message. The temporary file is removed exactly when the child returned |
| `Listing.PdfEntriesMembers` | pdfMaker1.py:119 | the `*.pdf` glob keeps exactly the `.pdf` entries, none more often than in the directory |
| `Listing.InsertPermutes` | pdfMaker1.py:121 | stable insertion adds the entry and nothing else |
| `Listing.InsertNewestFirst` | pdfMaker1.py:121 | stable insertion keeps the newest-first order |
| `Listing.InsertStable` | pdfMaker1.py:121 | an inserted entry goes after every entry already present with the same time |
| `Listing.InsertDistinct` | pdfMaker1.py:121 | insertion of an entry with a new name keeps the names distinct |
| `Listing.FindPdfFiles` | pdfMaker1.py:117-122 | the result is the `.pdf` entries, newest first; equal times keep listing order; names stay distinct |
| `Listing.StableOrderUnique` | pdfMaker1.py:121 | two newest-first orders that agree time by time are equal, so the result of the listing is the unique stable sort |
| `Listing.NewestPicked` | pdfMaker1.py:121 | the first listed file is a `.pdf` of the directory, none is newer, and it is the first in listing order among those as new |
| `History.Pushed` | pdfMaker1.py:161-176 | the new entry is at the head, the old history follows, and the length is capped at ten |
| `History.PushedTwice` | pdfMaker1.py:174-176 | successive saves keep the history newest first, within the cap |
| `Pipeline.Drop` | pdfMaker1.py:435 | Python's `s[3:]`: empty for short lists, otherwise the entries from index three on |
| `Pipeline.WithoutMembers` | pdfMaker1.py:435-439 | deleting files keeps exactly the entries whose name was not deleted |
| `Pipeline.WithoutTwice` | pdfMaker1.py:435-439 | deleting one more file after a set of files is deleting their union |
| `Pipeline.WithoutDistinct` | pdfMaker1.py:435-439 | deleting files keeps directory names distinct |
| `Pipeline.KeptNotAttempted` | pdfMaker1.py:435 | with distinct names, no deletion is attempted on any of the three newest files |
| `Pipeline.DroppedAttempted` | pdfMaker1.py:435 | deletion is attempted for every file from index three on |
| `Pipeline.RetentionKeepsNewest` | pdfMaker1.py:434-439 | pruning never removes one of the three newest `.pdf` files |
| `Pipeline.RetentionRemovesRest` | pdfMaker1.py:434-439 | every `.pdf` left after pruning is one of the three newest or one whose deletion failed |
| `Pipeline.Session.constructor` | pdfMaker1.py:228-230 | a fresh session has no generated program, no history (created on the first save, line 163-164), no stray scripts, and the given directory |
| `Pipeline.Session.SaveToHistory` | pdfMaker1.py:161-176 | the history becomes the bounded push of the entry onto the old history, created if missing; nothing else changes |
| `Pipeline.Session.PruneOldPdfs` | pdfMaker1.py:434-439 | deletion is attempted for the listing from index three on, in order; the directory loses exactly the entries whose deletion went through |
| `Pipeline.Session.ReportFiles` | pdfMaker1.py:386-443 | with no `.pdf`, a failed attempt is recorded. Otherwise the newest `.pdf` is reported and recorded as a success, and the rest are pruned; the three newest survive |
| `Pipeline.Session.RunAndRecord` | pdfMaker1.py:379-448 | the outcome is classified. If the temporary file was not removed, it stays behind. A failure is reported and recorded; a success goes on to the listing |
| `Pipeline.Session.ProcessRequest` | pdfMaker1.py:352-455 | an empty prompt or a failed or empty generation changes nothing. Otherwise the program is kept, screened and run once, and exactly one attempt is recorded |

## Left out

- The Streamlit page is not modelled: layout, CSS, sidebar widgets, progress bar, balloons, code display, help text and footer.
- `load_model`, the prompt template text and the network call to the text-generation service are left out. The call is a parameter, and its exceptions are its `None`.
- Writing the temporary script, launching the interpreter and enforcing the 60-second deadline are operating-system behaviour. The child's outcome is an input.
- `Executor.CreatePdfFromCode`: every exception other than the timeout is `Raised`, and the script is then counted as not removed by the app. A file is actually left behind when `f.write` or `subprocess.run` raises. It is not left behind when the script is already gone: the child may have removed it and then timed out, or `os.unlink` raises `FileNotFoundError`. It is also not left behind when creating the temporary file itself fails. In those cases the model still counts one.
- `get_pdf_download_link` and the download button are not modelled. They read the `.pdf` bytes and base64-encode them for display. The model assumes reading the file succeeds before pruning; in the source, an error there would abort the request before the prune loop.
- The "Generate Another" button clears the prompt and the generated code and re-runs the page. It is a separate interaction and is not modelled.
- The file-size display, the download file names and `uuid` are not modelled, because they are presentation only.
- Timestamps are opaque integers. `datetime.now().isoformat()` formatting is not modelled.
- Modification times are opaque ordered integers. Floating-point `st_mtime` and clock resolution are not modelled.
- Showing safety warnings only in debug mode is presentation. The model always returns the warnings in the report.
- `Listing.FindPdfFiles`: every entry is modelled with a modification time. In the source, the sort key `stat().st_mtime` raises `FileNotFoundError` for an entry the glob returns but `stat` cannot follow. Examples are a dangling `.pdf` symlink or a file removed between the glob and the sort. Nothing in `main` catches that error, so the request ends with no history entry and no pruning; the model does not capture that path. The glob is also modelled case-sensitively, as `pathlib` matches `*.pdf` on POSIX systems; Windows' case-insensitive match is not modelled.
- `Pipeline.Session.PruneOldPdfs`: a deletion fails only by the name being in `undeletable`. The model does not capture a file that vanishes or changes between listing and deletion.
