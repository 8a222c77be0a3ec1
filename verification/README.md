# Local_Tex compile path, modelled in Dafny

This project models the part of the offline LaTeX compiler (`app.py`) that turns a request into a
result: it resolves the LaTeX engine, normalises the document name, derives the PDF name, builds
the engine's command, and classifies what the run produced into exactly one outcome. Everything
the Python code asks of the machine is a parameter of the model:

- the set of paths that exist before the run (`Host.existing`): what `os.path.exists` reports for the engine probes, and pathlib's `Path.exists` for the source check;
- the answers of `shutil.which` per basename (`Host.onPath`);
- the server's working directory (`Host.cwd`);
- what the guarded part of `compile_latex` (app.py:121-159) was observed to do (`RunResult`): the engine exited with code, stdout and stderr and nothing raised afterwards; the run timed out; or some statement raised with a message. A raise may come before the run (changing into `tex_files`, spawning the engine) or after it (changing back at line 141, checking for the PDF at line 149); one after the run overrides the exit code;
- the set of paths that exist after the run (`after`);
- `werkzeug.secure_filename`, as an opaque function `secure: string -> string`.

Modules, leaf first:

- `Wrappers` (wrappers.dfy): `Option`.
- `Text` (text.dfy): `EndsWith`, `StartsWith`, and `ReplaceAll`, which is Python's replace-all `str.replace`.
- `Paths` (paths.dfy): `Join`, which is POSIX `os.path.join` for two parts.
- `Engines` (engines.dfy): `LATEX_ENGINES` and `find_latex_engine`.
- `Naming` (naming.dfy): the `.tex` normalisation, the PDF name, and the two storage directories.
- `Compiler` (compiler.dfy): the run result, the outcome, the command vector, the result classification `Interpret`, the request `Compile`, and the status labels.

A `Compilation` pairs the outcome with the engine run it attempted, if any. An attempt need not
start a process: the directory change or the spawn can raise, which the run result reports as
`Raised`. A run that finished but was followed by a raise is `Raised` as well. The absence of an attempt is how the model states that no engine is run for a missing
source or a missing engine.

In these places the model follows the code where one might expect otherwise:

- A common directory counts as a hit when the joined path merely exists (`os.path.exists`). Whether the file is executable is not checked.
- `EngineNotFound` carries the raw requested name, not the resolved basename.
- The working directory is changed process-wide rather than passed to the child process. The model records it as the invocation's working directory.
- The engine's output directory is computed after the directory change, so `Compile` hands the engine `<cwd>/tex_files/pdf_output` (see Findings).

## Model

| member | source | states |
|---|---|---|
| Text.ReplaceAll | app.py:118 | replacing a pattern by one of equal length keeps the length; a string shorter than the pattern is unchanged |
| Text.ReplaceAllWithoutOccurrence | app.py:118 | a name with no occurrence of the pattern is left exactly as it is |
| Text.ReplaceTexKeepsSuffix | app.py:118 | a name ending in `.tex` yields a name ending in `.pdf`: the final `.tex` is always reached by the left-to-right scan |
| Text.ReplaceTexLeavesNoTex | app.py:118 | every `.tex` is replaced: the result contains no `.tex` at any position |
| Text.ReplaceTexWithoutTex | app.py:118 | a name containing no `.tex` at any position is left exactly as it is |
| Text.ReplaceTexFirstOccurrence | app.py:118 | the scan steps over a `.tex`-free prefix, turns the first `.tex` into `.pdf`, and carries on with the rest: `p + .tex + q` becomes `p + .pdf + replace(q)` |
| Text.ReplaceTexSuffixOnly | app.py:118 | when `.tex` occurs only as the suffix, replace-all is exactly the suffix swap `stem + .pdf` |
| Paths.Join | app.py:43 | an absolute second part replaces the first; otherwise the result starts with the directory and ends with the name |
| Engines.EngineBasename | app.py:24-33 | the basename is one of the table's engines; it equals the requested name iff that name is in the table, and is `pdflatex` otherwise |
| Engines.Probes | app.py:36-44 | one path per common directory, in the listed order, each starting with its directory and ending with `/` and the basename |
| Engines.ProbesAreJoins | app.py:42-44 | each probed path is `os.path.join` of its directory and the basename, and is absolute |
| Engines.Which | app.py:48 | the search-path lookup answers only for basenames on PATH, with the recorded path |
| Engines.Truthy | app.py:49 | Python truthiness of the lookup: exactly `None` and the empty string are false |
| Engines.FirstHit | app.py:42-45 | returns the first index whose path exists, with every earlier path missing, and none iff no path exists |
| Engines.FindLatexEngine | app.py:31-52 | none iff no probed directory holds the engine and the PATH lookup is empty; with no common hit a non-empty PATH result is returned; a result not from PATH is one of the probed paths; a result is never empty |
| Engines.FirstCommonHitWins | app.py:36-45 | when the i-th probed path is the first that exists, exactly that path is returned, whatever PATH says |
| Engines.LaterDirectoryOnlyAfterEarlierMisses | app.py:36-45 | if the i-th probed path is returned, every earlier probed path is missing |
| Engines.SearchPathOnlyAfterAllMiss | app.py:47-52 | a result that is none of the probed paths comes from PATH, and every common directory missed |
| Engines.UnknownEngineActsAsDefault | app.py:33 | an engine name outside the table resolves exactly as `pdflatex` does, on every host |
| Naming.Normalise | app.py:102-103 | the result ends with `.tex` and starts with the given name; it equals the name iff the name already ends with `.tex`, and otherwise is exactly four characters longer |
| Naming.NormaliseIdempotent | app.py:85-86 | normalising twice is normalising once |
| Naming.PdfName | app.py:118 | same length as the document name, no `.tex` left anywhere, ends in `.pdf` when the document name ends in `.tex`, and is the name itself when it holds no `.tex` |
| Naming.PdfNameStepsOverFirstTex | app.py:118 | for `before` with no `.tex`, the PDF name of `before + .tex + after` is `before + .pdf` followed by the PDF name of `after` |
| Naming.PdfNameOfNormalised | app.py:102-118 | for any requested name, the PDF name of its normalised form ends in `.pdf` and has the normalised name's length |
| Naming.PdfNameSwapsSuffix | app.py:118 | for a stem with no `.tex`, the PDF name of `stem.tex` is `stem.pdf` |
| Naming.PdfNameReplacesInnerTex | app.py:118 | `a.tex.tex` becomes `a.pdf.pdf`, which is not the suffix swap `a.tex.pdf` |
| Naming.TexPath | app.py:105 | a relative document name is `tex_files/` followed by the name; an absolute one replaces the directory |
| Naming.PdfPath | app.py:119 | a relative PDF name is `pdf_output/` followed by the name; an absolute one replaces the directory |
| Compiler.OutputDirAsWritten | app.py:124-130 | the directory the engine is given is the server's directory joined with `tex_files/pdf_output` |
| Compiler.OutputDir | app.py:130 | the corrected output directory: a PDF written into it is the very path the artifact check reads |
| Compiler.OutputDirAsWrittenMissesCheckedPdf | app.py:123-130 | as written, the output directory is not `pdf_output` under the server's directory, and for any relative PDF name the file the engine writes there is never the file that is checked |
| Compiler.OutputDirAsWrittenUnderCwd | app.py:123-130 | as written, a server started in a directory such as `/srv` hands the engine `/srv/tex_files/pdf_output` |
| Compiler.OutputDirUnderCwd | app.py:119-149 | the checked PDFs live in `pdf_output` directly under the server's directory, such as `/srv/pdf_output` |
| Compiler.Command | app.py:127-132 | four arguments in order: the engine, `-interaction=nonstopmode`, an `-output-directory=` flag, and the document name; the flag carries exactly the given directory |
| Compiler.CorrectedCommandTargetsCheckedPdf | app.py:119-149 | with the corrected directory, the command's output directory joined with the PDF name is the path the artifact check reads |
| Compiler.Interpret | app.py:143-164 | timeout iff the run timed out; system error with the message iff it raised; compilation failure with stderr iff the exit code is non-zero; success with the PDF name iff exit 0 and the PDF exists; missing artifact with stdout iff exit 0 and no PDF |
| Compiler.Compile | app.py:96-164 | not found iff the normalised source is missing; engine not found, with the raw name, iff the source exists and no engine resolves; an engine run is attempted iff neither happened, with the command for the as-written output directory, the `tex_files` working directory and the 60 s bound; the outcome is then the classification of the run |
| Compiler.CompileWritesBesideCheckedPdf | app.py:119-149 | for a relative PDF name, the PDF an attempted run writes into its output directory is never the path the artifact check reads |
| Compiler.MissingSourceShortCircuits | app.py:105-107 | a missing source gives not found with no engine run attempted, independent of the engine name, PATH, the run and the later filesystem |
| Compiler.MissingEngineShortCircuits | app.py:110-115 | with no engine found, the outcome is engine-not-found with the requested name, independent of the run and the later filesystem |
| Compiler.FailedExitIgnoresArtifact | app.py:143-147 | once the engine has run, a non-zero exit is a compilation failure carrying stderr verbatim; the filesystem after the run cannot change the result |
| Compiler.CleanExitWithPdfSucceeds | app.py:149-154 | once the engine has run, exit 0 with the PDF present succeeds, naming the derived PDF, which ends in `.pdf` |
| Compiler.RequestedFilename | app.py:99 | the sanitiser is applied to the request's filename, or to `document.tex` when the field is absent |
| Compiler.RequestedEngine | app.py:100 | a present engine field is passed through unchanged; an absent one means `pdflatex` |
| Compiler.CompileRequest | app.py:96-106 | a request is answered not found iff `tex_files` joined with its sanitised, normalised filename is missing; an engine-not-found answer names the requested engine, `pdflatex` by default; any attempted run has the 60 s bound |
| Compiler.DefaultEngineRequest | app.py:99-100 | a request without an engine field compiles exactly as one asking for `pdflatex` |
| Compiler.SavedPath | app.py:82-88 | the save handler writes to a path ending in `.tex` |
| Compiler.SavedDocumentIsFound | app.py:85-106 | a document saved under a request's filename is never reported not found by a compile of the same filename |
| Compiler.HttpStatus | app.py:107-164 | 200 iff success, 404 iff the source is missing, 500 for every other outcome |

## Findings

| source | as written | input that shows it | evidently intended | confidence | as-written member | corrected member |
|---|---|---|---|---|---|---|
| app.py:124-130 | `PDF_DIR.absolute()` is evaluated after `os.chdir(TEX_DIR)`, so the engine is told `<cwd>/tex_files/pdf_output`; the check at line 149 runs after the directory is restored and reads `<cwd>/pdf_output` | server started in `/srv`, document `a.tex`: the engine is pointed at `/srv/tex_files/pdf_output`, and the check reads `/srv/pdf_output/a.pdf` | the output directory is `pdf_output` under the server's directory, the one the check reads | high; not executed | Compiler.CompileWritesBesideCheckedPdf | Compiler.CorrectedCommandTargetsCheckedPdf |

`Compiler.Compile` follows the code: it builds its command from `Compiler.OutputDirAsWritten`,
and `Compiler.OutputDirAsWrittenMissesCheckedPdf` shows that directory never holds the checked
PDF. The corrected directory is `Compiler.OutputDir`; a command built from it,
`Compiler.Command(engine, Compiler.OutputDir(cwd), name)`, points the engine at the checked PDF.

## Left out

- HTTP plumbing: Flask routing, `jsonify` bodies and messages, and the `index`, `list_files`, `get_file`, `get_pdf` and `delete_file` handlers. Status codes appear only as labels (`HttpStatus`).
- Process spawning, stream capture and timeout enforcement: `subprocess.run` is represented by its observed result, `RunResult`.
- The process-wide `os.chdir`, including that it is not undone when the run times out or raises (app.py:123-141). After that, later requests resolve `tex_files` and `pdf_output` under `tex_files`. The model always resolves against the original `Host.cwd`.
- `secure_filename` internals: a parameter whose output is an opaque string. No traversal-safety property is claimed.
- `os.path.exists`, `Path.exists` and `shutil.which`: oracles, `Host.existing` and `Host.onPath`. Relative paths are looked up as the strings the code forms.
- Compiler.Compile: the source check at app.py:106 lies outside the guarded block. Pathlib's `Path.exists` re-raises stat errors other than "no such file", for example a name too long or permission denied on `tex_files`. The request then ends in Flask's own 500 response, which no `Outcome` represents: the model treats every path as either existing or not, and answers `NotFound` instead.
- Paths.Join: models `os.path.join`. pathlib's `/` also collapses repeated separators and `.` segments, which is not modelled.
- Request fields that are JSON values other than strings (for example a `null` engine) are not modelled. The request fields are optional strings.
- Directory creation at import, `MAX_CONTENT_LENGTH`, and the `__main__` warning and server start.
- Concurrent compiles of one document, and PDFs left from earlier runs: both are filesystem behaviour. A stale PDF shows up only as a member of `after`.
- Compiler.Compile: the file name the engine gives its output (its job name) is engine behaviour. So the model does not prove that a successful engine run makes the checked PDF path exist. It proves only where the command points the engine: outside the checked directory as written, and at the checked PDF with the corrected directory.
