/**
 The compile request: source lookup, engine resolution, the command handed
 to the engine, and the classification of what the run produced into
 exactly one outcome. The process itself is not run here; its observed
 result is a parameter, as is the set of paths that exist after it.
 */
module Compiler {
  import opened Wrappers
  import opened Text
  import opened Paths
  import opened Engines
  import opened Naming

  /** Seconds the engine may run before it is stopped. */
  const TimeoutSeconds: nat := 60
  const InteractionFlag: string := "-interaction=nonstopmode"
  const OutputDirFlag: string := "-output-directory="

  /**
   What the guarded part of `compile_latex` was observed to do: the
   directory change, the engine run, the change back and the PDF check.
   `Exited` is a run that returned with nothing raising afterwards.
   `Raised` is any exception other than the timeout anywhere in that part,
   before the run (changing into `tex_files`, spawning the engine) or after
   it (changing back, checking for the PDF); one raised after the run
   overrides the exit code.
   */
  datatype RunResult =
    | Exited(code: int, stdout: string, stderr: string)
    | TimedOut
    | Raised(message: string)

  /** The one result of a compile request. */
  datatype Outcome =
    | NotFound
    | EngineNotFound(requested: string)
    | CompilationFailed(stderr: string)
    | ArtifactMissing(stdout: string)
    | Success(pdf: string)
    | Timeout
    | SystemError(message: string)

  /** The engine run asked of `subprocess.run`: argument vector, working directory, time bound. */
  datatype Invocation = Invocation(argv: seq<string>, workingDir: string, timeoutSeconds: nat)

  /**
   The outcome together with the engine run the request went on to attempt,
   if any. An attempt need not start a process: changing the working
   directory or spawning the engine can raise, which the run result reports
   as `Raised`.
   */
  datatype Compilation = Compilation(outcome: Outcome, attempted: Option<Invocation>)

  /**
   The machine before the run: the server's working directory, the paths
   `os.path.exists` and `Path.exists` report, and what `shutil.which`
   answers per basename.
   */
  datatype Host = Host(cwd: string, existing: set<string>, onPath: map<string, string>)

  /** The request body: the `filename` and `engine` fields, either of which may be absent. */
  datatype Request = Request(filename: Option<string>, engine: Option<string>)

  /**
   The output directory as the source computes it: `PDF_DIR.absolute()` is
   evaluated after the working directory has been changed to `tex_files`.
   */
  function OutputDirAsWritten(cwd: string): (d: string)
    ensures d == Join(cwd, TexDir + "/" + PdfDir)
  {
    DirsAreSegments();
    JoinAssociative(cwd, TexDir, PdfDir);
    JoinInsertsSlash(TexDir, PdfDir);
    Join(Join(cwd, TexDir), PdfDir)
  }

  /** The output directory as intended: `pdf_output` under the server's working directory. */
  function OutputDir(cwd: string): (d: string)
    ensures forall pdf :: Join(d, pdf) == Join(cwd, PdfPath(pdf))
  {
    forall pdf ensures Join(Join(cwd, PdfDir), pdf) == Join(cwd, Join(PdfDir, pdf)) {
      JoinAssociative(cwd, PdfDir, pdf);
    }
    Join(cwd, PdfDir)
  }

  /**
   The PDF the engine writes into the directory the source hands it is
   never the file the source later checks for.
   */
  lemma OutputDirAsWrittenMissesCheckedPdf(cwd: string, pdf: string)
    requires !IsAbsolute(pdf)
    ensures Join(OutputDirAsWritten(cwd), pdf) != Join(cwd, PdfPath(pdf))
    ensures OutputDirAsWritten(cwd) != OutputDir(cwd)
  {
    DirsAreSegments();
    var inner := Join(cwd, TexDir);
    JoinRelativeLength(cwd, TexDir);
    JoinRelativeLength(inner, PdfDir);
    JoinRelativeLength(OutputDirAsWritten(cwd), pdf);
    JoinRelativeLength(cwd, PdfDir);
    JoinRelativeLength(OutputDir(cwd), pdf);
  }

  /**
   For a working directory that does not end in `/` (any but the root), the
   engine is handed `tex_files/pdf_output` under it.
   */
  lemma OutputDirAsWrittenUnderCwd(cwd: string)
    requires EndsInName(cwd)
    ensures OutputDirAsWritten(cwd) == cwd + "/tex_files/pdf_output"
  {
    DirsAreSegments();
    var nested := TexDir + "/" + PdfDir;
    assert !IsAbsolute(nested) by {
      assert nested[..1][0] == 't';
    }
    JoinInsertsSlash(cwd, nested);
    assert nested == "tex_files/pdf_output";
    assert cwd + "/" + nested == cwd + "/tex_files/pdf_output";
  }

  /** Under the same working directory, the checked directory is `pdf_output` directly under it. */
  lemma OutputDirUnderCwd(cwd: string)
    requires EndsInName(cwd)
    ensures OutputDir(cwd) == cwd + "/pdf_output"
  {
    DirsAreSegments();
    JoinInsertsSlash(cwd, PdfDir);
  }

  /**
   The engine's argument vector: the located engine, batch mode, the output
   directory, and the document name relative to `tex_files`. The directory
   is read back from the third argument by dropping the flag's name.
   */
  function Command(engine: string, outDir: string, texName: string): (argv: seq<string>)
    ensures |argv| == 4 && argv[0] == engine && argv[1] == InteractionFlag && argv[3] == texName
    ensures StartsWith(argv[2], OutputDirFlag)
    ensures argv[2][|OutputDirFlag|..] == outDir
  {
    assert (OutputDirFlag + outDir)[|OutputDirFlag|..] == outDir;
    ConcatAffixes(OutputDirFlag, outDir);
    [engine, InteractionFlag, OutputDirFlag + outDir, texName]
  }

  /** The directory a command tells the engine to write into. */
  function CommandOutputDir(argv: seq<string>): string
    requires |argv| == 4 && StartsWith(argv[2], OutputDirFlag)
  {
    argv[2][|OutputDirFlag|..]
  }

  /**
   With the corrected directory, the PDF the engine writes into the
   directory it is given is exactly the file the artifact check reads.
   */
  lemma CorrectedCommandTargetsCheckedPdf(engine: string, cwd: string, texName: string)
    ensures Join(CommandOutputDir(Command(engine, OutputDir(cwd), texName)), PdfName(texName))
              == Join(cwd, PdfPath(PdfName(texName)))
  {
  }

  /**
   The classification after the run: a timeout or an exception wins; then a
   non-zero exit is a compilation failure whatever the filesystem shows; a
   clean exit succeeds only if the PDF is there.
   */
  function Interpret(run: RunResult, pdfName: string, pdfExists: bool): (o: Outcome)
    ensures o.Timeout? <==> run.TimedOut?
    ensures o.SystemError? <==> run.Raised?
    ensures o.SystemError? ==> o.message == run.message
    ensures o.CompilationFailed? <==> run.Exited? && run.code != 0
    ensures o.CompilationFailed? ==> o.stderr == run.stderr
    ensures o.Success? <==> run.Exited? && run.code == 0 && pdfExists
    ensures o.Success? ==> o.pdf == pdfName
    ensures o.ArtifactMissing? <==> run.Exited? && run.code == 0 && !pdfExists
    ensures o.ArtifactMissing? ==> o.stdout == run.stdout
    ensures !o.NotFound? && !o.EngineNotFound?
  {
    match run
    case TimedOut => Timeout
    case Raised(message) => SystemError(message)
    case Exited(code, stdout, stderr) =>
      if code != 0 then CompilationFailed(stderr)
      else if pdfExists then Success(pdfName)
      else ArtifactMissing(stdout)
  }

  /**
   `compile_latex` for a sanitised filename and an engine name: the source
   must exist, an engine must be found, and only then is the engine run,
   with the output directory the source computes.
   `after` is the set of paths that exist once the run is over.
   */
  function Compile(filename: string, engineName: string, host: Host, run: RunResult, after: set<string>): (c: Compilation)
    ensures c.outcome.NotFound? <==> TexPath(Normalise(filename)) !in host.existing
    ensures c.outcome.EngineNotFound? <==>
              TexPath(Normalise(filename)) in host.existing
              && FindLatexEngine(engineName, host.existing, host.onPath).None?
    ensures c.outcome.EngineNotFound? ==> c.outcome.requested == engineName
    ensures c.attempted.None? <==> c.outcome.NotFound? || c.outcome.EngineNotFound?
    ensures c.attempted.Some? ==>
              && FindLatexEngine(engineName, host.existing, host.onPath).Some?
              && c.attempted.value == Invocation(
                   Command(FindLatexEngine(engineName, host.existing, host.onPath).value,
                           OutputDirAsWritten(host.cwd), Normalise(filename)),
                   Join(host.cwd, TexDir),
                   TimeoutSeconds)
    ensures c.attempted.Some? ==>
              c.outcome == Interpret(run, PdfName(Normalise(filename)), PdfPath(PdfName(Normalise(filename))) in after)
  {
    var texName := Normalise(filename);
    if TexPath(texName) !in host.existing then
      Compilation(NotFound, None)
    else
      match FindLatexEngine(engineName, host.existing, host.onPath)
      case None => Compilation(EngineNotFound(engineName), None)
      case Some(engine) =>
        var pdfName := PdfName(texName);
        var argv := Command(engine, OutputDirAsWritten(host.cwd), texName);
        var invocation := Invocation(argv, Join(host.cwd, TexDir), TimeoutSeconds);
        Compilation(Interpret(run, pdfName, PdfPath(pdfName) in after), Some(invocation))
  }

  /**
   The engine `Compile` attempts writes its PDF into the nested directory, so
   a relative PDF name it produces lands somewhere other than the file the
   artifact check reads.
   */
  lemma CompileWritesBesideCheckedPdf(filename: string, engineName: string, host: Host,
                                      run: RunResult, after: set<string>)
    requires !IsAbsolute(PdfName(Normalise(filename)))
    ensures Compile(filename, engineName, host, run, after).attempted.Some? ==>
              Join(CommandOutputDir(Compile(filename, engineName, host, run, after).attempted.value.argv),
                   PdfName(Normalise(filename)))
                != Join(host.cwd, PdfPath(PdfName(Normalise(filename))))
  {
    OutputDirAsWrittenMissesCheckedPdf(host.cwd, PdfName(Normalise(filename)));
  }

  /** The filename the request names, defaulting to `document.tex`, through the sanitiser. */
  function RequestedFilename(req: Request, secure: string -> string): (f: string)
    ensures req.filename.Some? ==> f == secure(req.filename.value)
    ensures req.filename.None? ==> f == secure("document.tex")
  {
    secure(req.filename.GetOr("document.tex"))
  }

  /** The engine the request names, defaulting to `pdflatex`. */
  function RequestedEngine(req: Request): (e: string)
    ensures req.engine.Some? ==> e == req.engine.value
    ensures req.engine.None? ==> e == DefaultEngine
  {
    req.engine.GetOr("pdflatex")
  }

  /** The `/api/compile` request: request fields with their defaults, then `Compile`. */
  function CompileRequest(req: Request, secure: string -> string, host: Host, run: RunResult, after: set<string>): (c: Compilation)
    ensures c.outcome.NotFound? <==> TexPath(Normalise(RequestedFilename(req, secure))) !in host.existing
    ensures c.outcome.EngineNotFound? ==> c.outcome.requested == req.engine.GetOr(DefaultEngine)
    ensures c.attempted.Some? ==> c.attempted.value.timeoutSeconds == TimeoutSeconds
  {
    Compile(RequestedFilename(req, secure), RequestedEngine(req), host, run, after)
  }

  /** The path `/api/file` writes a request's document to. */
  function SavedPath(req: Request, secure: string -> string): (p: string)
    ensures EndsWith(p, Tex)
  {
    TexPath(Normalise(RequestedFilename(req, secure)))
  }

  /** The status code each outcome is answered with. */
  function HttpStatus(o: Outcome): (status: int)
    ensures status == 200 <==> o.Success?
    ensures status == 404 <==> o.NotFound?
    ensures status == 200 || status == 404 || status == 500
  {
    match o
    case Success(_) => 200
    case NotFound => 404
    case _ => 500
  }

  // Properties relating several requests or several calls.

  /**
   A missing source decides the request alone: neither the engine name, the
   search-path lookup, the run nor the filesystem after it can matter.
   */
  lemma MissingSourceShortCircuits(filename: string, engine1: string, engine2: string,
                                   host1: Host, host2: Host, run1: RunResult, run2: RunResult,
                                   after1: set<string>, after2: set<string>)
    requires TexPath(Normalise(filename)) !in host1.existing
    requires TexPath(Normalise(filename)) !in host2.existing
    ensures Compile(filename, engine1, host1, run1, after1) == Compile(filename, engine2, host2, run2, after2)
    ensures Compile(filename, engine1, host1, run1, after1) == Compilation(NotFound, None)
  {
  }

  /** With no engine found, the run and what exists after it cannot matter. */
  lemma MissingEngineShortCircuits(filename: string, engineName: string, host: Host,
                                   run1: RunResult, run2: RunResult, after1: set<string>, after2: set<string>)
    requires TexPath(Normalise(filename)) in host.existing
    requires FindLatexEngine(engineName, host.existing, host.onPath).None?
    ensures Compile(filename, engineName, host, run1, after1) == Compile(filename, engineName, host, run2, after2)
    ensures Compile(filename, engineName, host, run1, after1).outcome == EngineNotFound(engineName)
  {
  }

  /**
   Once the engine has run, a non-zero exit is a compilation failure carrying
   the engine's stderr, and what exists afterwards cannot change that.
   */
  lemma FailedExitIgnoresArtifact(filename: string, engineName: string, host: Host,
                                  code: int, stdout: string, stderr: string,
                                  after1: set<string>, after2: set<string>)
    requires code != 0
    ensures Compile(filename, engineName, host, Exited(code, stdout, stderr), after1)
              == Compile(filename, engineName, host, Exited(code, stdout, stderr), after2)
    ensures Compile(filename, engineName, host, Exited(code, stdout, stderr), after1).attempted.Some? ==>
              Compile(filename, engineName, host, Exited(code, stdout, stderr), after1).outcome == CompilationFailed(stderr)
  {
  }

  /** Once the engine has run, a clean exit with the PDF present succeeds, naming a `.pdf`. */
  lemma CleanExitWithPdfSucceeds(filename: string, engineName: string, host: Host,
                                 stdout: string, stderr: string, after: set<string>)
    requires PdfPath(PdfName(Normalise(filename))) in after
    ensures Compile(filename, engineName, host, Exited(0, stdout, stderr), after).attempted.Some? ==>
              Compile(filename, engineName, host, Exited(0, stdout, stderr), after).outcome
                == Success(PdfName(Normalise(filename)))
    ensures EndsWith(PdfName(Normalise(filename)), Pdf)
  {
  }

  /** A document saved under a request's filename is found by a compile of the same request. */
  lemma SavedDocumentIsFound(req: Request, secure: string -> string, host: Host, run: RunResult, after: set<string>)
    requires SavedPath(req, secure) in host.existing
    ensures !CompileRequest(req, secure, host, run, after).outcome.NotFound?
  {
  }

  /** Leaving out the engine field is the same as asking for `pdflatex`. */
  lemma DefaultEngineRequest(filename: Option<string>, secure: string -> string, host: Host, run: RunResult, after: set<string>)
    ensures CompileRequest(Request(filename, None), secure, host, run, after)
              == CompileRequest(Request(filename, Some(DefaultEngine)), secure, host, run, after)
  {
  }
}
