/**
  `compile_tex_to_pdf`: pick the first TeX engine found on PATH, run it once on
  `main.tex` in a scratch directory, and turn what happened into a pair of an
  optional PDF and a log text.  PATH lookup and the subprocess are parameters:
  the set of executables on PATH, and a function from (command line, TeX
  source) to what the run produced.
*/
module Compiler {
  import opened Common

  /** The engine command lines, in order of preference. */
  const Engines: seq<seq<string>> := [
    ["latexmk", "-pdf", "-interaction=nonstopmode", "-halt-on-error", "main.tex"],
    ["xelatex", "-interaction=nonstopmode", "-halt-on-error", "main.tex"],
    ["pdflatex", "-interaction=nonstopmode", "-halt-on-error", "main.tex"]
  ]

  const NoEngineMessage: string :=
    "No TeX engine found. Please install latexmk or xelatex/pdflatex and ensure it's on PATH."

  const CompilationErrorPrefix: string := "Compilation error: "

  /** `shutil.which(cmd[0])` finds the command's executable. */
  predicate OnPath(available: set<string>, cmd: seq<string>) {
    |cmd| > 0 && cmd[0] in available
  }

  /** Engine `k` is on PATH and no engine preferred to it is. */
  predicate IsFirstAvailable(available: set<string>, k: int) {
    0 <= k < |Engines| && OnPath(available, Engines[k])
    && forall j :: 0 <= j < k ==> !OnPath(available, Engines[j])
  }

  /** The preference loop: the first engine whose executable is on PATH, if any. */
  method SelectEngine(available: set<string>) returns (used: Option<seq<string>>)
    ensures used.None? <==> forall k :: 0 <= k < |Engines| ==> !OnPath(available, Engines[k])
    ensures used.Some? ==> exists k :: IsFirstAvailable(available, k) && used.value == Engines[k]
  {
    used := None;
    for i := 0 to |Engines|
      invariant forall j :: 0 <= j < i ==> !OnPath(available, Engines[j])
    {
      if OnPath(available, Engines[i]) {
        used := Some(Engines[i]);
        assert IsFirstAvailable(available, i);
        break;
      }
    }
  }

  /** What one run of the engine produced: an exit status, the combined
      stdout/stderr text and `main.pdf` if it exists, or an exception raised
      by the subprocess layer (or by reading the PDF) with its message. */
  datatype RunResult =
    | Finished(returnCode: int, stdout: string, mainPdf: Option<seq<Byte>>)
    | Raised(message: string)

  /** The `(pdf_bytes, log_text)` pair the function returns. */
  datatype CompileResult = CompileResult(pdf: Option<seq<Byte>>, log: string)

  /** The branches after the engine has run. */
  function CompileOutcome(run: RunResult): (r: CompileResult)
    ensures r.pdf.Some? <==> run.Finished? && run.returnCode == 0 && run.mainPdf.Some?
    ensures r.pdf.Some? ==> r.pdf == run.mainPdf
    ensures run.Finished? ==> r.log == run.stdout
    ensures run.Raised? ==> r.log == CompilationErrorPrefix + run.message
  {
    match run
    case Raised(msg) => CompileResult(None, CompilationErrorPrefix + msg)
    case Finished(code, log, pdf) =>
      if code == 0 && pdf.Some? then CompileResult(pdf, log) else CompileResult(None, log)
  }

  /**
    `compile_tex_to_pdf`.  `invoked` is the command line handed to the
    subprocess, `None` when nothing was run.  No path raises: every failure
    ends as a result without PDF and with a log.
  */
  method CompileTexToPdf(tex: string, available: set<string>, subprocess: (seq<string>, string) -> RunResult)
    returns (result: CompileResult, invoked: Option<seq<string>>)
    ensures invoked.None? <==> forall k :: 0 <= k < |Engines| ==> !OnPath(available, Engines[k])
    ensures invoked.Some? ==> exists k :: IsFirstAvailable(available, k) && invoked.value == Engines[k]
    ensures invoked.None? ==> result == CompileResult(None, NoEngineMessage)
    ensures invoked.Some? ==> result == CompileOutcome(subprocess(invoked.value, tex))
  {
    invoked := SelectEngine(available);
    if invoked.None? {
      return CompileResult(None, NoEngineMessage), None;
    }
    result := CompileOutcome(subprocess(invoked.value, tex));
  }

  /** The preference order spelled out by executable name. */
  lemma PreferenceOrder(available: set<string>, k: int)
    requires IsFirstAvailable(available, k)
    ensures k == 0 <==> "latexmk" in available
    ensures k == 1 <==> "latexmk" !in available && "xelatex" in available
    ensures k == 2 <==> "latexmk" !in available && "xelatex" !in available && "pdflatex" in available
  {
    assert Engines[0][0] == "latexmk" && Engines[1][0] == "xelatex" && Engines[2][0] == "pdflatex";
    if k > 0 { assert !OnPath(available, Engines[0]); }
    if k > 1 { assert !OnPath(available, Engines[1]); }
  }
}
