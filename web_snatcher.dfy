/**
 The converter command of web_snatcher/main.py: URL validation, derivation of
 a default output name, the wkhtmltopdf command line, and the mapping from
 the renderer's result to the command's exit code.

 The two things the program asks of the outside world are parameters:
 `urlparse` (a function from the URL text to its scheme, network location and
 path, or `None` where Python raises `ValueError`) and `run` (what running a
 command line gives: a return code with the captured streams, or an
 exception).
 */
module WebSnatcher {
  import opened Wrappers
  import opened PyLib
  import opened Clock

  /** The parts of `urlparse(url)` that the program reads. */
  datatype ParsedUrl = ParsedUrl(scheme: string, netloc: string, path: string)

  // ---------------------------------------------------------------------------
  // validate_url
  // ---------------------------------------------------------------------------

  /** Python's `all(xs)` over strings: every element is truthy, that is, non-empty. */
  function All(xs: seq<string>): (r: bool)
    ensures r <==> forall i :: 0 <= i < |xs| ==> xs[i] != ""
  {
    if xs == [] then true else xs[0] != "" && All(xs[1..])
  }

  /**
   `validate_url(value)`: the URL is valid exactly when it parses with a
   non-empty scheme and a non-empty network location; a parse error makes it
   invalid instead of propagating.
   */
  function ValidateUrl(value: string, urlparse: string -> Option<ParsedUrl>): (valid: bool)
    ensures valid <==> urlparse(value).Some? && urlparse(value).value.scheme != "" && urlparse(value).value.netloc != ""
  {
    match urlparse(value)
    case None => false
    case Some(result) =>
      assert [result.scheme, result.netloc][0] == result.scheme;
      assert [result.scheme, result.netloc][1] == result.netloc;
      All([result.scheme, result.netloc])
  }

  // ---------------------------------------------------------------------------
  // generate_output_name
  // ---------------------------------------------------------------------------

  /** `[part for part in parts if part]`: the non-empty parts, in their order. */
  function NonEmptyParts(parts: seq<string>): (kept: seq<string>)
    ensures forall i :: 0 <= i < |kept| ==> kept[i] != "" && kept[i] in parts
    ensures forall p :: p in parts && p != "" ==> p in kept
    ensures |kept| <= |parts|
    decreases |parts|
  {
    if parts == [] then []
    else if parts[0] == "" then NonEmptyParts(parts[1..])
    else [parts[0]] + NonEmptyParts(parts[1..])
  }

  /** Each non-empty part is kept exactly as often as it occurs, and no empty part is kept. */
  lemma {:induction false} NonEmptyPartsCount(parts: seq<string>)
    ensures multiset(NonEmptyParts(parts)) == multiset(parts)["" := 0]
    decreases |parts|
  {
    if parts != [] {
      NonEmptyPartsCount(parts[1..]);
      assert parts == [parts[0]] + parts[1..];
    }
  }

  /** Filtering distributes over concatenation. */
  lemma {:induction false} NonEmptyPartsAppend(a: seq<string>, b: seq<string>)
    ensures NonEmptyParts(a + b) == NonEmptyParts(a) + NonEmptyParts(b)
    decreases |a|
  {
    if a == [] {
      assert a + b == b;
    } else {
      assert (a + b)[0] == a[0];
      assert (a + b)[1..] == a[1..] + b;
      NonEmptyPartsAppend(a[1..], b);
      if a[0] != "" {
        assert NonEmptyParts(a + b) == [a[0]] + NonEmptyParts(a[1..] + b);
      }
    }
  }

  /** The non-empty `/`-separated segments of a URL path (main.py lines 48-51). */
  function PathSegments(path: string): (segments: seq<string>)
    ensures forall i :: 0 <= i < |segments| ==> segments[i] != "" && '/' !in segments[i]
  {
    NonEmptyParts(Split(path, '/'))
  }

  /** The segments of `a/b` are those of `a` followed by those of `b`. */
  lemma PathSegmentsAppend(a: string, b: string)
    ensures PathSegments(a + "/" + b) == PathSegments(a) + PathSegments(b)
  {
    SplitAppend(a, '/', b);
    NonEmptyPartsAppend(Split(a, '/'), Split(b, '/'));
  }

  /** A path has no segment exactly when it consists of slashes only. */
  lemma {:induction false} NoSegmentsIffSlashes(path: string)
    ensures PathSegments(path) == [] <==> forall i :: 0 <= i < |path| ==> path[i] == '/'
    decreases |path|
  {
    if path != [] {
      var rest := path[1..];
      NoSegmentsIffSlashes(rest);
      if path[0] == '/' {
        PathSegmentsAppend("", rest);
        assert path == "" + "/" + rest;
      } else {
        var parts := Split(path, '/');
        assert parts[0] != "";
        assert NonEmptyParts(parts) != [];
      }
    }
  }

  /**
   Leading, trailing and doubled slashes do not change the segments, nor
   therefore the base name (empty parts of the split are discarded).
   */
  lemma ExtraSlashesIgnored(a: string, b: string)
    ensures PathSegments("/" + a) == PathSegments(a)
    ensures PathSegments(a + "/") == PathSegments(a)
    ensures PathSegments(a + "//" + b) == PathSegments(a + "/" + b)
    ensures BaseName("/" + a) == BaseName(a) && BaseName(a + "/") == BaseName(a)
    ensures BaseName(a + "//" + b) == BaseName(a + "/" + b)
  {
    NoSegmentsIffSlashes("");
    PathSegmentsAppend("", a);
    assert "" + "/" + a == "/" + a;
    PathSegmentsAppend(a, "");
    assert a + "/" + "" == a + "/";
    PathSegmentsAppend(a, "/" + b);
    assert a + "/" + ("/" + b) == a + "//" + b;
    PathSegmentsAppend("", b);
    assert "" + "/" + b == "/" + b;
    PathSegmentsAppend(a, b);
  }

  /** The segment the base name comes from: the last one, or "index" when there is none. */
  function BaseSegment(path: string): (segment: string)
    ensures segment != "" && '/' !in segment
    ensures PathSegments(path) != [] ==> segment in PathSegments(path)
  {
    var parts := PathSegments(path);
    if parts != [] then parts[|parts| - 1] else "index"
  }

  /** A path made of slashes only (an empty path included) gives the base segment "index". */
  lemma IndexForEmptyPath(path: string)
    requires forall i :: 0 <= i < |path| ==> path[i] == '/'
    ensures BaseSegment(path) == "index"
  {
    NoSegmentsIffSlashes(path);
  }

  /**
   The base segment is the last run of non-slash characters: for a path
   `pre + segment + post` where `pre` is empty or ends with a slash and
   `post` is slashes only, the base segment is `segment`.
   */
  lemma BaseSegmentIsLast(pre: string, segment: string, post: string)
    requires pre == "" || pre[|pre| - 1] == '/'
    requires segment != "" && '/' !in segment
    requires forall i :: 0 <= i < |post| ==> post[i] == '/'
    ensures BaseSegment(pre + segment + post) == segment
  {
    SplitWithoutSep(segment, '/');
    assert NonEmptyParts([segment]) == [segment] + NonEmptyParts([]);
    assert PathSegments(segment) == [segment];
    var tail := segment + post;
    if post != "" {
      var more := post[1..];
      assert tail == segment + "/" + more;
      PathSegmentsAppend(segment, more);
      NoSegmentsIffSlashes(more);
    } else {
      assert tail == segment;
    }
    assert PathSegments(tail) == [segment];
    if pre != "" {
      var front := pre[..|pre| - 1];
      assert pre + segment + post == front + "/" + tail;
      PathSegmentsAppend(front, tail);
    } else {
      assert pre + segment + post == tail;
    }
  }

  /**
   The base name of the output file: the base segment without its extension,
   with every run of non-word characters replaced by one underscore. It is
   never empty and holds word characters only.
   */
  function BaseName(path: string): (name: string)
    ensures name != "" && AllWord(name)
  {
    var segment := BaseSegment(path);
    SplitExtRootNonEmpty(segment);
    SubNonWord(SplitExt(segment).0)
  }

  /**
   `generate_output_name(url)` for a URL that parses as `url`, at local time
   `now`: the network location, the base name and the timestamp joined by
   underscores, with the extension ".pdf".
   */
  function GenerateOutputName(url: ParsedUrl, now: DateTime): (name: string)
    requires now.Valid()
    ensures |name| >= |url.netloc| + 22
    ensures url.netloc + "_" <= name
    ensures name[|name| - 20..] == "_" + Strftime(now) + ".pdf"
    ensures name == url.netloc + "_" + BaseName(url.path) + "_" + Strftime(now) + ".pdf"
  {
    var stamp := Strftime(now);
    var base := BaseName(url.path);
    NameLayout(url.netloc, base, stamp);
    url.netloc + "_" + base + "_" + stamp + ".pdf"
  }

  /** Where the pieces of a generated name sit. */
  lemma NameLayout(domain: string, base: string, stamp: string)
    ensures var name := domain + "_" + base + "_" + stamp + ".pdf";
            |name| == |domain| + |base| + |stamp| + 6 &&
            domain + "_" <= name &&
            name[|name| - |stamp| - 5..] == "_" + stamp + ".pdf"
  {
    var name := domain + "_" + base + "_" + stamp + ".pdf";
    assert name == (domain + "_") + (base + "_" + stamp + ".pdf");
    assert name == (domain + "_" + base) + ("_" + stamp + ".pdf");
  }

  /**
   Generated names for distinct local times differ. The time is naive local
   time: a wall-clock second that occurs twice (a daylight-saving fall-back,
   a clock set back) gives the same name both times.
   */
  lemma GeneratedNamesDiffer(url: ParsedUrl, t1: DateTime, t2: DateTime)
    requires t1.Valid() && t2.Valid() && t1 != t2
    ensures GenerateOutputName(url, t1) != GenerateOutputName(url, t2)
  {
    if GenerateOutputName(url, t1) == GenerateOutputName(url, t2) {
      var n := GenerateOutputName(url, t1);
      assert Strftime(t1) == n[|n| - 19..|n| - 4] == Strftime(t2);
      StrftimeInjective(t1, t2);
    }
  }

  // ---------------------------------------------------------------------------
  // execute_wkhtmltopdf
  // ---------------------------------------------------------------------------

  /** The renderer's fixed options, in order, after the program name. */
  const RenderOptions: seq<string> := [
    "--page-size", "A4",
    "--margin-top", "0.75in",
    "--margin-right", "0.75in",
    "--margin-bottom", "0.75in",
    "--margin-left", "0.75in",
    "--encoding", "UTF-8",
    "--no-stop-slow-scripts",
    "--javascript-delay", "1000"
  ]

  /** The command line that renders `url` into `output`. */
  function RenderCommand(url: string, output: string): (cmd: seq<string>)
    ensures |cmd| == 18 && cmd[0] == "wkhtmltopdf"
    ensures cmd[|cmd| - 2] == url && cmd[|cmd| - 1] == output
  {
    ["wkhtmltopdf"] + RenderOptions + [url, output]
  }

  /** The argument after the first occurrence of `flag` at or after index `from`, if there is one. */
  function ArgAfter(args: seq<string>, flag: string, from: nat): (value: Option<string>)
    ensures value.Some? ==> from + 1 < |args|
    decreases |args| - from
  {
    if from + 1 >= |args| then None
    else if args[from] == flag then Some(args[from + 1])
    else ArgAfter(args, flag, from + 1)
  }

  /** Arguments appended after a flag's value do not change the value read for it. */
  lemma {:induction false} ArgAfterExtend(args: seq<string>, more: seq<string>, flag: string, from: nat)
    requires ArgAfter(args, flag, from).Some?
    ensures ArgAfter(args + more, flag, from) == ArgAfter(args, flag, from)
    decreases |args| - from
  {
    assert (args + more)[from] == args[from] && (args + more)[from + 1] == args[from + 1];
    if args[from] != flag {
      ArgAfterExtend(args, more, flag, from + 1);
    }
  }

  /** The value read for a flag is the argument after its first occurrence. */
  lemma {:induction false} ArgAfterFirst(args: seq<string>, flag: string, from: nat, k: nat)
    requires from <= k && k + 1 < |args| && args[k] == flag
    requires forall j :: from <= j < k ==> args[j] != flag
    ensures ArgAfter(args, flag, from) == Some(args[k + 1])
    decreases k - from
  {
    if from < k {
      ArgAfterFirst(args, flag, from + 1, k);
    }
  }

  /**
   Whatever the URL and output path, the renderer reads A4 pages, 0.75in
   margins on all four sides, UTF-8 encoding and a 1000 ms JavaScript delay,
   with slow scripts allowed to run. `ArgAfter` reads the value after a
   flag's first occurrence; the URL and the output path come after all the
   fixed options.
   */
  lemma RenderSettings(url: string, output: string)
    ensures ArgAfter(RenderCommand(url, output), "--page-size", 0) == Some("A4")
    ensures ArgAfter(RenderCommand(url, output), "--margin-top", 0) == Some("0.75in")
    ensures ArgAfter(RenderCommand(url, output), "--margin-right", 0) == Some("0.75in")
    ensures ArgAfter(RenderCommand(url, output), "--margin-bottom", 0) == Some("0.75in")
    ensures ArgAfter(RenderCommand(url, output), "--margin-left", 0) == Some("0.75in")
    ensures ArgAfter(RenderCommand(url, output), "--encoding", 0) == Some("UTF-8")
    ensures ArgAfter(RenderCommand(url, output), "--javascript-delay", 0) == Some("1000")
    ensures "--no-stop-slow-scripts" in RenderCommand(url, output)[..16]
  {
    var fixed := ["wkhtmltopdf"] + RenderOptions;
    var more := [url, output];
    assert RenderCommand(url, output) == fixed + more;
    ArgAfterFirst(fixed, "--page-size", 0, 1);
    ArgAfterExtend(fixed, more, "--page-size", 0);
    ArgAfterFirst(fixed, "--margin-top", 0, 3);
    ArgAfterExtend(fixed, more, "--margin-top", 0);
    ArgAfterFirst(fixed, "--margin-right", 0, 5);
    ArgAfterExtend(fixed, more, "--margin-right", 0);
    ArgAfterFirst(fixed, "--margin-bottom", 0, 7);
    ArgAfterExtend(fixed, more, "--margin-bottom", 0);
    ArgAfterFirst(fixed, "--margin-left", 0, 9);
    ArgAfterExtend(fixed, more, "--margin-left", 0);
    ArgAfterFirst(fixed, "--encoding", 0, 11);
    ArgAfterExtend(fixed, more, "--encoding", 0);
    ArgAfterFirst(fixed, "--javascript-delay", 0, 14);
    ArgAfterExtend(fixed, more, "--javascript-delay", 0);
    assert (fixed + more)[13] == "--no-stop-slow-scripts";
  }

  /** What running a command line gives: its return code and captured streams, or an exception (the binary is missing, say). */
  datatype ProcessResult =
    | Finished(returncode: int, stdout: string, stderr: string)
    | Raised(message: string)

  /** How `execute_wkhtmltopdf` ends: it returns, raises `CalledProcessError`, or lets another exception through. */
  datatype ExecOutcome =
    | Completed
    | CalledProcessError(returncode: int, output: string)
    | OtherError(message: string)

  /**
   `execute_wkhtmltopdf(url, output)`: runs the render command; a zero return
   code is success whatever the error stream holds, and a non-zero one
   becomes `CalledProcessError` carrying that code and the error stream.
   */
  function ExecuteRenderer(url: string, output: string, run: seq<string> -> ProcessResult): (e: ExecOutcome)
    ensures e.Completed? <==> run(RenderCommand(url, output)).Finished? && run(RenderCommand(url, output)).returncode == 0
    ensures run(RenderCommand(url, output)).Finished? && run(RenderCommand(url, output)).returncode != 0 ==>
              e == CalledProcessError(run(RenderCommand(url, output)).returncode, run(RenderCommand(url, output)).stderr)
    ensures e.OtherError? <==> run(RenderCommand(url, output)).Raised?
  {
    match run(RenderCommand(url, output))
    case Raised(message) => OtherError(message)
    case Finished(returncode, _, stderr) =>
      if returncode != 0 then CalledProcessError(returncode, stderr) else Completed
  }

  // ---------------------------------------------------------------------------
  // html_to_pdf
  // ---------------------------------------------------------------------------

  /** How a conversion ends, with what is reported to the user. */
  datatype Report =
    | InvalidUrl(url: string)
    | Converted(output: string)
    | RendererFailed(output: string, returncode: int, stderr: string)
    | UnexpectedError(output: string, message: string)

  /** The exit code `html_to_pdf` leaves the process with. */
  function ExitCode(r: Report): (code: int)
    ensures r.Converted? ==> code == 0
    ensures r.RendererFailed? ==> code == r.returncode
    ensures r.InvalidUrl? || r.UnexpectedError? ==> code == 1
  {
    match r
    case Converted(_) => 0
    case RendererFailed(_, returncode, _) => returncode
    case InvalidUrl(_) => 1
    case UnexpectedError(_, _) => 1
  }

  /** The output path: the `--output` option verbatim when given, a generated name otherwise. */
  function OutputPath(url: ParsedUrl, output: Option<string>, now: DateTime): (path: string)
    requires now.Valid()
    ensures output.Some? ==> path == output.value
    ensures output.None? ==> |path| >= 4 && path[|path| - 4..] == ".pdf"
  {
    match output
    case Some(path) => path
    case None => GenerateOutputName(url, now)
  }

  /**
   `html_to_pdf(url, output)`: validate the URL, settle the output path, run
   the renderer and report. `now` is the local time at which a name would be
   generated.
   */
  function HtmlToPdf(url: string, output: Option<string>, now: DateTime,
                     urlparse: string -> Option<ParsedUrl>, run: seq<string> -> ProcessResult): (r: Report)
    requires now.Valid()
    ensures r.InvalidUrl? <==> !ValidateUrl(url, urlparse)
    ensures r.Converted? <==> ExitCode(r) == 0
  {
    if !ValidateUrl(url, urlparse) then InvalidUrl(url)
    else
      var path := OutputPath(urlparse(url).value, output, now);
      match ExecuteRenderer(url, path, run)
      case Completed => Converted(path)
      case CalledProcessError(returncode, stderr) => RendererFailed(path, returncode, stderr)
      case OtherError(message) => UnexpectedError(path, message)
  }

  /** An invalid URL exits with 1, and the renderer is never consulted: any two renderers give the same report. */
  lemma InvalidUrlExitsWithOne(url: string, output: Option<string>, now: DateTime,
                               urlparse: string -> Option<ParsedUrl>,
                               run1: seq<string> -> ProcessResult, run2: seq<string> -> ProcessResult)
    requires now.Valid()
    requires urlparse(url).None? || urlparse(url).value.scheme == "" || urlparse(url).value.netloc == ""
    ensures HtmlToPdf(url, output, now, urlparse, run1) == InvalidUrl(url)
    ensures ExitCode(HtmlToPdf(url, output, now, urlparse, run1)) == 1
    ensures HtmlToPdf(url, output, now, urlparse, run1) == HtmlToPdf(url, output, now, urlparse, run2)
  {
  }

  /**
   For a valid URL the renderer is run once, on the command for the URL and
   the output path: the report depends on nothing else the renderer does.
   */
  lemma RendererSeesOnlyItsCommand(url: string, output: Option<string>, now: DateTime,
                                   urlparse: string -> Option<ParsedUrl>,
                                   run1: seq<string> -> ProcessResult, run2: seq<string> -> ProcessResult)
    requires now.Valid()
    requires urlparse(url).Some? && urlparse(url).value.scheme != "" && urlparse(url).value.netloc != ""
    requires run1(RenderCommand(url, OutputPath(urlparse(url).value, output, now))) ==
             run2(RenderCommand(url, OutputPath(urlparse(url).value, output, now)))
    ensures HtmlToPdf(url, output, now, urlparse, run1) == HtmlToPdf(url, output, now, urlparse, run2)
  {
  }

  /**
   The exit codes for a valid URL: 0 when the renderer returns 0, whatever it
   wrote to its error stream; the renderer's own code when it is non-zero; 1
   when running it raised. The report names the output path used.
   */
  lemma ExitCodes(url: string, output: Option<string>, now: DateTime,
                  urlparse: string -> Option<ParsedUrl>, run: seq<string> -> ProcessResult)
    requires now.Valid()
    requires urlparse(url).Some? && urlparse(url).value.scheme != "" && urlparse(url).value.netloc != ""
    ensures var path := OutputPath(urlparse(url).value, output, now);
            var result := run(RenderCommand(url, path));
            var r := HtmlToPdf(url, output, now, urlparse, run);
            !r.InvalidUrl? && r.output == path &&
            (result.Finished? && result.returncode == 0 ==> r == Converted(path) && ExitCode(r) == 0) &&
            (result.Finished? && result.returncode != 0 ==> ExitCode(r) == result.returncode && !r.Converted?) &&
            (result.Raised? ==> ExitCode(r) == 1 && !r.Converted?)
  {
  }

  /**
   An explicit `--output` is what the renderer writes to and what is reported;
   without one, the generated name is used.
   */
  lemma OutputOptionUsedVerbatim(url: string, output: Option<string>, now: DateTime,
                                 urlparse: string -> Option<ParsedUrl>, run: seq<string> -> ProcessResult)
    requires now.Valid()
    requires urlparse(url).Some? && urlparse(url).value.scheme != "" && urlparse(url).value.netloc != ""
    ensures !HtmlToPdf(url, output, now, urlparse, run).InvalidUrl?
    ensures output.Some? ==> HtmlToPdf(url, output, now, urlparse, run).output == output.value
    ensures output.None? ==> HtmlToPdf(url, output, now, urlparse, run).output == GenerateOutputName(urlparse(url).value, now)
  {
    var path := OutputPath(urlparse(url).value, output, now);
    assert ValidateUrl(url, urlparse);
    var r := HtmlToPdf(url, output, now, urlparse, run);
    match ExecuteRenderer(url, path, run)
    case Completed =>
      assert r == Converted(path);
    case CalledProcessError(returncode, stderr) =>
      assert r == RendererFailed(path, returncode, stderr);
    case OtherError(message) =>
      assert r == UnexpectedError(path, message);
  }
}
