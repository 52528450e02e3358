# web-snatcher converter command, modelled in Dafny

web-snatcher is a command-line tool that turns the web page at a URL into a
PDF by running the external renderer `wkhtmltopdf`. This project models the
decision logic of its one command (`web_snatcher/main.py`) and proves
properties of it:

- **URL validation** (`validate_url`): a URL is valid exactly when it parses
  with a non-empty scheme and a non-empty network location; a parse error
  makes it invalid rather than failing.
- **Default output name** (`generate_output_name`): split the URL path on
  `/`, drop the empty parts, take the last one (or `index`), strip its
  extension the way `os.path.splitext` does, replace each run of non-word
  characters with one `_`, and format
  `{netloc}_{base}_{YYYYMMDD_HHMMSS}.pdf`.
- **Renderer command line** (`execute_wkhtmltopdf`): the fixed options (A4,
  0.75in margins, UTF-8, slow scripts allowed, 1000 ms JavaScript delay),
  then the URL, then the output path.
- **Outcome and exit code** (`execute_wkhtmltopdf` and `html_to_pdf`):
  invalid URL exits 1 without running the renderer; renderer return code 0
  is success whatever its error stream says; a non-zero return code is
  passed through as the exit code; any other exception exits 1; an explicit
  `--output` is used verbatim.

Files:

- `wrappers.dfy` — `Option`.
- `pylib.dfy` — module `PyLib`: the Python library operations the name
  derivation relies on (`str.split`, `str.rfind`, `os.path.splitext`,
  `re.sub(r"\W+", "_", s)`), with their round trips and characterisations.
- `clock.dfy` — module `Clock`: `strftime("%Y%m%d_%H%M%S")` of a given
  local time, and that it is injective (second resolution).
- `web_snatcher.dfy` — module `WebSnatcher`: the functions of `main.py`.
- `scenarios.dfy` — module `Scenarios`: worked cases (root path, extension,
  trailing slash, leading dot, runs of punctuation).

The outside world enters as parameters: `urlparse` is a function from the URL
text to `Some(ParsedUrl(scheme, netloc, path))`, or `None` where Python raises
`ValueError`; `run` is a function from the command line to what running it
gives (a return code with captured streams, or an exception); the local time
is a `DateTime` value.

Where the source's own comments and the code differ (the comment at
`web_snatcher/main.py:63` speaks of replacing non-alphanumeric characters),
or where the code's behaviour is easy to misread, the model follows the code:

- `\W` treats `_` as a word character, so underscores are kept as they are
  (`a_-b` becomes `a__b`), not merged with a replaced run.
- The query string is not part of the URL path that `urlparse` returns, so
  `https://example.com/a/b?c=d!` names the file after `b`; its `?c=d!`
  never reaches the sanitising step.
- The render command has 18 elements: the program name, 15 fixed option
  words, the URL and the output path.
- A generated name always ends in `.pdf`; an explicit `--output` is used as
  given, even when it is empty or has another extension.

## Model

| member | source | states |
|---|---|---|
| `WebSnatcher.All` | web_snatcher/main.py:31 | Python's `all` over strings is true exactly when every element is non-empty |
| `WebSnatcher.ValidateUrl` | web_snatcher/main.py:19-33 | valid iff the URL parses and both scheme and network location are non-empty; a parse error gives false |
| `PyLib.Split` | web_snatcher/main.py:48 | `str.split("/")` gives at least one field and no field contains the separator |
| `PyLib.JoinSplit` | web_snatcher/main.py:48 | joining the fields of a split with the separator gives back the original path |
| `PyLib.SplitJoin` | web_snatcher/main.py:48 | splitting the join of separator-free fields gives back those fields (split and join are inverse) |
| `PyLib.SplitWithoutSep` | web_snatcher/main.py:48 | a string without the separator splits into itself alone |
| `PyLib.SplitAppend` | web_snatcher/main.py:48 | the fields of `a/b` are the fields of `a` followed by the fields of `b` |
| `WebSnatcher.NonEmptyParts` | web_snatcher/main.py:51 | the list comprehension keeps every non-empty part and only non-empty parts of the input, and never yields more parts than it was given |
| `WebSnatcher.NonEmptyPartsCount` | web_snatcher/main.py:51 | the kept parts are, as a multiset, the input with every empty part removed: each non-empty part is kept exactly as often as it occurs |
| `WebSnatcher.NonEmptyPartsAppend` | web_snatcher/main.py:51 | filtering empty parts distributes over concatenation, so order is kept |
| `WebSnatcher.PathSegments` | web_snatcher/main.py:48-51 | every kept path segment is non-empty and slash-free |
| `WebSnatcher.PathSegmentsAppend` | web_snatcher/main.py:48-51 | the segments of `a/b` are those of `a` followed by those of `b` |
| `WebSnatcher.NoSegmentsIffSlashes` | web_snatcher/main.py:48-53 | a path has no segment exactly when it consists of slashes only |
| `WebSnatcher.ExtraSlashesIgnored` | web_snatcher/main.py:48-51 | leading, trailing and doubled slashes change neither the segments nor the base name |
| `WebSnatcher.BaseSegment` | web_snatcher/main.py:53-58 | the chosen segment is non-empty, slash-free and, when segments exist, one of them |
| `WebSnatcher.IndexForEmptyPath` | web_snatcher/main.py:53-58 | an empty or all-slash path gives `index` |
| `WebSnatcher.BaseSegmentIsLast` | web_snatcher/main.py:48-58 | for `pre + seg + post` with `pre` empty or ending in `/` and `post` all slashes, the chosen segment is `seg` (the last non-empty one) |
| `PyLib.RFind` | web_snatcher/main.py:61 | `str.rfind` gives -1 or an index holding the character, with no occurrence after it |
| `PyLib.ExtIndex` | web_snatcher/main.py:61 | the split point of `os.path.splitext` is the end or a dot after which there is no dot and no separator |
| `PyLib.SplitExt` | web_snatcher/main.py:61 | root and extension concatenate to the input; the extension is empty or a dot followed by no dot and no separator |
| `PyLib.SplitExtOfName` | web_snatcher/main.py:61 | for one path component, an extension is split off iff some dot has a non-dot character before it, and then the root is not dots alone |
| `PyLib.SplitExtNoDot` | web_snatcher/main.py:61 | a name without a dot keeps its whole text |
| `PyLib.SplitExtAtLastDot` | web_snatcher/main.py:61 | `root.tail` with a dot-free tail and a root that is not all dots splits at that last dot |
| `PyLib.SplitExtLeadingDots` | web_snatcher/main.py:61 | dots that only lead a name (`.bashrc`) never start an extension |
| `PyLib.SplitExtRootNonEmpty` | web_snatcher/main.py:61 | stripping the extension of a non-empty component leaves a non-empty root |
| `PyLib.NonWordRun` | web_snatcher/main.py:64 | the greedy `\W+` match at the start covers only non-word characters and stops at a word character or the end |
| `PyLib.SubNonWord` | web_snatcher/main.py:64 | the substitution leaves only word characters, is no longer than its input and is empty only for empty input |
| `PyLib.SubNonWordKeepsWords` | web_snatcher/main.py:64 | a string of word characters is left unchanged |
| `PyLib.SubNonWordIdempotent` | web_snatcher/main.py:64 | substituting twice equals substituting once |
| `PyLib.SubNonWordRun` | web_snatcher/main.py:64 | a maximal run of non-word characters after word characters becomes exactly one `_`, and the rest is substituted independently |
| `PyLib.RunOfNonWord` | web_snatcher/main.py:64 | `\W+` matches exactly a non-word run that is followed by a word character or the end |
| `WebSnatcher.BaseName` | web_snatcher/main.py:51-64 | the base name is never empty and holds word characters only |
| `Clock.Pad2` | web_snatcher/main.py:67 | two-digit zero-padded fields read back as their value |
| `Clock.Pad4` | web_snatcher/main.py:67 | the four-digit year reads back as its value |
| `Clock.Strftime` | web_snatcher/main.py:67 | the timestamp has 15 characters, all digits except `_` at index 8, and its digits read back as year (0-3), month (4-5), day (6-7), hour (9-10), minute (11-12) and second (13-14) |
| `Clock.Pad2Injective` | web_snatcher/main.py:67 | equal two-digit fields come from equal values |
| `Clock.StrftimeInjective` | web_snatcher/main.py:67 | distinct local times give distinct timestamps (second resolution) |
| `WebSnatcher.NameLayout` | web_snatcher/main.py:69 | in `{domain}_{base}_{stamp}.pdf` the domain and `_` lead and `_{stamp}.pdf` ends the name |
| `WebSnatcher.GenerateOutputName` | web_snatcher/main.py:36-69 | the generated name is the network location, `_`, the base name of the path, `_`, the timestamp and `.pdf`; in particular it starts with the network location and `_` and its last 20 characters are `_`, the timestamp and `.pdf` |
| `WebSnatcher.GeneratedNamesDiffer` | web_snatcher/main.py:67-69 | for the same URL, names generated at distinct local times differ |
| `WebSnatcher.RenderCommand` | web_snatcher/main.py:96-115 | the command has 18 elements, starts with `wkhtmltopdf`, has the URL second to last and the output path last |
| `WebSnatcher.ArgAfterFirst` | web_snatcher/main.py:96-115 | the value read for a flag is the argument after its first occurrence |
| `WebSnatcher.ArgAfterExtend` | web_snatcher/main.py:113-114 | arguments appended after a flag's value (the URL and the output path) do not change the value read for it |
| `WebSnatcher.RenderSettings` | web_snatcher/main.py:96-115 | for every URL and output path the renderer reads A4, 0.75in on all four margins, UTF-8, a 1000 ms delay and the slow-scripts switch, each read as the argument after the flag's first occurrence, ahead of the URL and the output path |
| `WebSnatcher.ExecuteRenderer` | web_snatcher/main.py:119-131 | success iff the renderer finished with return code 0 (stderr ignored); a non-zero code becomes `CalledProcessError` with that code and stderr; an exception is passed on |
| `WebSnatcher.OutputPath` | web_snatcher/main.py:156-157 | an explicit output is used verbatim; otherwise the path is a generated `.pdf` name |
| `WebSnatcher.ExitCode` | web_snatcher/main.py:150-174 | success exits 0, a renderer failure exits with the renderer's return code, an invalid URL or any other exception exits 1 |
| `WebSnatcher.HtmlToPdf` | web_snatcher/main.py:150-174 | the URL is reported invalid iff validation fails; success is reported iff the exit code is 0 |
| `WebSnatcher.InvalidUrlExitsWithOne` | web_snatcher/main.py:150-154 | an invalid URL exits with 1 and the report does not depend on the renderer at all |
| `WebSnatcher.RendererSeesOnlyItsCommand` | web_snatcher/main.py:162-163 | for a valid URL the report depends on the renderer only through its result for the command built from the URL and the output path |
| `WebSnatcher.ExitCodes` | web_snatcher/main.py:162-174 | return code 0 gives success and exit 0 whatever stderr holds; a non-zero code is the exit code; an exception exits 1; the report names the output path used |
| `WebSnatcher.OutputOptionUsedVerbatim` | web_snatcher/main.py:156-163 | an explicit `--output` is the reported path; without it the generated name is |
| `Scenarios.RootPathGivesIndex` | web_snatcher/main.py:53-58 | the path `/` gives the base name `index` |
| `Scenarios.ExtensionStripped` | web_snatcher/main.py:48-64 | a path `dir/stem.ext` with a word-character stem gives the base name `stem` (`/reports/q1.html` gives `q1`) |
| `Scenarios.TrailingSlashIgnored` | web_snatcher/main.py:48-64 | a path `dir/name/` with a word-character name gives the base name `name` |
| `Scenarios.LeadingDotKept` | web_snatcher/main.py:61 | `.bashrc` has no extension |
| `Scenarios.LastExtensionOnly` | web_snatcher/main.py:61 | `a.tar.gz` splits into `a.tar` and `.gz` |
| `Scenarios.RunCollapses` | web_snatcher/main.py:64 | `a -b` becomes `a_b` |
| `Scenarios.UnderscoreKept` | web_snatcher/main.py:64 | `a_-b` becomes `a__b`: the underscore is a word character |

## Left out

- PyLib.IsWordChar: `\w` is modelled as ASCII `[A-Za-z0-9_]`; Python's Unicode `\w` also accepts non-ASCII letters and digits, which the model replaces like punctuation.
- Clock.DateTime: years are limited to 1000-9999 so that `%Y` has four digits; days are not checked against the length of their month (the format does not depend on it).
- `urlparse` itself is not modelled: it is the `urlparse` parameter, giving scheme, network location and path or a parse error.
- Running the renderer (`subprocess.Popen`, `communicate`) is the `run` parameter; stream capture, process handles and blocking are not modelled.
- Logging (`configure_logging`, `logger.*`) is not modelled: it only reports and decides nothing.
- WebSnatcher.HtmlToPdf: console output (`console.print`) is assumed never to raise. In the source the success message (`web_snatcher/main.py:164-166`) is printed inside the `try`, so if printing fails (a closed standard output, or an output path the console's markup rejects) the `except Exception` branch exits 1 even though the renderer returned 0 and wrote the PDF. `WebSnatcher.ExitCodes` reports success and exit 0 for every return code of 0, so it does not capture that path.
- The `typer` command-line parsing and the `--debug` flag (which only sets the log level) are not modelled; the output option is an `Option<string>`.
- Reading the clock (`datetime.now()`) is the `now` parameter.
- WebSnatcher.ExitCode: the exit code is the value handed to `typer.Exit`; the operating system's reduction of it to 0-255 (a negative return code for a signal, say) is not modelled.
- Overwriting an existing file at the output path happens inside the renderer and is not modelled.
- PyLib.SplitExt: models `posixpath.splitext`, with `/` as the only separator. On Windows `os.path.splitext` also treats `\` as a separator, so for the path `/a.b\c` the program keeps `a.b\c` (base name `a_b_c`) where the model strips it to `a`.
- WebSnatcher.ArgAfter: does not model anything in `web_snatcher/main.py`, which only builds the list; it is an assumed reading of the renderer's command line in which a flag's first occurrence wins. `WebSnatcher.RenderSettings` holds under that reading; how `wkhtmltopdf` itself treats a repeated option is not modelled.
- WebSnatcher.GeneratedNamesDiffer: the time is naive local time (`datetime.now()`), so a wall-clock second that occurs twice (the repeated hour of a daylight-saving fall-back, or a clock set back) gives two runs the same name and the second overwrites the first; the lemma only separates distinct `DateTime` values.
