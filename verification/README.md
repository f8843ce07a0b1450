# commbase-http-server: URL routing and command-line model

`commbase_http_server.py` starts a local HTTP (or HTTPS) file server. It maps
URL path prefixes to filesystem directories given on the command line as
`prefix=directory`. This project models its two pieces of own logic in Dafny
and proves properties about them.

- **Path translation** (`MultiDirectoryHTTPRequestHandler.translate_path`).
  The request path is percent-decoded once. The route table is scanned in
  insertion order. The first prefix that starts the decoded path wins. The
  rest of the path, with its leading `/` characters removed, is joined onto
  that prefix's directory. With no match, the path goes to the standard
  handler's own translation (the *fallback*).
- **Command-line parsing** (the argument loop of `main`). Each entry after
  `argv[0]` is one of four kinds:
  - a route (it contains `=`; it is split at the first `=`),
  - `--cert` or `--key` (the flag takes the entry after its first position in `argv`),
  - another `--` option (ignored),
  - a fatal invalid argument.

  HTTPS is on when both file names are non-empty.

Modules:

| file | module | contents |
|---|---|---|
| Wrappers.dfy | `Wrappers` | `Option`, `Result` |
| Paths.dfy | `Paths` | `Unquote`, `LStripSlashes`, `Join`: stand-ins for `urllib.parse.unquote`, `str.lstrip("/")`, `posixpath.join` |
| Routing.dfy | `Routing` | route table, `FirstMatch`, `TranslatePath` |
| RoutingExamples.dfy | `RoutingExamples` | worked requests: overlapping prefixes, encoded paths, `..` |
| CommandLine.dfy | `CommandLine` | `Step`/`Run`/`Parse` (the loop as a fold), the `ParseArgs` method, the reference functions and the lemmas about a parse |
| CommandLineExamples.dfy | `CommandLineExamples` | the documented `--cert`/`--key` command line, and the corrected loop `ParseIntended` |

Design choices:
- The `directories` dict is a `seq<(string, string)>` in insertion order.
  `Put` is dict assignment: a known key keeps its place, a new key goes last.
- The loop is a method, `ParseArgs`. Each iteration reassigns the local
  dict value and both file names. It is proved equal to the fold `Parse`.
- The facts about a parse are proved about `Parse`. Each is stated against a
  reference read directly off `argv`:
  - `Dedup(RoutePrefixes(...))` gives the prefixes in first-appearance order;
  - `LastRoute` gives the directory of the last entry for a prefix;
  - `FlagValue` gives the entry after a flag's first position.
- `os.path.abspath` and the standard handler's `translate_path` are
  function-valued parameters (`abspath`, `fallback`). Neither depends on
  anything the model can see.
- `sys.exit(1)` and the uncaught `IndexError` become `Err` values of `Exit`:
  `Usage`, `InvalidArgument`, `MissingFlagValue`. Each of them ends the
  process with status 1.

## Model

| member | source | states |
|---|---|---|
| Paths.Unquote | commbase_http_server.py:49 | `unquote` for codes below 0x80, one left-to-right pass over `%XX`; its properties are the lemmas `UnquoteEscapeAll` (inverse of full escaping), `UnquotePlain`, `UnquotePlainPrefix` and `UnquoteShrinks` |
| Paths.UnquotePlain | commbase_http_server.py:49 | a path without `%` is unchanged by decoding |
| Paths.UnquotePlainPrefix | commbase_http_server.py:49 | text before the first `%` is copied through unchanged, whatever follows |
| Paths.UnquoteShrinks | commbase_http_server.py:49 | decoding never makes the path longer |
| Paths.UnquoteEscapeAll | commbase_http_server.py:49 | decoding inverts full `%XX` escaping of every ASCII string (codes below 0x80) |
| Paths.UnquoteIsSinglePass | commbase_http_server.py:49 | `%2541` decodes to `%41`, not to `A`: an escaped `%` is not decoded again |
| Paths.UnquoteEscapedPercent | commbase_http_server.py:49 | `/%2561` decodes to `/%61` |
| Paths.UnquoteMalformed | commbase_http_server.py:49 | a `%` without two hex digits after it stays literal; decoding never fails |
| Paths.UnquoteSpace | commbase_http_server.py:49 | `/a/%20x` decodes to `/a/ x` |
| Paths.UnquoteLetter | commbase_http_server.py:49 | `/%61/x` decodes to `/a/x` |
| Paths.LStripSlashes | commbase_http_server.py:53 | the result is the suffix of the input after all leading `/`; it is empty or does not start with `/` |
| Paths.Join | commbase_http_server.py:53 | `os.path.join`: an absolute remainder replaces the directory; a relative one is specified by `JoinRelative` |
| Paths.JoinRelative | commbase_http_server.py:53 | joining a relative remainder keeps the directory as prefix and the remainder as suffix, with one `/` between them only when the directory is non-empty and does not end in `/` |
| Routing.FirstMatch | commbase_http_server.py:51-52 | returns the index of the first entry whose prefix starts the path, or None when no entry's prefix does |
| Routing.TranslatePath | commbase_http_server.py:48-56 | with a first matching entry, the result is `Join(dir, lstrip(decoded[len(prefix):]))` and starts with `dir`; with none, it is the fallback applied to the decoded path |
| Routing.TranslateFirstMatch | commbase_http_server.py:49-53 | the match branch at a given first match, with decoded path and stripped remainder known |
| Routing.EmptyPrefixShadowsFallback | commbase_http_server.py:51-56 | an empty prefix anywhere in the table matches every path, so the result never depends on the fallback |
| RoutingExamples.ShorterPrefixFirstWins | commbase_http_server.py:51-53 | with `/a` before `/ab`, `/ab/file` goes to `/a`'s directory as `b/file` (first match, not longest) |
| RoutingExamples.LongerPrefixFirstWins | commbase_http_server.py:51-53 | with `/ab` before `/a`, `/ab/file` goes to `/ab`'s directory as `file` |
| RoutingExamples.EncodedRestDecoded | commbase_http_server.py:49-53 | `/a/%20x` under `/a` joins ` x` onto the directory |
| RoutingExamples.EncodedPrefixMatches | commbase_http_server.py:49-53 | `/%61/x` matches prefix `/a`: matching uses the decoded path |
| RoutingExamples.DoubleEscapeNotMatched | commbase_http_server.py:49-56 | `/%2561` does not match `/a` and reaches the fallback as `/%61`: decoding is applied once |
| RoutingExamples.DotDotNotContained | commbase_http_server.py:53 | a `/../` after the prefix is kept, so the result climbs out of the mapped directory |
| RoutingExamples.StripAfter | commbase_http_server.py:53 | `lstrip("/")` removes one leading `/` before a non-slash remainder |
| CommandLine.SplitAtFirst | commbase_http_server.py:72 | the entry is `prefix + "=" + path` with no `=` in `prefix` (split at the first `=`; `path` may contain `=`) |
| CommandLine.IndexOf | commbase_http_server.py:75 | `sys.argv.index`: the first position holding the flag, counting `argv[0]` |
| CommandLine.Put | commbase_http_server.py:73 | `directories[prefix] = abspath(path)`; specified by `PutKeys` (key order) and `PutLookup` (values) |
| CommandLine.PutKeys | commbase_http_server.py:73 | dict assignment keeps a repeated prefix at its original position and appends a new one |
| CommandLine.PutLookup | commbase_http_server.py:73 | after assignment the prefix reads back the new directory and every other prefix is unchanged |
| CommandLine.Step | commbase_http_server.py:70-82 | one iteration of the loop; `StepAccepts` states when it succeeds and which exit it gives otherwise |
| CommandLine.Run | commbase_http_server.py:70-82 | the loop ends only in a result or in an invalid-argument or missing-value exit, never the usage exit |
| CommandLine.Parse | commbase_http_server.py:61-63 | the usage exit happens exactly when argv has fewer than two entries |
| CommandLine.ParseArgs | commbase_http_server.py:61-82 | the in-place loop over `argv[1:]` returns exactly the result of the fold `Parse` |
| CommandLine.StepAccepts | commbase_http_server.py:70-82 | one iteration succeeds exactly when the entry is accepted, and otherwise exits with that entry's rejection |
| CommandLine.ParseAccepts | commbase_http_server.py:61-82 | the command line is accepted iff argv has at least two entries and each entry after `argv[0]` is a route, a flag whose first position is not last, or a `--` option |
| CommandLine.ParseRejects | commbase_http_server.py:74-82 | otherwise the exit names the first entry that is not accepted: `InvalidArgument` or `MissingFlagValue` |
| CommandLine.ParseRoutes | commbase_http_server.py:70-73 | the table has one entry per prefix, in order of first appearance, and each prefix maps to `abspath` of its last appearance's directory |
| CommandLine.ParseFlags | commbase_http_server.py:74-77 | `--cert`/`--key` are set iff they appear after `argv[0]`, to the entry after the flag's first position in argv |
| CommandLine.HttpsEnabled | commbase_http_server.py:90 | the test `certfile and keyfile`: both set and non-empty; `ParseHttps` states it in terms of argv |
| CommandLine.ParseHttps | commbase_http_server.py:90 | HTTPS is enabled iff both flags were given and both picked-up entries are non-empty |
| CommandLineExamples.UsageExampleRejected | commbase_http_server.py:70-82 | `prog /a=/x --cert cert.pem --key key.pem` exits with `InvalidArgument(cert.pem)` when the file name has no `=` and does not start with `--` |
| CommandLineExamples.TrailingFlagRejected | commbase_http_server.py:75 | a `--cert` whose first position is last raises the IndexError exit |
| CommandLineExamples.FlagValueBecomesRoute | commbase_http_server.py:70-77 | in `prog --cert x=y`, the loop as written takes `x=y` both as the certificate file and as the route `x` to `y`; the corrected loop only as the certificate file |
| CommandLineExamples.RunIntended | commbase_http_server.py:70-82 | the corrected loop, where a flag consumes the next entry, stops only with a result, an invalid argument or a missing flag value |
| CommandLineExamples.ParseIntended | commbase_http_server.py:61-82 | the corrected parse gives the usage exit exactly for fewer than two entries |
| CommandLineExamples.UsageExampleAccepted | commbase_http_server.py:62 | with each flag taking the next entry, the usage text's command line is accepted for any file names, sets both files, and enables HTTPS iff both are non-empty |

## Findings

| source | as written | input that shows it | evidently intended | confidence | as-written member | corrected member |
|---|---|---|---|---|---|---|
| commbase_http_server.py:74-82 | the entry after `--cert`/`--key` is visited again by the loop and, having no `=` and no `--`, exits as an invalid argument | `script.py /a=/x --cert cert.pem --key key.pem`, the usage line's own form (line 62) | the flag consumes the next entry, so the documented command line starts an HTTPS server (proved in `UsageExampleAccepted`) | high; not executed | CommandLineExamples.UsageExampleRejected | CommandLineExamples.ParseIntended |

The rest of the model keeps the loop as written (`Parse`, `ParseArgs`),
because it models the program as it behaves. `ParseIntended` differs in how
flags are handled. That includes whether the entry after a flag is also read
as a route: as written, an entry such as `x=y` after `--cert` becomes both the
certificate file and a route (`FlagValueBecomesRoute`). In the corrected loop
it is only the certificate file.

## Left out

- Unquote: models `%XX` as the character with code XX. For XX of 0x80 and above, `urllib.parse.unquote` decodes the bytes as UTF-8 with replacement characters instead. The model is exact for ASCII escapes.
- The fallback `super().translate_path` (line 56) is an opaque function parameter. The standard handler drops `?query` and `#fragment` there, decodes the path a second time and joins it onto the working directory; none of this is modelled.
- `os.path.abspath` (line 73) is an opaque function parameter, because it depends on the process's working directory.
- Where the request path comes from is not modelled. The handler passes `translate_path` the path with any `?query` still attached, and the source matches and joins it as part of the path. The model does the same with whatever string it is given.
- Socket binding, `HTTPServer`, `serve_forever` and the request-handler machinery (lines 85-87, 101) are out of scope: network I/O.
- `ssl.wrap_socket` and certificate loading (line 92) are out of scope: a foreign TLS library. Only the decision at line 90 is modelled (`HttpsEnabled`).
- Printing (lines 62, 81, 91-99) and process termination are left out. Exits are `Err` values.
- The single-root variant of the server (one directory plus `--host`/`--port`) is not part of this model.
