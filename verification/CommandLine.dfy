/**
  The argument loop of `main`: classifies each `sys.argv` entry into a route,
  a `--cert`/`--key` value, an ignored `--` option or a fatal error, and
  decides whether HTTPS is enabled.
 */
module CommandLine {
  import opened Wrappers
  import opened Routing

  /** What `main` has built once the loop is over. */
  datatype Config = Config(routes: RouteTable, certFile: Option<string>, keyFile: Option<string>)

  /** The ways `main` ends with exit status 1 before serving. */
  datatype Exit =
    | Usage                      // fewer than two argv entries
    | InvalidArgument(arg: string)  // an entry that is neither route, flag nor `--` option
    | MissingFlagValue(flag: string) // IndexError: the flag's first occurrence is argv's last entry

  const CertFlag := "--cert"
  const KeyFlag := "--key"

  /** `directories = {}`, `cert_file = None`, `key_file = None`. */
  const Initial := Config([], None, None)

  // ----- the dict and list operations the loop uses -----

  /** `arg.split(sep, 1)` on an `arg` that contains `sep`. */
  function SplitAtFirst(s: string, sep: char): (r: (string, string))
    requires sep in s
    ensures s == r.0 + [sep] + r.1
    ensures sep !in r.0
  {
    if s[0] == sep then ([], s[1..])
    else
      var (a, b) := SplitAtFirst(s[1..], sep);
      ([s[0]] + a, b)
  }

  /** `list.index(x)`: the first position of `x`. */
  function IndexOf(xs: seq<string>, x: string): (r: nat)
    requires x in xs
    ensures r < |xs| && xs[r] == x
    ensures forall j :: 0 <= j < r ==> xs[j] != x
  {
    if xs[0] == x then 0 else 1 + IndexOf(xs[1..], x)
  }

  /** The prefixes of a table, in order. */
  function Keys(t: RouteTable): (ks: seq<string>)
    ensures |ks| == |t| && forall i :: 0 <= i < |t| ==> ks[i] == t[i].0
  {
    seq(|t|, i requires 0 <= i < |t| => t[i].0)
  }

  /** `d.get(prefix)`. */
  function Lookup(t: RouteTable, prefix: string): Option<string> {
    if t == [] then None
    else if t[0].0 == prefix then Some(t[0].1)
    else Lookup(t[1..], prefix)
  }

  /**
    `d[prefix] = dir`: an existing key keeps its place and takes the new
    value; a new key goes last.
   */
  function Put(t: RouteTable, prefix: string, dir: string): RouteTable {
    if t == [] then [(prefix, dir)]
    else if t[0].0 == prefix then [(prefix, dir)] + t[1..]
    else [t[0]] + Put(t[1..], prefix, dir)
  }

  /** Assignment keeps the key order and appends a key it has not seen. */
  lemma {:induction false} PutKeys(t: RouteTable, prefix: string, dir: string)
    ensures Keys(Put(t, prefix, dir)) == if prefix in Keys(t) then Keys(t) else Keys(t) + [prefix]
  {
    if t != [] && t[0].0 != prefix {
      PutKeys(t[1..], prefix, dir);
      var rest := Put(t[1..], prefix, dir);
      assert Keys(t) == [t[0].0] + Keys(t[1..]);
      assert Keys([t[0]] + rest) == [t[0].0] + Keys(rest);
    } else if t != [] {
      assert Keys([(prefix, dir)] + t[1..]) == Keys(t);
    }
  }

  /** After assignment the key reads back the new value and no other key changes. */
  lemma {:induction false} PutLookup(t: RouteTable, prefix: string, dir: string, p: string)
    ensures Lookup(Put(t, prefix, dir), p) == if p == prefix then Some(dir) else Lookup(t, p)
  {
    if t != [] && t[0].0 != prefix {
      PutLookup(t[1..], prefix, dir, p);
      assert ([t[0]] + Put(t[1..], prefix, dir))[1..] == Put(t[1..], prefix, dir);
    } else if t != [] {
      assert ([(prefix, dir)] + t[1..])[1..] == t[1..];
    }
  }

  // ----- the loop -----

  predicate IsFlag(arg: string) {
    arg == CertFlag || arg == KeyFlag
  }

  /** One iteration of `for arg in sys.argv[1:]`, on `argv[i]`. */
  function Step(argv: seq<string>, i: nat, st: Config, abspath: string -> string): Result<Config, Exit>
    requires i < |argv|
  {
    var arg := argv[i];
    if '=' in arg then
      var (prefix, path) := SplitAtFirst(arg, '=');
      Ok(st.(routes := Put(st.routes, prefix, abspath(path))))
    else if IsFlag(arg) then
      var j := IndexOf(argv, arg) + 1;
      if j < |argv| then
        if arg == CertFlag then Ok(st.(certFile := Some(argv[j]))) else Ok(st.(keyFile := Some(argv[j])))
      else Err(MissingFlagValue(arg))
    else if "--" <= arg then Ok(st)
    else Err(InvalidArgument(arg))
  }

  /** The loop from `argv[i]` on, starting in state `st`. */
  function Run(argv: seq<string>, i: nat, st: Config, abspath: string -> string): (r: Result<Config, Exit>)
    requires i <= |argv|
    ensures r.Err? ==> !r.error.Usage?
    decreases |argv| - i
  {
    if i == |argv| then Ok(st)
    else match Step(argv, i, st, abspath)
      case Err(e) => Err(e)
      case Ok(next) => Run(argv, i + 1, next, abspath)
  }

  /** Lines 61-82 of `main`: the usage check, then the loop over `argv[1:]`. */
  function Parse(argv: seq<string>, abspath: string -> string): (r: Result<Config, Exit>)
    ensures r == Err(Usage) <==> |argv| < 2
  {
    if |argv| < 2 then Err(Usage) else Run(argv, 1, Initial, abspath)
  }

  /** Line 90: `if cert_file and key_file`, where `None` and `""` are false. */
  predicate HttpsEnabled(c: Config) {
    c.certFile.Some? && c.certFile.value != "" && c.keyFile.Some? && c.keyFile.value != ""
  }

  /**
    The loop as `main` runs it, reassigning the dict value and the two file
    names each iteration and leaving at the first fatal entry.
   */
  method ParseArgs(argv: seq<string>, abspath: string -> string) returns (r: Result<Config, Exit>)
    ensures r == Parse(argv, abspath)
  {
    if |argv| < 2 {
      return Err(Usage);
    }
    var directories: RouteTable := [];
    var certFile: Option<string> := None;
    var keyFile: Option<string> := None;
    var i := 1;
    while i < |argv|
      invariant 1 <= i <= |argv|
      invariant Run(argv, i, Config(directories, certFile, keyFile), abspath) == Parse(argv, abspath)
    {
      var arg := argv[i];
      if '=' in arg {
        var (prefix, path) := SplitAtFirst(arg, '=');
        directories := Put(directories, prefix, abspath(path));
      } else if arg == CertFlag || arg == KeyFlag {
        var j := IndexOf(argv, arg) + 1;
        if j >= |argv| {
          return Err(MissingFlagValue(arg));
        }
        if arg == CertFlag {
          certFile := Some(argv[j]);
        } else {
          keyFile := Some(argv[j]);
        }
      } else if !("--" <= arg) {
        return Err(InvalidArgument(arg));
      }
      i := i + 1;
    }
    r := Ok(Config(directories, certFile, keyFile));
  }

  // ----- what the loop has built after argv[1..i], stated over argv alone -----

  /** The prefixes of the route entries (those with a `=`) among `args`, in order. */
  function RoutePrefixes(args: seq<string>): seq<string> {
    if args == [] then []
    else
      var a := args[|args| - 1];
      RoutePrefixes(args[..|args| - 1]) + if '=' in a then [SplitAtFirst(a, '=').0] else []
  }

  predicate Distinct(s: seq<string>) {
    forall i, j :: 0 <= i < j < |s| ==> s[i] != s[j]
  }

  /** `s` with every element kept only at its first occurrence. */
  function Dedup(s: seq<string>): seq<string> {
    if s == [] then []
    else
      var init := s[..|s| - 1];
      if s[|s| - 1] in init then Dedup(init) else Dedup(init) + [s[|s| - 1]]
  }

  lemma {:induction false} DedupSpec(s: seq<string>)
    ensures forall x :: x in Dedup(s) <==> x in s
    ensures Distinct(Dedup(s))
  {
    if s != [] {
      var init := s[..|s| - 1];
      DedupSpec(init);
      assert s == init + [s[|s| - 1]];
    }
  }

  /** The directory of the last route entry among `args` whose prefix is `prefix`. */
  function LastRoute(args: seq<string>, prefix: string, abspath: string -> string): Option<string> {
    if args == [] then None
    else
      var a := args[|args| - 1];
      if '=' in a && SplitAtFirst(a, '=').0 == prefix then Some(abspath(SplitAtFirst(a, '=').1))
      else LastRoute(args[..|args| - 1], prefix, abspath)
  }

  /**
    The value a flag holds once the loop has passed `argv[1..i]`: unset until
    the flag appears there, and from then on the entry after the flag's first
    position in the whole of `argv` (`sys.argv.index`, which also looks at
    `argv[0]`).
   */
  function FlagValue(argv: seq<string>, i: nat, flag: string): Option<string>
    requires 1 <= i <= |argv|
  {
    if flag in argv[1..i] then
      assert flag in argv;
      var j := IndexOf(argv, flag) + 1;
      if j < |argv| then Some(argv[j]) else None
    else None
  }

  /** `st` is what the loop holds after `argv[1..i]`. */
  ghost predicate Tracks(argv: seq<string>, i: nat, st: Config, abspath: string -> string) {
    && 1 <= i <= |argv|
    && Keys(st.routes) == Dedup(RoutePrefixes(argv[1..i]))
    && (forall p :: Lookup(st.routes, p) == LastRoute(argv[1..i], p, abspath))
    && st.certFile == FlagValue(argv, i, CertFlag)
    && st.keyFile == FlagValue(argv, i, KeyFlag)
  }

  lemma TracksInitial(argv: seq<string>, abspath: string -> string)
    requires |argv| >= 2
    ensures Tracks(argv, 1, Initial, abspath)
  {
    assert argv[1..1] == [];
  }

  lemma TracksStep(argv: seq<string>, i: nat, st: Config, abspath: string -> string, next: Config)
    requires Tracks(argv, i, st, abspath) && i < |argv|
    requires Step(argv, i, st, abspath) == Ok(next)
    ensures Tracks(argv, i + 1, next, abspath)
  {
    StepRoutes(argv, i, st, abspath, next);
    StepFlag(argv, i, st, abspath, next, CertFlag);
    StepFlag(argv, i, st, abspath, next, KeyFlag);
  }

  /** `argv[1..i + 1]` is `argv[1..i]` followed by `argv[i]`. */
  lemma Extend(argv: seq<string>, i: nat)
    requires 1 <= i < |argv|
    ensures argv[1..i + 1] == argv[1..i] + [argv[i]]
    ensures argv[1..i + 1][..i - 1] == argv[1..i]
    ensures argv[1..i + 1][i - 1] == argv[i]
  {
  }

  lemma StepRoutes(argv: seq<string>, i: nat, st: Config, abspath: string -> string, next: Config)
    requires 1 <= i < |argv| && Step(argv, i, st, abspath) == Ok(next)
    requires Keys(st.routes) == Dedup(RoutePrefixes(argv[1..i]))
    requires forall p :: Lookup(st.routes, p) == LastRoute(argv[1..i], p, abspath)
    ensures Keys(next.routes) == Dedup(RoutePrefixes(argv[1..i + 1]))
    ensures forall p :: Lookup(next.routes, p) == LastRoute(argv[1..i + 1], p, abspath)
  {
    var args, a, args' := argv[1..i], argv[i], argv[1..i + 1];
    Extend(argv, i);
    var rp := RoutePrefixes(args);
    if '=' in a {
      var (prefix, path) := SplitAtFirst(a, '=');
      assert next.routes == Put(st.routes, prefix, abspath(path));
      PutKeys(st.routes, prefix, abspath(path));
      DedupSpec(rp);
      assert RoutePrefixes(args') == rp + [prefix];
      assert (rp + [prefix])[..|rp|] == rp;
      forall p ensures Lookup(next.routes, p) == LastRoute(args', p, abspath) {
        PutLookup(st.routes, prefix, abspath(path), p);
      }
    } else {
      assert next.routes == st.routes;
      assert RoutePrefixes(args') == rp + [];
      assert rp + [] == rp;
    }
  }

  lemma StepFlag(argv: seq<string>, i: nat, st: Config, abspath: string -> string, next: Config, flag: string)
    requires 1 <= i < |argv| && Step(argv, i, st, abspath) == Ok(next)
    requires IsFlag(flag)
    requires st.certFile == FlagValue(argv, i, CertFlag) && st.keyFile == FlagValue(argv, i, KeyFlag)
    ensures flag == CertFlag ==> next.certFile == FlagValue(argv, i + 1, CertFlag)
    ensures flag == KeyFlag ==> next.keyFile == FlagValue(argv, i + 1, KeyFlag)
  {
    var args, a, args' := argv[1..i], argv[i], argv[1..i + 1];
    Extend(argv, i);
    assert flag in args' <==> flag in args || flag == a;
  }

  lemma {:induction false} TracksRun(argv: seq<string>, i: nat, st: Config, abspath: string -> string, c: Config)
    requires Tracks(argv, i, st, abspath)
    requires Run(argv, i, st, abspath) == Ok(c)
    ensures Tracks(argv, |argv|, c, abspath)
    decreases |argv| - i
  {
    if i < |argv| {
      var next :| Step(argv, i, st, abspath) == Ok(next);
      TracksStep(argv, i, st, abspath, next);
      TracksRun(argv, i + 1, next, abspath, c);
    }
  }

  // ----- what a successful parse has built -----

  /**
    The route table holds one entry per prefix given on the command line, in
    the order of each prefix's first appearance, and each prefix maps to the
    `abspath` of the directory of its LAST appearance.
   */
  lemma ParseRoutes(argv: seq<string>, abspath: string -> string, c: Config)
    requires Parse(argv, abspath) == Ok(c)
    ensures Keys(c.routes) == Dedup(RoutePrefixes(argv[1..]))
    ensures UniquePrefixes(c.routes)
    ensures forall p :: Lookup(c.routes, p) == LastRoute(argv[1..], p, abspath)
  {
    ParseTracks(argv, abspath, c);
    assert argv[1..|argv|] == argv[1..];
    DedupSpec(RoutePrefixes(argv[1..]));
    assert forall i, j :: 0 <= i < j < |c.routes| ==> Keys(c.routes)[i] != Keys(c.routes)[j];
  }

  /**
    Each of `--cert` and `--key` is set exactly when the flag appears after
    `argv[0]`, and then holds the entry that follows the flag's first
    position in `argv`.
   */
  lemma ParseFlags(argv: seq<string>, abspath: string -> string, c: Config)
    requires Parse(argv, abspath) == Ok(c)
    ensures c.certFile.Some? <==> CertFlag in argv[1..]
    ensures c.keyFile.Some? <==> KeyFlag in argv[1..]
    ensures c.certFile.Some? ==>
      CertFlag in argv && IndexOf(argv, CertFlag) + 1 < |argv| && c.certFile.value == argv[IndexOf(argv, CertFlag) + 1]
    ensures c.keyFile.Some? ==>
      KeyFlag in argv && IndexOf(argv, KeyFlag) + 1 < |argv| && c.keyFile.value == argv[IndexOf(argv, KeyFlag) + 1]
  {
    ParseTracks(argv, abspath, c);
    FlagOutcome(argv, abspath, CertFlag);
    FlagOutcome(argv, abspath, KeyFlag);
  }

  /** A successful parse holds what the loop computes over all of `argv[1..]`. */
  lemma ParseTracks(argv: seq<string>, abspath: string -> string, c: Config)
    requires Parse(argv, abspath) == Ok(c)
    ensures Tracks(argv, |argv|, c, abspath)
  {
    TracksInitial(argv, abspath);
    TracksRun(argv, 1, Initial, abspath, c);
  }

  /** The final value of a flag, once the whole command line is accepted. */
  lemma FlagOutcome(argv: seq<string>, abspath: string -> string, flag: string)
    requires Parse(argv, abspath).Ok? && IsFlag(flag)
    ensures FlagValue(argv, |argv|, flag).Some? <==> flag in argv[1..]
    ensures FlagValue(argv, |argv|, flag).Some? ==>
      flag in argv && IndexOf(argv, flag) + 1 < |argv| && FlagValue(argv, |argv|, flag).value == argv[IndexOf(argv, flag) + 1]
  {
    assert argv[1..|argv|] == argv[1..];
    if flag in argv[1..] {
      FlagHasValue(argv, abspath, flag);
    }
  }

  /** In an accepted command line every flag given has an entry after it. */
  lemma FlagHasValue(argv: seq<string>, abspath: string -> string, flag: string)
    requires Parse(argv, abspath).Ok? && IsFlag(flag) && flag in argv[1..]
    ensures flag in argv && IndexOf(argv, flag) + 1 < |argv|
  {
    var k := IndexOf(argv[1..], flag) + 1;
    assert argv[k] == flag;
    ParseAccepts(argv, abspath);
    assert Accepted(argv, k);
  }

  /**
    HTTPS is on exactly when both flags were given and the entries they
    picked up are non-empty.
   */
  lemma ParseHttps(argv: seq<string>, abspath: string -> string, c: Config)
    requires Parse(argv, abspath) == Ok(c)
    ensures HttpsEnabled(c) <==>
      && CertFlag in argv[1..] && KeyFlag in argv[1..]
      && CertFlag in argv && IndexOf(argv, CertFlag) + 1 < |argv| && argv[IndexOf(argv, CertFlag) + 1] != ""
      && KeyFlag in argv && IndexOf(argv, KeyFlag) + 1 < |argv| && argv[IndexOf(argv, KeyFlag) + 1] != ""
  {
    ParseFlags(argv, abspath, c);
  }

  // ----- which command lines are accepted, and which exit -----

  /** `argv[i]` gets through its iteration of the loop. */
  predicate Accepted(argv: seq<string>, i: nat)
    requires i < |argv|
  {
    var a := argv[i];
    '=' in a || if IsFlag(a) then IndexOf(argv, a) + 1 < |argv| else "--" <= a
  }

  /** How the loop stops at an entry it does not accept. */
  function Rejection(arg: string): Exit {
    if IsFlag(arg) then MissingFlagValue(arg) else InvalidArgument(arg)
  }

  lemma StepAccepts(argv: seq<string>, i: nat, st: Config, abspath: string -> string)
    requires i < |argv|
    ensures Step(argv, i, st, abspath).Ok? <==> Accepted(argv, i)
    ensures !Accepted(argv, i) ==> Step(argv, i, st, abspath) == Err(Rejection(argv[i]))
  {
  }

  lemma {:induction false} RunAccepts(argv: seq<string>, i: nat, st: Config, abspath: string -> string)
    requires i <= |argv|
    ensures Run(argv, i, st, abspath).Ok? <==> forall j :: i <= j < |argv| ==> Accepted(argv, j)
    decreases |argv| - i
  {
    if i < |argv| {
      StepAccepts(argv, i, st, abspath);
      match Step(argv, i, st, abspath)
      case Err(_) =>
      case Ok(next) => RunAccepts(argv, i + 1, next, abspath);
    }
  }

  lemma {:induction false} RunRejects(argv: seq<string>, i: nat, st: Config, abspath: string -> string, k: nat)
    requires i <= k < |argv|
    requires forall j :: i <= j < k ==> Accepted(argv, j)
    requires !Accepted(argv, k)
    ensures Run(argv, i, st, abspath) == Err(Rejection(argv[k]))
    decreases k - i
  {
    StepAccepts(argv, i, st, abspath);
    if i < k {
      assert Accepted(argv, i);
      match Step(argv, i, st, abspath)
      case Err(_) =>
      case Ok(next) => RunRejects(argv, i + 1, next, abspath, k);
    }
  }

  /**
    The command line is accepted exactly when it has at least two entries
    and every entry after `argv[0]` is a route, a flag whose first position
    is not the last, or another `--` option.
   */
  lemma ParseAccepts(argv: seq<string>, abspath: string -> string)
    ensures Parse(argv, abspath).Ok? <==> |argv| >= 2 && forall j :: 1 <= j < |argv| ==> Accepted(argv, j)
  {
    if |argv| >= 2 {
      RunAccepts(argv, 1, Initial, abspath);
    }
  }

  /**
    Otherwise `main` exits at the first entry it does not accept: an invalid
    argument, or a flag with nothing after its first position.
   */
  lemma ParseRejects(argv: seq<string>, abspath: string -> string, k: nat)
    requires 1 <= k < |argv|
    requires forall j :: 1 <= j < k ==> Accepted(argv, j)
    requires !Accepted(argv, k)
    ensures Parse(argv, abspath) == Err(Rejection(argv[k]))
  {
    RunRejects(argv, 1, Initial, abspath, k);
  }
}
