/**
  Command lines through `Parse`: the documented `--cert cert.pem --key
  key.pem` form and a trailing flag. The usage text's own form is rejected,
  because the loop classifies a flag's value as an argument of its own;
  `ParseIntended` is the loop with each flag consuming the entry after it.
 */
module CommandLineExamples {
  import opened Wrappers
  import opened Routing
  import opened CommandLine

  /**
    With a file name that has no `=` and does not start with `--`,
    `prog /a=/x --cert cert.pem --key key.pem` exits at `cert.pem`.
   */
  lemma UsageExampleRejected(prog: string, route: string, cert: string, key: string, abspath: string -> string)
    requires '=' in route
    requires '=' !in cert && !("--" <= cert)
    ensures Parse([prog, route, CertFlag, cert, KeyFlag, key], abspath) == Err(InvalidArgument(cert))
  {
    var argv := [prog, route, CertFlag, cert, KeyFlag, key];
    assert route != CertFlag by { assert '=' !in CertFlag; }
    assert IndexOf(argv, CertFlag) <= 2 by {
      if prog != CertFlag {
        assert argv[1..] == [route, CertFlag, cert, KeyFlag, key];
        assert argv[1..][1..] == [CertFlag, cert, KeyFlag, key];
        assert IndexOf(argv[1..][1..], CertFlag) == 0;
        assert IndexOf(argv[1..], CertFlag) == 1;
      }
    }
    assert Accepted(argv, 1);
    assert Accepted(argv, 2);
    assert !IsFlag(cert);
    assert !Accepted(argv, 3);
    ParseRejects(argv, abspath, 3);
  }

  /** A `--cert` whose first position is argv's last entry raises IndexError. */
  lemma TrailingFlagRejected(prog: string, route: string, abspath: string -> string)
    requires prog != CertFlag && '=' in route
    ensures Parse([prog, route, CertFlag], abspath) == Err(MissingFlagValue(CertFlag))
  {
    var argv := [prog, route, CertFlag];
    assert route != CertFlag by { assert '=' !in CertFlag; }
    assert IndexOf(argv, CertFlag) == 2 by {
      assert argv[1..] == [route, CertFlag];
      assert argv[1..][1..] == [CertFlag];
      assert IndexOf(argv[1..][1..], CertFlag) == 0;
      assert IndexOf(argv[1..], CertFlag) == 1;
    }
    assert Accepted(argv, 1);
    assert !Accepted(argv, 2);
    ParseRejects(argv, abspath, 2);
  }

  /**
    The entry after a flag is classified again, so one with a `=` becomes a
    route as well as the flag's value; the corrected loop only takes it as
    the value.
   */
  lemma FlagValueBecomesRoute(prog: string, abspath: string -> string)
    requires prog != CertFlag
    ensures Parse([prog, CertFlag, "x=y"], abspath) == Ok(Config([("x", abspath("y"))], Some("x=y"), None))
    ensures ParseIntended([prog, CertFlag, "x=y"], abspath) == Ok(Config([], Some("x=y"), None))
  {
    var argv := [prog, CertFlag, "x=y"];
    assert IndexOf(argv, CertFlag) == 1 by {
      assert argv[1..] == [CertFlag, "x=y"];
      assert IndexOf(argv[1..], CertFlag) == 0;
    }
    assert SplitAtFirst("x=y", '=') == ("x", "y") by {
      assert "x=y"[1..] == "=y";
      assert "=y"[1..] == "y";
      assert SplitAtFirst("=y", '=') == ([], "y");
      assert ['x'] + [] == "x";
    }
    assert '=' !in CertFlag && !IsFlag("x=y");
    var st2 := Initial.(certFile := Some("x=y"));
    var st3 := st2.(routes := [("x", abspath("y"))]);
    assert Step(argv, 1, Initial, abspath) == Ok(st2);
    assert Step(argv, 2, st2, abspath) == Ok(st3);
    assert Run(argv, 3, st3, abspath) == Ok(st3);
    assert Run(argv, 2, st2, abspath) == Ok(st3);
    assert Run(argv, 1, Initial, abspath) == Ok(st3);
    assert RunIntended(argv, 3, st2, abspath) == Ok(st2);
    assert RunIntended(argv, 1, Initial, abspath) == Ok(st2);
  }

  /** The loop as the usage text describes it: a flag takes the next entry with it. */
  function RunIntended(argv: seq<string>, i: nat, st: Config, abspath: string -> string): (r: Result<Config, Exit>)
    requires i <= |argv|
    ensures r.Err? ==> !r.error.Usage?
    decreases |argv| - i
  {
    if i == |argv| then Ok(st)
    else
      var arg := argv[i];
      if '=' in arg then
        var (prefix, path) := SplitAtFirst(arg, '=');
        RunIntended(argv, i + 1, st.(routes := Put(st.routes, prefix, abspath(path))), abspath)
      else if IsFlag(arg) then
        if i + 1 < |argv| then
          var st' := if arg == CertFlag then st.(certFile := Some(argv[i + 1])) else st.(keyFile := Some(argv[i + 1]));
          RunIntended(argv, i + 2, st', abspath)
        else Err(MissingFlagValue(arg))
      else if "--" <= arg then RunIntended(argv, i + 1, st, abspath)
      else Err(InvalidArgument(arg))
  }

  function ParseIntended(argv: seq<string>, abspath: string -> string): (r: Result<Config, Exit>)
    ensures r == Err(Usage) <==> |argv| < 2
  {
    if |argv| < 2 then Err(Usage) else RunIntended(argv, 1, Initial, abspath)
  }

  /**
    With flags consuming their values, the usage text's command line is
    accepted for any file names and enables HTTPS when both are non-empty.
   */
  lemma UsageExampleAccepted(prog: string, route: string, cert: string, key: string, abspath: string -> string)
    requires '=' in route
    ensures ParseIntended([prog, route, CertFlag, cert, KeyFlag, key], abspath).Ok?
    ensures var c := ParseIntended([prog, route, CertFlag, cert, KeyFlag, key], abspath).value;
      && c.certFile == Some(cert) && c.keyFile == Some(key)
      && (HttpsEnabled(c) <==> cert != "" && key != "")
  {
    var argv := [prog, route, CertFlag, cert, KeyFlag, key];
    var (prefix, path) := SplitAtFirst(route, '=');
    var st1 := Initial.(routes := Put([], prefix, abspath(path)));
    var st3 := st1.(certFile := Some(cert));
    var st5 := st3.(keyFile := Some(key));
    assert RunIntended(argv, 6, st5, abspath) == Ok(st5);
    assert RunIntended(argv, 4, st3, abspath) == RunIntended(argv, 6, st5, abspath);
    assert RunIntended(argv, 2, st1, abspath) == RunIntended(argv, 4, st3, abspath);
    assert RunIntended(argv, 1, Initial, abspath) == RunIntended(argv, 2, st1, abspath);
  }
}
