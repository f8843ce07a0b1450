/**
  Worked requests through `TranslatePath`: ordering of overlapping prefixes,
  decoding before matching, and unnormalised `..` segments.
 */
module RoutingExamples {
  import opened Paths
  import opened Routing

  /**
    When two prefixes both match, table order decides, not prefix length:
    `/a` declared before `/ab` captures `/ab/file` ...
   */
  lemma ShorterPrefixFirstWins(d1: string, d2: string, f: string -> string)
    ensures TranslatePath([("/a", d1), ("/ab", d2)], "/ab/file", f) == Join(d1, "b/file")
  {
    UnquotePlain("/ab/file");
    StripAfter("/ab/file", 2, "b/file");
    TranslateFirstMatch([("/a", d1), ("/ab", d2)], "/ab/file", f, 0, "/ab/file", "b/file");
  }

  /** ... and `/ab` declared before `/a` captures it instead. */
  lemma LongerPrefixFirstWins(d1: string, d2: string, f: string -> string)
    ensures TranslatePath([("/ab", d2), ("/a", d1)], "/ab/file", f) == Join(d2, "file")
  {
    UnquotePlain("/ab/file");
    StripAfter("/ab/file", 3, "file");
    TranslateFirstMatch([("/ab", d2), ("/a", d1)], "/ab/file", f, 0, "/ab/file", "file");
  }

  /** The remainder is decoded before it is joined: `/a/%20x` yields ` x`. */
  lemma EncodedRestDecoded(d: string, f: string -> string)
    ensures TranslatePath([("/a", d)], "/a/%20x", f) == Join(d, " x")
  {
    UnquoteSpace();
    StripAfter("/a/ x", 2, " x");
    TranslateFirstMatch([("/a", d)], "/a/%20x", f, 0, "/a/ x", " x");
  }

  /** An escaped character in the request path can complete a prefix. */
  lemma EncodedPrefixMatches(d: string, f: string -> string)
    ensures TranslatePath([("/a", d)], "/%61/x", f) == Join(d, "x")
  {
    UnquoteLetter();
    StripAfter("/a/x", 2, "x");
    TranslateFirstMatch([("/a", d)], "/%61/x", f, 0, "/a/x", "x");
  }

  /**
    Decoding is applied once before matching: `/%2561` decodes to `/%61`,
    which `/a` does not match, so the fallback receives `/%61`.
   */
  lemma DoubleEscapeNotMatched(d: string, f: string -> string)
    ensures TranslatePath([("/a", d)], "/%2561", f) == f("/%61")
  {
    UnquoteEscapedPercent();
    assert !Matches("/a", "/%61") by {
      assert "/%61"[1] != "/a"[1];
    }
  }

  /**
    `..` segments are not normalised: whatever follows the prefix, `../`
    included, is joined onto the mapped directory and climbs out of it.
   */
  lemma DotDotNotContained(t: RouteTable, rawPath: string, f: string -> string, i: nat, rest: string)
    requires i < |t| && IsFirstMatch(t, Unquote(rawPath), i)
    requires Unquote(rawPath) == t[i].0 + "/../" + rest
    ensures TranslatePath(t, rawPath, f) == Join(t[i].1, "../" + rest)
  {
    var path := Unquote(rawPath);
    assert path[|t[i].0|..] == "/" + ("../" + rest);
    assert LStripSlashes("../" + rest) == "../" + rest;
    TranslateFirstMatch(t, rawPath, f, i, path, "../" + rest);
  }

  /** Stripping the leading slashes of `path[k..]` leaves `rest`. */
  lemma StripAfter(path: string, k: nat, rest: string)
    requires k <= |path|
    requires path[k..] == rest || path[k..] == "/" + rest
    requires rest == [] || rest[0] != '/'
    ensures LStripSlashes(path[k..]) == rest
  {
    var s := path[k..];
    if s != rest {
      assert s[0] == '/' && s[1..] == rest;
      assert LStripSlashes(s) == LStripSlashes(rest);
    }
  }
}
