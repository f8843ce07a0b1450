/**
  `MultiDirectoryHTTPRequestHandler.translate_path`: maps a request path to a
  filesystem path through an ordered prefix-to-directory table.
 */
module Routing {
  import opened Wrappers
  import opened Paths

  /**
    The handler's `directories` dict, in insertion order (the order in which
    `dict.items()` yields it): pairs of URL prefix and directory.
   */
  type RouteTable = seq<(string, string)>

  /** A dict has one entry per key. */
  predicate UniquePrefixes(t: RouteTable) {
    forall i, j :: 0 <= i < j < |t| ==> t[i].0 != t[j].0
  }

  /** `path.startswith(prefix)`. */
  predicate Matches(prefix: string, path: string) {
    prefix <= path
  }

  /** Entry `i` matches `path` and no earlier entry does. */
  predicate IsFirstMatch(t: RouteTable, path: string, i: nat)
    requires i < |t|
  {
    Matches(t[i].0, path) && forall j :: 0 <= j < i ==> !Matches(t[j].0, path)
  }

  /** The index at which the `for` loop over `directories.items()` returns. */
  function FirstMatch(t: RouteTable, path: string): (r: Option<nat>)
    ensures r.Some? ==> r.value < |t| && IsFirstMatch(t, path, r.value)
    ensures r.None? ==> forall j :: 0 <= j < |t| ==> !Matches(t[j].0, path)
  {
    if t == [] then None
    else if Matches(t[0].0, path) then Some(0)
    else match FirstMatch(t[1..], path)
      case None => None
      case Some(i) => Some(i + 1)
  }

  /**
    The request path is percent-decoded once; the first entry whose prefix
    starts the decoded path wins, and the rest of the decoded path, stripped
    of its leading slashes, is joined onto that entry's directory. With no
    match, `fallback` (the standard handler's own `translate_path`) gets the
    decoded path.
   */
  function TranslatePath(t: RouteTable, rawPath: string, fallback: string -> string): (r: string)
    ensures forall i :: 0 <= i < |t| && IsFirstMatch(t, Unquote(rawPath), i) ==>
      && r == Join(t[i].1, LStripSlashes(Unquote(rawPath)[|t[i].0|..]))
      && t[i].1 <= r
    ensures (forall i :: 0 <= i < |t| ==> !Matches(t[i].0, Unquote(rawPath))) ==>
      r == fallback(Unquote(rawPath))
  {
    var path := Unquote(rawPath);
    match FirstMatch(t, path)
    case None => fallback(path)
    case Some(k) =>
      var rest := LStripSlashes(path[|t[k].0|..]);
      JoinRelative(t[k].1, rest);
      assert forall i :: 0 <= i < |t| && IsFirstMatch(t, path, i) ==> i == k;
      Join(t[k].1, rest)
  }

  /**
    `TranslatePath` at a known first match, with the decoded path and the
    stripped remainder given.
   */
  lemma TranslateFirstMatch(t: RouteTable, rawPath: string, f: string -> string, i: nat, path: string, rest: string)
    requires Unquote(rawPath) == path
    requires i < |t| && IsFirstMatch(t, path, i)
    requires LStripSlashes(path[|t[i].0|..]) == rest
    ensures TranslatePath(t, rawPath, f) == Join(t[i].1, rest)
  {
  }

  /** An empty prefix matches every path, so no path reaches the fallback. */
  lemma EmptyPrefixShadowsFallback(t: RouteTable, k: nat, rawPath: string, f: string -> string, g: string -> string)
    requires k < |t| && t[k].0 == ""
    ensures FirstMatch(t, Unquote(rawPath)).Some?
    ensures TranslatePath(t, rawPath, f) == TranslatePath(t, rawPath, g)
  {
    assert Matches(t[k].0, Unquote(rawPath));
  }
}
