/**
  The three string operations that `translate_path` borrows from Python's
  standard library: `urllib.parse.unquote`, `str.lstrip("/")` and
  `posixpath.join` (what `os.path.join` is on POSIX).
 */
module Paths {

  predicate IsHexDigit(c: char) {
    '0' <= c <= '9' || 'a' <= c <= 'f' || 'A' <= c <= 'F'
  }

  function HexValue(c: char): (v: nat)
    requires IsHexDigit(c)
    ensures v < 16
  {
    if '0' <= c <= '9' then c as nat - '0' as nat
    else if 'a' <= c <= 'f' then c as nat - 'a' as nat + 10
    else c as nat - 'A' as nat + 10
  }

  /** The upper-case hex digit whose value is `v`. */
  function HexDigit(v: nat): (c: char)
    requires v < 16
    ensures IsHexDigit(c) && HexValue(c) == v
  {
    if v < 10 then ('0' as nat + v) as char else ('A' as nat + v - 10) as char
  }

  /** A `%` followed by two hex digits at the start of `s`. */
  predicate StartsWithEscape(s: string) {
    |s| >= 3 && s[0] == '%' && IsHexDigit(s[1]) && IsHexDigit(s[2])
  }

  /**
    Percent-decoding as `unquote` does it for codes below 0x80: every `%XX`
    with two hex digits (either case) becomes the character with code XX,
    read left to right in one pass; a `%` not followed by two hex digits
    stays as it is. Codes from 0x80 up are read as Latin-1 here, where
    `unquote` decodes them as UTF-8.
   */
  function Unquote(s: string): string
    decreases |s|
  {
    if s == [] then []
    else if StartsWithEscape(s) then
      [(16 * HexValue(s[1]) + HexValue(s[2])) as char] + Unquote(s[3..])
    else
      [s[0]] + Unquote(s[1..])
  }

  /** Text without a `%` passes through decoding unchanged. */
  lemma {:induction false} UnquotePlain(s: string)
    requires '%' !in s
    ensures Unquote(s) == s
    decreases |s|
  {
    if s != [] {
      assert s[1..] <= s[1..] && '%' !in s[1..];
      UnquotePlain(s[1..]);
    }
  }

  /** Plain text in front of the rest is copied as it is. */
  lemma {:induction false} UnquotePlainPrefix(a: string, s: string)
    requires '%' !in a
    ensures Unquote(a + s) == a + Unquote(s)
  {
    if a == [] {
      assert a + s == s;
    } else {
      assert (a + s)[0] == a[0] && (a + s)[1..] == a[1..] + s;
      UnquotePlainPrefix(a[1..], s);
      assert [a[0]] + a[1..] == a;
    }
  }

  /** Decoding never lengthens a string: each escape shrinks three characters to one. */
  lemma {:induction false} UnquoteShrinks(s: string)
    ensures |Unquote(s)| <= |s|
    decreases |s|
  {
    if s != [] {
      if StartsWithEscape(s) {
        UnquoteShrinks(s[3..]);
      } else {
        UnquoteShrinks(s[1..]);
      }
    }
  }

  /** Escapes every ASCII character of `s` as `%XX`: the inverse of `Unquote`. */
  function EscapeAll(s: string): (r: string)
    requires forall i :: 0 <= i < |s| ==> s[i] as nat < 128
    ensures |r| == 3 * |s|
  {
    if s == [] then []
    else ['%', HexDigit(s[0] as nat / 16), HexDigit(s[0] as nat % 16)] + EscapeAll(s[1..])
  }

  /** Decoding undoes a full escape: `Unquote` recovers every ASCII string. */
  lemma {:induction false} UnquoteEscapeAll(s: string)
    requires forall i :: 0 <= i < |s| ==> s[i] as nat < 128
    ensures Unquote(EscapeAll(s)) == s
  {
    if s != [] {
      var e := EscapeAll(s);
      var c := s[0] as nat;
      assert e[..3] == ['%', HexDigit(c / 16), HexDigit(c % 16)];
      assert StartsWithEscape(e);
      assert e[3..] == EscapeAll(s[1..]);
      UnquoteEscapeAll(s[1..]);
      assert (16 * (c / 16) + c % 16) as char == s[0];
    }
  }

  /**
    Decoding happens once: an escaped `%` comes out as a literal `%` and the
    escape it introduces is not decoded again.
   */
  lemma UnquoteIsSinglePass()
    ensures Unquote("%2541") == "%41"
    ensures Unquote("%41") == "A"
  {
    assert "%2541"[3..] == "41";
    assert "41"[1..] == "1";
    assert "%41"[3..] == "";
  }

  /** An escaped space, as in `/a/%20x`. */
  lemma UnquoteSpace()
    ensures Unquote("/a/%20x") == "/a/ x"
  {
  }

  /** An escaped escape, as in `/%2561`, decodes to an escape and no further. */
  lemma UnquoteEscapedPercent()
    ensures Unquote("/%2561") == "/%61"
  {
    assert "%2561"[3..] == "61";
    assert "61"[1..] == "1";
  }

  /** A `%` without two hex digits after it is kept as a literal `%`. */
  lemma UnquoteMalformed()
    ensures Unquote("%%41") == "%A"
    ensures Unquote("5%") == "5%"
  {
    assert "%%41"[1..] == "%41";
    assert "%41"[3..] == "";
  }

  /** An escaped letter, as in `/%61/x`. */
  lemma UnquoteLetter()
    ensures Unquote("/%61/x") == "/a/x"
  {
  }

  /**
    `str.lstrip("/")`: `r` is the suffix of `s` left after every leading `/`
    has been removed.
   */
  function LStripSlashes(s: string): (r: string)
    ensures |r| <= |s| && r == s[|s| - |r|..]
    ensures r == [] || r[0] != '/'
    ensures forall i :: 0 <= i < |s| - |r| ==> s[i] == '/'
  {
    if s != [] && s[0] == '/' then LStripSlashes(s[1..]) else s
  }

  predicate EndsWithSlash(s: string) {
    s != [] && s[|s| - 1] == '/'
  }

  /**
    `posixpath.join(a, b)`: an absolute `b` replaces `a`; otherwise `b` is
    appended, with a `/` in between unless `a` is empty or already ends in one.
   */
  function Join(a: string, b: string): string {
    if b != [] && b[0] == '/' then b
    else if a == [] || EndsWithSlash(a) then a + b
    else a + "/" + b
  }

  /**
    Joining a relative `b` keeps `a` as the head and `b` as the tail, with at
    most one `/` added between them.
   */
  lemma JoinRelative(a: string, b: string)
    requires b == [] || b[0] != '/'
    ensures a <= Join(a, b)
    ensures |Join(a, b)| >= |a| + |b| && Join(a, b)[|Join(a, b)| - |b|..] == b
    ensures Join(a, b)[|a|..|Join(a, b)| - |b|] == if a == [] || EndsWithSlash(a) then "" else "/"
  {
  }
}
