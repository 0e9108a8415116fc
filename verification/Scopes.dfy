/** OAuth scope strings: split at white space, checked against the supported scopes, printed in canonical order. */
module Scopes {
  import opened Common

  const READ: string := "bbb:read"
  const WRITE: string := "bbb:write"

  datatype ScopeError = UnsupportedScope | ReadRequired

  /** White space as a regular expression's \s matches it. */
  predicate IsSpace(c: char) {
    || c == ' ' || '\U{0009}' <= c <= '\U{000D}'
    || c == '\U{00A0}' || c == '\U{1680}' || '\U{2000}' <= c <= '\U{200A}'
    || c == '\U{2028}' || c == '\U{2029}' || c == '\U{202F}' || c == '\U{205F}' || c == '\U{3000}' || c == '\U{FEFF}'
  }

  /** White space and line terminators of ECMAScript, by code point. */
  lemma SpacesByCode(c: char)
    ensures IsSpace(c) <==>
            c as int in {0x9, 0xA, 0xB, 0xC, 0xD, 0x20, 0xA0, 0x1680, 0x2000, 0x2001, 0x2002, 0x2003, 0x2004, 0x2005,
                         0x2006, 0x2007, 0x2008, 0x2009, 0x200A, 0x2028, 0x2029, 0x202F, 0x205F, 0x3000, 0xFEFF}
  {
  }

  function WordLength(s: string): (n: nat)
    ensures n <= |s| && (forall i :: 0 <= i < n ==> !IsSpace(s[i])) && (n < |s| ==> IsSpace(s[n]))
  {
    if s == "" || IsSpace(s[0]) then 0 else 1 + WordLength(s[1..])
  }

  /** The non-empty pieces between runs of white space. */
  function Words(s: string): seq<string>
    decreases |s|
  {
    if s == "" then []
    else if IsSpace(s[0]) then Words(s[1..])
    else
      var n := WordLength(s);
      [s[..n]] + Words(s[n..])
  }

  function Canonical(write: bool): string {
    if write then READ + " " + WRITE else READ
  }

  function ParseScopes(scope: Option<string>): Result<string, ScopeError> {
    var requested := Words(if scope.Some? then scope.value else READ);
    if exists w :: w in requested && w != READ && w != WRITE then Err(UnsupportedScope)
    else if READ !in requested then Err(ReadRequired)
    else Ok(Canonical(WRITE in requested))
  }

  predicate Allows(scope: string, wanted: string) {
    wanted in Words(scope)
  }

  predicate IsWord(w: string) {
    w != "" && forall i :: 0 <= i < |w| ==> !IsSpace(w[i])
  }

  lemma FirstWord(w: string, rest: string)
    requires IsWord(w) && (rest == "" || IsSpace(rest[0]))
    ensures Words(w + rest) == [w] + Words(rest)
  {
    var s := w + rest;
    var n := WordLength(s);
    assert s[0] == w[0];
    assert n < |s| ==> IsSpace(s[n]);
    assert forall i :: 0 <= i < |w| ==> s[i] == w[i];
    assert |w| < |s| ==> s[|w|] == rest[0];
    assert n == |w|;
    assert s[..n] == w && s[n..] == rest;
  }

  lemma OneOrTwoWords(v: string, w: string)
    requires IsWord(v) && IsWord(w)
    ensures Words(v) == [v] && Words(v + " " + w) == [v, w]
  {
    var tail := " " + w;
    assert tail[0] == ' ' && tail[1..] == w;
    FirstWord(v, tail);
    assert v + tail == v + " " + w;
    FirstWord(w, "");
    FirstWord(v, "");
    assert w + "" == w && v + "" == v;
  }

  lemma ScopesAreWords()
    ensures IsWord(READ) && IsWord(WRITE)
  {
  }

  lemma CanonicalWords(write: bool)
    ensures Words(Canonical(write)) == if write then [READ, WRITE] else [READ]
  {
    ScopesAreWords();
    hide IsWord, IsSpace, Words;
    OneOrTwoWords(READ, WRITE);
  }

  /** Parsing keeps the meaning of an accepted request, whatever its order, spacing and repetitions, and is
      stable on its own results. */
  lemma ParseKeepsMeaning(scope: string)
    ensures ParseScopes(Some(scope)).Ok? <==>
        READ in Words(scope) && forall w :: w in Words(scope) ==> w == READ || w == WRITE
    ensures ParseScopes(Some(scope)).Ok? ==>
              var printed := ParseScopes(Some(scope)).value;
              && (forall w :: w in Words(printed) <==> w in Words(scope))
              && ParseScopes(Some(printed)) == Ok(printed)
  {
    CanonicalWords(true);
    CanonicalWords(false);
  }

  /** A request without a scope asks for reading; the error says whether a scope is unknown or reading is missing; and
      what is printed is one of two strings. */
  lemma ParsesExactly(scope: string)
    ensures ParseScopes(None) == Ok("bbb:read")
    ensures ParseScopes(Some(scope)) ==
            if exists w :: w in Words(scope) && w != "bbb:read" && w != "bbb:write" then Err(UnsupportedScope)
            else if "bbb:read" !in Words(scope) then Err(ReadRequired)
            else if "bbb:write" in Words(scope) then Ok("bbb:read bbb:write")
            else Ok("bbb:read")
  {
    CanonicalWords(false);
    PrintedScopes();
    hide Words, Canonical;
  }

  lemma PrintedScopes()
    ensures Canonical(false) == "bbb:read" && Canonical(true) == "bbb:read bbb:write"
  {
  }
}
