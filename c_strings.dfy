/**
 * The few C string primitives the scanner relies on, over `string`
 * (one character per byte of the C buffer).
 */
module CStrings {
  import opened Options

  /** The index of the first NUL at or after `i`, or the length of the buffer when there is none. */
  function NulFrom(buffer: string, i: nat): (n: nat)
    requires i <= |buffer|
    ensures i <= n <= |buffer|
    decreases |buffer| - i
  {
    if i == |buffer| || buffer[i] == '\0' then i else NulFrom(buffer, i + 1)
  }

  /** NulFrom stops at the first NUL: none before it, one at it unless it is the end. */
  lemma {:induction false} NulFromSpec(buffer: string, i: nat)
    requires i <= |buffer|
    ensures forall j :: i <= j < NulFrom(buffer, i) ==> buffer[j] != '\0'
    ensures NulFrom(buffer, i) < |buffer| ==> buffer[NulFrom(buffer, i)] == '\0'
    decreases |buffer| - i
  {
    if i < |buffer| && buffer[i] != '\0' {
      NulFromSpec(buffer, i + 1);
    }
  }

  /** The C string a buffer holds: every character before the first NUL. */
  function CStr(buffer: string): (s: string)
    ensures |s| <= |buffer|
  {
    buffer[..NulFrom(buffer, 0)]
  }

  /** The C string is the prefix of the buffer before its first NUL. */
  lemma CStrSpec(buffer: string)
    ensures var s := CStr(buffer);
            s == buffer[..|s|] && '\0' !in s && (|s| < |buffer| ==> buffer[|s|] == '\0')
  {
    NulFromSpec(buffer, 0);
  }

  /** Cutting the buffer at a NUL does not move the first NUL at or after `i`. */
  lemma {:induction false} NulFromPrefix(buffer: string, k: nat, i: nat)
    requires i <= k < |buffer| && buffer[k] == '\0'
    ensures NulFrom(buffer, i) == NulFrom(buffer[..k], i)
    decreases k - i
  {
    if i < k && buffer[i] != '\0' {
      NulFromPrefix(buffer, k, i + 1);
    }
  }

  /** Writing a NUL at position `k` cuts the C string there (or earlier). */
  lemma CStrStopsAtNul(buffer: string, k: nat)
    requires k < |buffer| && buffer[k] == '\0'
    ensures CStr(buffer) == CStr(buffer[..k])
  {
    NulFromPrefix(buffer, k, 0);
  }

  /** strrchr(s, '/'): the index of the last slash, None for NULL. */
  function LastSlash(s: string): (r: Option<nat>)
    ensures r.Some? ==> r.value < |s| && s[r.value] == '/'
  {
    if s == [] then None
    else if s[|s| - 1] == '/' then Some(|s| - 1)
    else LastSlash(s[..|s| - 1])
  }

  /** LastSlash finds the last slash, and finds none exactly when there is none. */
  lemma {:induction false} LastSlashSpec(s: string)
    ensures LastSlash(s).Some? ==> forall j :: LastSlash(s).value < j < |s| ==> s[j] != '/'
    ensures LastSlash(s).None? <==> forall j :: 0 <= j < |s| ==> s[j] != '/'
  {
    if s != [] && s[|s| - 1] != '/' {
      var p := s[..|s| - 1];
      LastSlashSpec(p);
      assert forall j :: 0 <= j < |p| ==> p[j] == s[j];
    }
  }

  /** A slash with no slash after it is the last slash. */
  lemma {:induction false} LastSlashIs(s: string, k: nat)
    requires k < |s| && s[k] == '/'
    requires forall j :: k < j < |s| ==> s[j] != '/'
    ensures LastSlash(s) == Some(k)
  {
    LastSlashSpec(s);
    var r := LastSlash(s);
    if r.Some? && r.value < k { assert false; }
  }

  /** The text after the last slash, or the whole string when it has none. */
  function BaseName(s: string): string
  {
    match LastSlash(s)
    case None => s
    case Some(k) => s[k + 1..]
  }

  /** strncmp(s, p, |p|) == 0 for a NUL-free `p`. */
  predicate StartsWith(s: string, p: string)
  {
    |p| <= |s| && s[..|p|] == p
  }

  /** The last |p| characters of `s` are `p`. */
  predicate EndsWith(s: string, p: string)
  {
    |p| <= |s| && s[|s| - |p|..] == p
  }
}
