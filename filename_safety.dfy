/** isFilenameSafe: the character-class check applied to extracted names. */
module FilenameSafety {
  import opened CStrings

  /** A character the validator lets through: A-Z a-z 0-9 + , - . / = _ */
  predicate IsSafeChar(c: char)
  {
    ('A' <= c <= 'Z') || ('a' <= c <= 'z') || ('0' <= c <= '9') ||
    c == '+' || c == ',' || c == '-' || c == '.' || c == '/' || c == '=' || c == '_'
  }

  /**
   * The offset scan from `offset` on: a NUL (or the end of the buffer) ends
   * the scan with acceptance, a safe character moves on, anything else
   * rejects.
   */
  function SafeFrom(filename: string, offset: nat): bool
    decreases |filename| - offset
  {
    if offset >= |filename| || filename[offset] == '\0' then true
    else if IsSafeChar(filename[offset]) then SafeFrom(filename, offset + 1)
    else false
  }

  /** isFilenameSafe: the scan from the first character. */
  function IsFilenameSafe(filename: string): bool
  {
    SafeFrom(filename, 0)
  }

  /** From `offset`, the scan accepts exactly when every character up to the next NUL is safe. */
  lemma {:induction false} SafeFromIff(filename: string, offset: nat)
    requires offset <= |filename|
    ensures SafeFrom(filename, offset) <==>
            forall i :: offset <= i < NulFrom(filename, offset) ==> IsSafeChar(filename[i])
    decreases |filename| - offset
  {
    if offset < |filename| && filename[offset] != '\0' {
      SafeFromIff(filename, offset + 1);
    }
  }

  /** The validator accepts exactly the names whose C string is all safe characters. */
  lemma FilenameSafeIff(filename: string)
    ensures IsFilenameSafe(filename) <==>
            forall i :: 0 <= i < |CStr(filename)| ==> IsSafeChar(filename[i])
  {
    SafeFromIff(filename, 0);
  }

  /** isFilenameSafe as the C loop runs it: an offset that walks the name until a NUL or an unsafe character. */
  method ScanFilename(filename: string) returns (safe: bool)
    ensures safe <==> forall i :: 0 <= i < |CStr(filename)| ==> IsSafeChar(filename[i])
  {
    var offset := 0;
    while offset < |filename| && filename[offset] != '\0'
      invariant 0 <= offset <= |filename|
      invariant SafeFrom(filename, offset) == IsFilenameSafe(filename)
      decreases |filename| - offset
    {
      if !IsSafeChar(filename[offset]) {
        FilenameSafeIff(filename);
        return false;
      }
      offset := offset + 1;
    }
    FilenameSafeIff(filename);
    return true;
  }

  /** Every character of `s` is safe. */
  predicate AllSafe(s: string)
  {
    forall i :: 0 <= i < |s| ==> IsSafeChar(s[i])
  }

  /** Safe characters stay safe under concatenation. */
  lemma {:induction false} AllSafeConcat(a: string, b: string)
    requires AllSafe(a) && AllSafe(b)
    ensures AllSafe(a + b)
  {
    forall i | 0 <= i < |a + b| ensures IsSafeChar((a + b)[i]) {
      if i >= |a| { assert (a + b)[i] == b[i - |a|]; }
    }
  }

  /** A string of safe characters passes the validator (a NUL is not a safe character). */
  lemma {:induction false} SafeCharsAreSafe(filename: string)
    requires AllSafe(filename)
    ensures IsFilenameSafe(filename)
  {
    FilenameSafeIff(filename);
  }
}
