/**
 * hasRenderscriptBitcode without the accelerator: does the archive hold a
 * RenderScript bitcode file (a name ending in ".bc" that passes the
 * file-name check)?
 */
module Bitcode {
  import opened Options
  import opened CStrings
  import opened FilenameSafety
  import opened Archive

  const RS_BITCODE_SUFFIX := ".bc"

  /** The three results of the scan, with their integer codes. */
  datatype BitcodeScanResult = ApkScanError | NoBitcodePresent | BitcodePresent
  {
    function Code(): (c: int)
      ensures -1 <= c <= 1
      ensures c == 1 <==> BitcodePresent?
      ensures c == -1 <==> ApkScanError?
    {
      match this
      case ApkScanError => -1
      case NoBitcodePresent => 0
      case BitcodePresent => 1
    }
  }

  /**
   * The text the scan checks for safety: the whole name when it has no
   * slash, and otherwise the name without its first character (not the text
   * after the last slash).
   */
  function BitcodeBaseName(fileName: string): string
  {
    if LastSlash(fileName).None? then fileName else fileName[1..]
  }

  /**
   * A bitcode name: it ends in ".bc" and its checked text is safe. Names
   * shorter than the suffix would make the suffix comparison read before
   * the name buffer; they never count as bitcode here.
   */
  predicate IsBitcodeName(fileName: string)
  {
    |fileName| >= |RS_BITCODE_SUFFIX| && EndsWith(fileName, RS_BITCODE_SUFFIX) &&
    IsFilenameSafe(BitcodeBaseName(fileName))
  }

  /** Entry `i` has a readable name that is a bitcode name. */
  predicate IsBitcodeEntry(entries: seq<ZipEntry>, i: nat)
    requires i < |entries|
  {
    match EntryFileName(entries[i])
    case None => false
    case Some(name) => IsBitcodeName(name)
  }

  /**
   * For a name with a slash only the first character escapes the safety
   * check: the directory part is checked along with the base name.
   */
  lemma {:induction false} BitcodeBaseNameSkipsFirst(c: char, rest: string)
    requires '/' in rest && |rest| >= |RS_BITCODE_SUFFIX|
    ensures IsBitcodeName([c] + rest) <==> EndsWith(rest, RS_BITCODE_SUFFIX) && IsFilenameSafe(rest)
  {
    var name := [c] + rest;
    var k :| 0 <= k < |rest| && rest[k] == '/';
    assert name[k + 1] == '/';
    LastSlashSpec(name);
    assert LastSlash(name).Some?;
    assert name[1..] == rest;
    assert BitcodeBaseName(name) == rest;
    assert name[|name| - 3..] == rest[|rest| - 3..];
    assert EndsWith(name, RS_BITCODE_SUFFIX) <==> EndsWith(rest, RS_BITCODE_SUFFIX);
  }

  /** Without a slash the whole name is checked. */
  lemma {:induction false} BitcodeBaseNameNoSlash(name: string)
    requires '/' !in name
    ensures IsBitcodeName(name) <==>
              |name| >= |RS_BITCODE_SUFFIX| && EndsWith(name, RS_BITCODE_SUFFIX) &&
              forall i :: 0 <= i < |CStr(name)| ==> IsSafeChar(name[i])
  {
    FilenameSafeIff(name);
  }

  /**
   * hasRenderscriptBitcode, default path: APK_SCAN_ERROR when the iteration
   * cannot start, BITCODE_PRESENT at the first bitcode entry, otherwise
   * NO_BITCODE_PRESENT; the iteration is ended on both return paths.
   */
  method HasRenderscriptBitcode(zipFile: ZipFileRO) returns (result: BitcodeScanResult)
    modifies zipFile
    ensures !zipFile.iterable <==> result == ApkScanError
    ensures zipFile.iterable ==>
              (result == BitcodePresent <==> exists i :: 0 <= i < |zipFile.entries| && IsBitcodeEntry(zipFile.entries, i))
    ensures zipFile.openIterations == old(zipFile.openIterations)
  {
    var ok := zipFile.StartIteration();
    if !ok {
      return ApkScanError;
    }
    var entries := zipFile.entries;
    var cookie := 0;
    while cookie < |entries|
      invariant 0 <= cookie <= |entries|
      invariant zipFile.openIterations == old(zipFile.openIterations) + 1
      invariant forall j :: 0 <= j < cookie ==> !IsBitcodeEntry(entries, j)
    {
      var next := entries[cookie];
      cookie := cookie + 1;
      var name := EntryFileName(next);
      if name.None? {
        continue;
      }
      var fileName := name.value;
      var lastSlash := LastSlash(fileName);
      var baseName := if lastSlash.None? then fileName else fileName[1..];
      assert baseName == BitcodeBaseName(fileName);
      assert EntryFileName(entries[cookie - 1]) == Some(fileName);
      if |fileName| >= |RS_BITCODE_SUFFIX| && fileName[|fileName| - |RS_BITCODE_SUFFIX|..] == RS_BITCODE_SUFFIX &&
         IsFilenameSafe(baseName) {
        assert IsBitcodeName(fileName);
        assert IsBitcodeEntry(entries, cookie - 1);
        zipFile.EndIteration();
        return BitcodePresent;
      }
    }
    zipFile.EndIteration();
    return NoBitcodePresent;
  }
}
