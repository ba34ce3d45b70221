/**
 * The mkstemp template as copyFileIfChanged builds it: the directory is
 * copied into a buffer, then the pattern is copied after it with strlcpy,
 * whose size argument is the pattern length minus the directory length,
 * computed in size_t. The rest of the model uses the intended template
 * (NativeCopy.TmpTemplate); this module keeps the template as written and
 * shows where the two differ.
 */
module TempFileTemplate {
  import opened Options
  import opened CStrings
  import opened NativeCopy

  /** size_t is 64 bits wide: its arithmetic is modulo 2^64. */
  const SIZE_T_MODULUS := 0x1_0000_0000_0000_0000

  /**
   * What strlcpy(dst, src, size) leaves at dst as a C string, when dst
   * already holds a NUL (here the one that ended the directory copied at
   * line 286) and has room: at most size - 1 characters of src. With size 0
   * nothing is written and the NUL already there still ends the string.
   * The return value, strlen(src), is the same in every case.
   */
  function StrlcpyCopied(src: string, size: nat): (r: string)
    ensures |r| <= |src| && r == src[..|r|]
    ensures size > 0 ==> |r| == if |src| < size then |src| else size - 1
    ensures size == 0 ==> r == ""
  {
    if size == 0 then ""
    else if |src| < size then src
    else src[..size - 1]
  }

  /**
   * The template as written: the directory, then what strlcpy copies of the
   * pattern with the size TMP_FILE_PATTERN_LEN - nativeLibPath.size(),
   * computed modulo 2^64.
   */
  function TmpTemplateAsWritten(nativeLibPath: string): (t: string)
    ensures |nativeLibPath| <= |t| <= |nativeLibPath| + |TMP_FILE_PATTERN|
    ensures t == nativeLibPath + TMP_FILE_PATTERN[..|t| - |nativeLibPath|]
  {
    var bound := (|TMP_FILE_PATTERN| - |nativeLibPath|) % SIZE_T_MODULUS;
    var copied := StrlcpyCopied(TMP_FILE_PATTERN, bound);
    assert (nativeLibPath + copied)[|nativeLibPath|..] == copied;
    nativeLibPath + copied
  }

  /**
   * For every destination directory shorter than 10 characters the template
   * as written loses its X's and mkstemp rejects it, so every library whose
   * installed copy differs fails with INSTALL_FAILED_CONTAINER_ERROR.
   */
  lemma {:induction false} ShortDestinationRejected(nativeLibPath: string)
    requires |nativeLibPath| < 10
    ensures !MkstempAccepts(TmpTemplateAsWritten(nativeLibPath))
  {
    var n := |nativeLibPath|;
    var copied := TMP_FILE_PATTERN[..10 - n];
    assert StrlcpyCopied(TMP_FILE_PATTERN, 11 - n) == copied;
    var t := nativeLibPath + copied;
    assert TmpTemplateAsWritten(nativeLibPath) == t;
    var window := t[|t| - 6..];
    if n >= 5 {
      assert window[5] == TMP_FILE_PATTERN[9 - n];
    } else {
      assert window[0] == TMP_FILE_PATTERN[4 - n];
    }
  }

  /** The concrete case: the directory "/data/lib" gets the template "/data/lib/". */
  lemma ShortDestinationExample()
    ensures TmpTemplateAsWritten("/data/lib") == "/data/lib/"
    ensures !MkstempAccepts("/data/lib/")
  {
    ShortDestinationRejected("/data/lib");
    assert TMP_FILE_PATTERN[..1] == "/";
    assert "/data/lib" + "/" == "/data/lib/";
  }

  /**
   * A directory of 10 or 11 characters leaves strlcpy room for no character
   * of the pattern (size 1 writes only a NUL, size 0 writes nothing), so the
   * template is the directory name itself. mkstemp accepts it only when the
   * directory name happens to end in six X's, and then it names a file
   * beside the directory rather than one inside it.
   */
  lemma {:induction false} BoundaryDestinationIsDirectory(nativeLibPath: string)
    requires 10 <= |nativeLibPath| <= 11
    ensures TmpTemplateAsWritten(nativeLibPath) == nativeLibPath
    ensures MkstempAccepts(TmpTemplateAsWritten(nativeLibPath)) <==> EndsWith(nativeLibPath, "XXXXXX")
  {
    var bound := (|TMP_FILE_PATTERN| - |nativeLibPath|) % SIZE_T_MODULUS;
    assert bound == 11 - |nativeLibPath|;
  }

  /**
   * A directory longer than the pattern makes the bound wrap around to a
   * huge size, strlcpy copies the whole pattern and the template as written
   * is the intended one.
   */
  lemma {:induction false} LongDestinationAgrees(nativeLibPath: string)
    requires |TMP_FILE_PATTERN| < |nativeLibPath| < SIZE_T_MODULUS
    ensures TmpTemplateAsWritten(nativeLibPath) == TmpTemplate(nativeLibPath)
  {
    var bound := (|TMP_FILE_PATTERN| - |nativeLibPath|) % SIZE_T_MODULUS;
    assert bound == SIZE_T_MODULUS + |TMP_FILE_PATTERN| - |nativeLibPath|;
  }
}
