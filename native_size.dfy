/**
 * sumNativeBinaries: the total uncompressed size of the native libraries of
 * one ABI, computed with the sumFiles callback.
 */
module NativeSize {
  import opened Options
  import opened CStrings
  import opened Status
  import opened Archive
  import opened NativeLibraries
  import opened NativeFiles

  /** sumFiles: add the entry's uncompressed length, or fail when its metadata cannot be read. */
  function SumFiles(total: nat, entry: ZipEntry, fileName: string): (r: (InstallStatus, nat))
    ensures r.0 == Succeeded <==> entry.info.Some?
    ensures r.0 != Succeeded ==> r == (InvalidApk, total)
    ensures r.0 == Succeeded ==> r.1 == total + entry.info.value.uncompLen
  {
    match entry.info
    case None => (InvalidApk, total)
    case Some(info) => (Succeeded, total + info.uncompLen)
  }

  /** The libraries before the first one whose metadata cannot be read. */
  function ReadablePrefix(libs: seq<NativeLib>): (r: seq<NativeLib>)
    ensures |r| <= |libs| && r == libs[..|r|]
    ensures forall k :: 0 <= k < |r| ==> r[k].entry.info.Some?
    ensures |r| < |libs| ==> libs[|r|].entry.info.None?
  {
    if libs == [] || libs[0].entry.info.None? then []
    else [libs[0]] + ReadablePrefix(libs[1..])
  }

  /** The sum of the uncompressed lengths of readable libraries. */
  function TotalSize(libs: seq<NativeLib>): nat
  {
    if libs == [] then 0
    else (match libs[0].entry.info case None => 0 case Some(info) => info.uncompLen) + TotalSize(libs[1..])
  }

  /**
   * Summing over a run of libraries: it succeeds exactly when every library
   * is readable, and the total is always the sum over the readable prefix
   * (a failure leaves the partial sum in place).
   */
  lemma {:induction false} SumFilesTotals(total: nat, libs: seq<NativeLib>)
    ensures RunCallbacks(SumFiles, total, libs) ==
            (if ReadablePrefix(libs) == libs then Succeeded else InvalidApk, total + TotalSize(ReadablePrefix(libs)))
    decreases |libs|
  {
    if libs != [] {
      var r := SumFiles(total, libs[0].entry, BaseName(libs[0].name));
      if r.0 == Succeeded {
        SumFilesTotals(r.1, libs[1..]);
        var p := ReadablePrefix(libs[1..]);
        assert ReadablePrefix(libs) == [libs[0]] + p;
        assert ([libs[0]] + p)[1..] == p;
        if p == libs[1..] {
          assert [libs[0]] + libs[1..] == libs;
        } else {
          assert |[libs[0]] + p| < |libs|;
        }
      }
    }
  }

  /**
   * sumNativeBinaries: the status of the iteration is dropped, so an
   * unreadable library truncates the total instead of failing the call, and
   * a NULL handle, an archive that cannot be iterated or an unreadable ABI
   * string gives 0.
   */
  method SumNativeBinaries(zipFile: ZipFileRO?, cpuAbi: Option<string>) returns (totalSize: nat)
    modifies zipFile
    ensures zipFile == null || !zipFile.iterable || cpuAbi.None? ==> totalSize == 0
    ensures zipFile != null && zipFile.iterable && cpuAbi.Some? ==>
              totalSize == TotalSize(ReadablePrefix(AbiLibs(NativeLibs(zipFile.entries, 0), cpuAbi.value)))
    ensures zipFile != null ==> zipFile.openIterations == old(zipFile.openIterations)
  {
    var status;
    status, totalSize := IterateOverNativeFiles(zipFile, cpuAbi, SumFiles, 0);
    if zipFile != null && zipFile.iterable && cpuAbi.Some? {
      SumFilesTotals(0, AbiLibs(NativeLibs(zipFile.entries, 0), cpuAbi.value));
    }
  }
}
