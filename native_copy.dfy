/**
 * copyNativeBinaries: install the native libraries of one ABI into a
 * directory, rewriting a file only when it differs from the archive entry.
 * The file system is a map from path to file record; every system call that
 * can fail takes its failure from an oracle consulted once per library.
 */
module NativeCopy {
  import opened Options
  import opened CStrings
  import opened Status
  import opened Archive
  import opened NativeLibraries
  import opened NativeFiles

  /** What lstat64 and open/read observe of one path. */
  datatype FileRec = FileRec(regular: bool, readable: bool, data: seq<bv8>, mtime: int, mode: int)

  /**
   * The environment of one copyFileIfChanged call: the name mkstemp
   * generates (the six characters replacing "XXXXXX") and which steps fail.
   */
  datatype Syscalls = Syscalls(tmpSuffix: string, mkstempFails: bool, uncompressFails: bool,
                               utimesFails: bool, chmodFails: bool, renameFails: bool)

  /** The file system, and how many copyFileIfChanged calls have consulted the oracle so far. */
  datatype FsState = FsState(files: map<string, FileRec>, calls: nat)

  /** Mode 0600 of a file fresh from mkstemp. */
  const TMP_MODE := 0x180
  /** Mode 0755 (S_IRWXU | S_IRGRP | S_IXGRP | S_IROTH | S_IXOTH) of an installed library. */
  const LIB_MODE := 0x1ED
  /** The pattern appended to the destination directory to make the mkstemp template. */
  const TMP_FILE_PATTERN := "/tmp.XXXXXX"

  /** mkstemp accepts a template that ends in six X's (and fails with EINVAL otherwise). */
  predicate MkstempAccepts(template: string)
  {
    EndsWith(template, "XXXXXX")
  }

  /** The mkstemp template for a destination directory: the directory, then the pattern. */
  function TmpTemplate(nativeLibPath: string): (t: string)
    ensures MkstempAccepts(t) && StartsWith(t, nativeLibPath + "/")
  {
    var t := nativeLibPath + TMP_FILE_PATTERN;
    assert t[|t| - 6..] == TMP_FILE_PATTERN[5..];
    assert t[..|nativeLibPath| + 1] == nativeLibPath + "/";
    t
  }

  /** The file mkstemp creates from an accepted template: its six X's replaced by `suffix`. */
  function MkstempName(template: string, suffix: string): string
    requires MkstempAccepts(template)
  {
    template[..|template| - 6] + suffix
  }

  /** The temporary file of one copy, for the characters mkstemp generates. */
  function TmpFileName(nativeLibPath: string, suffix: string): string
  {
    MkstempName(TmpTemplate(nativeLibPath), suffix)
  }

  /** The temporary file is `<nativeLibPath>/tmp.<suffix>`: a file of the destination directory. */
  lemma TmpFileNameInDirectory(nativeLibPath: string, suffix: string)
    ensures TmpFileName(nativeLibPath, suffix) == nativeLibPath + "/tmp." + suffix
    ensures StartsWith(TmpFileName(nativeLibPath, suffix), nativeLibPath + "/")
  {
    var t := TmpTemplate(nativeLibPath);
    assert t[..|t| - 6] == nativeLibPath + "/tmp.";
    var name := TmpFileName(nativeLibPath, suffix);
    assert name[..|nativeLibPath| + 1] == nativeLibPath + "/";
  }

  /** The record at `path`, if any. */
  function Lookup(files: map<string, FileRec>, path: string): Option<FileRec>
  {
    if path in files then Some(files[path]) else None
  }

  /** A file that matches an entry's metadata: a readable regular file with its size, time and checksum. */
  predicate Matches(rec: FileRec, info: EntryInfo, crc32: seq<bv8> -> int)
  {
    rec.regular && rec.readable && |rec.data| == info.uncompLen && rec.mtime == info.modTime &&
    crc32(rec.data) == info.crc
  }

  /**
   * isFileDifferent: the early-exit chain over lstat, the file type, the
   * size, the modification time, opening the file and the CRC-32 of its
   * contents. `crc32` is the zlib checksum. A file is left alone exactly
   * when it exists and matches the entry.
   */
  function IsFileDifferent(files: map<string, FileRec>, filePath: string, fileSize: nat, modifiedTime: int,
                           zipCrc: int, crc32: seq<bv8> -> int): (r: bool)
    ensures !r <==> filePath in files && Matches(files[filePath], EntryInfo(fileSize, modifiedTime, zipCrc), crc32)
  {
    if filePath !in files then true
    else
      var st := files[filePath];
      if !st.regular then true
      else if |st.data| != fileSize then true
      else if st.mtime != modifiedTime then true
      else if !st.readable then true
      else crc32(st.data) != zipCrc
  }

  /**
   * mkstemp: a new empty regular file with mode 0600, or failure. The real
   * call opens with O_EXCL and retries other names; here the oracle chooses
   * the name, and a name that is already taken stands for a failure the
   * oracle chose.
   */
  function Mkstemp(files: map<string, FileRec>, path: string, fails: bool): (r: Option<map<string, FileRec>>)
    ensures r.None? <==> fails || path in files
    ensures r.Some? ==> r.value == files[path := FileRec(true, true, [], 0, TMP_MODE)]
  {
    if fails || path in files then None else Some(files[path := FileRec(true, true, [], 0, TMP_MODE)])
  }

  /** unlink: the path is gone, nothing else changes. */
  function Unlink(files: map<string, FileRec>, path: string): (r: map<string, FileRec>)
    ensures path !in r
    ensures forall p :: p != path ==> Lookup(r, p) == Lookup(files, p)
  {
    files - {path}
  }

  /** rename: the record moves to `to`, replacing whatever was there. */
  function Rename(files: map<string, FileRec>, from: string, to: string): (r: map<string, FileRec>)
    requires from in files
    ensures Lookup(r, to) == Some(files[from])
    ensures from != to ==> from !in r
    ensures forall p :: p != from && p != to ==> Lookup(r, p) == Lookup(files, p)
  {
    Unlink(files, from)[to := files[from]]
  }

  /** The record an installed library ends with. */
  function Installed(entry: ZipEntry, info: EntryInfo): FileRec
  {
    FileRec(true, true, entry.contents, info.modTime, LIB_MODE)
  }

  /** `<nativeLibPath>/<fileName>`. */
  function LocalFileName(nativeLibPath: string, fileName: string): string
  {
    nativeLibPath + "/" + fileName
  }

  /**
   * copyFileIfChanged: read the entry's metadata, keep the installed file if
   * it matches, otherwise write the entry to a temporary file, set its time
   * and mode and rename it over the installed file. A failure after mkstemp
   * unlinks the temporary file.
   */
  function CopyFileIfChanged(nativeLibPath: string, crc32: seq<bv8> -> int, sys: nat -> Syscalls,
                             fs: FsState, zipEntry: ZipEntry, fileName: string): (r: (InstallStatus, FsState))
    ensures r.0 in {Succeeded, InvalidApk, ContainerError}
    ensures r.1.calls == fs.calls + 1
  {
    var s := sys(fs.calls);
    var calls := fs.calls + 1;
    match zipEntry.info
    case None => (InvalidApk, FsState(fs.files, calls))
    case Some(info) =>
      var localFileName := LocalFileName(nativeLibPath, fileName);
      if !IsFileDifferent(fs.files, localFileName, info.uncompLen, info.modTime, info.crc, crc32) then
        (Succeeded, FsState(fs.files, calls))
      else
        var localTmpFileName := TmpFileName(nativeLibPath, s.tmpSuffix);
        match Mkstemp(fs.files, localTmpFileName, s.mkstempFails)
        case None => (ContainerError, FsState(fs.files, calls))
        case Some(created) =>
          if s.uncompressFails then (ContainerError, FsState(Unlink(created, localTmpFileName), calls))
          else
            var written := created[localTmpFileName := created[localTmpFileName].(data := zipEntry.contents)];
            if s.utimesFails then (ContainerError, FsState(Unlink(written, localTmpFileName), calls))
            else
              var timed := written[localTmpFileName := written[localTmpFileName].(mtime := info.modTime)];
              if s.chmodFails then (ContainerError, FsState(Unlink(timed, localTmpFileName), calls))
              else
                var moded := timed[localTmpFileName := timed[localTmpFileName].(mode := LIB_MODE)];
                if s.renameFails then (ContainerError, FsState(Unlink(moded, localTmpFileName), calls))
                else (Succeeded, FsState(Rename(moded, localTmpFileName, localFileName), calls))
  }

  /**
   * The outcomes of one call. Unreadable metadata fails with nothing
   * touched; a matching file is kept; otherwise either the destination now
   * holds the entry (contents, time, mode 0755) and nothing else changed,
   * or the call failed with INSTALL_FAILED_CONTAINER_ERROR and the file
   * system is exactly as before.
   */
  lemma {:induction false} CopyFileIfChangedOutcome(nativeLibPath: string, crc32: seq<bv8> -> int, sys: nat -> Syscalls,
                                 fs: FsState, zipEntry: ZipEntry, fileName: string)
    ensures var r := CopyFileIfChanged(nativeLibPath, crc32, sys, fs, zipEntry, fileName);
            var dest := LocalFileName(nativeLibPath, fileName);
            var s := sys(fs.calls);
            r.1.calls == fs.calls + 1 &&
            (zipEntry.info.None? ==> r.0 == InvalidApk && r.1.files == fs.files) &&
            (zipEntry.info.Some? && dest in fs.files && Matches(fs.files[dest], zipEntry.info.value, crc32) ==>
               r.0 == Succeeded && r.1.files == fs.files) &&
            (zipEntry.info.Some? && !(dest in fs.files && Matches(fs.files[dest], zipEntry.info.value, crc32)) ==>
               (r.0 == Succeeded <==>
                  !s.mkstempFails && TmpFileName(nativeLibPath, s.tmpSuffix) !in fs.files && !s.uncompressFails &&
                  !s.utimesFails && !s.chmodFails && !s.renameFails) &&
               (r.0 == Succeeded ==> r.1.files == fs.files[dest := Installed(zipEntry, zipEntry.info.value)]) &&
               (r.0 != Succeeded ==> r.0 == ContainerError && r.1.files == fs.files))
  {
    var dest := LocalFileName(nativeLibPath, fileName);
    var s := sys(fs.calls);
    var tmp := TmpFileName(nativeLibPath, s.tmpSuffix);
    match zipEntry.info {
      case None =>
      case Some(info) =>
        if IsFileDifferent(fs.files, dest, info.uncompLen, info.modTime, info.crc, crc32) && tmp !in fs.files {
          var rec := FileRec(true, true, [], 0, TMP_MODE);
          var installed := Installed(zipEntry, info);
          var m1 := fs.files[tmp := rec];
          var m2 := m1[tmp := rec.(data := zipEntry.contents)];
          var m3 := m2[tmp := rec.(data := zipEntry.contents).(mtime := info.modTime)];
          var m4 := m3[tmp := installed];
          assert m4 == fs.files[tmp := installed];
          forall m: map<string, FileRec> | m == m1 || m == m2 || m == m3 || m == m4
            ensures Unlink(m, tmp) == fs.files
          {
            assert m - {tmp} == fs.files;
          }
          assert Rename(m4, tmp, dest) == fs.files[dest := installed];
        }
    }
  }

  /** A second call right after a successful one finds the file matching and changes nothing. */
  lemma {:induction false} CopyFileIfChangedIdempotent(nativeLibPath: string, crc32: seq<bv8> -> int, sys: nat -> Syscalls,
                                    fs: FsState, zipEntry: ZipEntry, fileName: string)
    requires zipEntry.info.Some?
    requires |zipEntry.contents| == zipEntry.info.value.uncompLen && crc32(zipEntry.contents) == zipEntry.info.value.crc
    ensures var r := CopyFileIfChanged(nativeLibPath, crc32, sys, fs, zipEntry, fileName);
            r.0 == Succeeded ==>
              CopyFileIfChanged(nativeLibPath, crc32, sys, r.1, zipEntry, fileName) ==
                (Succeeded, FsState(r.1.files, r.1.calls + 1))
  {
    var r := CopyFileIfChanged(nativeLibPath, crc32, sys, fs, zipEntry, fileName);
    CopyFileIfChangedOutcome(nativeLibPath, crc32, sys, fs, zipEntry, fileName);
    CopyFileIfChangedOutcome(nativeLibPath, crc32, sys, r.1, zipEntry, fileName);
    var dest := LocalFileName(nativeLibPath, fileName);
    if r.0 == Succeeded {
      assert dest in r.1.files && Matches(r.1.files[dest], zipEntry.info.value, crc32);
    }
  }

  /** copyFileIfChanged as the iteration callback, for one destination directory. */
  function CopyCallback(nativeLibPath: string, crc32: seq<bv8> -> int, sys: nat -> Syscalls): Callback<FsState>
  {
    (fs: FsState, zipEntry: ZipEntry, fileName: string) =>
      CopyFileIfChanged(nativeLibPath, crc32, sys, fs, zipEntry, fileName)
  }

  /** The destination paths of a run of libraries. */
  function Dests(nativeLibPath: string, libs: seq<NativeLib>): set<string>
  {
    if libs == [] then {} else {LocalFileName(nativeLibPath, BaseName(libs[0].name))} + Dests(nativeLibPath, libs[1..])
  }

  /** A run of copies leaves every path other than the libraries' destinations as it was, temporary names included. */
  lemma {:induction false} CopyRunTouchesOnlyTargets(nativeLibPath: string, crc32: seq<bv8> -> int, sys: nat -> Syscalls,
                                                     fs: FsState, libs: seq<NativeLib>, path: string)
    requires path !in Dests(nativeLibPath, libs)
    ensures Lookup(RunCallbacks(CopyCallback(nativeLibPath, crc32, sys), fs, libs).1.files, path) == Lookup(fs.files, path)
    decreases |libs|
  {
    if libs != [] {
      var f := CopyCallback(nativeLibPath, crc32, sys);
      var r := f(fs, libs[0].entry, BaseName(libs[0].name));
      CopyFileIfChangedOutcome(nativeLibPath, crc32, sys, fs, libs[0].entry, BaseName(libs[0].name));
      assert Lookup(r.1.files, path) == Lookup(fs.files, path);
      if r.0 == Succeeded {
        CopyRunTouchesOnlyTargets(nativeLibPath, crc32, sys, r.1, libs[1..], path);
      }
    }
  }

  /** `<nativeLibPath>/<fileName>` determines the file name. */
  lemma LocalFileNameInjective(nativeLibPath: string, a: string, b: string)
    ensures a != b ==> LocalFileName(nativeLibPath, a) != LocalFileName(nativeLibPath, b)
  {
    assert LocalFileName(nativeLibPath, a)[|nativeLibPath| + 1..] == a;
    assert LocalFileName(nativeLibPath, b)[|nativeLibPath| + 1..] == b;
  }

  /** The destinations of a run are those of its libraries. */
  lemma {:induction false} DestsMembers(nativeLibPath: string, libs: seq<NativeLib>, path: string)
    ensures path in Dests(nativeLibPath, libs) <==>
            exists i :: 0 <= i < |libs| && path == LocalFileName(nativeLibPath, BaseName(libs[i].name))
    decreases |libs|
  {
    if libs != [] {
      DestsMembers(nativeLibPath, libs[1..], path);
      if path in Dests(nativeLibPath, libs[1..]) {
        var i :| 0 <= i < |libs| - 1 && path == LocalFileName(nativeLibPath, BaseName(libs[1..][i].name));
        assert libs[1..][i] == libs[i + 1];
      }
      if exists i :: 0 < i < |libs| && path == LocalFileName(nativeLibPath, BaseName(libs[i].name)) {
        var i :| 0 < i < |libs| && path == LocalFileName(nativeLibPath, BaseName(libs[i].name));
        assert libs[1..][i - 1] == libs[i];
      }
    }
  }

  /** The entry's metadata describes its contents: the size and CRC-32 getEntryInfo reports are those of the bytes it decompresses to. */
  predicate Consistent(entry: ZipEntry, crc32: seq<bv8> -> int)
  {
    entry.info.Some? ==> |entry.contents| == entry.info.value.uncompLen && crc32(entry.contents) == entry.info.value.crc
  }

  /** No two libraries of a run are installed under the same file name. */
  predicate DistinctNames(libs: seq<NativeLib>)
  {
    forall i, j :: 0 <= i < j < |libs| ==> BaseName(libs[i].name) != BaseName(libs[j].name)
  }

  /** Every library of the run has a matching file at its destination. */
  predicate AllInstalled(nativeLibPath: string, crc32: seq<bv8> -> int, files: map<string, FileRec>, libs: seq<NativeLib>)
  {
    forall i :: 0 <= i < |libs| ==>
      libs[i].entry.info.Some? && LocalFileName(nativeLibPath, BaseName(libs[i].name)) in files &&
      Matches(files[LocalFileName(nativeLibPath, BaseName(libs[i].name))], libs[i].entry.info.value, crc32)
  }

  /** A run over libraries that are all installed and matching succeeds and writes nothing. */
  lemma {:induction false} CopyRunMatchedNoop(nativeLibPath: string, crc32: seq<bv8> -> int, sys: nat -> Syscalls,
                                              fs: FsState, libs: seq<NativeLib>)
    requires AllInstalled(nativeLibPath, crc32, fs.files, libs)
    ensures var r := RunCallbacks(CopyCallback(nativeLibPath, crc32, sys), fs, libs);
            r.0 == Succeeded && r.1.files == fs.files
    decreases |libs|
  {
    if libs != [] {
      var f := CopyCallback(nativeLibPath, crc32, sys);
      var r := f(fs, libs[0].entry, BaseName(libs[0].name));
      CopyFileIfChangedOutcome(nativeLibPath, crc32, sys, fs, libs[0].entry, BaseName(libs[0].name));
      assert forall i :: 0 <= i < |libs| - 1 ==> libs[1..][i] == libs[i + 1];
      CopyRunMatchedNoop(nativeLibPath, crc32, sys, r.1, libs[1..]);
    }
  }

  /**
   * A successful run over libraries with distinct names and consistent
   * entries leaves every one of them installed and matching: a later copy
   * cannot overwrite an earlier one.
   */
  lemma {:induction false} CopyRunInstallsAll(nativeLibPath: string, crc32: seq<bv8> -> int, sys: nat -> Syscalls,
                                              fs: FsState, libs: seq<NativeLib>)
    requires DistinctNames(libs)
    requires forall i :: 0 <= i < |libs| ==> Consistent(libs[i].entry, crc32)
    ensures var r := RunCallbacks(CopyCallback(nativeLibPath, crc32, sys), fs, libs);
            r.0 == Succeeded ==> AllInstalled(nativeLibPath, crc32, r.1.files, libs)
    decreases |libs|
  {
    if libs != [] {
      var f := CopyCallback(nativeLibPath, crc32, sys);
      var name := BaseName(libs[0].name);
      var dest := LocalFileName(nativeLibPath, name);
      var r1 := f(fs, libs[0].entry, name);
      CopyFileIfChangedOutcome(nativeLibPath, crc32, sys, fs, libs[0].entry, name);
      if r1.0 == Succeeded {
        var rest := libs[1..];
        assert forall i :: 0 <= i < |rest| ==> rest[i] == libs[i + 1];
        CopyRunInstallsAll(nativeLibPath, crc32, sys, r1.1, rest);
        forall i | 0 <= i < |rest|
          ensures LocalFileName(nativeLibPath, BaseName(rest[i].name)) != dest
        {
          LocalFileNameInjective(nativeLibPath, name, BaseName(rest[i].name));
        }
        DestsMembers(nativeLibPath, rest, dest);
        CopyRunTouchesOnlyTargets(nativeLibPath, crc32, sys, r1.1, rest, dest);
      }
    }
  }

  /**
   * Extracting the same archive for the same ABI into the same directory a
   * second time, right after a run that succeeded, succeeds again and writes
   * nothing, provided no two of the ABI's libraries share a file name and
   * every entry's size and CRC-32 describe its contents.
   */
  lemma CopyRunIdempotent(entries: seq<ZipEntry>, cpuAbi: string, nativeLibPath: string,
                          crc32: seq<bv8> -> int, sys: nat -> Syscalls, fs: FsState)
    requires DistinctNames(AbiLibs(NativeLibs(entries, 0), cpuAbi))
    requires forall i :: 0 <= i < |entries| ==> Consistent(entries[i], crc32)
    ensures var libs := AbiLibs(NativeLibs(entries, 0), cpuAbi);
            var r := RunCallbacks(CopyCallback(nativeLibPath, crc32, sys), fs, libs);
            r.0 == Succeeded ==>
              var again := RunCallbacks(CopyCallback(nativeLibPath, crc32, sys), r.1, libs);
              again.0 == Succeeded && again.1.files == r.1.files
  {
    var libs := AbiLibs(NativeLibs(entries, 0), cpuAbi);
    AbiLibsMembers(NativeLibs(entries, 0), cpuAbi);
    NativeLibsSound(entries, 0);
    assert forall i :: 0 <= i < |libs| ==> libs[i] in libs && IsLibAt(entries, libs[i]);
    var r := RunCallbacks(CopyCallback(nativeLibPath, crc32, sys), fs, libs);
    CopyRunInstallsAll(nativeLibPath, crc32, sys, fs, libs);
    if r.0 == Succeeded {
      CopyRunMatchedNoop(nativeLibPath, crc32, sys, r.1, libs);
    }
  }

  /**
   * copyNativeBinaries: copyFileIfChanged over the libraries of `cpuAbi`,
   * stopping at the first failure, returned as its install_status_t
   * integer; no path outside their destinations changes.
   */
  method CopyNativeBinaries(zipFile: ZipFileRO?, nativeLibPath: string, cpuAbi: Option<string>,
                            crc32: seq<bv8> -> int, sys: nat -> Syscalls, fs: FsState)
    returns (status: int, fsOut: FsState)
    modifies zipFile
    ensures zipFile == null || !zipFile.iterable || cpuAbi.None? ==> status == INSTALL_FAILED_INVALID_APK && fsOut == fs
    ensures zipFile != null && zipFile.iterable && cpuAbi.Some? ==>
              var r := RunCallbacks(CopyCallback(nativeLibPath, crc32, sys), fs,
                                    AbiLibs(NativeLibs(zipFile.entries, 0), cpuAbi.value));
              status == r.0.Code() && fsOut == r.1
    ensures zipFile != null && zipFile.iterable && cpuAbi.Some? ==>
              forall path :: path !in Dests(nativeLibPath, AbiLibs(NativeLibs(zipFile.entries, 0), cpuAbi.value)) ==>
                Lookup(fsOut.files, path) == Lookup(fs.files, path)
    ensures zipFile != null ==> zipFile.openIterations == old(zipFile.openIterations)
  {
    var result;
    result, fsOut := IterateOverNativeFiles(zipFile, cpuAbi, CopyCallback(nativeLibPath, crc32, sys), fs);
    status := result.Code();
    if zipFile != null && zipFile.iterable && cpuAbi.Some? {
      var libs := AbiLibs(NativeLibs(zipFile.entries, 0), cpuAbi.value);
      forall path | path !in Dests(nativeLibPath, libs)
        ensures Lookup(fsOut.files, path) == Lookup(fs.files, path)
      {
        CopyRunTouchesOnlyTargets(nativeLibPath, crc32, sys, fs, libs, path);
      }
    }
  }
}
