/**
 * The per-library driver: run a callback on every native library built for
 * one ABI, stopping at the first callback that does not report success.
 */
module NativeFiles {
  import opened Options
  import opened CStrings
  import opened Status
  import opened Archive
  import opened NativeLibraries

  /**
   * An iteration callback. The state it threads is what the callback's
   * `void*` argument points to; it gets the entry and the library's base name
   * and returns a status together with the updated state.
   */
  type Callback<!S> = (S, ZipEntry, string) -> (InstallStatus, S)

  /** The libraries, in order, whose ABI region is exactly `cpuAbi`. */
  function AbiLibs(libs: seq<NativeLib>, cpuAbi: string): (r: seq<NativeLib>)
    ensures |r| <= |libs|
  {
    if libs == [] then []
    else if AbiLabel(libs[0].name) == Some(cpuAbi) then [libs[0]] + AbiLibs(libs[1..], cpuAbi)
    else AbiLibs(libs[1..], cpuAbi)
  }

  /** AbiLibs keeps exactly the libraries of the ABI. */
  lemma {:induction false} AbiLibsMembers(libs: seq<NativeLib>, cpuAbi: string)
    ensures forall lib :: lib in AbiLibs(libs, cpuAbi) <==> lib in libs && AbiLabel(lib.name) == Some(cpuAbi)
  {
    if libs != [] {
      AbiLibsMembers(libs[1..], cpuAbi);
      assert libs == [libs[0]] + libs[1..];
    }
  }

  /** The callback run over `libs` in order, stopping at the first status other than success. */
  function RunCallbacks<S>(callFunc: Callback<S>, arg: S, libs: seq<NativeLib>): (InstallStatus, S)
  {
    if libs == [] then (Succeeded, arg)
    else
      var r := callFunc(arg, libs[0].entry, BaseName(libs[0].name));
      if r.0 != Succeeded then r else RunCallbacks(callFunc, r.1, libs[1..])
  }

  /** Running over a concatenation runs the second part from where the first left off, unless it failed. */
  lemma {:induction false} RunCallbacksAppend<S>(callFunc: Callback<S>, arg: S, xs: seq<NativeLib>, ys: seq<NativeLib>)
    ensures RunCallbacks(callFunc, arg, xs + ys) ==
            var r := RunCallbacks(callFunc, arg, xs);
            if r.0 != Succeeded then r else RunCallbacks(callFunc, r.1, ys)
  {
    if xs != [] {
      assert (xs + ys)[1..] == xs[1..] + ys;
      var r := callFunc(arg, xs[0].entry, BaseName(xs[0].name));
      if r.0 == Succeeded {
        RunCallbacksAppend(callFunc, r.1, xs[1..], ys);
      }
    } else {
      assert xs + ys == ys;
    }
  }

  /**
   * A failed run reports the status of the first callback call that failed:
   * the calls on the libraries before it all succeeded, and it was made with
   * the state they left.
   */
  lemma {:induction false} RunCallbacksStatus<S>(callFunc: Callback<S>, arg: S, libs: seq<NativeLib>)
    ensures var r := RunCallbacks(callFunc, arg, libs);
            r.0 != Succeeded ==>
              exists k :: 0 <= k < |libs| && RunCallbacks(callFunc, arg, libs[..k]).0 == Succeeded &&
                          r == callFunc(RunCallbacks(callFunc, arg, libs[..k]).1, libs[k].entry, BaseName(libs[k].name))
    decreases |libs|
  {
    if libs != [] {
      var r := callFunc(arg, libs[0].entry, BaseName(libs[0].name));
      if r.0 == Succeeded {
        var rest := libs[1..];
        RunCallbacksStatus(callFunc, r.1, rest);
        var t := RunCallbacks(callFunc, r.1, rest);
        if t.0 != Succeeded {
          var k :| 0 <= k < |rest| && RunCallbacks(callFunc, r.1, rest[..k]).0 == Succeeded &&
                   t == callFunc(RunCallbacks(callFunc, r.1, rest[..k]).1, rest[k].entry, BaseName(rest[k].name));
          assert libs[..k + 1] == [libs[0]] + rest[..k];
          RunCallbacksCons(callFunc, arg, libs[0], rest[..k]);
          assert rest[k] == libs[k + 1];
        }
      } else {
        assert libs[..0] == [];
      }
    }
  }

  /** AbiLibs on a list with a known head. */
  lemma {:induction false} AbiLibsCons(lib: NativeLib, rest: seq<NativeLib>, cpuAbi: string)
    ensures AbiLibs([lib] + rest, cpuAbi) ==
            if AbiLabel(lib.name) == Some(cpuAbi) then [lib] + AbiLibs(rest, cpuAbi) else AbiLibs(rest, cpuAbi)
  {
    assert ([lib] + rest)[1..] == rest;
  }

  /** RunCallbacks on a list with a known head. */
  lemma {:induction false} RunCallbacksCons<S>(callFunc: Callback<S>, arg: S, lib: NativeLib, rest: seq<NativeLib>)
    ensures RunCallbacks(callFunc, arg, [lib] + rest) ==
            var r := callFunc(arg, lib.entry, BaseName(lib.name));
            if r.0 != Succeeded then r else RunCallbacks(callFunc, r.1, rest)
  {
    assert ([lib] + rest)[1..] == rest;
  }

  /**
   * The library next() found at index `i` is built for `cpuAbi`: the
   * callback runs on its base name, then on the libraries after it unless
   * it failed.
   */
  lemma {:induction false} RunCallbacksMatch<S>(callFunc: Callback<S>, arg: S, entries: seq<ZipEntry>, from: nat, i: nat,
                                                name: string, lastSlash: nat, cpuAbi: string, r: (InstallStatus, S))
    requires i < |entries| && NativeLibs(entries, from) == [NativeLib(i, entries[i], name, lastSlash)] + NativeLibs(entries, i + 1)
    requires lastSlash < |name| && AbiRegion(name, lastSlash) == Some(cpuAbi)
    requires r == callFunc(arg, entries[i], name[lastSlash + 1..])
    ensures RunCallbacks(callFunc, arg, AbiLibs(NativeLibs(entries, from), cpuAbi)) ==
            if r.0 != Succeeded then r else RunCallbacks(callFunc, r.1, AbiLibs(NativeLibs(entries, i + 1), cpuAbi))
  {
    HeadLabel(entries, from, i, name, lastSlash);
    var lib := NativeLib(i, entries[i], name, lastSlash);
    var rest := NativeLibs(entries, i + 1);
    AbiLibsCons(lib, rest, cpuAbi);
    RunCallbacksCons(callFunc, arg, lib, AbiLibs(rest, cpuAbi));
  }

  /** The library next() found at index `i` is built for another ABI: it is passed over. */
  lemma {:induction false} RunCallbacksSkip<S>(callFunc: Callback<S>, arg: S, entries: seq<ZipEntry>, from: nat, i: nat,
                                               name: string, lastSlash: nat, cpuAbi: string)
    requires i < |entries| && NativeLibs(entries, from) == [NativeLib(i, entries[i], name, lastSlash)] + NativeLibs(entries, i + 1)
    requires lastSlash < |name| && AbiRegion(name, lastSlash) != Some(cpuAbi)
    ensures RunCallbacks(callFunc, arg, AbiLibs(NativeLibs(entries, from), cpuAbi)) ==
            RunCallbacks(callFunc, arg, AbiLibs(NativeLibs(entries, i + 1), cpuAbi))
  {
    HeadLabel(entries, from, i, name, lastSlash);
    AbiLibsCons(NativeLib(i, entries[i], name, lastSlash), NativeLibs(entries, i + 1), cpuAbi);
  }

  /**
   * iterateOverNativeFiles without the accelerator. `cpuAbi` is None when
   * the Java string cannot be read. Every path that started an iteration
   * ends it.
   */
  method IterateOverNativeFiles<S>(zipFile: ZipFileRO?, cpuAbi: Option<string>, callFunc: Callback<S>, callArg: S)
    returns (status: InstallStatus, arg: S)
    modifies zipFile
    ensures zipFile == null || !zipFile.iterable || cpuAbi.None? ==> status == InvalidApk && arg == callArg
    ensures zipFile != null && zipFile.iterable && cpuAbi.Some? ==>
              (status, arg) == RunCallbacks(callFunc, callArg, AbiLibs(NativeLibs(zipFile.entries, 0), cpuAbi.value))
    ensures zipFile != null ==> zipFile.openIterations == old(zipFile.openIterations)
  {
    arg := callArg;
    if zipFile == null {
      return InvalidApk, arg;
    }
    var it := NativeLibrariesIterator.Create(zipFile);
    if it == null {
      return InvalidApk, arg;
    }
    if cpuAbi.None? {
      it.Dispose();
      return InvalidApk, arg;
    }
    status, arg := ForEachLibrary(it, cpuAbi.value, callFunc, callArg);
    it.Dispose();
  }

  /**
   * The scan loop of iterateOverNativeFiles: every library next() yields
   * whose ABI region is `cpuAbi` goes to the callback, until one fails or
   * the archive is exhausted.
   */
  method ForEachLibrary<S>(it: NativeLibrariesIterator, cpuAbi: string, callFunc: Callback<S>, callArg: S)
    returns (status: InstallStatus, arg: S)
    requires it.Valid()
    modifies it
    ensures it.Valid()
    ensures (status, arg) == RunCallbacks(callFunc, callArg, AbiLibs(NativeLibs(it.zipFile.entries, old(it.cursor)), cpuAbi))
  {
    arg := callArg;
    var entries := it.zipFile.entries;
    ghost var goal := RunCallbacks(callFunc, callArg, AbiLibs(NativeLibs(entries, it.cursor), cpuAbi));
    while true
      invariant it.Valid()
      invariant goal == RunCallbacks(callFunc, arg, AbiLibs(NativeLibs(entries, it.cursor), cpuAbi))
      decreases |entries| - it.cursor
    {
      ghost var from := it.cursor;
      var next := it.Next();
      if next.None? {
        break;
      }
      var region := AbiRegion(it.fileName, it.lastSlash);
      if region == Some(cpuAbi) {
        var baseName := it.fileName[it.lastSlash + 1..];
        var r := callFunc(arg, entries[next.value], baseName);
        RunCallbacksMatch(callFunc, arg, entries, from, next.value, it.fileName, it.lastSlash, cpuAbi, r);
        arg := r.1;
        if r.0 != Succeeded {
          return r.0, arg;
        }
      } else {
        RunCallbacksSkip(callFunc, arg, entries, from, next.value, it.fileName, it.lastSlash, cpuAbi);
      }
    }
    return Succeeded, arg;
  }

  /** The accelerator's per-library state for iterateOverNativeFiles. */
  class LibFileDealer<S> {
    const zipFile: ZipFileRO
    const callFunc: Callback<S>
    var callArg: S
    const cpuAbi: string
    var ret: InstallStatus

    constructor (zipFile: ZipFileRO, callFunc: Callback<S>, callArg: S, cpuAbi: string)
      ensures this.zipFile == zipFile && this.callFunc == callFunc && this.callArg == callArg
      ensures this.cpuAbi == cpuAbi && ret == Succeeded
    {
      this.zipFile := zipFile;
      this.callFunc := callFunc;
      this.callArg := callArg;
      this.cpuAbi := cpuAbi;
      ret := Succeeded;
    }
  }

  /**
   * dealLibFile: the accelerator's per-library callback. A library of the
   * dealer's ABI is looked up by name and handed to the callback; the
   * result asks the caller to stop (1) when the callback failed.
   */
  method DealLibFile<S>(fileName: array<char>, fileNameLen: int, dealer: LibFileDealer<S>) returns (ret: int)
    requires 0 <= fileNameLen < fileName.Length
    modifies fileName, dealer
    ensures fileName[..] == old(fileName[..])
    ensures var name := CStr(old(fileName[..fileNameLen]));
            if AbiLabel(name) == Some(dealer.cpuAbi) then
              (dealer.ret, dealer.callArg) ==
                dealer.callFunc(old(dealer.callArg), FindEntryByName(dealer.zipFile.entries, name), BaseName(name)) &&
              (ret == 1 <==> dealer.ret != Succeeded)
            else
              dealer.ret == old(dealer.ret) && dealer.callArg == old(dealer.callArg) && ret == 0
    ensures ret == 0 || ret == 1
  {
    ghost var original := fileName[..];
    var temp := fileName[fileNameLen];
    fileName[fileNameLen] := '\0';
    var name := CStr(fileName[..]);
    CStrStopsAtNul(fileName[..], fileNameLen);
    assert fileName[..][..fileNameLen] == original[..fileNameLen];
    ret := 0;
    if AbiLabel(name) == Some(dealer.cpuAbi) {
      var entry := FindEntryByName(dealer.zipFile.entries, name);
      var r := dealer.callFunc(dealer.callArg, entry, BaseName(name));
      dealer.ret := r.0;
      dealer.callArg := r.1;
      if dealer.ret != Succeeded {
        ret := 1;
      }
    }
    fileName[fileNameLen] := temp;
    assert fileName[..] == original;
  }
}
