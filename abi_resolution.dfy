/**
 * ABI resolution: which entry of the caller's ordered ABI list (position 0 =
 * most preferred) best matches the native libraries of the archive.
 */
module AbiResolution {
  import opened Options
  import opened CStrings
  import opened Status
  import opened Archive
  import opened NativeLibraries

  /** The three outcomes of a completed scan. */
  datatype Resolution = NoLibraries | NoMatch | Matched(index: nat)
  {
    /** The integer findSupportedAbi returns: the index, or a negative sentinel. */
    function Code(): (c: int)
      ensures c >= 0 <==> Matched?
      ensures Matched? ==> c == index
      ensures NoLibraries? <==> c == NO_NATIVE_LIBRARIES
      ensures NoMatch? <==> c == INSTALL_FAILED_NO_MATCHING_ABIS
    {
      match this
      case NoLibraries => NO_NATIVE_LIBRARIES
      case NoMatch => INSTALL_FAILED_NO_MATCHING_ABIS
      case Matched(i) => i
    }
  }

  /** The ABI labels of a run of libraries, in order. */
  function Labels(libs: seq<NativeLib>): (r: seq<Option<string>>)
    ensures |r| == |libs|
  {
    if libs == [] then [] else Labels(libs[..|libs| - 1]) + [AbiLabel(libs[|libs| - 1].name)]
  }

  /** The lowest index at or after `from` whose ABI is among `labels`. */
  function FirstPreferred(supportedAbis: seq<string>, labels: seq<Option<string>>, from: nat): (r: Option<nat>)
    decreases |supportedAbis| - from
    ensures r.Some? ==> from <= r.value < |supportedAbis|
  {
    if from >= |supportedAbis| then None
    else if Some(supportedAbis[from]) in labels then Some(from)
    else FirstPreferred(supportedAbis, labels, from + 1)
  }

  /** FirstPreferred finds a preference some label names, and no earlier preference is named. */
  lemma {:induction false} FirstPreferredSpec(supportedAbis: seq<string>, labels: seq<Option<string>>, from: nat)
    decreases |supportedAbis| - from
    ensures var r := FirstPreferred(supportedAbis, labels, from);
            r.Some? ==> Some(supportedAbis[r.value]) in labels
    ensures var r := FirstPreferred(supportedAbis, labels, from);
            forall i :: from <= i < |supportedAbis| && (r.None? || i < r.value) ==> Some(supportedAbis[i]) !in labels
  {
    if from < |supportedAbis| && Some(supportedAbis[from]) !in labels {
      FirstPreferredSpec(supportedAbis, labels, from + 1);
    }
  }

  /**
   * The outcome of a full scan whose accepted entries carry `labels`: no
   * native code, native code that matches nothing, or the most preferred ABI
   * some entry has.
   */
  function Resolve(labels: seq<Option<string>>, supportedAbis: seq<string>): (r: Resolution)
    ensures r == NoLibraries <==> labels == []
    ensures r.Matched? ==> r.index < |supportedAbis|
  {
    if labels == [] then NoLibraries
    else match FirstPreferred(supportedAbis, labels, 0)
      case None => NoMatch
      case Some(i) => Matched(i)
  }

  /**
   * What the scan's outcome means: no libraries at all, libraries none of
   * whose ABIs is supported, or the most preferred supported ABI that some
   * library has.
   */
  lemma {:induction false} ResolveMeaning(labels: seq<Option<string>>, supportedAbis: seq<string>)
    ensures var r := Resolve(labels, supportedAbis);
            r == NoMatch <==>
              labels != [] && forall i :: 0 <= i < |supportedAbis| ==> Some(supportedAbis[i]) !in labels
    ensures var r := Resolve(labels, supportedAbis);
            r.Matched? ==>
              labels != [] && Some(supportedAbis[r.index]) in labels &&
              forall i :: 0 <= i < r.index ==> Some(supportedAbis[i]) !in labels
  {
    FirstPreferredSpec(supportedAbis, labels, 0);
  }

  /**
   * The inner loop over a preference list: each index whose ABI is the label
   * replaces the status when the status is negative or a larger index.
   */
  function Update(status: int, abiLabel: Option<string>, supportedAbis: seq<string>): (r: int)
    ensures r == status || (0 <= r < |supportedAbis| && abiLabel == Some(supportedAbis[r]))
    ensures 0 <= status ==> 0 <= r <= status
    decreases |supportedAbis|
  {
    if supportedAbis == [] then status
    else
      var i := |supportedAbis| - 1;
      var u := Update(status, abiLabel, supportedAbis[..i]);
      if abiLabel == Some(supportedAbis[i]) && (u < 0 || i < u) then i else u
  }

  /**
   * The per-entry rule: NO_NATIVE_LIBRARIES drops to NO_MATCHING_ABIS, then
   * Update. Once a library has been seen the status is never
   * NO_NATIVE_LIBRARIES again; a new value is an index whose ABI is this
   * library's label, and a matched index can only move to a more preferred one.
   */
  function Step(status: int, abiLabel: Option<string>, supportedAbis: seq<string>): (r: int)
    ensures r != NO_NATIVE_LIBRARIES
    ensures r == status || r == INSTALL_FAILED_NO_MATCHING_ABIS ||
            (0 <= r < |supportedAbis| && abiLabel == Some(supportedAbis[r]))
    ensures 0 <= status ==> 0 <= r <= status
  {
    Update(if status == NO_NATIVE_LIBRARIES then INSTALL_FAILED_NO_MATCHING_ABIS else status,
           abiLabel, supportedAbis)
  }

  /** Any `r` that satisfies FirstPreferred's characterisation is its result. */
  lemma {:induction false} FirstPreferredUnique(supportedAbis: seq<string>, labels: seq<Option<string>>, r: Option<nat>)
    requires r.Some? ==> r.value < |supportedAbis| && Some(supportedAbis[r.value]) in labels
    requires forall i :: 0 <= i < |supportedAbis| && (r.None? || i < r.value) ==> Some(supportedAbis[i]) !in labels
    ensures FirstPreferred(supportedAbis, labels, 0) == r
  {
    var f := FirstPreferred(supportedAbis, labels, 0);
    FirstPreferredSpec(supportedAbis, labels, 0);
    if f.Some? && r.Some? {
      if f.value < r.value { assert false; }
      if r.value < f.value { assert false; }
    }
  }

  /** Adding one label: the first preference is the better of the two. */
  lemma {:induction false} FirstPreferredAppend(supportedAbis: seq<string>, labels: seq<Option<string>>, abiLabel: Option<string>)
    ensures FirstPreferred(supportedAbis, labels + [abiLabel], 0) ==
            match (FirstPreferred(supportedAbis, labels, 0), FirstPreferred(supportedAbis, [abiLabel], 0))
            case (None, b) => b
            case (a, None) => a
            case (Some(x), Some(y)) => Some(if x < y then x else y)
  {
    var a := FirstPreferred(supportedAbis, labels, 0);
    var b := FirstPreferred(supportedAbis, [abiLabel], 0);
    FirstPreferredSpec(supportedAbis, labels, 0);
    FirstPreferredSpec(supportedAbis, [abiLabel], 0);
    var r := match (a, b)
      case (None, b) => b
      case (a, None) => a
      case (Some(x), Some(y)) => Some(if x < y then x else y);
    forall i | 0 <= i < |supportedAbis| ensures Some(supportedAbis[i]) in labels + [abiLabel] <==>
                                                (Some(supportedAbis[i]) in labels || Some(supportedAbis[i]) in [abiLabel]) {
    }
    FirstPreferredUnique(supportedAbis, labels + [abiLabel], r);
  }

  /** The inner loop lowers the status to the most preferred ABI equal to the label, when that is better. */
  lemma {:induction false} UpdateFirst(status: int, abiLabel: Option<string>, supportedAbis: seq<string>)
    decreases |supportedAbis|
    ensures Update(status, abiLabel, supportedAbis) ==
            match FirstPreferred(supportedAbis, [abiLabel], 0)
            case None => status
            case Some(m) => if status < 0 || m < status then m else status
  {
    if supportedAbis != [] {
      var i := |supportedAbis| - 1;
      var prefix := supportedAbis[..i];
      UpdateFirst(status, abiLabel, prefix);
      var before := FirstPreferred(prefix, [abiLabel], 0);
      FirstPreferredSpec(prefix, [abiLabel], 0);
      assert forall j :: 0 <= j < i ==> supportedAbis[j] == prefix[j];
      if before.Some? {
        FirstPreferredUnique(supportedAbis, [abiLabel], before);
      } else if Some(supportedAbis[i]) == abiLabel {
        FirstPreferredUnique(supportedAbis, [abiLabel], Some(i));
      } else {
        FirstPreferredUnique(supportedAbis, [abiLabel], None);
      }
    }
  }

  /** Applying the per-entry rule to the outcome so far gives the outcome with one more entry. */
  lemma {:induction false} StepResolves(labels: seq<Option<string>>, abiLabel: Option<string>, supportedAbis: seq<string>)
    ensures Step(Resolve(labels, supportedAbis).Code(), abiLabel, supportedAbis) ==
            Resolve(labels + [abiLabel], supportedAbis).Code()
  {
    var status := Resolve(labels, supportedAbis).Code();
    UpdateFirst(if status == NO_NATIVE_LIBRARIES then INSTALL_FAILED_NO_MATCHING_ABIS else status,
                abiLabel, supportedAbis);
    if labels == [] {
      assert labels + [abiLabel] == [abiLabel];
    } else {
      FirstPreferredAppend(supportedAbis, labels, abiLabel);
    }
  }

  /** Update never raises a status of 0: nothing is preferred over index 0. */
  lemma {:induction false} UpdateKeepsZero(status: int, abiLabel: Option<string>, supportedAbis: seq<string>, i: nat)
    requires i <= |supportedAbis| && Update(status, abiLabel, supportedAbis[..i]) == 0
    ensures Update(status, abiLabel, supportedAbis) == 0
    decreases |supportedAbis|
  {
    if i < |supportedAbis| {
      var prefix := supportedAbis[..|supportedAbis| - 1];
      assert prefix[..i] == supportedAbis[..i];
      UpdateKeepsZero(status, abiLabel, prefix, i);
    } else {
      assert supportedAbis[..i] == supportedAbis;
    }
  }

  /** One more accepted library: the per-entry rule on its region gives the outcome with it included. */
  lemma {:induction false} ScanStep(seen: seq<NativeLib>, lib: NativeLib, entries: seq<ZipEntry>, supportedAbis: seq<string>)
    requires IsLibAt(entries, lib)
    ensures lib.lastSlash < |lib.name|
    ensures Step(Resolve(Labels(seen), supportedAbis).Code(), AbiRegion(lib.name, lib.lastSlash), supportedAbis) ==
            Resolve(Labels(seen + [lib]), supportedAbis).Code()
  {
    LibLabel(lib, entries);
    StepResolves(Labels(seen), AbiLabel(lib.name), supportedAbis);
    assert (seen + [lib])[..|seen|] == seen;
  }

  /** The accelerator's per-library state: the best status so far and the preference list. */
  class LibFileAbiDealer {
    var status: int
    const supportedAbis: seq<string>

    constructor (supportedAbis: seq<string>)
      ensures this.supportedAbis == supportedAbis && status == NO_NATIVE_LIBRARIES
    {
      this.supportedAbis := supportedAbis;
      status := NO_NATIVE_LIBRARIES;
    }
  }

  /**
   * dealLibAbiFile: the accelerator's per-library callback. The name is the
   * first `fileNameLen` bytes of the buffer (terminated in place for the
   * call and restored afterwards). It applies the per-entry rule to the
   * dealer's status and asks the caller to stop (1) once index 0 is reached.
   */
  method DealLibAbiFile(fileName: array<char>, fileNameLen: int, dealer: LibFileAbiDealer) returns (ret: int)
    requires 0 <= fileNameLen < fileName.Length
    modifies fileName, dealer
    ensures fileName[..] == old(fileName[..])
    ensures dealer.status ==
            Step(old(dealer.status), AbiLabel(CStr(old(fileName[..fileNameLen]))), dealer.supportedAbis)
    ensures ret == 1 <==> old(dealer.status) != 0 && dealer.status == 0
    ensures ret == 0 || ret == 1
  {
    ghost var original := fileName[..];
    var temp := fileName[fileNameLen];
    fileName[fileNameLen] := '\0';
    var name := CStr(fileName[..]);
    CStrStopsAtNul(fileName[..], fileNameLen);
    assert fileName[..][..fileNameLen] == original[..fileNameLen];
    if dealer.status == NO_NATIVE_LIBRARIES {
      dealer.status := INSTALL_FAILED_NO_MATCHING_ABIS;
    }
    ghost var start := dealer.status;
    var abiLabel := AbiLabel(name);
    ret := 0;
    var i := 0;
    while i < |dealer.supportedAbis|
      invariant 0 <= i <= |dealer.supportedAbis|
      invariant dealer.status == Update(start, abiLabel, dealer.supportedAbis[..i])
      invariant dealer.status != 0 || start == 0
      modifies dealer
    {
      assert dealer.supportedAbis[..i + 1][..i] == dealer.supportedAbis[..i];
      if abiLabel == Some(dealer.supportedAbis[i]) && ((i < dealer.status && dealer.status >= 0) || dealer.status < 0) {
        dealer.status := i;
        if dealer.status == 0 {
          UpdateKeepsZero(start, abiLabel, dealer.supportedAbis, i + 1);
          ret := 1;
          break;
        }
      }
      i := i + 1;
    }
    assert dealer.supportedAbis[..|dealer.supportedAbis|] == dealer.supportedAbis;
    fileName[fileNameLen] := temp;
    assert fileName[..] == original;
  }

  /**
   * The inner loop of findSupportedAbi: every preference equal to the
   * label lowers the status to its index when the status is negative or a
   * larger index.
   */
  method MatchPreferences(status: int, abiLabel: Option<string>, supportedAbis: seq<string>) returns (best: int)
    ensures best == Update(status, abiLabel, supportedAbis)
  {
    best := status;
    var i := 0;
    while i < |supportedAbis|
      invariant 0 <= i <= |supportedAbis|
      invariant best == Update(status, abiLabel, supportedAbis[..i])
    {
      assert supportedAbis[..i + 1][..i] == supportedAbis[..i];
      if abiLabel == Some(supportedAbis[i]) && ((i < best && best >= 0) || best < 0) {
        best := i;
      }
      i := i + 1;
    }
    assert supportedAbis[..|supportedAbis|] == supportedAbis;
  }

  /** The assets verifier's verdict, consulted only after a match, replaces the status unless it is NO_NATIVE_LIBRARIES. */
  function WithAssetsVerdict(status: int, assetsStatus: Option<int>): (r: int)
    ensures status < 0 ==> r == status
    ensures r != status ==> assetsStatus == Some(r) && r != NO_NATIVE_LIBRARIES
    ensures status >= 0 && assetsStatus.Some? && assetsStatus.value != NO_NATIVE_LIBRARIES ==> r == assetsStatus.value
  {
    if status >= 0 && assetsStatus.Some? && assetsStatus.value != NO_NATIVE_LIBRARIES then assetsStatus.value
    else status
  }

  /**
   * findSupportedAbi without the accelerator: scan every native library,
   * keep the best preference index, then consult the assets verifier
   * (`assetsStatus`, None when it cannot be loaded). A NULL handle or an
   * archive that cannot be iterated is INSTALL_FAILED_INVALID_APK.
   */
  method FindSupportedAbi(zipFile: ZipFileRO?, supportedAbis: seq<string>, assetsStatus: Option<int>)
    returns (status: int)
    modifies zipFile
    ensures zipFile == null || !zipFile.iterable ==> status == INSTALL_FAILED_INVALID_APK
    ensures zipFile != null && zipFile.iterable ==>
              status == WithAssetsVerdict(
                Resolve(Labels(NativeLibs(zipFile.entries, 0)), supportedAbis).Code(), assetsStatus)
    ensures zipFile != null ==> zipFile.openIterations == old(zipFile.openIterations)
  {
    if zipFile == null {
      return INSTALL_FAILED_INVALID_APK;
    }
    status := NO_NATIVE_LIBRARIES;
    var it := NativeLibrariesIterator.Create(zipFile);
    if it == null {
      return INSTALL_FAILED_INVALID_APK;
    }
    var entries := zipFile.entries;
    ghost var seen: seq<NativeLib> := [];
    while true
      invariant it.Valid() && it.zipFile == zipFile
      invariant zipFile.openIterations == old(zipFile.openIterations) + 1
      invariant NativeLibs(entries, 0) == seen + NativeLibs(entries, it.cursor)
      invariant status == Resolve(Labels(seen), supportedAbis).Code()
      decreases |entries| - it.cursor
    {
      ghost var from := it.cursor;
      var next := it.Next();
      if next.None? {
        assert seen == NativeLibs(entries, 0);
        break;
      }
      if status == NO_NATIVE_LIBRARIES {
        status := INSTALL_FAILED_NO_MATCHING_ABIS;
      }
      var abiLabel := AbiRegion(it.fileName, it.lastSlash);
      status := MatchPreferences(status, abiLabel, supportedAbis);
      ghost var lib := NativeLib(next.value, entries[next.value], it.fileName, it.lastSlash);
      NativeLibsAdvance(entries, seen, from, lib);
      ScanStep(seen, lib, entries, supportedAbis);
      seen := seen + [lib];
    }
    ghost var scanned := status;
    assert scanned == Resolve(Labels(NativeLibs(entries, 0)), supportedAbis).Code();
    var assetStatus := NO_NATIVE_LIBRARIES;
    if status >= 0 && assetsStatus.Some? {
      assetStatus := assetsStatus.value;
    }
    if assetStatus != NO_NATIVE_LIBRARIES {
      status := assetStatus;
    }
    assert status == WithAssetsVerdict(scanned, assetsStatus);
    it.Dispose();
  }
}
