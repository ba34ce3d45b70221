/**
 * The native-library entry classifier and NativeLibrariesIterator: which
 * archive entries count as native libraries, and where their ABI label is.
 */
module NativeLibraries {
  import opened Options
  import opened CStrings
  import opened FilenameSafety
  import opened Archive

  const APK_LIB := "lib/"
  const LIB_PREFIX := "/lib"
  const LIB_SUFFIX := ".so"
  const GDBSERVER := "gdbserver"
  /** lib/ + two-character ABI + /lib + one character + .so */
  const MIN_LENGTH := |APK_LIB| + 2 + |LIB_PREFIX| + 1 + |LIB_SUFFIX|

  /**
   * The acceptance test of NativeLibrariesIterator::next. On acceptance the
   * result is the index of the last slash (mLastSlash).
   */
  function Classify(name: string): (r: Option<nat>)
    ensures r.Some? ==> LastSlash(name) == r
  {
    match LastSlash(name)
    case None => None
    case Some(lastSlash) =>
      if !StartsWith(name, APK_LIB) || |name| < MIN_LENGTH then None
      else if StartsWith(name[lastSlash + 1..], GDBSERVER) then Some(lastSlash)
      else if !EndsWith(name, LIB_SUFFIX) || !StartsWith(name[lastSlash..], LIB_PREFIX) then None
      else if !IsFilenameSafe(name[lastSlash + 1..]) then None
      else Some(lastSlash)
  }

  /**
   * The acceptance rule stated on the base name: under lib/, long enough, and
   * either a gdbserver binary or a safe lib*.so.
   */
  ghost predicate IsNativeLibraryName(name: string)
  {
    StartsWith(name, APK_LIB) && |name| >= MIN_LENGTH &&
    (StartsWith(BaseName(name), GDBSERVER) ||
     (EndsWith(name, LIB_SUFFIX) && StartsWith(BaseName(name), "lib") && IsFilenameSafe(BaseName(name))))
  }

  /** The classifier accepts exactly the names of the acceptance rule. */
  lemma {:induction false} ClassifyIff(name: string)
    ensures Classify(name).Some? <==> IsNativeLibraryName(name)
  {
    assert StartsWith(name, APK_LIB) ==> name[3] == '/';
    if StartsWith(name, APK_LIB) {
      PrefixedHasSlash(name);
    }
    match LastSlash(name)
    case None =>
    case Some(k) =>
      assert BaseName(name) == name[k + 1..];
      SlashThenPrefix(name, k, "lib");
      assert LIB_PREFIX == "/" + "lib";
  }

  /** A name under lib/ has a last slash, at index 3 or later. */
  lemma {:induction false} PrefixedHasSlash(name: string)
    requires StartsWith(name, APK_LIB)
    ensures LastSlash(name).Some? && LastSlash(name).value >= 3
  {
    assert name[3] == name[..4][3];
    LastSlashSpec(name);
  }

  /** A slash at `k` followed by `p` is the same as "/" + `p` starting at `k`. */
  lemma {:induction false} SlashThenPrefix(name: string, k: nat, p: string)
    requires k < |name| && name[k] == '/'
    ensures StartsWith(name[k..], "/" + p) <==> StartsWith(name[k + 1..], p)
  {
    if StartsWith(name[k + 1..], p) {
      assert name[k..][..|p| + 1] == [name[k]] + name[k + 1..][..|p|];
    }
    if StartsWith(name[k..], "/" + p) {
      assert name[k + 1..][..|p|] == name[k..][..|p| + 1][1..];
    }
  }

  /**
   * The ABI region between "lib/" and the slash at `lastSlash`. Its length is
   * computed as a size_t, so a slash before index 4 wraps to a huge length
   * that no ABI string has: no label.
   */
  function AbiRegion(name: string, lastSlash: int): Option<string>
    requires lastSlash < |name|
  {
    if lastSlash < |APK_LIB| then None else Some(name[|APK_LIB|..lastSlash])
  }

  /** The ABI label of a name, found with strrchr as the callbacks do. */
  function AbiLabel(name: string): Option<string>
  {
    match LastSlash(name)
    case None => None
    case Some(k) => AbiRegion(name, k)
  }

  /** An accepted entry: its position in the archive, the entry, its name and last slash. */
  datatype NativeLib = NativeLib(index: nat, entry: ZipEntry, name: string, lastSlash: nat)

  /** `lib` is entry number `lib.index` of `entries`, read and accepted. */
  ghost predicate IsLibAt(entries: seq<ZipEntry>, lib: NativeLib)
  {
    lib.index < |entries| && lib.entry == entries[lib.index] &&
    EntryFileName(lib.entry) == Some(lib.name) && Classify(lib.name) == Some(lib.lastSlash)
  }

  /** Entry `i` read and classified: the library it is, or None when it is skipped. */
  function LibAt(entries: seq<ZipEntry>, i: nat): (r: Option<NativeLib>)
    requires i < |entries|
    ensures r.Some? ==> IsLibAt(entries, r.value) && r.value.index == i
  {
    match EntryFileName(entries[i])
    case None => None
    case Some(name) =>
      match Classify(name)
      case None => None
      case Some(lastSlash) => Some(NativeLib(i, entries[i], name, lastSlash))
  }

  /** The native libraries among entries[from..], in archive order. */
  function NativeLibs(entries: seq<ZipEntry>, from: nat): seq<NativeLib>
    decreases |entries| - from, 1
  {
    if from >= |entries| then [] else LibsFrom(entries, from)
  }

  /** The libraries from entry `from` on: that entry's library, if any, then the rest. */
  function LibsFrom(entries: seq<ZipEntry>, from: nat): seq<NativeLib>
    requires from < |entries|
    decreases |entries| - from, 0
  {
    match LibAt(entries, from)
    case None => NativeLibs(entries, from + 1)
    case Some(lib) => [lib] + NativeLibs(entries, from + 1)
  }

  /** An accepted entry heads the list that starts at it. */
  lemma {:induction false} NativeLibsAccepted(entries: seq<ZipEntry>, i: nat, name: string, lastSlash: nat)
    requires i < |entries|
    requires EntryFileName(entries[i]) == Some(name) && Classify(name) == Some(lastSlash)
    ensures NativeLibs(entries, i) == [NativeLib(i, entries[i], name, lastSlash)] + NativeLibs(entries, i + 1)
  {
    assert LibAt(entries, i) == Some(NativeLib(i, entries[i], name, lastSlash));
  }

  /** Entry `i` is skipped: its name cannot be read or the classifier refuses it. */
  ghost predicate Rejected(entries: seq<ZipEntry>, i: nat)
    requires i < |entries|
  {
    LibAt(entries, i).None?
  }

  /** A rejected entry contributes nothing. */
  lemma {:induction false} NativeLibsRejected(entries: seq<ZipEntry>, i: nat)
    requires i < |entries| && Rejected(entries, i)
    ensures NativeLibs(entries, i) == NativeLibs(entries, i + 1)
  {
  }

  /** Every entry of entries[lo..hi] is rejected. */
  ghost predicate AllRejected(entries: seq<ZipEntry>, lo: nat, hi: nat)
    requires hi <= |entries|
    decreases hi
  {
    hi <= lo || (AllRejected(entries, lo, hi - 1) && Rejected(entries, hi - 1))
  }

  /** An entry whose name cannot be read extends a rejected run. */
  lemma {:induction false} UnreadableRejected(entries: seq<ZipEntry>, lo: nat, i: nat)
    requires lo <= i < |entries| && AllRejected(entries, lo, i) && EntryFileName(entries[i]).None?
    ensures AllRejected(entries, lo, i + 1)
  {
  }

  /** An entry the classifier refuses extends a rejected run. */
  lemma {:induction false} RefusedRejected(entries: seq<ZipEntry>, lo: nat, i: nat, name: string)
    requires lo <= i < |entries| && AllRejected(entries, lo, i)
    requires EntryFileName(entries[i]) == Some(name) && Classify(name).None?
    ensures AllRejected(entries, lo, i + 1)
  {
  }

  /** A run of rejected entries contributes nothing. */
  lemma {:induction false} NativeLibsSkip(entries: seq<ZipEntry>, lo: nat, hi: nat)
    requires lo <= hi <= |entries| && AllRejected(entries, lo, hi)
    ensures NativeLibs(entries, lo) == NativeLibs(entries, hi)
    decreases hi
  {
    if lo < hi {
      NativeLibsSkip(entries, lo, hi - 1);
      NativeLibsRejected(entries, hi - 1);
    }
  }

  /**
   * What next() finds, in terms of the list: after a rejected run, the
   * accepted entry heads the libraries still to come.
   */
  lemma {:induction false} NextAccepted(entries: seq<ZipEntry>, lo: nat, i: nat, name: string, lastSlash: nat)
    requires lo <= i < |entries| && AllRejected(entries, lo, i)
    requires EntryFileName(entries[i]) == Some(name) && Classify(name) == Some(lastSlash)
    ensures NativeLibs(entries, lo) == [NativeLib(i, entries[i], name, lastSlash)] + NativeLibs(entries, i + 1)
  {
    NativeLibsSkip(entries, lo, i);
    NativeLibsAccepted(entries, i, name, lastSlash);
  }

  /** The scan's bookkeeping: the libraries seen so far grow by the one next() found. */
  lemma {:induction false} NativeLibsAdvance(entries: seq<ZipEntry>, seen: seq<NativeLib>, from: nat, lib: NativeLib)
    requires NativeLibs(entries, 0) == seen + NativeLibs(entries, from)
    requires NativeLibs(entries, from) == [lib] + NativeLibs(entries, lib.index + 1)
    ensures NativeLibs(entries, 0) == (seen + [lib]) + NativeLibs(entries, lib.index + 1)
    ensures IsLibAt(entries, lib)
  {
    NativeLibsSound(entries, from);
    var rest := NativeLibs(entries, lib.index + 1);
    assert lib == NativeLibs(entries, from)[0];
    assert seen + ([lib] + rest) == (seen + [lib]) + rest;
  }

  /** When next() runs off the end, no libraries were left. */
  lemma {:induction false} NoneAccepted(entries: seq<ZipEntry>, lo: nat)
    requires lo <= |entries| && AllRejected(entries, lo, |entries|)
    ensures NativeLibs(entries, lo) == []
  {
    NativeLibsSkip(entries, lo, |entries|);
  }

  /** Every accepted entry at or after `from` is among NativeLibs(entries, from): rejection is the only way to be skipped. */
  lemma {:induction false} NativeLibsComplete(entries: seq<ZipEntry>, from: nat, i: nat, name: string, lastSlash: nat)
    requires from <= i < |entries|
    requires EntryFileName(entries[i]) == Some(name) && Classify(name) == Some(lastSlash)
    ensures NativeLib(i, entries[i], name, lastSlash) in NativeLibs(entries, from)
    decreases i - from
  {
    if from == i {
      NativeLibsAccepted(entries, i, name, lastSlash);
    } else {
      NativeLibsComplete(entries, from + 1, i, name, lastSlash);
      NativeLibsStep(entries, from);
    }
  }

  /** Every listed library is an accepted entry of the archive, with its own name and last slash. */
  lemma {:induction false} NativeLibsSound(entries: seq<ZipEntry>, from: nat)
    ensures forall lib :: lib in NativeLibs(entries, from) ==> IsLibAt(entries, lib)
    decreases |entries| - from
  {
    if from < |entries| {
      var r := NativeLibs(entries, from);
      var rest := NativeLibs(entries, from + 1);
      NativeLibsSound(entries, from + 1);
      NativeLibsStep(entries, from);
    }
  }

  /** One step of NativeLibs: entry `from` is either skipped or listed first. */
  lemma {:induction false} NativeLibsStep(entries: seq<ZipEntry>, from: nat)
    requires from < |entries|
    ensures var r := NativeLibs(entries, from);
            r == NativeLibs(entries, from + 1) ||
            (r != [] && r[0].index == from && r == [r[0]] + NativeLibs(entries, from + 1))
  {
  }

  /** Every listed library comes from entries[from..]. */
  lemma {:induction false} NativeLibsIndexes(entries: seq<ZipEntry>, from: nat)
    ensures var r := NativeLibs(entries, from);
            forall k :: 0 <= k < |r| ==> from <= r[k].index < |entries|
    decreases |entries| - from
  {
    if from < |entries| {
      NativeLibsIndexes(entries, from + 1);
      NativeLibsStep(entries, from);
      var r := NativeLibs(entries, from);
      var rest := NativeLibs(entries, from + 1);
      if r != rest {
        forall k | 0 < k < |r| ensures from <= r[k].index < |entries| {
          assert r[k] == rest[k - 1];
        }
      }
    }
  }

  /** The libraries' archive positions strictly increase. */
  ghost predicate InArchiveOrder(libs: seq<NativeLib>)
  {
    forall k, m :: 0 <= k < m < |libs| ==> libs[k].index < libs[m].index
  }

  /** Putting a library before others of later positions keeps the order. */
  lemma {:induction false} InArchiveOrderCons(lib: NativeLib, rest: seq<NativeLib>)
    requires InArchiveOrder(rest) && forall k :: 0 <= k < |rest| ==> lib.index < rest[k].index
    ensures InArchiveOrder([lib] + rest)
  {
    var r := [lib] + rest;
    forall k, m | 0 <= k < m < |r| ensures r[k].index < r[m].index {
      assert r[m] == rest[m - 1];
      if k > 0 { assert r[k] == rest[k - 1]; }
    }
  }

  /** NativeLibs lists entries in archive order. */
  lemma {:induction false} NativeLibsOrdered(entries: seq<ZipEntry>, from: nat)
    ensures InArchiveOrder(NativeLibs(entries, from))
    decreases |entries| - from
  {
    if from < |entries| {
      var rest := NativeLibs(entries, from + 1);
      NativeLibsOrdered(entries, from + 1);
      NativeLibsStep(entries, from);
      var r := NativeLibs(entries, from);
      if r != rest {
        NativeLibsIndexes(entries, from + 1);
        InArchiveOrderCons(r[0], rest);
      }
    }
  }

  /** The slash before a slash-free tail is the last slash of the whole name. */
  lemma {:induction false} SlashBeforeBase(abi: string, base: string)
    requires '/' !in base
    ensures var name := APK_LIB + abi + "/" + base;
            LastSlash(name) == Some(|APK_LIB| + |abi|) && BaseName(name) == base &&
            name[|APK_LIB| + |abi| + 1..] == base && name[|APK_LIB| + |abi|..] == "/" + base &&
            StartsWith(name, APK_LIB) && AbiLabel(name) == Some(abi)
  {
    var name := APK_LIB + abi + "/" + base;
    var k := |APK_LIB| + |abi|;
    assert name[k] == '/';
    forall j | k < j < |name| ensures name[j] != '/' {
      assert name[j] == base[j - k - 1];
    }
    LastSlashIs(name, k);
    assert name[k + 1..] == base;
    assert name[k..] == "/" + base;
    assert name[|APK_LIB|..k] == abi;
    assert name[..|APK_LIB|] == APK_LIB;
  }

  /** The accepting branches of the classifier, stated on the last slash. */
  lemma {:induction false} ClassifyAccepts(name: string, k: nat)
    requires LastSlash(name) == Some(k) && StartsWith(name, APK_LIB) && |name| >= MIN_LENGTH
    requires StartsWith(name[k + 1..], GDBSERVER) ||
             (EndsWith(name, LIB_SUFFIX) && StartsWith(name[k..], LIB_PREFIX) && IsFilenameSafe(name[k + 1..]))
    ensures Classify(name) == Some(k)
  {
  }

  /** lib/<abi>/<base> for a safe, slash-free lib*.so base is accepted at the slash before the base. */
  lemma {:induction false} SafeLibraryBaseAccepted(abi: string, base: string)
    requires '/' !in base && IsFilenameSafe(base)
    requires StartsWith(base, "lib") && EndsWith(base, LIB_SUFFIX) && |abi| + |base| >= 9
    ensures Classify(APK_LIB + abi + "/" + base) == Some(|APK_LIB| + |abi|)
  {
    SlashBeforeBase(abi, base);
    LibraryAffixes(abi, base);
    ClassifyAccepts(APK_LIB + abi + "/" + base, |APK_LIB| + |abi|);
  }

  /** The "/lib" prefix and ".so" suffix of a lib*.so base name are seen through the whole name. */
  lemma {:induction false} LibraryAffixes(abi: string, base: string)
    requires StartsWith(base, "lib") && EndsWith(base, LIB_SUFFIX)
    ensures var name := APK_LIB + abi + "/" + base;
            StartsWith(name[|APK_LIB| + |abi|..], LIB_PREFIX) && EndsWith(name, LIB_SUFFIX)
  {
    var name := APK_LIB + abi + "/" + base;
    var k := |APK_LIB| + |abi|;
    assert name[k..] == "/" + base;
    assert name[k..][..|LIB_PREFIX|] == "/" + base[..3];
    assert name[|name| - |LIB_SUFFIX|..] == base[|base| - |LIB_SUFFIX|..];
  }

  /** The base name lib<stem>.so of a safe, slash-free stem. */
  lemma {:induction false} LibraryBase(stem: string)
    requires forall i :: 0 <= i < |stem| ==> IsSafeChar(stem[i]) && stem[i] != '/'
    ensures var base := "lib" + stem + LIB_SUFFIX;
            '/' !in base && IsFilenameSafe(base) && StartsWith(base, "lib") && EndsWith(base, LIB_SUFFIX)
  {
    var base := "lib" + stem + LIB_SUFFIX;
    assert '/' !in base by {
      forall i | 0 <= i < |base| ensures base[i] != '/' {
        if 3 <= i < 3 + |stem| { assert base[i] == stem[i - 3]; }
      }
    }
    assert AllSafe("lib") && AllSafe(LIB_SUFFIX) && AllSafe(stem);
    AllSafeConcat("lib", stem);
    AllSafeConcat("lib" + stem, LIB_SUFFIX);
    SafeCharsAreSafe(base);
    assert base[..3] == "lib";
    assert base[|base| - 3..] == LIB_SUFFIX;
  }

  /**
   * lib/<abi>/lib<stem>.so with a safe, slash-free stem is accepted, its
   * ABI boundary is the slash before the base name and its label is <abi>.
   */
  lemma {:induction false} LibraryNameAccepted(abi: string, stem: string)
    requires forall i :: 0 <= i < |stem| ==> IsSafeChar(stem[i]) && stem[i] != '/'
    requires |abi| + |stem| >= 3
    ensures var name := APK_LIB + abi + LIB_PREFIX + stem + LIB_SUFFIX;
            Classify(name) == Some(|APK_LIB| + |abi|) && AbiLabel(name) == Some(abi)
  {
    var base := "lib" + stem + LIB_SUFFIX;
    var name := APK_LIB + abi + LIB_PREFIX + stem + LIB_SUFFIX;
    assert name == APK_LIB + abi + "/" + base;
    LibraryBase(stem);
    SlashBeforeBase(abi, base);
    SafeLibraryBaseAccepted(abi, base);
  }

  /**
   * lib/<abi>/gdbserver<rest> is accepted whatever <rest> holds (only a
   * prefix is compared, and this branch skips the safety check).
   */
  lemma {:induction false} GdbserverAccepted(abi: string, rest: string)
    requires '/' !in rest
    ensures var name := APK_LIB + abi + "/" + GDBSERVER + rest;
            Classify(name) == Some(|APK_LIB| + |abi|) && AbiLabel(name) == Some(abi)
  {
    var base := GDBSERVER + rest;
    assert '/' !in base by {
      forall i | 0 <= i < |base| ensures base[i] != '/' {
        if i >= |GDBSERVER| { assert base[i] == rest[i - |GDBSERVER|]; }
      }
    }
    var name := APK_LIB + abi + "/" + GDBSERVER + rest;
    assert name == APK_LIB + abi + "/" + base;
    SlashBeforeBase(abi, base);
    assert base[..|GDBSERVER|] == GDBSERVER;
    ClassifyAccepts(name, |APK_LIB| + |abi|);
  }

  /** lib/<base> for a safe, slash-free lib*.so base is accepted at the slash of "lib/", with no ABI label. */
  lemma {:induction false} RootBaseAccepted(base: string)
    requires '/' !in base && IsFilenameSafe(base) && StartsWith(base, "lib") && EndsWith(base, LIB_SUFFIX)
    requires |base| >= MIN_LENGTH - |APK_LIB|
    ensures Classify(APK_LIB + base) == Some(|APK_LIB| - 1) && AbiLabel(APK_LIB + base) == None
  {
    var name := APK_LIB + base;
    var k := |APK_LIB| - 1;
    assert name[k] == '/';
    forall j | k < j < |name| ensures name[j] != '/' {
      assert name[j] == base[j - k - 1];
    }
    LastSlashIs(name, k);
    assert name[k + 1..] == base;
    assert name[k..][..|LIB_PREFIX|] == "/" + base[..3];
    assert name[|name| - |LIB_SUFFIX|..] == base[|base| - |LIB_SUFFIX|..];
    assert name[..|APK_LIB|] == APK_LIB;
    ClassifyAccepts(name, k);
  }

  /**
   * lib/lib<stem>.so, a library directly under lib/ with no ABI directory,
   * is accepted at the slash of "lib/" but has no ABI label: it counts as
   * native code and matches no ABI.
   */
  lemma {:induction false} RootLibraryAccepted(stem: string)
    requires forall i :: 0 <= i < |stem| ==> IsSafeChar(stem[i]) && stem[i] != '/'
    requires |stem| >= 4
    ensures var name := APK_LIB + "lib" + stem + LIB_SUFFIX;
            Classify(name) == Some(|APK_LIB| - 1) && AbiLabel(name) == None
  {
    var base := "lib" + stem + LIB_SUFFIX;
    assert APK_LIB + "lib" + stem + LIB_SUFFIX == APK_LIB + base;
    LibraryBase(stem);
    RootBaseAccepted(base);
  }

  /** A base name that fails the validator (and is not gdbserver*) is rejected, e.g. "evilname;rm". */
  lemma {:induction false} UnsafeNameRejected(abi: string, base: string)
    requires '/' !in base && !StartsWith(base, GDBSERVER) && !IsFilenameSafe(base)
    ensures Classify(APK_LIB + abi + "/" + base) == None
  {
    SlashBeforeBase(abi, base);
    ClassifyIff(APK_LIB + abi + "/" + base);
  }

  /** The label of every accepted name is the region up to its last slash. */
  lemma {:induction false} LibLabel(lib: NativeLib, entries: seq<ZipEntry>)
    requires IsLibAt(entries, lib)
    ensures lib.lastSlash < |lib.name| && AbiLabel(lib.name) == AbiRegion(lib.name, lib.lastSlash)
    ensures BaseName(lib.name) == lib.name[lib.lastSlash + 1..]
  {
  }

  /** The library heading NativeLibs(entries, from) is labelled and named by its last slash. */
  lemma {:induction false} HeadLabel(entries: seq<ZipEntry>, from: nat, i: nat, name: string, lastSlash: nat)
    requires i < |entries|
    requires NativeLibs(entries, from) == [NativeLib(i, entries[i], name, lastSlash)] + NativeLibs(entries, i + 1)
    ensures lastSlash < |name| && AbiLabel(name) == AbiRegion(name, lastSlash)
    ensures BaseName(name) == name[lastSlash + 1..]
  {
    var lib := NativeLib(i, entries[i], name, lastSlash);
    NativeLibsSound(entries, from);
    assert lib == NativeLibs(entries, from)[0];
    LibLabel(lib, entries);
  }

  /** Name of the last entry among entries[lo..hi] whose name could be read, else `previous`. */
  function LatestName(entries: seq<ZipEntry>, lo: nat, hi: nat, previous: string): string
    requires hi <= |entries|
    decreases hi
  {
    if hi <= lo then previous
    else match EntryFileName(entries[hi - 1])
      case Some(name) => name
      case None => LatestName(entries, lo, hi - 1, previous)
  }

  /**
   * The iterator over native libraries. `cursor` is the iteration cookie's
   * position, `fileName` the name buffer, `lastSlash` mLastSlash (-1 for NULL).
   */
  class NativeLibrariesIterator {
    const zipFile: ZipFileRO
    var cursor: nat
    var fileName: string
    var lastSlash: int

    ghost predicate Valid()
      reads this, zipFile
    {
      cursor <= |zipFile.entries| && zipFile.openIterations > 0
    }

    constructor (zipFile: ZipFileRO)
      requires zipFile.openIterations > 0
      ensures this.zipFile == zipFile && cursor == 0 && fileName == "" && lastSlash == -1
      ensures Valid()
    {
      this.zipFile := zipFile;
      cursor := 0;
      fileName := "";
      lastSlash := -1;
    }

    /** create: NULL when the archive cannot start an iteration. */
    static method Create(zipFile: ZipFileRO) returns (it: NativeLibrariesIterator?)
      modifies zipFile
      ensures (it == null) == !zipFile.iterable
      ensures zipFile.openIterations == old(zipFile.openIterations) + (if it == null then 0 else 1)
      ensures it != null ==> fresh(it) && it.zipFile == zipFile && it.Valid() && it.cursor == 0
    {
      var ok := zipFile.StartIteration();
      if !ok {
        return null;
      }
      it := new NativeLibrariesIterator(zipFile);
    }

    /**
     * next: skips every entry that is not a native library and returns the
     * next one, or None once the archive is exhausted.
     */
    method Next() returns (next: Option<nat>)
      requires Valid()
      modifies this
      ensures Valid()
      ensures next.Some? ==>
        old(cursor) <= next.value && cursor == next.value + 1 && 0 <= lastSlash < |fileName| &&
        NativeLibs(zipFile.entries, old(cursor)) ==
          [NativeLib(next.value, zipFile.entries[next.value], fileName, lastSlash)] + NativeLibs(zipFile.entries, cursor)
      ensures next.None? ==>
        cursor == |zipFile.entries| && NativeLibs(zipFile.entries, old(cursor)) == [] &&
        lastSlash == old(lastSlash) && fileName == LatestName(zipFile.entries, old(cursor), cursor, old(fileName))
    {
      var entries := zipFile.entries;
      while cursor < |entries|
        invariant old(cursor) <= cursor <= |entries|
        invariant AllRejected(entries, old(cursor), cursor)
        invariant fileName == LatestName(entries, old(cursor), cursor, old(fileName))
        invariant lastSlash == old(lastSlash)
      {
        var entry := entries[cursor];
        cursor := cursor + 1;
        match EntryFileName(entry)
        case None =>
          UnreadableRejected(entries, old(cursor), cursor - 1);
        case Some(name) =>
          fileName := name;
          var accepted := Classify(fileName);
          if accepted.Some? {
            lastSlash := accepted.value;
            NextAccepted(entries, old(cursor), cursor - 1, fileName, lastSlash);
            return Some(cursor - 1);
          }
          RefusedRejected(entries, old(cursor), cursor - 1, name);
      }
      NoneAccepted(entries, old(cursor));
      return None;
    }

    /** The destructor: ends the iteration. */
    method Dispose()
      requires Valid()
      modifies zipFile
      ensures zipFile.openIterations == old(zipFile.openIterations) - 1
    {
      zipFile.EndIteration();
    }
  }
}
