# NativeLibraryHelper: a Dafny model of the package installer's native-library scanner

The Android package installer looks inside an APK (a zip archive) for native
code. This code is written in C++ and called through JNI. This project models
its default path, which is the code that runs when no vendor scanning
accelerator is installed.

- **The entry classifier.** `NativeLibrariesIterator::next` accepts an entry as
  a native library when all of these hold:
  - its name starts with `lib/`;
  - it is at least 14 characters long;
  - its last path component is either `lib*.so` with only safe characters
    (`isFilenameSafe`), or starts with `gdbserver`.

  The position of the last slash separates the ABI directory (`lib/<abi>/`)
  from the file name.
- **ABI resolution** (`findSupportedAbi`). Over all accepted libraries, it
  finds the most preferred entry of the caller's ABI list that some library is
  built for. It returns `NO_NATIVE_LIBRARIES` when there are no libraries and
  `INSTALL_FAILED_NO_MATCHING_ABIS` when no ABI matches. After a match, an
  optional assets verifier may replace the result. The accelerator's
  per-library callback `dealLibAbiFile` applies the same per-entry rule.
- **Per-ABI iteration** (`iterateOverNativeFiles`). It calls a callback on every
  library of one ABI, in archive order, and stops at the first callback that
  fails. Two callbacks use it:
  - `sumFiles`, for `sumNativeBinaries`, adds up uncompressed sizes.
  - `copyFileIfChanged`, for `copyNativeBinaries`, installs each library into a
    directory. It skips files that already match: same type, size and time,
    and a matching CRC-32. Otherwise it goes through a temporary file and an
    atomic rename, and removes the temporary file on every failure.
- **The RenderScript bitcode scan** (`hasRenderscriptBitcode`).

How the model is built:
- The archive is a sequence of entry records behind a small `ZipFileRO` class.
  The class counts open iterations, so the model can state that every path
  which starts an iteration also ends it.
- Entry names are `string`s, one character per byte. The name code sees is the
  C string in the buffer, cut at the first NUL.
- The iterator is a class with a cursor, the name buffer and the last-slash
  index. `Next` is proved against `NativeLibs(entries, from)`: the accepted
  entries of `entries[from..]`, in archive order.
- The scan loops of `findSupportedAbi` and `iterateOverNativeFiles` are methods
  with loop invariants. They are proved equal to declarative definitions:
  - `Resolve` gives the lowest index, that is the most preferred ABI, that some
    library's label names;
  - `RunCallbacks` runs the callback over `AbiLibs`, stopping at the first
    failure.
- A callback with its `void*` argument becomes a pure state transformer.
- `copyFileIfChanged` is a function over a file system map. Every step that can
  fail (`mkstemp`, decompression, `utimes`, `chmod`, `rename`) takes its
  outcome from a per-call oracle, as do the characters `mkstemp` generates.
- The zlib CRC-32 is a function parameter. Entry modification times are given
  already converted to seconds.

The model follows the code, including where it does something a reader
might not expect:
- **`gdbserver`.** The comment above the iterator (lines 352-353) speaks of
  entries whose name is `gdbserver`. The code compares only a prefix of the
  base name (`gdbserver-evil!` is accepted), and its branch skips the safety
  check (`GdbserverAccepted`).
- **Libraries directly under `lib/`.** A library such as `lib/libfoox.so` has
  no ABI directory, yet it is accepted. Its ABI region has a length that wraps
  around as a size_t and matches no ABI. Such an archive therefore resolves to
  `INSTALL_FAILED_NO_MATCHING_ABIS`, not `NO_NATIVE_LIBRARIES`
  (`RootLibraryAccepted`).
- **Stopping early.** The default path of `findSupportedAbi` never stops
  early: it scans every library even after index 0 has matched. Only the
  accelerator callback `dealLibAbiFile` asks to stop.
- **The bitcode scan's safety check.** When a name has a slash, the scan checks
  the name without its first character, not the text after the last slash
  (line 726). So the directory part is checked too (`BitcodeBaseNameSkipsFirst`).
- **`sumNativeBinaries`.** It drops the iteration status. An entry whose
  metadata cannot be read therefore truncates the total and does not fail the
  call (`SumNativeBinaries`).

## Model

| member | source | states |
|---|---|---|
| CStrings.CStrSpec | core/jni/com_android_internal_content_NativeLibraryHelper.cpp:378-388 | the name read into the buffer is the buffer's prefix up to, and without, its first NUL |
| CStrings.CStrStopsAtNul | core/jni/com_android_internal_content_NativeLibraryHelper.cpp:460-461 | writing a NUL at `fileNameLen` makes the callback see exactly the first `fileNameLen` bytes, cut at any earlier NUL |
| CStrings.LastSlashSpec | core/jni/com_android_internal_content_NativeLibraryHelper.cpp:394 | strrchr finds a slash with no slash after it, and finds none exactly when the name has no slash |
| CStrings.LastSlashIs | core/jni/com_android_internal_content_NativeLibraryHelper.cpp:394 | a slash with no later slash is the one strrchr returns |
| FilenameSafety.ScanFilename | core/jni/com_android_internal_content_NativeLibraryHelper.cpp:143-173 | the offset loop accepts exactly when every character before the first NUL is in A-Z a-z 0-9 + , - . / = _ |
| FilenameSafety.FilenameSafeIff | core/jni/com_android_internal_content_NativeLibraryHelper.cpp:143-173 | the validator accepts exactly the names whose C string consists of safe characters |
| FilenameSafety.SafeFromIff | core/jni/com_android_internal_content_NativeLibraryHelper.cpp:146-171 | from any offset, the scan succeeds exactly when the characters up to the next NUL are safe |
| FilenameSafety.SafeCharsAreSafe | core/jni/com_android_internal_content_NativeLibraryHelper.cpp:154-165 | a string made only of safe characters passes the validator |
| NativeLibraries.Classify | core/jni/com_android_internal_content_NativeLibraryHelper.cpp:383-415 | on acceptance, the classifier's result is the position of the name's last slash (mLastSlash) |
| NativeLibraries.ClassifyIff | core/jni/com_android_internal_content_NativeLibraryHelper.cpp:383-415 | a name is accepted if and only if it is under lib/, is at least 14 characters, and its base name starts with gdbserver or is a safe lib*.so |
| NativeLibraries.PrefixedHasSlash | core/jni/com_android_internal_content_NativeLibraryHelper.cpp:394-395 | every name that passed the lib/ check has a last slash, so the assertion that it is not null cannot fail |
| NativeLibraries.ClassifyAccepts | core/jni/com_android_internal_content_NativeLibraryHelper.cpp:397-415 | each accepting branch (gdbserver, or a safe lib*.so) accepts at the last slash |
| NativeLibraries.SafeLibraryBaseAccepted | core/jni/com_android_internal_content_NativeLibraryHelper.cpp:403-415 | lib/<abi>/<base> with a safe, slash-free lib*.so base is accepted at the slash before the base |
| NativeLibraries.LibraryNameAccepted | core/jni/com_android_internal_content_NativeLibraryHelper.cpp:383-415 | lib/<abi>/lib<stem>.so with a safe stem is accepted, and its ABI label is <abi> |
| NativeLibraries.GdbserverAccepted | core/jni/com_android_internal_content_NativeLibraryHelper.cpp:397-401 | lib/<abi>/gdbserver<anything slash-free> is accepted with label <abi>, unsafe characters included |
| NativeLibraries.RootBaseAccepted | core/jni/com_android_internal_content_NativeLibraryHelper.cpp:383-415 | lib/<base> with a safe lib*.so base is accepted at the slash of lib/ and has no ABI label |
| NativeLibraries.RootLibraryAccepted | core/jni/com_android_internal_content_NativeLibraryHelper.cpp:556-559 | a library directly under lib/ is native code whose ABI region matches no ABI |
| NativeLibraries.UnsafeNameRejected | core/jni/com_android_internal_content_NativeLibraryHelper.cpp:409-412 | a base name that fails the validator and is not gdbserver* is never accepted |
| NativeLibraries.LibAt | core/jni/com_android_internal_content_NativeLibraryHelper.cpp:376-416 | an entry that is listed was read and accepted at its own position, with its own name and last slash |
| NativeLibraries.NativeLibsAccepted | core/jni/com_android_internal_content_NativeLibraryHelper.cpp:414-418 | an accepted entry heads the list of libraries that starts at it |
| NativeLibraries.NativeLibsRejected | core/jni/com_android_internal_content_NativeLibraryHelper.cpp:378-412 | a skipped entry contributes nothing to the list |
| NativeLibraries.UnreadableRejected | core/jni/com_android_internal_content_NativeLibraryHelper.cpp:378-380 | an entry whose name cannot be read is skipped |
| NativeLibraries.RefusedRejected | core/jni/com_android_internal_content_NativeLibraryHelper.cpp:383-412 | an entry the classifier refuses is skipped |
| NativeLibraries.NativeLibsSkip | core/jni/com_android_internal_content_NativeLibraryHelper.cpp:376-416 | a run of skipped entries contributes nothing to the list |
| NativeLibraries.NextAccepted | core/jni/com_android_internal_content_NativeLibraryHelper.cpp:374-419 | the entry next() stops at, after skipping entries, is the first library still to come |
| NativeLibraries.NoneAccepted | core/jni/com_android_internal_content_NativeLibraryHelper.cpp:376-418 | when next() runs off the end, no libraries were left |
| NativeLibraries.NativeLibsAdvance | core/jni/com_android_internal_content_NativeLibraryHelper.cpp:621-644 | the libraries seen so far, followed by those still to come, stay the archive's full list as the scan advances |
| NativeLibraries.NativeLibsComplete | core/jni/com_android_internal_content_NativeLibraryHelper.cpp:376-416 | every accepted entry at or after a position is in the list from that position: only rejection skips an entry |
| NativeLibraries.NativeLibsSound | core/jni/com_android_internal_content_NativeLibraryHelper.cpp:376-416 | every listed library is an accepted entry of the archive |
| NativeLibraries.NativeLibsStep | core/jni/com_android_internal_content_NativeLibraryHelper.cpp:376-416 | each entry is either skipped or listed first, ahead of the later libraries |
| NativeLibraries.NativeLibsIndexes | core/jni/com_android_internal_content_NativeLibraryHelper.cpp:376-416 | every library listed from a position comes from that position or later |
| NativeLibraries.NativeLibsOrdered | core/jni/com_android_internal_content_NativeLibraryHelper.cpp:376-416 | libraries are listed in strictly increasing archive order |
| NativeLibraries.LibLabel | core/jni/com_android_internal_content_NativeLibraryHelper.cpp:463-465 | for an accepted name, the label found again with strrchr is the region before mLastSlash, and the base name is the text after it |
| NativeLibraries.HeadLabel | core/jni/com_android_internal_content_NativeLibraryHelper.cpp:551-557 | the library next() returns is labelled and named by its last slash |
| NativeLibraries.NativeLibrariesIterator.constructor | core/jni/com_android_internal_content_NativeLibraryHelper.cpp:359-362 | a new iterator is at the first entry, with an empty name and a null last slash |
| NativeLibraries.NativeLibrariesIterator.Create | core/jni/com_android_internal_content_NativeLibraryHelper.cpp:365-372 | create returns null exactly when iteration cannot start, and otherwise holds one open iteration |
| NativeLibraries.NativeLibrariesIterator.Next | core/jni/com_android_internal_content_NativeLibraryHelper.cpp:374-419 | next returns the first library still to come, and leaves its name and last slash in the iterator; at the end it returns null, with no libraries left |
| NativeLibraries.NativeLibrariesIterator.Dispose | core/jni/com_android_internal_content_NativeLibraryHelper.cpp:429-431 | destroying the iterator ends its iteration |
| Archive.FindEntryByName | core/jni/com_android_internal_content_NativeLibraryHelper.cpp:469 | when some entry has the name, the first such entry is found; when none has it, the result is an entry nothing can be read from |
| Archive.ZipFileRO.StartIteration | core/jni/com_android_internal_content_NativeLibraryHelper.cpp:367 | starting an iteration succeeds exactly for an iterable archive, and then opens one iteration |
| Archive.ZipFileRO.EndIteration | core/jni/com_android_internal_content_NativeLibraryHelper.cpp:430 | ending an iteration closes one |
| AbiResolution.Resolution.Code | core/jni/com_android_internal_content_NativeLibraryHelper.cpp:587-640 | the result is non-negative exactly for a match, and then it is the ABI index; otherwise it is NO_NATIVE_LIBRARIES or INSTALL_FAILED_NO_MATCHING_ABIS |
| AbiResolution.FirstPreferredSpec | core/jni/com_android_internal_content_NativeLibraryHelper.cpp:635-642 | the chosen ABI is one some library has, and no more preferred ABI is |
| AbiResolution.Resolve | core/jni/com_android_internal_content_NativeLibraryHelper.cpp:619-644 | the result is NO_NATIVE_LIBRARIES exactly when there are no libraries, and a match is a valid index |
| AbiResolution.ResolveMeaning | core/jni/com_android_internal_content_NativeLibraryHelper.cpp:619-644 | no match means there are libraries but none for any supported ABI; a match is the most preferred ABI that some library has |
| AbiResolution.FirstPreferredAppend | core/jni/com_android_internal_content_NativeLibraryHelper.cpp:635-643 | one more library makes the best preference the better of the old best and that library's own |
| AbiResolution.Update | core/jni/com_android_internal_content_NativeLibraryHelper.cpp:635-643 | the inner preference loop keeps the status or sets it to an index whose ABI is the label, and never raises a matched index |
| AbiResolution.UpdateFirst | core/jni/com_android_internal_content_NativeLibraryHelper.cpp:635-643 | the inner loop moves the status to the most preferred ABI equal to the label, when that beats the status |
| AbiResolution.Step | core/jni/com_android_internal_content_NativeLibraryHelper.cpp:480-495 | after a library has been seen the status is never NO_NATIVE_LIBRARIES; any new value is an index whose ABI is the library's label, and a matched index only moves to a more preferred one |
| AbiResolution.StepResolves | core/jni/com_android_internal_content_NativeLibraryHelper.cpp:621-643 | the per-entry rule turns the outcome for the libraries so far into the outcome with one more library |
| AbiResolution.UpdateKeepsZero | core/jni/com_android_internal_content_NativeLibraryHelper.cpp:498-503 | once the status is 0 nothing beats it, so stopping the loop there changes nothing |
| AbiResolution.ScanStep | core/jni/com_android_internal_content_NativeLibraryHelper.cpp:629-643 | the region before mLastSlash gives the same outcome as the library's label |
| AbiResolution.LibFileAbiDealer.constructor | core/jni/com_android_internal_content_NativeLibraryHelper.cpp:592-595 | the accelerator's state starts at NO_NATIVE_LIBRARIES with the caller's ABI list |
| AbiResolution.DealLibAbiFile | core/jni/com_android_internal_content_NativeLibraryHelper.cpp:481-509 | the callback applies the per-entry rule to the name's label, restores the buffer, and asks to stop exactly when the status newly reaches 0 |
| AbiResolution.MatchPreferences | core/jni/com_android_internal_content_NativeLibraryHelper.cpp:635-643 | the inner loop's result is the per-label update of the status |
| AbiResolution.WithAssetsVerdict | core/jni/com_android_internal_content_NativeLibraryHelper.cpp:645-657 | a failure status is kept; after a match, a verdict other than NO_NATIVE_LIBRARIES replaces it, and nothing else does |
| AbiResolution.FindSupportedAbi | core/jni/com_android_internal_content_NativeLibraryHelper.cpp:573-664 | a null or non-iterable archive is INSTALL_FAILED_INVALID_APK; otherwise the result is the resolution of all the archive's libraries, then the assets verdict; the iteration is ended |
| NativeFiles.AbiLibsMembers | core/jni/com_android_internal_content_NativeLibraryHelper.cpp:555-559 | the callback sees exactly the libraries whose ABI region equals the requested ABI |
| NativeFiles.RunCallbacksAppend | core/jni/com_android_internal_content_NativeLibraryHelper.cpp:551-567 | a run over two parts continues the second from where the first left off, unless the first failed |
| NativeFiles.RunCallbacksStatus | core/jni/com_android_internal_content_NativeLibraryHelper.cpp:560-565 | a failed run returns exactly the result of its first failing callback call, made with the state the successful calls before it left |
| NativeFiles.RunCallbacksMatch | core/jni/com_android_internal_content_NativeLibraryHelper.cpp:555-566 | a library of the ABI is passed to the callback with its base name, and the run goes on only if the callback succeeded |
| NativeFiles.RunCallbacksSkip | core/jni/com_android_internal_content_NativeLibraryHelper.cpp:555-559 | a library of another ABI is passed over |
| NativeFiles.ForEachLibrary | core/jni/com_android_internal_content_NativeLibraryHelper.cpp:550-569 | the scan loop's status and callback state are those of the run over the remaining libraries of the ABI |
| NativeFiles.IterateOverNativeFiles | core/jni/com_android_internal_content_NativeLibraryHelper.cpp:511-570 | a null archive, a non-iterable archive or an unreadable ABI string is INSTALL_FAILED_INVALID_APK with the state untouched; otherwise the result is the callback run over the ABI's libraries in order, stopping at the first failure; the iteration is always ended |
| NativeFiles.LibFileDealer.constructor | core/jni/com_android_internal_content_NativeLibraryHelper.cpp:527-533 | the accelerator's state holds the archive, the callback, its argument and the ABI, with status INSTALL_SUCCEEDED |
| NativeFiles.DealLibFile | core/jni/com_android_internal_content_NativeLibraryHelper.cpp:457-479 | a library of the ABI is looked up by name and handed to the callback, and the call asks to stop exactly when the callback failed; other libraries change nothing; the buffer is restored |
| NativeSize.SumFiles | core/jni/com_android_internal_content_NativeLibraryHelper.cpp:222-235 | success exactly when the entry's metadata is readable, and then the total grows by the uncompressed length; a failure leaves the total unchanged |
| NativeSize.SumFilesTotals | core/jni/com_android_internal_content_NativeLibraryHelper.cpp:222-235 | summing succeeds exactly when every library is readable, and the total is the sum over the libraries before the first unreadable one |
| NativeSize.SumNativeBinaries | core/jni/com_android_internal_content_NativeLibraryHelper.cpp:674-683 | the result is 0 when the iteration cannot run, and otherwise the sum of the sizes of the ABI's libraries before the first unreadable one |
| NativeCopy.TmpTemplate | core/jni/com_android_internal_content_NativeLibraryHelper.cpp:285-298 | the mkstemp template is accepted by mkstemp and lies inside the destination directory |
| NativeCopy.TmpFileNameInDirectory | core/jni/com_android_internal_content_NativeLibraryHelper.cpp:285-304 | the temporary file is `<destination>/tmp.<generated characters>` |
| NativeCopy.IsFileDifferent | core/jni/com_android_internal_content_NativeLibraryHelper.cpp:175-220 | an installed file is left alone exactly when it is a readable regular file with the entry's size, modification time and CRC-32 |
| NativeCopy.Mkstemp | core/jni/com_android_internal_content_NativeLibraryHelper.cpp:300-304 | mkstemp either fails (an oracle-chosen fault, or an oracle-chosen name already taken) or adds only an empty file with mode 0600 at that name |
| NativeCopy.Unlink | core/jni/com_android_internal_content_NativeLibraryHelper.cpp:309 | unlink removes the path and nothing else |
| NativeCopy.Rename | core/jni/com_android_internal_content_NativeLibraryHelper.cpp:335-339 | rename moves the record to the destination, replacing it, and nothing else changes |
| NativeCopy.CopyFileIfChangedOutcome | core/jni/com_android_internal_content_NativeLibraryHelper.cpp:242-344 | unreadable metadata is INSTALL_FAILED_INVALID_APK; a matching file is kept; otherwise the copy succeeds exactly when no step fails, and then the destination holds the entry's bytes, time and mode 0755; a failure is INSTALL_FAILED_CONTAINER_ERROR with the file system exactly as before, with no temporary file left |
| NativeCopy.CopyFileIfChanged | core/jni/com_android_internal_content_NativeLibraryHelper.cpp:242-344 | the only statuses are INSTALL_SUCCEEDED, INSTALL_FAILED_INVALID_APK and INSTALL_FAILED_CONTAINER_ERROR (the INTERNAL_ERROR returns cannot be taken), and each call consults the fault oracle once; its outcomes are stated by CopyFileIfChangedOutcome |
| NativeCopy.CopyFileIfChangedIdempotent | core/jni/com_android_internal_content_NativeLibraryHelper.cpp:279-283 | after a successful copy of a consistent entry, copying it again finds the file matching and changes nothing |
| NativeCopy.CopyRunTouchesOnlyTargets | core/jni/com_android_internal_content_NativeLibraryHelper.cpp:666-672 | a run of copies changes no path other than the libraries' destinations |
| NativeCopy.LocalFileNameInjective | core/jni/com_android_internal_content_NativeLibraryHelper.cpp:263-277 | distinct file names give distinct destination paths |
| NativeCopy.DestsMembers | core/jni/com_android_internal_content_NativeLibraryHelper.cpp:666-672 | the destinations of a run are exactly the paths of its libraries' file names |
| NativeCopy.CopyRunMatchedNoop | core/jni/com_android_internal_content_NativeLibraryHelper.cpp:279-283 | a run over libraries whose installed files all match succeeds and writes nothing |
| NativeCopy.CopyRunInstallsAll | core/jni/com_android_internal_content_NativeLibraryHelper.cpp:666-672 | after a successful run over libraries with distinct file names and consistent entries, every one of them is installed and matches its entry |
| NativeCopy.CopyRunIdempotent | core/jni/com_android_internal_content_NativeLibraryHelper.cpp:666-672 | extracting the same archive for the same ABI into the same directory again after a successful run succeeds and leaves the files unchanged, when the ABI's libraries have distinct file names and every entry's size and CRC-32 describe its contents |
| Status.CodeInjective | core/jni/com_android_internal_content_NativeLibraryHelper.cpp:112-120 | distinct install statuses have distinct integer codes |
| NativeCopy.CopyNativeBinaries | core/jni/com_android_internal_content_NativeLibraryHelper.cpp:666-672 | the result is the install_status_t integer of copyFileIfChanged run over the ABI's libraries, stopping at the first failure; INSTALL_FAILED_INVALID_APK with nothing touched when the iteration cannot run; no other path changes; the iteration is ended |
| TempFileTemplate.StrlcpyCopied | core/jni/com_android_internal_content_NativeLibraryHelper.cpp:294-295 | strlcpy leaves a prefix of the source of at most size - 1 characters, and with size 0 writes nothing |
| TempFileTemplate.TmpTemplateAsWritten | core/jni/com_android_internal_content_NativeLibraryHelper.cpp:285-298 | as written, the template is the directory followed by a prefix of "/tmp.XXXXXX" |
| TempFileTemplate.ShortDestinationRejected | core/jni/com_android_internal_content_NativeLibraryHelper.cpp:294-298 | as written, a destination shorter than 10 characters gets a template without a run of six trailing X's, which mkstemp rejects |
| TempFileTemplate.BoundaryDestinationIsDirectory | core/jni/com_android_internal_content_NativeLibraryHelper.cpp:294-298 | as written, a destination of 10 or 11 characters gets the directory name itself as its template, which mkstemp accepts only when the name ends in six X's |
| TempFileTemplate.ShortDestinationExample | core/jni/com_android_internal_content_NativeLibraryHelper.cpp:294-304 | the destination /data/lib gets the template /data/lib/ |
| TempFileTemplate.LongDestinationAgrees | core/jni/com_android_internal_content_NativeLibraryHelper.cpp:294-298 | as written, a destination longer than the pattern gets the intended template |
| Bitcode.BitcodeScanResult.Code | core/jni/com_android_internal_content_NativeLibraryHelper.cpp:692-696 | APK_SCAN_ERROR is -1, BITCODE_PRESENT is 1, and the codes lie in -1..1 |
| Bitcode.BitcodeBaseNameSkipsFirst | core/jni/com_android_internal_content_NativeLibraryHelper.cpp:725-728 | for a name with a slash, the safety check covers everything but the first character |
| Bitcode.BitcodeBaseNameNoSlash | core/jni/com_android_internal_content_NativeLibraryHelper.cpp:725-728 | a slash-free name is bitcode exactly when it ends in .bc and all its characters are safe |
| Bitcode.HasRenderscriptBitcode | core/jni/com_android_internal_content_NativeLibraryHelper.cpp:712-735 | APK_SCAN_ERROR exactly when iteration cannot start; otherwise BITCODE_PRESENT exactly when some entry is a bitcode name; the iteration is ended on both paths |

## Left out

- The scanning accelerator and the assets verifier (lines 58-108, 124-140, 518-538, 589-613, 702-711, 743-757) are out of scope. That covers their lazy `dlopen` binding, filter registration and the accelerator branches of every entry point.
  - The accelerator callbacks `dealLibFile` and `dealLibAbiFile` are modelled, with their state records.
  - The verifier's verdict in `findSupportedAbi` is a parameter: `None` when the library cannot be loaded.
- JNI is not modelled:
  - `ScopedUtfChars` becomes an `Option<string>`, where `None` is a string that cannot be read.
  - The copy destination's own `ScopedUtfChars` is a plain `string`.
  - The Java array of ABIs is a `seq<string>`.
  - The registration table and the `jint`/`jlong` wrappers are omitted.
- AbiResolution.FindSupportedAbi: an ABI array element that is null is not modelled. The default path would dereference its null string.
- The zip reader is an ordered list of entries.
  - Its parsing and decompression are not modelled. Decompression writes the entry's `contents` or fails by the oracle.
  - A name too long for the `PATH_MAX` buffer is a name that cannot be read.
- CRC-32 is a function parameter.
  - The CRC of a file is computed over its whole contents. A `read` error in the middle of the CRC loop, which ends the loop early, is not modelled.
  - The zip time conversion (`zipTimeToTimespec`, `mktime`) is not modelled: entry times arrive in seconds.
  - The access time given to `utimes` is not modelled.
- The `INSTALL_FAILED_INTERNAL_ERROR` returns after `strlcpy` (lines 266-277, 286-298) are not modelled. `strlcpy` returns the length of its source, which is the length those checks compare against, so none of these returns can be taken.
  - Line 292 writes the slash into the destination name, not the temporary name. Nothing changes, because the pattern starts with a slash.
- NativeCopy.CopyFileIfChangedOutcome: promises success for destinations of under 12 characters too; it follows the intended template (see Findings). As written, the template makes mkstemp fail for destinations under 10 characters, and for 10 or 11 characters unless the directory name ends in six X's, in which case the temporary file is created beside the directory rather than inside it.
- NativeCopy.CopyFileIfChanged uses the intended temporary-file template (see Findings). The as-written template is kept in TempFileTemplate: under 10 characters it is the directory and a truncated pattern, and for 10 or 11 characters it is the directory name itself.
- `unlink` and `close` are assumed to succeed. The source ignores their results.
- NativeSize.SumNativeBinaries: the total is an unbounded natural number; the source's `size_t` sum would wrap at 2^64.
- Bitcode.HasRenderscriptBitcode: a name shorter than ".bc" is treated as not bitcode. The source compares bytes before the start of its name buffer there.
- Bitcode.HasRenderscriptBitcode: a null archive handle is not modelled. The default path would dereference it.
- Logging (`ALOG*`) and memory management (`UniquePtr`, deleting the ABI strings) are omitted.
- The ABI strings are taken to contain no NUL, so `strncmp` over the region length is equality of strings.
- Concurrency is not modelled: the code takes no locks of its own, and callers serialise access to one archive.

## Findings

| source | as written | input that shows it | evidently intended | confidence | as-written member | corrected member |
|---|---|---|---|---|---|---|
| core/jni/com_android_internal_content_NativeLibraryHelper.cpp:294-295 | the size given to `strlcpy` for the pattern is `TMP_FILE_PATTERN_LEN - nativeLibPath.size()` in size_t arithmetic, so a destination shorter than 10 characters receives only the start of "/tmp.XXXXXX", and one of 10 or 11 characters receives none of it, while the length check still passes | destination "/data/lib": template "/data/lib/". mkstemp rejects it, so every library that is not already installed fails with INSTALL_FAILED_CONTAINER_ERROR | the template `<destination>/tmp.XXXXXX` for every destination (a size of the buffer minus the directory length) | not executed; the arithmetic is certain, real destinations are longer than 11 characters | TempFileTemplate.ShortDestinationRejected | NativeCopy.TmpTemplate |
