/**
 * The archive as the scanner sees it: an ordered sequence of entry records and
 * the iteration interface of the zip reader. The reader itself (central
 * directory parsing, decompression) is not part of this model.
 */
module Archive {
  import opened Options
  import opened CStrings

  /** What getEntryInfo reports: uncompressed length, modification time (already converted to seconds), CRC-32. */
  datatype EntryInfo = EntryInfo(uncompLen: nat, modTime: int, crc: int)

  /**
   * One entry of the archive's directory. `rawName` is None when the reader
   * cannot copy the name into the caller's buffer; `info` is None when the
   * entry's metadata cannot be read; `contents` is what decompression writes.
   */
  datatype ZipEntry = ZipEntry(rawName: Option<string>, info: Option<EntryInfo>, contents: seq<bv8>)

  /** getEntryFileName into a NUL-terminated buffer: the C string the caller then sees. */
  function EntryFileName(entry: ZipEntry): Option<string>
  {
    match entry.rawName
    case None => None
    case Some(raw) => Some(CStr(raw))
  }

  /** The entry handed out for a name that findEntryByName does not find. */
  const MissingEntry := ZipEntry(None, None, [])

  /**
   * findEntryByName: the first entry whose name is `name`, or, when no entry
   * has that name, an entry nothing can be read from.
   */
  function FindEntryByName(entries: seq<ZipEntry>, name: string): (e: ZipEntry)
    ensures (forall i :: 0 <= i < |entries| ==> EntryFileName(entries[i]) != Some(name)) ==> e == MissingEntry
    ensures (exists i :: 0 <= i < |entries| && EntryFileName(entries[i]) == Some(name)) ==>
              exists i :: 0 <= i < |entries| && entries[i] == e && EntryFileName(e) == Some(name) &&
                          forall j :: 0 <= j < i ==> EntryFileName(entries[j]) != Some(name)
  {
    if entries == [] then MissingEntry
    else if EntryFileName(entries[0]) == Some(name) then entries[0]
    else
      var e := FindEntryByName(entries[1..], name);
      assert forall i :: 0 < i < |entries| ==> entries[i] == entries[1..][i - 1];
      e
  }

  /**
   * An opened, read-only archive. `iterable` says whether startIteration
   * succeeds; `openIterations` counts the iteration cookies not yet ended.
   */
  class ZipFileRO {
    const entries: seq<ZipEntry>
    const iterable: bool
    var openIterations: nat

    constructor (entries: seq<ZipEntry>, iterable: bool)
      ensures this.entries == entries && this.iterable == iterable && openIterations == 0
    {
      this.entries := entries;
      this.iterable := iterable;
      openIterations := 0;
    }

    /** startIteration: opens a cookie when the archive allows iteration. */
    method StartIteration() returns (ok: bool)
      modifies this
      ensures ok == iterable
      ensures openIterations == old(openIterations) + (if ok then 1 else 0)
    {
      ok := iterable;
      if ok {
        openIterations := openIterations + 1;
      }
    }

    /** endIteration: releases a cookie. */
    method EndIteration()
      requires openIterations > 0
      modifies this
      ensures openIterations == old(openIterations) - 1
    {
      openIterations := openIterations - 1;
    }
  }
}
