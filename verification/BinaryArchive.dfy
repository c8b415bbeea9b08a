/** Finding the one binary in an archive and copying it out, buffered or straight to a writer
    (crates/omne-archive-primitives/src/binary_archive.rs). */
module BinaryArchive {
  import opened Wrappers
  import opened Filesystem
  import opened Primitives

  // ---------------------------------------------------------------- entries

  /** What one call of `read` yields; no bytes mean the end. */
  datatype Read = Data(bytes: seq<Byte>) | Fail

  /** An entry as the decoder yields it; `None` is a path it cannot read. */
  datatype Entry = Unreadable | Entry(path: Option<string>, regular: bool, chunks: seq<Read>)

  /** All the bytes that reading yields from read `k` on, however they are divided. */
  function Content(chunks: seq<Read>, k: nat): seq<Byte>
    requires k <= |chunks|
    decreases |chunks| - k
  {
    if k == |chunks| || chunks[k].Fail? || chunks[k].bytes == [] then [] else chunks[k].bytes + Content(chunks, k + 1)
  }

  /** Reading ends in an error. */
  predicate Fails(chunks: seq<Read>, k: nat)
    requires k <= |chunks|
    decreases |chunks| - k
  {
    k < |chunks| && (chunks[k].Fail? || (chunks[k].bytes != [] && Fails(chunks, k + 1)))
  }

  datatype Extracted = Extracted(path: string, bytes: seq<Byte>)

  datatype Error =
    | ArchiveReadFailed
    | WriteFailed
    | MatchedEntryNotRegularFile(path: string)
    | ExtractionBudgetExceeded(path: string)
    | AmbiguousBinaryMatches(first: string, second: string)
    | BinaryNotFound
    | ArchiveScanBudgetExceeded

  datatype Request = Request(binaryName: string, hint: Option<string>, maxEntryBytes: nat, maxScanEntries: nat)

  // ---------------------------------------------------------------- names

  /** The same text, but for slashes in the place of backslashes. */
  predicate SlashesFor(r: string, s: string) {
    |r| == |s| && forall k :: 0 <= k < |r| ==> r[k] != '\\' && (r[k] == s[k] || (r[k] == '/' && s[k] == '\\'))
  }

  function Slashed(s: string): (r: string)
    ensures SlashesFor(r, s)
  {
    seq(|s|, i requires 0 <= i < |s| => if s[i] == '\\' then '/' else s[i])
  }

  predicate IsWhite(c: char) {
    || (9 <= c as int <= 13) || c as int in {0x20, 0x85, 0xA0, 0x1680, 0x2028, 0x2029, 0x202F, 0x205F, 0x3000}
    || (0x2000 <= c as int <= 0x200A)
  }

  function TrimStart(s: string): string {
    if s != "" && IsWhite(s[0]) then TrimStart(s[1..]) else s
  }

  function TrimEnd(s: string): string {
    if s != "" && IsWhite(s[|s|-1]) then TrimEnd(s[..|s|-1]) else s
  }

  function DropSlashes(s: string): string {
    if s != "" && s[0] == '/' then DropSlashes(s[1..]) else s
  }

  /** `normalize_archive_binary_hint`. */
  function NormalizeHint(hint: Option<string>): (r: Option<string>)
    ensures r.Some? ==> hint.Some? && r.value != ""
  {
    match hint
    case None => None
    case Some(h) =>
      var path := DropSlashes(Slashed(TrimEnd(TrimStart(h))));
      if path == "" then None else Some(path)
  }

  /** `is_binary_entry_match_without_hint`. */
  predicate IsMatch(path: string, binaryName: string) {
    var tail := "/bin/" + binaryName;
    path == "bin/" + binaryName || (|tail| <= |path| && path[|path| - |tail|..] == tail)
  }

  predicate IsIn(path: string, directory: string, binaryName: string) {
    path == directory + "/bin/" + binaryName
  }

  /** A match is the binary in `bin` at the top, or in the `bin` of some directory. */
  lemma MatchesAreInBin(path: string, binaryName: string)
    ensures IsMatch(path, binaryName) <==> path == "bin/" + binaryName || exists d :: IsIn(path, d, binaryName)
  {
    var tail := "/bin/" + binaryName;
    if |tail| <= |path| && path[|path| - |tail|..] == tail {
      var d := path[..|path| - |tail|];
      assert path == d + tail;
      assert d + tail == d + "/bin/" + binaryName;
      assert IsIn(path, d, binaryName);
    }
    forall d | IsIn(path, d, binaryName) ensures IsMatch(path, binaryName) {
      assert d + "/bin/" + binaryName == d + tail;
    }
  }

  /** `h[i..j]` is what lies between the white space at both ends. */
  predicate Trimmed(h: string, i: nat, j: nat) {
    && i <= j <= |h|
    && (forall k :: 0 <= k < i ==> IsWhite(h[k]))
    && (forall k :: j <= k < |h| ==> IsWhite(h[k]))
    && (i < j ==> !IsWhite(h[i]) && !IsWhite(h[j-1]))
  }

  lemma {:induction false} TrimStartMeans(s: string) returns (i: nat)
    ensures i <= |s| && TrimStart(s) == s[i..]
    ensures (forall k :: 0 <= k < i ==> IsWhite(s[k])) && (i < |s| ==> !IsWhite(s[i]))
  {
    i := 0;
    if s != "" && IsWhite(s[0]) {
      var n := TrimStartMeans(s[1..]);
      i := n + 1;
      assert s[1..][n..] == s[i..];
      forall k | 0 <= k < i ensures IsWhite(s[k]) {
        assert k > 0 ==> s[k] == s[1..][k - 1];
      }
    }
  }

  lemma {:induction false} TrimEndMeans(s: string) returns (j: nat)
    ensures j <= |s| && TrimEnd(s) == s[..j]
    ensures (forall k :: j <= k < |s| ==> IsWhite(s[k])) && (j > 0 ==> !IsWhite(s[j-1]))
  {
    j := |s|;
    if s != "" && IsWhite(s[|s|-1]) {
      j := TrimEndMeans(s[..|s|-1]);
      assert s[..|s|-1][..j] == s[..j];
    }
  }

  lemma {:induction false} DropSlashesMeans(s: string) returns (m: nat)
    ensures m <= |s| && DropSlashes(s) == s[m..]
    ensures (forall k :: 0 <= k < m ==> s[k] == '/') && (m < |s| ==> s[m] != '/')
  {
    m := 0;
    if s != "" && s[0] == '/' {
      var n := DropSlashesMeans(s[1..]);
      m := n + 1;
      assert s[1..][n..] == s[m..];
      forall k | 0 <= k < m ensures s[k] == '/' {
        assert k > 0 ==> s[k] == s[1..][k - 1];
      }
    }
  }

  lemma TrimMeans(h: string) returns (i: nat, j: nat)
    ensures Trimmed(h, i, j) && TrimEnd(TrimStart(h)) == h[i..j]
  {
    i := TrimStartMeans(h);
    var s := h[i..];
    var e := TrimEndMeans(s);
    j := i + e;
    assert s[..e] == h[i..j];
    forall k | j <= k < |h| ensures IsWhite(h[k]) {
      assert h[k] == s[k - i];
    }
    if e > 0 {
      assert h[j-1] == s[e-1] && h[i] == s[0];
    }
  }

  /** All that stands before `m` is slashes of one kind or the other, and at `m` none. */
  predicate SlashesUpTo(s: string, m: nat) {
    m <= |s| && (forall k :: 0 <= k < m ==> s[k] in "/\\") && (m < |s| ==> s[m] !in "/\\")
  }

  lemma PlainMeans(core: string) returns (m: nat)
    ensures SlashesUpTo(core, m) && SlashesFor(DropSlashes(Slashed(core)), core[m..])
  {
    var s := Slashed(core);
    m := DropSlashesMeans(s);
    var r := s[m..];
    forall k | 0 <= k < |r| ensures r[k] != '\\' && (r[k] == core[m..][k] || (r[k] == '/' && core[m..][k] == '\\')) {
      assert r[k] == s[m + k] && core[m..][k] == core[m + k];
    }
  }

  /** A hint loses the white space at its ends and then the slashes and backslashes it starts with, and
      its other backslashes become slashes; if nothing is left it is no hint. */
  lemma HintMeans(h: string) returns (i: nat, m: nat, j: nat)
    ensures Trimmed(h, i, j) && SlashesUpTo(h[i..j], m)
    ensures NormalizeHint(Some(h)).Some? <==> m < j - i
    ensures m < j - i ==> SlashesFor(NormalizeHint(Some(h)).value, h[i..j][m..])
  {
    i, j := TrimMeans(h);
    m := PlainMeans(h[i..j]);
  }

  // ---------------------------------------------------------------- what is selected

  predicate Over(size: nat, limit: nat) {
    Saturate(size) > limit
  }

  /** `read_matched_entry`. */
  function ReadEntry(path: string, chunks: seq<Read>, maxEntryBytes: nat): Result<Extracted, Error> {
    if Over(|Content(chunks, 0)|, maxEntryBytes) then Err(ExtractionBudgetExceeded(path))
    else if Fails(chunks, 0) then Err(ArchiveReadFailed)
    else Ok(Extracted(path, Content(chunks, 0)))
  }

  /** The scan from entry `k` on. */
  function Select(entries: seq<Entry>, q: Request, k: nat, pending: Option<Extracted>): Result<Extracted, Error>
    requires k <= |entries|
    decreases |entries| - k
  {
    if k == |entries| then (match pending case None => Err(BinaryNotFound) case Some(x) => Ok(x))
    else if entries[k].Unreadable? then Err(ArchiveReadFailed)
    else if Saturate(k + 1) > q.maxScanEntries then Err(ArchiveScanBudgetExceeded)
    else if entries[k].path == None then Err(ArchiveReadFailed)
    else
      var path := Slashed(entries[k].path.value);
      var hint := NormalizeHint(q.hint);
      if hint.Some? then
        if path != hint.value then Select(entries, q, k + 1, pending)
        else if !entries[k].regular then Err(MatchedEntryNotRegularFile(path))
        else ReadEntry(path, entries[k].chunks, q.maxEntryBytes)
      else if !IsMatch(path, q.binaryName) then Select(entries, q, k + 1, pending)
      else if !entries[k].regular then Err(MatchedEntryNotRegularFile(path))
      else
        match ReadEntry(path, entries[k].chunks, q.maxEntryBytes)
        case Err(e) => Err(e)
        case Ok(x) =>
          if pending.Some? then Err(AmbiguousBinaryMatches(pending.value.path, x.path))
          else Select(entries, q, k + 1, Some(x))
  }

  // ---------------------------------------------------------------- copying

  /** Where the bytes go. A refused write may leave a part behind. */
  class Writer {
    var written: seq<Byte>
    var clock: nat
    const refuse: nat -> bool
    const part: nat -> nat

    constructor (refuse: nat -> bool, part: nat -> nat)
      ensures written == [] && clock == 0 && this.refuse == refuse && this.part == part
    {
      written, clock, this.refuse, this.part := [], 0, refuse, part;
    }

    ghost predicate Willing()
      reads this
    {
      forall t :: t >= clock ==> !refuse(t)
    }

    method WriteAll(data: seq<Byte>) returns (ok: bool)
      modifies this
      ensures clock >= old(clock)
      ensures ok ==> written == old(written) + data
      ensures exists n: nat :: n <= |data| && written == old(written) + data[..n]
      ensures old(Willing()) ==> ok
    {
      clock := clock + 1;
      var n := if refuse(clock - 1) && part(clock - 1) <= |data| then part(clock - 1) else |data|;
      ok := !refuse(clock - 1);
      written := written + data[..n];
      assert data[..|data|] == data;
    }
  }

  /** What was added to the writer is a beginning of the content within the limit. */
  ghost predicate AddedPart(before: seq<Byte>, after: seq<Byte>, content: seq<Byte>, limit: nat) {
    exists n :: AddedFirst(before, after, content, limit, n)
  }

  predicate AddedFirst(before: seq<Byte>, after: seq<Byte>, content: seq<Byte>, limit: nat, n: nat) {
    n <= |content| && after == before + content[..n] && !Over(n, limit)
  }

  lemma ContentStep(content: seq<Byte>, done: nat, bytes: seq<Byte>, rest: seq<Byte>)
    requires done <= |content| && content[done..] == bytes + rest
    ensures done + |bytes| <= |content| && content[done + |bytes|..] == rest
    ensures content[..done + |bytes|] == content[..done] + bytes && content[done..done + |bytes|] == bytes
  {
    assert content[done..][..|bytes|] == bytes && content[done..][|bytes|..] == rest;
  }

  lemma PartStep(base: seq<Byte>, content: seq<Byte>, done: nat, bytes: seq<Byte>, n: nat)
    requires n <= |bytes| && done + |bytes| <= |content| && content[done..done + |bytes|] == bytes
    ensures (base + content[..done]) + bytes[..n] == base + content[..done + n]
  {
    assert content[done..done + |bytes|][..n] == content[done..done + n];
    assert content[..done + n] == content[..done] + bytes[..n];
    assert (base + content[..done]) + bytes[..n] == base + (content[..done] + bytes[..n]);
  }

  /** `copy_entry_with_limit`. */
  method CopyEntryWithLimit(chunks: seq<Read>, writer: Writer, path: string, maxEntryBytes: nat)
    returns (r: Result<(), Error>)
    modifies writer
    ensures writer.clock >= old(writer.clock)
    ensures r.Ok? ==>
              ReadEntry(path, chunks, maxEntryBytes).Ok? && writer.written == old(writer.written) + Content(chunks, 0)
    ensures r.Err? && r.error != WriteFailed ==> ReadEntry(path, chunks, maxEntryBytes) == Err(r.error)
    ensures AddedPart(old(writer.written), writer.written, Content(chunks, 0), maxEntryBytes)
    ensures old(writer.Willing()) ==> writer.Willing() && r != Err(WriteFailed)
  {
    ghost var content := Content(chunks, 0);
    ghost var done: nat := 0;
    var copied := 0;
    var k := 0;
    while k < |chunks|
      invariant 0 <= k <= |chunks| && writer.clock >= old(writer.clock)
      invariant done <= |content| && content[done..] == Content(chunks, k) && (Fails(chunks, k) <==> Fails(chunks, 0))
      invariant copied == Saturate(done)
      invariant AddedFirst(old(writer.written), writer.written, content, maxEntryBytes, done)
      invariant old(writer.Willing()) ==> writer.Willing()
    {
      if chunks[k].Fail? {
        assert content[..done] == content;
        return Err(ArchiveReadFailed);
      }
      var bytes := chunks[k].bytes;
      if bytes == [] {
        break;
      }
      copied := Saturate(copied + |bytes|);
      ContentStep(content, done, bytes, Content(chunks, k + 1));
      if copied > maxEntryBytes {
        return Err(ExtractionBudgetExceeded(path));
      }
      ghost var before := writer.written;
      var ok := writer.WriteAll(bytes);
      if !ok {
        ghost var n: nat :| n <= |bytes| && writer.written == before + bytes[..n];
        PartStep(old(writer.written), content, done, bytes, n);
        assert AddedFirst(old(writer.written), writer.written, content, maxEntryBytes, done + n);
        return Err(WriteFailed);
      }
      PartStep(old(writer.written), content, done, bytes, |bytes|);
      assert bytes[..|bytes|] == bytes;
      done := done + |bytes|;
      k := k + 1;
    }
    assert content[done..] == [];
    assert content[..done] == content;
    r := Ok(());
  }

  /** A buffer never refuses. */
  method ReadMatchedEntry(path: string, chunks: seq<Read>, maxEntryBytes: nat) returns (r: Result<Extracted, Error>)
    ensures r == ReadEntry(path, chunks, maxEntryBytes)
  {
    var buffer := new Writer(_ => false, _ => 0);
    var copied := CopyEntryWithLimit(chunks, buffer, path, maxEntryBytes);
    assert [] + Content(chunks, 0) == Content(chunks, 0);
    r := match copied case Ok(_) => Ok(Extracted(path, buffer.written)) case Err(e) => Err(e);
  }

  // ---------------------------------------------------------------- the two scans

  class ArchiveScanBudget {
    const maxEntries: nat
    var scannedEntries: nat

    constructor (maxEntries: nat)
      ensures this.maxEntries == maxEntries && scannedEntries == 0
    {
      this.maxEntries, scannedEntries := maxEntries, 0;
    }

    method RecordEntry() returns (ok: bool)
      modifies this
      ensures scannedEntries == Saturate(old(scannedEntries) + 1)
      ensures ok <==> scannedEntries <= maxEntries
    {
      scannedEntries := Saturate(scannedEntries + 1);
      ok := scannedEntries <= maxEntries;
    }
  }

  /** `extract_from_tar_gz` and its twins for the other formats. */
  method ExtractBuffered(entries: seq<Entry>, q: Request) returns (r: Result<Extracted, Error>)
    ensures r == Select(entries, q, 0, None)
  {
    var budget := new ArchiveScanBudget(q.maxScanEntries);
    var hint := NormalizeHint(q.hint);
    var pending: Option<Extracted> := None;
    var k := 0;
    while k < |entries|
      invariant 0 <= k <= |entries| && budget.scannedEntries == Saturate(k) && budget.maxEntries == q.maxScanEntries
      invariant Select(entries, q, k, pending) == Select(entries, q, 0, None)
    {
      if entries[k].Unreadable? {
        return Err(ArchiveReadFailed);
      }
      var inBudget := budget.RecordEntry();
      if !inBudget {
        return Err(ArchiveScanBudgetExceeded);
      }
      if entries[k].path == None {
        return Err(ArchiveReadFailed);
      }
      var path := Slashed(entries[k].path.value);
      if hint.Some? {
        if path == hint.value {
          if !entries[k].regular {
            return Err(MatchedEntryNotRegularFile(path));
          }
          r := ReadMatchedEntry(path, entries[k].chunks, q.maxEntryBytes);
          return;
        }
      } else if IsMatch(path, q.binaryName) {
        if !entries[k].regular {
          return Err(MatchedEntryNotRegularFile(path));
        }
        var candidate := ReadMatchedEntry(path, entries[k].chunks, q.maxEntryBytes);
        if candidate.Err? {
          return candidate;
        }
        if pending.Some? {
          return Err(AmbiguousBinaryMatches(pending.value.path, candidate.value.path));
        }
        pending := Some(candidate.value);
      }
      k := k + 1;
    }
    r := match pending case None => Err(BinaryNotFound) case Some(x) => Ok(x);
  }

  /** `extract_from_tar_gz_to_writer` and its twins. As long as the writer takes what it is given, the
      outcome is that of the buffered scan, and the writer gets exactly its bytes. Without a hint an
      extraction error leaves the writer untouched; with one it may have got a beginning of the
      entry, within the limit. */
  method ExtractToWriter(entries: seq<Entry>, q: Request, writer: Writer) returns (r: Result<string, Error>)
    modifies writer
    ensures r.Ok? ==> old(writer.written) <= writer.written
                      && Select(entries, q, 0, None) == Ok(Extracted(r.value, writer.written[|old(writer.written)|..]))
    ensures r.Err? && r.error != WriteFailed ==> Select(entries, q, 0, None) == Err(r.error)
    ensures old(writer.Willing()) ==> r != Err(WriteFailed)
    ensures NormalizeHint(q.hint).None? && r.Err? && r.error != WriteFailed ==> writer.written == old(writer.written)
    ensures r.Err? ==>
              writer.written == old(writer.written) || SomePart(entries, q, old(writer.written), writer.written)
  {
    var budget := new ArchiveScanBudget(q.maxScanEntries);
    var hint := NormalizeHint(q.hint);
    var pending: Option<(Extracted, nat)> := None;
    var k := 0;
    while k < |entries|
      invariant 0 <= k <= |entries| && budget.scannedEntries == Saturate(k) && budget.maxEntries == q.maxScanEntries
      invariant Select(entries, q, k, if pending.Some? then Some(pending.value.0) else None) == Select(entries, q, 0, None)
      invariant writer.written == old(writer.written) && writer.clock == old(writer.clock)
      invariant pending.Some? ==> Holds(entries, q, pending.value.0, pending.value.1)
    {
      if entries[k].Unreadable? {
        return Err(ArchiveReadFailed);
      }
      var inBudget := budget.RecordEntry();
      if !inBudget {
        return Err(ArchiveScanBudgetExceeded);
      }
      if entries[k].path == None {
        return Err(ArchiveReadFailed);
      }
      var path := Slashed(entries[k].path.value);
      if hint.Some? {
        if path == hint.value {
          if !entries[k].regular {
            return Err(MatchedEntryNotRegularFile(path));
          }
          var copied := CopyEntryWithLimit(entries[k].chunks, writer, path, q.maxEntryBytes);
          r := match copied case Ok(_) => Ok(path) case Err(e) => Err(e);
          return;
        }
      } else if IsMatch(path, q.binaryName) {
        if !entries[k].regular {
          return Err(MatchedEntryNotRegularFile(path));
        }
        var candidate := ReadMatchedEntry(path, entries[k].chunks, q.maxEntryBytes);
        if candidate.Err? {
          return Err(candidate.error);
        }
        if pending.Some? {
          return Err(AmbiguousBinaryMatches(pending.value.0.path, candidate.value.path));
        }
        pending := Some((candidate.value, k));
      }
      k := k + 1;
    }
    if pending == None {
      return Err(BinaryNotFound);
    }
    var found := pending.value.0;
    ghost var before := writer.written;
    var ok := writer.WriteAll(found.bytes);
    ghost var n: nat :| n <= |found.bytes| && writer.written == before + found.bytes[..n];
    assert AddedFirst(before, writer.written, Content(entries[pending.value.1].chunks, 0), q.maxEntryBytes, n);
    r := if ok then Ok(found.path) else Err(WriteFailed);
  }

  /** The writer got a beginning, within the limit, of the content of some entry. */
  ghost predicate SomePart(entries: seq<Entry>, q: Request, before: seq<Byte>, after: seq<Byte>) {
    exists k :: 0 <= k < |entries| && entries[k].Entry?
                && AddedPart(before, after, Content(entries[k].chunks, 0), q.maxEntryBytes)
  }

  /** The pending match is the content of entry `k`. */
  predicate Holds(entries: seq<Entry>, q: Request, x: Extracted, k: nat) {
    k < |entries| && entries[k].Entry? && x.bytes == Content(entries[k].chunks, 0) && !Over(|x.bytes|, q.maxEntryBytes)
  }

  // ---------------------------------------------------------------- what the scan finds

  predicate Readable(e: Entry) {
    e.Entry? && e.path.Some?
  }

  predicate Hit(e: Entry, q: Request) {
    Readable(e) && IsMatch(Slashed(e.path.value), q.binaryName)
  }

  /** A regular file that can be read to its end and is not too large. */
  predicate Fits(e: Entry, q: Request) {
    e.Entry? && e.regular && !Fails(e.chunks, 0) && !Over(|Content(e.chunks, 0)|, q.maxEntryBytes)
  }

  /** Everything from entry `k` on can be read and counted. */
  predicate Scannable(entries: seq<Entry>, q: Request, k: nat) {
    && (forall j :: k <= j < |entries| ==> Readable(entries[j]))
    && (k < |entries| ==> Saturate(|entries|) <= q.maxScanEntries)
  }

  predicate NoHits(entries: seq<Entry>, q: Request, k: nat) {
    forall j :: k <= j < |entries| ==> !Hit(entries[j], q)
  }

  /** Entry `i` is the only one that matches from entry `k` on. */
  predicate OnlyHit(entries: seq<Entry>, q: Request, k: nat, i: nat) {
    && k <= i < |entries| && Hit(entries[i], q)
    && forall j :: k <= j < |entries| && j != i ==> !Hit(entries[j], q)
  }

  function Taken(e: Entry): Extracted
    requires Readable(e)
  {
    Extracted(Slashed(e.path.value), Content(e.chunks, 0))
  }

  lemma {:induction false} SelectAfterMatch(entries: seq<Entry>, q: Request, k: nat, x: Extracted)
    requires k <= |entries| && NormalizeHint(q.hint) == None
    ensures Select(entries, q, k, Some(x)).Ok? <==> Scannable(entries, q, k) && NoHits(entries, q, k)
    ensures Select(entries, q, k, Some(x)).Ok? ==> Select(entries, q, k, Some(x)).value == x
    decreases |entries| - k
  {
    if k < |entries| {
      SelectAfterMatch(entries, q, k + 1, x);
      if Saturate(k + 1) > q.maxScanEntries {
        assert Saturate(|entries|) > q.maxScanEntries;
      }
    }
  }

  lemma {:induction false} SelectBeforeMatch(entries: seq<Entry>, q: Request, k: nat)
    requires k <= |entries| && NormalizeHint(q.hint) == None
    ensures Select(entries, q, k, None).Ok? <==>
            Scannable(entries, q, k) && exists i: nat :: OnlyHit(entries, q, k, i) && Fits(entries[i], q)
    ensures forall i: nat :: OnlyHit(entries, q, k, i) && Select(entries, q, k, None).Ok? ==>
                          Select(entries, q, k, None).value == Taken(entries[i])
    decreases |entries| - k
  {
    if k < |entries| {
      if Saturate(k + 1) > q.maxScanEntries {
        assert Saturate(|entries|) > q.maxScanEntries;
      } else if Readable(entries[k]) {
        if Hit(entries[k], q) {
          SelectAfterMatch(entries, q, k + 1, Taken(entries[k]));
          assert NoHits(entries, q, k + 1) <==> OnlyHit(entries, q, k, k);
          assert forall i: nat :: OnlyHit(entries, q, k, i) ==> i == k;
        } else {
          SelectBeforeMatch(entries, q, k + 1);
          assert forall i: nat :: OnlyHit(entries, q, k, i) <==> OnlyHit(entries, q, k + 1, i);
        }
      }
    }
  }

  /** Without a hint a binary is extracted exactly when every entry can be read, there are not too
      many, and exactly one of them matches, is a regular file and fits; and then it is that one. */
  lemma UnhintedExtraction(entries: seq<Entry>, q: Request)
    requires NormalizeHint(q.hint) == None
    ensures Select(entries, q, 0, None).Ok? <==>
            Scannable(entries, q, 0) && exists i: nat :: OnlyHit(entries, q, 0, i) && Fits(entries[i], q)
    ensures forall i: nat :: OnlyHit(entries, q, 0, i) && Select(entries, q, 0, None).Ok? ==>
                          Select(entries, q, 0, None).value == Taken(entries[i])
  {
    SelectBeforeMatch(entries, q, 0);
  }

  /** The scan gets to entry `i`: what comes before can be read and counted, and at most one of it
      matches, a regular file that fits. */
  ghost predicate Reached(entries: seq<Entry>, q: Request, i: nat) {
    && i < |entries|
    && (forall j :: 0 <= j < i ==> Readable(entries[j]) && (Hit(entries[j], q) ==> Fits(entries[j], q)))
    && (i > 0 ==> Saturate(i) <= q.maxScanEntries)
    && (forall j, m :: 0 <= j < m < i ==> !(Hit(entries[j], q) && Hit(entries[m], q)))
  }

  ghost function FoundBefore(entries: seq<Entry>, q: Request, i: nat): (r: Option<Extracted>)
    requires i <= |entries|
    ensures r.None? ==> forall j :: 0 <= j < i ==> !Hit(entries[j], q)
    ensures r.Some? ==> exists j :: 0 <= j < i && Hit(entries[j], q) && r.value == Taken(entries[j])
  {
    if i == 0 then None
    else if Hit(entries[i-1], q) then Some(Taken(entries[i-1]))
    else FoundBefore(entries, q, i - 1)
  }

  lemma {:induction false} ScanReaches(entries: seq<Entry>, q: Request, i: nat)
    requires NormalizeHint(q.hint) == None && Reached(entries, q, i)
    ensures Select(entries, q, 0, None) == Select(entries, q, i, FoundBefore(entries, q, i))
    decreases i
  {
    if i > 0 {
      ScanReaches(entries, q, i - 1);
      assert Readable(entries[i-1]);
      if Hit(entries[i-1], q) {
        assert FoundBefore(entries, q, i - 1).None?;
      }
    }
  }

  /** What is wrong with a match that does not fit. */
  function Misfit(e: Entry, q: Request): Error
    requires Readable(e) && !Fits(e, q)
  {
    var path := Slashed(e.path.value);
    if !e.regular then MatchedEntryNotRegularFile(path)
    else if Over(|Content(e.chunks, 0)|, q.maxEntryBytes) then ExtractionBudgetExceeded(path)
    else ArchiveReadFailed
  }

  /** Without a hint the first entry that cannot be read, is one too many, is a match that is no regular
      file, too large or unreadable, or is a second match, decides which error it is. */
  lemma UnhintedRefusal(entries: seq<Entry>, q: Request, i: nat)
    requires NormalizeHint(q.hint) == None && Reached(entries, q, i)
    ensures entries[i].Unreadable? ==> Select(entries, q, 0, None) == Err(ArchiveReadFailed)
    ensures entries[i].Entry? && Saturate(i + 1) > q.maxScanEntries ==>
              Select(entries, q, 0, None) == Err(ArchiveScanBudgetExceeded)
    ensures entries[i].Entry? && Saturate(i + 1) <= q.maxScanEntries && entries[i].path.None? ==>
              Select(entries, q, 0, None) == Err(ArchiveReadFailed)
    ensures Hit(entries[i], q) && Saturate(i + 1) <= q.maxScanEntries && !Fits(entries[i], q) ==>
              Select(entries, q, 0, None) == Err(Misfit(entries[i], q))
    ensures forall j :: 0 <= j < i && Hit(entries[j], q) && Hit(entries[i], q) && Fits(entries[i], q)
                        && Saturate(i + 1) <= q.maxScanEntries ==>
              Select(entries, q, 0, None)
              == Err(AmbiguousBinaryMatches(Taken(entries[j]).path, Taken(entries[i]).path))
  {
    ScanReaches(entries, q, i);
  }

  /** Nothing is found exactly when all can be read and counted and nothing matches. */
  lemma {:induction false} UnhintedNotFound(entries: seq<Entry>, q: Request, k: nat)
    requires k <= |entries| && NormalizeHint(q.hint) == None
    ensures Select(entries, q, k, None) == Err(BinaryNotFound) <==> Scannable(entries, q, k) && NoHits(entries, q, k)
    decreases |entries| - k
  {
    if k < |entries| {
      UnhintedNotFound(entries, q, k + 1);
      if Saturate(k + 1) > q.maxScanEntries {
        assert Saturate(|entries|) > q.maxScanEntries;
      } else if Hit(entries[k], q) && Fits(entries[k], q) {
        FoundIsNotLost(entries, q, k + 1, Taken(entries[k]));
      }
    }
  }

  lemma {:induction false} FoundIsNotLost(entries: seq<Entry>, q: Request, k: nat, x: Extracted)
    requires k <= |entries| && NormalizeHint(q.hint) == None
    ensures Select(entries, q, k, Some(x)) != Err(BinaryNotFound)
    decreases |entries| - k
  {
    if k < |entries| {
      FoundIsNotLost(entries, q, k + 1, x);
    }
  }

  /** Entry `i` is the first at the hinted path, and everything up to it can be read and counted. */
  predicate FirstAtHint(entries: seq<Entry>, q: Request, hint: string, k: nat, i: nat) {
    && k <= i < |entries| && Saturate(i + 1) <= q.maxScanEntries
    && (forall j :: k <= j <= i ==> Readable(entries[j]))
    && (forall j :: k <= j < i ==> Slashed(entries[j].path.value) != hint)
    && Slashed(entries[i].path.value) == hint
  }

  /** With a hint the first entry at that path decides, whatever comes after it. */
  lemma {:induction false} HintedExtraction(entries: seq<Entry>, q: Request, hint: string, k: nat)
    requires k <= |entries| && NormalizeHint(q.hint) == Some(hint)
    ensures Select(entries, q, k, None).Ok?
            <==> exists i: nat :: FirstAtHint(entries, q, hint, k, i) && Fits(entries[i], q)
    ensures forall i: nat :: FirstAtHint(entries, q, hint, k, i) ==>
              Select(entries, q, k, None).Ok? == Fits(entries[i], q)
              && (Fits(entries[i], q) ==> Select(entries, q, k, None).value == Taken(entries[i]))
              && (!Fits(entries[i], q) ==> Select(entries, q, k, None) == Err(Misfit(entries[i], q)))
    decreases |entries| - k
  {
    if k < |entries| && Readable(entries[k]) && Saturate(k + 1) <= q.maxScanEntries {
      if Slashed(entries[k].path.value) == hint {
        assert FirstAtHint(entries, q, hint, k, k);
        assert forall i: nat :: FirstAtHint(entries, q, hint, k, i) ==> i == k;
      } else {
        HintedExtraction(entries, q, hint, k + 1);
        assert forall i: nat :: FirstAtHint(entries, q, hint, k, i) <==> FirstAtHint(entries, q, hint, k + 1, i);
      }
    } else {
      assert forall i: nat :: !FirstAtHint(entries, q, hint, k, i);
    }
  }

  /** With a hint nothing is found exactly when all can be read and counted and no path is the hint. */
  lemma {:induction false} HintedNotFound(entries: seq<Entry>, q: Request, hint: string, k: nat)
    requires k <= |entries| && NormalizeHint(q.hint) == Some(hint)
    ensures Select(entries, q, k, None) == Err(BinaryNotFound) <==>
            Scannable(entries, q, k) && forall j :: k <= j < |entries| ==> Slashed(entries[j].path.value) != hint
    decreases |entries| - k
  {
    if k < |entries| {
      HintedNotFound(entries, q, hint, k + 1);
      if Saturate(k + 1) > q.maxScanEntries {
        assert Saturate(|entries|) > q.maxScanEntries;
      }
    }
  }

  /** The entries differ at most in how reading divides their content. */
  predicate SameContents(a: seq<Entry>, b: seq<Entry>) {
    |a| == |b| && forall j :: 0 <= j < |a| ==>
      (a[j].Entry? <==> b[j].Entry?)
      && (a[j].Entry? ==> a[j].path == b[j].path && a[j].regular == b[j].regular
                          && Content(a[j].chunks, 0) == Content(b[j].chunks, 0) && (Fails(a[j].chunks, 0) <==> Fails(b[j].chunks, 0)))
  }

  /** How the reader divides its data makes no difference to what is extracted or to which error is
      reported. */
  lemma {:induction false} ChunkingDoesNotMatter(a: seq<Entry>, b: seq<Entry>, q: Request, k: nat,
      pending: Option<Extracted>)
    requires SameContents(a, b) && k <= |a|
    ensures Select(a, q, k, pending) == Select(b, q, k, pending)
    decreases |a| - k
  {
    if k < |a| {
      ChunkingDoesNotMatter(a, b, q, k + 1, pending);
      if a[k].Entry? && a[k].path.Some? {
        var read := ReadEntry(Slashed(a[k].path.value), a[k].chunks, q.maxEntryBytes);
        if read.Ok? {
          ChunkingDoesNotMatter(a, b, q, k + 1, Some(read.value));
        }
      }
    }
  }
}
