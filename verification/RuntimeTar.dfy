/** Reading the runtime archive (browser-folder-provisioning.js, parseRuntimeTar), and a writer for the "ustar
    Interchange Format" section of the pax utility in IEEE Std 1003.1 (POSIX) that the reader must invert. */
module RuntimeTar {
  import opened MessageSpans
  import opened PromptEntries
  import opened Octal
  import Paths

  datatype TarError =
    | NumberInvalid | ChecksumMismatch | PathUnsafe | EntryUnsupported | DuplicateEntry | Truncated
    | NotAscii // a name or number field outside ASCII: not modelled

  const BLOCK: nat := 512

  // ---- Header fields ----

  function Text(s: Bytes): (r: string)
    requires Ascii(s)
    ensures |r| == |s| && forall k :: 0 <= k < |s| ==> r[k] as int == s[k]
  {
    seq(|s|, k requires 0 <= k < |s| => s[k] as char)
  }

  ghost function TextBytes(s: string): (r: Bytes)
    requires forall k :: 0 <= k < |s| ==> s[k] < '\U{80}'
    ensures |r| == |s| && forall k :: 0 <= k < |s| ==> r[k] == s[k] as int
  {
    seq(|s|, k requires 0 <= k < |s| => s[k] as int)
  }

  function NumberField(field: Bytes): (r: Result<nat, TarError>)
    ensures r == Failure(NotAscii) <==> exists k :: 0 <= k < |field| && field[k] >= 0x80
    ensures r.Success? ==> Octal.Parse(field) == Some(r.value)
  {
    if !Ascii(field) then Failure(NotAscii)
    else
      var n := Octal.Parse(field);
      if n.None? then Failure(NumberInvalid) else Success(n.value)
  }

  /** Everything up to the first NUL. */
  function UpToNul(s: Bytes): (r: Bytes)
    ensures r <= s && forall k :: 0 <= k < |r| ==> r[k] != 0
    ensures |r| < |s| ==> s[|r|] == 0
  {
    if s == [] || s[0] == 0 then [] else
      assert s == [s[0]] + s[1..];
      [s[0]] + UpToNul(s[1..])
  }

  function NameField(field: Bytes): Result<string, TarError> {
    var name := UpToNul(field);
    if !Ascii(name) then Failure(NotAscii) else Success(Text(name))
  }

  ghost predicate InChecksumField(k: int) {
    148 <= k < 156
  }

  /** The sum of the first `n` bytes, the checksum field counted as spaces. */
  ghost function SumTo(header: Bytes, n: nat): (r: nat)
    requires n <= |header|
    ensures r <= 255 * n
  {
    if n == 0 then 0 else SumTo(header, n - 1) + (if InChecksumField(n - 1) then 0x20 else header[n - 1])
  }

  method HeaderChecksum(header: Bytes) returns (sum: nat)
    requires |header| == BLOCK
    ensures sum == SumTo(header, BLOCK)
  {
    sum := 0;
    for index := 0 to BLOCK
      invariant sum == SumTo(header, index)
    {
      sum := sum + (if 148 <= index < 156 then 0x20 else header[index]);
    }
  }

  predicate AllZero(s: Bytes) {
    forall k :: 0 <= k < |s| ==> s[k] == 0
  }

  function RoundUp(size: nat): (r: nat)
    ensures r % BLOCK == 0 && size <= r < size + BLOCK
  {
    (size + 511) / 512 * 512
  }

  // ---- Reading ----

  datatype TarEntry = TarEntry(name: string, size: nat)

  /** What a header says, or why it is refused; `known` are the names read before. */
  ghost function ReadHeader(header: Bytes, known: set<string>): Result<TarEntry, TarError>
    requires |header| == BLOCK
  {
    var checksum := NumberField(header[148..156]);
    if checksum.Failure? then Failure(checksum.error)
    else if SumTo(header, BLOCK) != checksum.value then Failure(ChecksumMismatch)
    else
      var name := NameField(header[0..100]);
      if name.Failure? then Failure(name.error)
      else if !Paths.Safe(name.value) then Failure(PathUnsafe)
      else if header[156] != 0 && header[156] != 0x30 then Failure(EntryUnsupported)
      else if name.value in known then Failure(DuplicateEntry)
      else
        var size := NumberField(header[124..136]);
        if size.Failure? then Failure(size.error) else Success(TarEntry(name.value, size.value))
  }

  /** The files from `offset` on, added to those read before. */
  ghost function ReadFrom(archive: Bytes, offset: nat, files: map<string, Bytes>): Result<map<string, Bytes>, TarError>
    decreases |archive| - offset
  {
    if offset + BLOCK > |archive| || AllZero(archive[offset..offset + BLOCK]) then Success(files)
    else
      var entry := ReadHeader(archive[offset..offset + BLOCK], files.Keys);
      if entry.Failure? then Failure(entry.error)
      else
        var start := offset + BLOCK;
        var end := start + entry.value.size;
        if end > |archive| then Failure(Truncated)
        else ReadFrom(archive, start + RoundUp(entry.value.size), files[entry.value.name := archive[start..end]])
  }

  /** These files were archived, with the trailer behind them. */
  ghost predicate ArchiveOf(archive: Bytes, files: seq<File>, trailer: Bytes) {
    && DistinctNames(files) && Trailer(trailer)
    && (forall k :: 0 <= k < |files| ==> Archivable(files[k]))
    && archive == Archive(files) + trailer
  }

  lemma ArchivesRead(archive: Bytes)
    ensures forall files, trailer :: ArchiveOf(archive, files, trailer) ==> ReadFrom(archive, 0, map[]) == Success(Contents(files))
  {
    hide ReadFrom;
    forall files, trailer | ArchiveOf(archive, files, trailer) ensures ReadFrom(archive, 0, map[]) == Success(Contents(files)) {
      ReadArchive(files, trailer);
    }
  }

  method ParseRuntimeTar(archive: Bytes) returns (r: Result<map<string, Bytes>, TarError>)
    ensures r == ReadFrom(archive, 0, map[])
    ensures forall files, trailer :: ArchiveOf(archive, files, trailer) ==> r == Success(Contents(files))
  {
    ArchivesRead(archive);
    hide ArchiveOf, Contents, ReadHeader, RoundUp, AllZero;
    var files: map<string, Bytes> := map[];
    var offset := 0;
    while offset + BLOCK <= |archive|
      invariant ReadFrom(archive, offset, files) == ReadFrom(archive, 0, map[])
      invariant 0 <= offset
      decreases |archive| - offset
    {
      var header := archive[offset..offset + BLOCK];
      if AllZero(header) { break; }
      var entry := ReadEntryHeader(header, files.Keys);
      if entry.Failure? { return Failure(entry.error); }
      var start := offset + BLOCK;
      var end := start + entry.value.size;
      if end > |archive| { return Failure(Truncated); }
      files := files[entry.value.name := archive[start..end]];
      offset := start + RoundUp(entry.value.size);
    }
    r := Success(files);
  }

  method ReadEntryHeader(header: Bytes, known: set<string>) returns (r: Result<TarEntry, TarError>)
    requires |header| == BLOCK
    ensures r == ReadHeader(header, known)
  {
    var expected := NumberField(header[148..156]);
    if expected.Failure? { return Failure(expected.error); }
    var actual := HeaderChecksum(header);
    if actual != expected.value { return Failure(ChecksumMismatch); }
    var name := NameField(header[0..100]);
    if name.Failure? { return Failure(name.error); }
    if !Paths.Safe(name.value) { return Failure(PathUnsafe); }
    var flag := if header[156] == 0 then 0x30 else header[156];
    if flag != 0x30 { return Failure(EntryUnsupported); }
    if name.value in known { return Failure(DuplicateEntry); }
    var size := NumberField(header[124..136]);
    if size.Failure? { return Failure(size.error); }
    r := Success(TarEntry(name.value, size.value));
  }

  // ---- Writing ----

  /** A file to archive, and the header fields the reader does not look at: mode, user and group ids (24 bytes),
      modification time (12), everything behind the type flag (355). The flag may be '0' or NUL, the size may end in
      NUL or a space. */
  datatype File = File(
    name: string, content: Bytes, ids: Bytes, time: Bytes, rest: Bytes, flag: Byte, sizeEnd: Byte, checksumEnd: Bytes)

  ghost predicate Archivable(f: File) {
    && Paths.Safe(f.name) && 1 <= |f.name| <= 100 && (forall k :: 0 <= k < |f.name| ==> '\0' < f.name[k] < '\U{80}')
    && |f.content| < Power8(11)
    && |f.ids| == 24 && |f.time| == 12 && |f.rest| == 355 && (f.flag == 0 || f.flag == ZERO)
    && (f.sizeEnd == 0 || f.sizeEnd == 32) && |f.checksumEnd| == 2 && Terminator(f.checksumEnd)
  }

  ghost function Zeros(n: nat): (r: Bytes)
    ensures |r| == n && AllZero(r)
  {
    seq(n, _ => 0)
  }

  ghost function HeaderWith(f: File, checksum: Bytes): (r: Bytes)
    requires Archivable(f) && |checksum| == 8
    ensures |r| == BLOCK
  {
    TextBytes(f.name) + Zeros(100 - |f.name|) + f.ids + (Digits(|f.content|, 11) + [f.sizeEnd]) + f.time + checksum + [f.flag] + f.rest
  }

  /** The checksum is computed with its own field blank. */
  ghost function Header(f: File): (r: Bytes)
    requires Archivable(f)
    ensures |r| == BLOCK
  {
    HeaderWith(f, Digits(SumTo(HeaderWith(f, seq(8, _ => 32)), BLOCK), 6) + f.checksumEnd)
  }

  ghost function Written(f: File): Bytes
    requires Archivable(f)
  {
    Header(f) + f.content + Zeros(RoundUp(|f.content|) - |f.content|)
  }

  ghost function Archive(files: seq<File>): Bytes
    requires forall k :: 0 <= k < |files| ==> Archivable(files[k])
  {
    if files == [] then [] else Written(files[0]) + Archive(files[1..])
  }

  /** Names to contents. */
  ghost function Contents(files: seq<File>): (r: map<string, Bytes>)
    ensures forall name :: name in r <==> exists k :: 0 <= k < |files| && files[k].name == name
  {
    if files == [] then map[]
    else
      var init := files[..|files| - 1];
      assert files == init + [files[|files| - 1]];
      Contents(init)[files[|files| - 1].name := files[|files| - 1].content]
  }

  /** Where the archive ends: with nothing a header could be read from. */
  ghost predicate Trailer(s: Bytes) {
    |s| < BLOCK || AllZero(s[..BLOCK])
  }

  // ---- The reader inverts the writer ----

  lemma HeaderFields(f: File, checksum: Bytes)
    requires Archivable(f) && |checksum| == 8
    ensures var h := HeaderWith(f, checksum);
      && h[0..100] == TextBytes(f.name) + Zeros(100 - |f.name|)
      && h[124..136] == Digits(|f.content|, 11) + [f.sizeEnd]
      && h[148..156] == checksum
      && h[156] == f.flag
  {
    hide Digits;
    var h := HeaderWith(f, checksum);
    var a, b := TextBytes(f.name) + Zeros(100 - |f.name|), Digits(|f.content|, 11) + [f.sizeEnd];
    assert h == a + f.ids + b + f.time + checksum + [f.flag] + f.rest;
    assert h[..100] == a && h[100..124] == f.ids && h[124..136] == b;
    assert h[136..148] == f.time && h[148..156] == checksum;
  }

  lemma {:induction false} SumIgnoresField(a: Bytes, b: Bytes, n: nat)
    requires |a| == |b| && n <= |a|
    requires forall k :: 0 <= k < n && !InChecksumField(k) ==> a[k] == b[k]
    ensures SumTo(a, n) == SumTo(b, n)
  {
    if n > 0 { SumIgnoresField(a, b, n - 1); }
  }

  lemma HeadersAgree(f: File, c: Bytes, d: Bytes)
    requires Archivable(f) && |c| == 8 && |d| == 8
    ensures SumTo(HeaderWith(f, c), BLOCK) == SumTo(HeaderWith(f, d), BLOCK)
  {
    hide Digits;
    var before := TextBytes(f.name) + Zeros(100 - |f.name|) + f.ids + (Digits(|f.content|, 11) + [f.sizeEnd]) + f.time;
    var after := [f.flag] + f.rest;
    assert |before| == 148;
    var a, b := HeaderWith(f, c), HeaderWith(f, d);
    assert a == before + c + after && b == before + d + after;
    SumIgnoresField(a, b, BLOCK);
  }

  lemma {:induction false} PaddingDropped(name: Bytes, zeros: Bytes)
    requires AllZero(zeros) && forall k :: 0 <= k < |name| ==> name[k] != 0
    ensures UpToNul(name + zeros) == name
  {
    if name == [] {
      assert name + zeros == zeros;
    } else {
      PaddingDropped(name[1..], zeros);
      assert (name + zeros)[1..] == name[1..] + zeros;
    }
  }

  lemma NameReadBack(name: string, padding: nat)
    requires forall k :: 0 <= k < |name| ==> '\0' < name[k] < '\U{80}'
    ensures NameField(TextBytes(name) + Zeros(padding)) == Success(name)
  {
    PaddingDropped(TextBytes(name), Zeros(padding));
    assert Text(TextBytes(name)) == name;
  }

  lemma AsciiDigits(n: nat, width: nat, terminator: Bytes)
    requires Terminator(terminator)
    ensures Ascii(Digits(n, width) + terminator)
  {
    hide Digits;
  }

  /** 512 bytes never sum up to more than six octal digits hold. */
  lemma ChecksumFits(header: Bytes)
    requires |header| == BLOCK
    ensures SumTo(header, BLOCK) < Power8(6)
  {
    assert Power8(3) == 8 * Power8(2) && Power8(2) == 8 * Power8(1) && Power8(1) == 8 * Power8(0);
    assert Power8(6) == 8 * Power8(5) && Power8(5) == 8 * Power8(4) && Power8(4) == 8 * Power8(3);
  }

  /** The header of a file is read back as its name and size. */
  lemma HeaderReadBack(f: File, known: set<string>)
    requires Archivable(f) && f.name !in known
    ensures ReadHeader(Header(f), known) == Success(TarEntry(f.name, |f.content|))
    ensures !AllZero(Header(f))
  {
    hide Digits, SumTo, Power8, HeaderWith;
    var blank := HeaderWith(f, seq(8, _ => 32));
    var sum := SumTo(blank, BLOCK);
    var checksum := Digits(sum, 6) + f.checksumEnd;
    HeaderFields(f, checksum);
    HeadersAgree(f, checksum, seq(8, _ => 32));
    ChecksumFits(blank);
    ParsePrinted(sum, 6, f.checksumEnd);
    AsciiDigits(sum, 6, f.checksumEnd);
    NameReadBack(f.name, 100 - |f.name|);
    ParsePrinted(|f.content|, 11, [f.sizeEnd]);
    AsciiDigits(|f.content|, 11, [f.sizeEnd]);
    assert Header(f)[148] == Header(f)[148..156][0] == checksum[0];
  }

  lemma SliceOf(a: Bytes, b: Bytes, c: Bytes, at: nat, end: nat)
    requires at == |a| && end == |a| + |b|
    ensures (a + b + c)[at..end] == b
  {
  }

  /** What the reader finds at the start of a written file. */
  lemma WrittenParts(before: Bytes, f: File, after: Bytes)
    requires Archivable(f)
    ensures var archive, n := before + Written(f) + after, |before|;
      && n + BLOCK + RoundUp(|f.content|) == |before + Written(f)| <= |archive|
      && archive[n..n + BLOCK] == Header(f)
      && archive[n + BLOCK..n + BLOCK + |f.content|] == f.content
  {
    hide Header, Power8;
    var archive, n := before + Written(f) + after, |before|;
    var padding := Zeros(RoundUp(|f.content|) - |f.content|);
    assert Written(f) == Header(f) + f.content + padding;
    assert archive == before + Header(f) + (f.content + padding + after);
    SliceOf(before, Header(f), f.content + padding + after, n, n + BLOCK);
    assert archive == (before + Header(f)) + f.content + (padding + after);
    SliceOf(before + Header(f), f.content, padding + after, n + BLOCK, n + BLOCK + |f.content|);
  }

  /** One written file is read, and reading goes on behind it. */
  lemma WrittenRead(before: Bytes, f: File, after: Bytes, files: map<string, Bytes>)
    requires Archivable(f) && f.name !in files
    ensures var archive := before + Written(f) + after;
      ReadFrom(archive, |before|, files) == ReadFrom(archive, |before + Written(f)|, files[f.name := f.content])
  {
    hide ReadHeader, Header, Power8, Written, RoundUp;
    WrittenParts(before, f, after);
    HeaderReadBack(f, files.Keys);
  }

  ghost predicate DistinctNames(files: seq<File>) {
    forall j, k :: 0 <= j < k < |files| ==> files[j].name != files[k].name
  }

  lemma {:induction false} ArchiveSplit(files: seq<File>, n: nat)
    requires n < |files| && forall k :: 0 <= k < |files| ==> Archivable(files[k])
    ensures Archive(files[..n + 1]) == Archive(files[..n]) + Written(files[n])
    decreases n
  {
    hide Written;
    if n == 0 {
      assert files[..1] == [files[0]] && files[..0] == [] && files[..1][1..] == [];
    } else {
      ArchiveSplit(files[1..], n - 1);
      assert files[..n + 1][1..] == files[1..][..n] && files[..n][1..] == files[1..][..n - 1];
    }
  }

  lemma ContentsMore(files: seq<File>, n: nat)
    requires n < |files|
    ensures Contents(files[..n + 1]) == Contents(files[..n])[files[n].name := files[n].content]
  {
    assert files[..n + 1][..n] == files[..n] && files[..n + 1][n] == files[n];
  }

  /** Behind the last file nothing more is read. */
  lemma ReadEnd(before: Bytes, trailer: Bytes, files: map<string, Bytes>)
    requires Trailer(trailer)
    ensures ReadFrom(before + trailer, |before|, files) == Success(files)
  {
    hide ReadHeader;
    if |trailer| >= BLOCK {
      assert (before + trailer)[|before|..|before| + BLOCK] == trailer[..BLOCK];
    }
  }

  /** Reading an archive from its n-th file on, with the files before it already read. */
  lemma {:induction false} ReadRest(files: seq<File>, n: nat, trailer: Bytes)
    requires n <= |files| && DistinctNames(files) && Trailer(trailer)
    requires forall k :: 0 <= k < |files| ==> Archivable(files[k])
    ensures ReadFrom(Archive(files) + trailer, |Archive(files[..n])|, Contents(files[..n])) == Success(Contents(files))
    decreases |files| - n
  {
    hide Written, ReadFrom, Archive, Contents, Archivable;
    var archive := Archive(files) + trailer;
    if n == |files| {
      assert files[..n] == files;
      ReadEnd(Archive(files), trailer, Contents(files));
    } else {
      ReadRest(files, n + 1, trailer);
      ArchiveSplit(files, n);
      ArchiveAround(files, n);
      var before, after := Archive(files[..n]), Archive(files[n + 1..]) + trailer;
      assert archive == before + Written(files[n]) + after;
      NotYetRead(files, n);
      WrittenRead(before, files[n], after, Contents(files[..n]));
      ContentsMore(files, n);
    }
  }

  lemma {:induction false} ArchiveAround(files: seq<File>, n: nat)
    requires n < |files| && forall k :: 0 <= k < |files| ==> Archivable(files[k])
    ensures Archive(files) == Archive(files[..n]) + Written(files[n]) + Archive(files[n + 1..])
    decreases n
  {
    hide Written, Archivable;
    if n == 0 {
      assert files[..0] == [];
    } else {
      ArchiveAround(files[1..], n - 1);
      assert files[..n][1..] == files[1..][..n - 1] && files[1..][n..] == files[n + 1..];
    }
  }

  lemma NotYetRead(files: seq<File>, n: nat)
    requires n < |files| && DistinctNames(files)
    ensures files[n].name !in Contents(files[..n])
  {
  }

  /** Whatever is archived comes back: contents with zero blocks, unused header fields and trailing bytes included. */
  lemma ReadArchive(files: seq<File>, trailer: Bytes)
    requires DistinctNames(files) && Trailer(trailer)
    requires forall k :: 0 <= k < |files| ==> Archivable(files[k])
    ensures ReadFrom(Archive(files) + trailer, 0, map[]) == Success(Contents(files))
  {
    hide Archive, ReadFrom;
    ReadRest(files, 0, trailer);
    assert files[..0] == [];
    EmptyArchive();
  }

  lemma EmptyArchive()
    ensures Archive([]) == [] && Contents([]) == map[]
  {
  }

  /** The map holds exactly what was archived. */
  lemma {:induction false} ContentsHold(files: seq<File>, k: nat)
    requires DistinctNames(files) && k < |files|
    ensures files[k].name in Contents(files) && Contents(files)[files[k].name] == files[k].content
    ensures |Contents(files)| == |files|
  {
    var init := files[..|files| - 1];
    if k < |files| - 1 { ContentsHold(init, k); }
    if |files| > 1 && k == |files| - 1 { ContentsHold(init, 0); }
    NotYetRead(files, |files| - 1);
  }

  /** A file in nested folders is read back, whatever the folders are called apart from "", "." and "..". */
  lemma NestedFileRead(parts: seq<string>, f: File, trailer: Bytes)
    requires parts != [] && f.name == Paths.Joined(parts, "/") && Trailer(trailer)
    requires forall k :: 0 <= k < |parts| ==> Paths.Separated(parts[k]) && parts[k] !in {"", ".", ".."}
    requires |parts| > 1 ==> !Paths.IsDrive(parts[0])
    requires |f.name| <= 100 && (forall k :: 0 <= k < |f.name| ==> '\0' < f.name[k] < '\U{80}') && |f.content| < Power8(11)
    requires |f.ids| == 24 && |f.time| == 12 && |f.rest| == 355 && (f.flag == 0 || f.flag == ZERO)
    requires (f.sizeEnd == 0 || f.sizeEnd == 32) && |f.checksumEnd| == 2 && Terminator(f.checksumEnd)
    ensures Archivable(f) && ReadFrom(Written(f) + trailer, 0, map[]) == Success(map[f.name := f.content])
  {
    Paths.SafeIff(parts);
    assert Archivable(f) by { assert f.name != ""; }
    hide Written, ReadFrom, Archivable;
    assert Archive([f]) == Written(f) by { EmptyArchive(); assert [f][1..] == []; }
    ReadArchive([f], trailer);
  }
}
