/** Directory files: `decode_file_identifier` of src/ecma167.c and `_parse_dir_file`,
    `_read_dir_file` and `udf_read_dir` of src/udf_fs.c. */
module Directories {
  import opened Bytes
  import opened Records
  import opened Ecma167
  import opened Metadata
  import opened AdChain
  import opened Cs0
  import opened PathLookup

  // ------------------------------------------------------------ one identifier

  /** struct file_identifier and the number of bytes it takes up. */
  datatype Fid = Fid(characteristic: u8, icb: LongAd, name: seq<u8>, used: nat)

  /** Dwords: section 14.4.9 of part 4. */
  function Padded(n: nat): nat { 4 * ((n + 3) / 4) }

  /** `decode_file_identifier` on all data from an identifier to the end of the
      directory; absent if there is not enough. */
  function FidAt(d: seq<u8>): (f: Option<Fid>)
    ensures f.Some? ==> 40 <= f.value.used <= |d| + 3 && f.value.used % 4 == 0
  {
    if |d| < 38 then None
    else
      var lFi, lIu := d[19] as int, U16(d, 36);
      if |d| < 38 + lIu + lFi then None
      else Some(Fid(d[18], AdAt(d, 20, 1, 0), d[38 + lIu..38 + lIu + lFi], Padded(38 + lFi + lIu)))
  }

  /** The entry an identifier makes: none for the parent directory, and none for a name
      that is empty or cannot be converted. */
  function Entry(f: Fid): Option<FileId> {
    if HasFlag(f.characteristic as int, FLAG_PARENT) || |f.name| < 1 then None
    else match Mutf8(f.name)
      case None => None
      case Some(name) => if name == [] then None else Some(FileId(name, f.icb, f.characteristic))
  }

  // ----------------------------------------------------------- a whole directory

  datatype Parsed = Parsed(ok: bool, files: seq<FileId>)

  /** What comes after an identifier; its padding may reach past the end. */
  function After(d: seq<u8>, used: nat): seq<u8> { if used >= |d| then [] else d[used..] }

  function Cons(e: Option<FileId>, p: Parsed): Parsed {
    if e.None? then p else p.(files := [e.value] + p.files)
  }

  const UINT32_MAX: int := 0xFFFF_FFFF

  /** `_parse_dir_file` when the list has room for that many more entries. */
  function ParseUpTo(d: seq<u8>, room: nat): Parsed
    decreases |d|
  {
    if |d| <= 16 || room == 0 then Parsed(true, [])
    else if Tag(d) != TAG_FILE_IDENTIFIER then Parsed(false, [])
    else match FidAt(d)
      case None => Parsed(true, [])
      case Some(f) => Cons(Entry(f), ParseUpTo(After(d, f.used), if Entry(f).Some? then room - 1 else room))
  }

  function Prepend(found: seq<FileId>, p: Parsed): Parsed { p.(files := found + p.files) }

  function Extend(found: seq<FileId>, e: Option<FileId>): seq<FileId> {
    if e.None? then found else found + [e.value]
  }

  lemma ParseStops(found: seq<FileId>, d: seq<u8>, room: nat)
    requires |d| <= 16 || room == 0 || Tag(d) != TAG_FILE_IDENTIFIER || FidAt(d).None?
    ensures Prepend(found, ParseUpTo(d, room)) ==
      Parsed(|d| <= 16 || room == 0 || Tag(d) == TAG_FILE_IDENTIFIER, found)
  {
    assert found + [] == found;
  }

  lemma ParseGoesOn(found: seq<FileId>, d: seq<u8>, room: nat)
    requires |d| > 16 && room > 0 && Tag(d) == TAG_FILE_IDENTIFIER && FidAt(d).Some?
    ensures var f := FidAt(d).value;
            Prepend(found, ParseUpTo(d, room)) ==
            Prepend(Extend(found, Entry(f)), ParseUpTo(After(d, f.used), if Entry(f).Some? then room - 1 else room))
  {
    hide Tag; hide FidAt; hide Entry;
    var f := FidAt(d).value;
    if Entry(f).Some? { Assoc(found, [Entry(f).value], ParseUpTo(After(d, f.used), room - 1).files); }
  }

  lemma ParseFromStart(d: seq<u8>, room: nat)
    ensures ParseUpTo(d, room) == Prepend([], ParseUpTo(d, room)) && After(d, 0) == d
  {
    assert [] + ParseUpTo(d, room).files == ParseUpTo(d, room).files;
  }

  /** The filter and the conversion in the loop body. */
  method Convert(f: Fid) returns (entry: Option<FileId>)
    ensures entry == Entry(f)
  {
    if HasFlag(f.characteristic as int, FLAG_PARENT) { return None; }
    if |f.name| < 1 { return None; }
    var name, len := Cs0ToMutf8(f.name);
    if name.None? { return None; }
    assert len > 0 ==> name.value[0] == name.value[..len][0];
    if name.value[0] == 0 { return None; }
    return Some(FileId(name.value[..len], f.icb, f.characteristic));
  }

  lemma TagOfPrefix(d: seq<u8>)
    requires |d| >= 16
    ensures Tag(d[..16]) == Tag(d)
  {
    TagSumAgrees(d, d[..16], 16);
  }

  lemma AfterAfter(d: seq<u8>, p: nat, used: nat)
    ensures After(After(d, p), used) == After(d, p + used)
  {}

  /** struct udf_dir_entries; `files` is absent while the pointer is NULL. */
  class DirEntries {
    var files: Option<seq<FileId>>

    constructor ()
      ensures files == None
    {
      files := None;
    }

    function Entries(): seq<FileId> reads this { EntriesOf(files) }

    /** `_parse_dir_file`; p counts bytes from the start of the data. It only ever stands
        on dwords and at most 3 bytes past the end. */
    method ParseDirFile(data: seq<u8>) returns (ok: bool)
      requires |Entries()| <= UINT32_MAX
      modifies this
      ensures var parsed := ParseUpTo(data, UINT32_MAX - |old(Entries())|);
              ok == parsed.ok && Entries() == old(Entries()) + parsed.files
      ensures files.Some? <==>
        old(files).Some? || (|data| > 16 && |old(Entries())| < UINT32_MAX && Tag(data) == TAG_FILE_IDENTIFIER)
    {
      hide Tag; hide FidAt; hide Entry; hide ParseUpTo;
      ghost var room := UINT32_MAX - |Entries()|;
      ParseFromStart(data, room);
      assert old(Entries()) + [] == old(Entries());
      if |data| < 16 {
        ParseStops([], data, room);
        return true;
      }
      var p: nat := 0;
      ghost var found: seq<FileId> := [];
      while p + 16 < |data|
        invariant p % 4 == 0 && p <= |data| + 3
        invariant Entries() == old(Entries()) + found && |found| <= room
        invariant ParseUpTo(data, room) == Prepend(found, ParseUpTo(After(data, p), room - |found|))
        invariant files.Some? <==> old(files).Some? || p > 0
        invariant p > 0 ==> |data| > 16 && room > 0 && Tag(data) == TAG_FILE_IDENTIFIER
        decreases |data| + 3 - p
      {
        ghost var rest := After(data, p);
        if |Entries()| == UINT32_MAX {
          ParseStops(found, rest, room - |found|);
          return true;
        }
        assert data[p..] == rest && data[p..p + 16] == rest[..16];
        TagOfPrefix(rest);
        var tagId := DecodeDescriptorTag(data[p..p + 16]);
        if tagId != TAG_FILE_IDENTIFIER {
          ParseStops(found, rest, room - |found|);
          return false;
        }
        if files.None? { files := Some([]); }
        var fid := FidAt(data[p..]);
        if fid.None? {  // not enough data: keep the entries so far
          ParseStops(found, rest, room - |found|);
          return true;
        }
        ParseGoesOn(found, rest, room - |found|);
        AfterAfter(data, p, fid.value.used);
        p := p + fid.value.used;
        var entry := Convert(fid.value);
        Assoc(old(Entries()), found, if entry.Some? then [entry.value] else []);
        found := Extend(found, entry);
        if entry.Some? { files := Some(files.value + [entry.value]); }
      }
      ParseStops(found, After(data, p), room - |found|);
      return true;
    }
  }

  /** `_parse_dir_file` with room enough. */
  function Parse(d: seq<u8>): Parsed
    decreases |d|
  {
    if |d| <= 16 then Parsed(true, [])
    else if Tag(d) != TAG_FILE_IDENTIFIER then Parsed(false, [])
    else match FidAt(d)
      case None => Parsed(true, [])
      case Some(f) => Cons(Entry(f), Parse(After(d, f.used)))
  }

  /** Any identifier takes at least 40 bytes, so for data of less than 2^32 bytes the
      limit on the number of entries is never met. */
  lemma {:induction false} LimitNeverMet(d: seq<u8>, room: nat)
    requires room * 40 > |d| + 3
    ensures ParseUpTo(d, room) == Parse(d)
    decreases |d|
  {
    hide Tag; hide FidAt; hide Entry;
    if |d| > 16 && Tag(d) == TAG_FILE_IDENTIFIER && FidAt(d).Some? {
      var f := FidAt(d).value;
      LimitNeverMet(After(d, f.used), if Entry(f).Some? then room - 1 else room);
    }
  }

  lemma {:induction false} EntriesAreSparse(d: seq<u8>)
    ensures |Parse(d).files| * 40 <= |d| + 3
    decreases |d|
  {
    hide Tag; hide FidAt; hide Entry;
    if |d| > 16 && Tag(d) == TAG_FILE_IDENTIFIER && FidAt(d).Some? {
      EntriesAreSparse(After(d, FidAt(d).value.used));
    }
  }

  // ------------------------------------------------------------------ truncation

  lemma FidOfPrefix(d: seq<u8>, n: nat)
    requires n <= |d| && FidAt(d[..n]).Some?
    ensures FidAt(d) == FidAt(d[..n])
  {
    var lFi, lIu := d[19] as int, U16(d, 36);
    assert U16(d[..n], 36) == lIu;
    assert d[..n][38 + lIu..38 + lIu + lFi] == d[38 + lIu..38 + lIu + lFi];
  }

  lemma CutAfter(d: seq<u8>, n: nat, used: nat)
    requires n <= |d|
    ensures var m := if n <= used then 0 else n - used;
            m <= |After(d, used)| && After(d[..n], used) == After(d, used)[..m]
  {}

  /** Cutting any directory data short loses entries only from the end, and cannot turn
      a readable directory into an unreadable one. */
  lemma {:induction false} CutIsPrefix(d: seq<u8>, n: nat)
    requires n <= |d|
    ensures Parse(d[..n]).files <= Parse(d).files
    ensures Parse(d).ok ==> Parse(d[..n]).ok
    decreases |d|
  {
    hide Tag; hide Entry; hide FidAt;
    if n > 16 {
      assert d[..n][..16] == d[..16];
      TagOfPrefix(d);
      TagOfPrefix(d[..n]);
      if Tag(d) == TAG_FILE_IDENTIFIER && FidAt(d[..n]).Some? {
        FidOfPrefix(d, n);
        var f := FidAt(d).value;
        CutAfter(d, n, f.used);
        CutIsPrefix(After(d, f.used), if n <= f.used then 0 else n - f.used);
      }
    }
  }

  // ------------------------------------------------------------------ round trip

  /** A file identifier as recorded (section 14.4 of part 4): any version, unique id and
      implementation use, padded to a dword. */
  ghost predicate FidLayout(r: seq<u8>, characteristic: u8, icb: LongAd, name: seq<u8>, lIu: u16) {
    && |name| < 0x100 && |r| % 4 == 0 && 38 + |name| + lIu <= |r| < 38 + |name| + lIu + 4
    && Tagged(r, 257)
    && r[18] == characteristic && r[19] == |name| as u8
    && AdLayout(r, 20, 1, icb)
    && r[36..38] == Put16(lIu) && r[38 + lIu..38 + lIu + |name|] == name
  }

  /** One recorded identifier and what it says. */
  datatype Record = Record(bytes: seq<u8>, characteristic: u8, icb: LongAd, name: seq<u8>, lIu: u16)

  ghost predicate ValidRecord(r: Record) { FidLayout(r.bytes, r.characteristic, r.icb, r.name, r.lIu) }

  function Recorded(rs: seq<Record>): seq<u8> {
    if rs == [] then [] else rs[0].bytes + Recorded(rs[1..])
  }

  // Bits of the file characteristics (section 14.4.3 of part 4).
  predicate DirBit(characteristic: u8) { characteristic / 2 % 2 == 1 }

  predicate ParentBit(characteristic: u8) { characteristic / 8 % 2 == 1 }

  /** A string that has a compression identifier, 8 or 16, and at least one unit. */
  predicate HasUnits(cs0: seq<u8>) { cs0 != [] && (cs0[0] == 8 || cs0[0] == 16) && UnitCount(cs0) > 0 }

  /** The entries that a list of identifiers should give: those that are not the parent
      and whose name has units, with the name in UTF-8. */
  function Expected(rs: seq<Record>): seq<FileId> {
    if rs == [] then []
    else if ParentBit(rs[0].characteristic) || !HasUnits(rs[0].name) then Expected(rs[1..])
    else [FileId(WrittenAll(CodeUnits(rs[0].name)), rs[0].icb, rs[0].characteristic)] + Expected(rs[1..])
  }

  lemma BitsAreFlags(characteristic: u8)
    ensures DirBit(characteristic) <==> HasFlag(characteristic as int, FLAG_DIR)
    ensures ParentBit(characteristic) <==> HasFlag(characteristic as int, FLAG_PARENT)
  {}

  /** What one identifier gives. */
  lemma EntryIs(f: Fid)
    ensures Entry(f) ==
      if ParentBit(f.characteristic) || !HasUnits(f.name) then None
      else Some(FileId(WrittenAll(CodeUnits(f.name)), f.icb, f.characteristic))
  {
    hide Mutf8; hide WrittenAll; hide CodeUnits; hide HasFlag;
    BitsAreFlags(f.characteristic);
    ConvertedIff(f.name);
    if Mutf8(f.name).Some? { ConvertedIs(f.name); }
  }

  lemma LayoutOfPrefix(s: seq<u8>, rest: seq<u8>, at: nat, ad: LongAd)
    requires AdLayout(s, at, 1, ad)
    ensures AdLayout(s + rest, at, 1, ad)
  {
    var d := s + rest;
    assert d[at..at + 4] == s[at..at + 4] && d[at + 4..at + 8] == s[at + 4..at + 8];
    assert d[at + 8..at + 10] == s[at + 8..at + 10];
  }

  lemma TaggedPrefix(s: seq<u8>, rest: seq<u8>, id: u16)
    requires Tagged(s, id)
    ensures Tagged(s + rest, id) && Tag(s + rest) == id
  {
    TaggedIff(s + rest, id);
  }

  lemma PaddedIs(n: nat, size: nat)
    requires size % 4 == 0 && n <= size < n + 4
    ensures Padded(n) == size
  {}

  lemma FieldsReadBack(d: seq<u8>, r: Record)
    requires 38 + r.lIu + |r.name| <= |d| && U16(d, 36) == r.lIu
    requires d[18] == r.characteristic && d[19] as int == |r.name|
    requires AdAt(d, 20, 1, 0) == r.icb && d[38 + r.lIu..38 + r.lIu + |r.name|] == r.name
    requires Padded(38 + |r.name| + r.lIu) == |r.bytes|
    ensures FidAt(d) == Some(Fid(r.characteristic, r.icb, r.name, |r.bytes|))
  {
    hide AdAt; hide U16;
  }

  lemma RecordReadsBack(r: Record, rest: seq<u8>)
    requires ValidRecord(r)
    ensures |r.bytes| >= 40 && Tagged(r.bytes + rest, 257) && Tag(r.bytes + rest) == TAG_FILE_IDENTIFIER
    ensures FidAt(r.bytes + rest) == Some(Fid(r.characteristic, r.icb, r.name, |r.bytes|))
  {
    hide Tag; hide Tagged; hide AdLayout; hide AdAt; hide Put16; hide U16; hide Padded; hide FidAt;
    var d := r.bytes + rest;
    TaggedPrefix(r.bytes, rest, 257);
    PaddedIs(38 + |r.name| + r.lIu, |r.bytes|);
    SliceOfSum(r.bytes, rest, 36, 38);
    Field16(d, 36, r.lIu);
    LayoutOfPrefix(r.bytes, rest, 20, r.icb);
    AdRoundTrip(d, 20, 1, 0, r.icb);
    SliceOfSum(r.bytes, rest, 38 + r.lIu, 38 + r.lIu + |r.name|);
    FieldsReadBack(d, r);
  }

  /** Parsing recorded identifiers, and whatever comes after them. */
  lemma {:induction false} ParseRecorded(rs: seq<Record>, rest: seq<u8>)
    requires forall i :: 0 <= i < |rs| ==> ValidRecord(rs[i])
    ensures Parse(Recorded(rs) + rest) == Parsed(Parse(rest).ok, Expected(rs) + Parse(rest).files)
    decreases |rs|
  {
    hide Tag; hide FidAt; hide FidLayout; hide Entry; hide HasUnits; hide Tagged;
    if rs == [] {
      assert [] + rest == rest && [] + Parse(rest).files == Parse(rest).files;
    } else {
      var more := Recorded(rs[1..]) + rest;
      ParseRecorded(rs[1..], rest);
      assert ValidRecord(rs[0]);
      RecordReadsBack(rs[0], more);
      var d := rs[0].bytes + more;
      Assoc(rs[0].bytes, Recorded(rs[1..]), rest);
      var f := FidAt(d).value;
      assert After(d, f.used) == more by { assert d[|rs[0].bytes|..] == more; }
      EntryIs(f);
      if Entry(f).Some? { Assoc([Entry(f).value], Expected(rs[1..]), Parse(rest).files); }
    }
  }

  /** Parsing recorded identifiers yields exactly the expected entries, in order. */
  lemma DirectoryRoundTrip(rs: seq<Record>)
    requires forall i :: 0 <= i < |rs| ==> ValidRecord(rs[i])
    ensures Parse(Recorded(rs)) == Parsed(true, Expected(rs))
  {
    ParseRecorded(rs, []);
    assert Recorded(rs) + [] == Recorded(rs) && Expected(rs) + [] == Expected(rs);
  }

  /** Too short for the fixed part of an identifier, or for the lengths in it. */
  predicate CutShort(tail: seq<u8>) {
    |tail| < 38 || |tail| < 38 + tail[19] as int + tail[36] as int + 0x100 * tail[37] as int
  }

  /** What is not an identifier ends a directory: up to 16 bytes are ignored, so is an
      identifier that is not all there, and anything else makes reading fail, with the entries
      before it left behind. */
  lemma DirectoryThenTail(rs: seq<Record>, tail: seq<u8>)
    requires forall i :: 0 <= i < |rs| ==> ValidRecord(rs[i])
    ensures |tail| <= 16 ==> Parse(Recorded(rs) + tail) == Parsed(true, Expected(rs))
    ensures |tail| > 16 && !Tagged(tail, 257) ==> Parse(Recorded(rs) + tail) == Parsed(false, Expected(rs))
    ensures |tail| > 16 && Tagged(tail, 257) && CutShort(tail) ==>
      Parse(Recorded(rs) + tail) == Parsed(true, Expected(rs))
  {
    hide Tag; hide Tagged;
    ParseRecorded(rs, tail);
    assert Expected(rs) + [] == Expected(rs);
    if |tail| > 16 {
      TaggedIff(tail, 257);
      if |tail| >= 38 { LittleEndian(tail, 36); }
    }
  }

  /** A recorded directory cut anywhere still parses, to the entries recorded first. */
  lemma TruncatedDirectory(rs: seq<Record>, n: nat)
    requires (forall i :: 0 <= i < |rs| ==> ValidRecord(rs[i])) && n <= |Recorded(rs)|
    ensures Parse(Recorded(rs)[..n]).ok && Parse(Recorded(rs)[..n]).files <= Expected(rs)
  {
    DirectoryRoundTrip(rs);
    CutIsPrefix(Recorded(rs), n);
  }

  // ------------------------------------------------------------ reading from disc

  const FILE_TYPE_DIR: u8 := 4

  /** The entry array after parsing a whole directory into an empty list. */
  function ParsedDirectory(d: seq<u8>): DirRead {
    DirRead(Parse(d).ok, if |d| > 16 && Tag(d) == TAG_FILE_IDENTIFIER then Some(Parse(d).files) else None)
  }

  /** What `udf_read_dir` makes of the directory at icb. Only the first extent of a
      fragmented directory is read. */
  ghost function ReadDirAt(img: Metadata.Image, parts: Partitions, icb: LongAd, n: nat): DirRead
    requires ExtentsEnd(img, parts, icb, n)
  {
    match FileEntryAt(img, parts, icb, n)
    case None => DirRead(false, None)
    case Some(fe) =>
      if fe.fileType != FILE_TYPE_DIR then DirRead(false, None)
      else match fe.body
        case Inline(data) => ParsedDirectory(data)
        case Ads(ads) =>
          if ads == [] then DirRead(false, None)
          else match MetadataAt(img, parts, ads[0])
            case None => DirRead(false, None)
            case Some(data) => ParsedDirectory(data[..ads[0].length])
  }

  lemma NothingWithoutATag(d: seq<u8>)
    ensures !(|d| > 16 && Tag(d) == TAG_FILE_IDENTIFIER) ==> Parse(d).files == []
  {}

  /** Parsing into the empty list of a new directory node. */
  method ParseFresh(data: seq<u8>, dir: DirEntries) returns (ok: bool)
    requires |data| < TWO_32 && dir.files == None
    modifies dir
    ensures DirRead(ok, dir.files) == ParsedDirectory(data)
  {
    hide Tag; hide ParseUpTo; hide Parse;
    LimitNeverMet(data, UINT32_MAX);
    ok := dir.ParseDirFile(data);
    assert [] + Parse(data).files == Parse(data).files;
    NothingWithoutATag(data);
  }

  lemma InlineIsSmall(img: Metadata.Image, parts: Partitions, icb: LongAd, n: nat)
    requires ExtentsEnd(img, parts, icb, n)
    ensures var fe := FileEntryAt(img, parts, icb, n);
            fe.Some? && fe.value.body.Inline? ==> |fe.value.body.content| < TWO_32
  {}

  /** `udf_read_dir` into a new directory node. */
  method ReadDir(img: Metadata.Image, parts: Partitions, icb: LongAd, dir: DirEntries, ghost n: nat) returns (ok: bool)
    requires ExtentsEnd(img, parts, icb, n) && dir.files == None
    modifies dir
    ensures DirRead(ok, dir.files) == ReadDirAt(img, parts, icb, n)
  {
    hide ExtentsEnd; hide FileEntryAt; hide MetadataAt; hide ParsedDirectory;
    var fe := ReadFileEntry(img, parts, icb, n);
    if fe.None? { return false; }
    if fe.value.fileType != FILE_TYPE_DIR { return false; }
    match fe.value.body {
      case Inline(data) =>
        InlineIsSmall(img, parts, icb, n);
        ok := ParseFresh(data, dir);
      case Ads(ads) =>
        if |ads| == 0 { return false; }
        var data, tagId := ReadMetadata(img, parts, ads[0]);
        if data.None? { return false; }
        ok := ParseFresh(data.value[..ads[0].length], dir);
    }
  }
}
