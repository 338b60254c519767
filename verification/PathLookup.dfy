/** Paths and directory entries without a cache: `_scan_dir`, the tokenising of
    `_find_file` and the walk it performs (src/udfread.c). */
module PathLookup {
  import opened Bytes
  import opened Records

  type Name = seq<u8>

  /** What `udf_read_dir` leaves behind: its verdict and the entry array it
      allocated, if it got that far. A failed read may leave some entries. */
  datatype DirRead = DirRead(ok: bool, files: Option<seq<FileId>>)

  /** A stable disc image: the outcome of reading the directory at an icb. */
  type Image = LongAd -> DirRead

  function EntriesOf(files: Option<seq<FileId>>): seq<FileId> { if files.Some? then files.value else [] }

  /** Index of the first entry of that name. */
  function Scan(entries: seq<FileId>, name: Name): (r: Option<nat>)
    ensures r.Some? ==> r.value < |entries| && entries[r.value].name == name
                        && forall j :: 0 <= j < r.value ==> entries[j].name != name
    ensures r.None? ==> forall j :: 0 <= j < |entries| ==> entries[j].name != name
  {
    if entries == [] then None
    else if entries[0].name == name then Some(0)
    else match Scan(entries[1..], name)
         case None => None
         case Some(i) =>
           assert forall j :: 1 <= j < i + 1 ==> entries[j] == entries[1..][j - 1];
           Some(i + 1)
  }

  /** `_scan_dir` */
  method ScanDir(entries: seq<FileId>, filename: Name) returns (index: Option<nat>)
    ensures index == Scan(entries, filename)
  {
    for i := 0 to |entries|
      invariant forall j :: 0 <= j < i ==> entries[j].name != filename
    {
      if filename == entries[i].name { return Some(i); }
    }
    return None;
  }

  /** Outcome of a lookup; `dir` is absent when the path names a file. */
  datatype Lookup<+D> = Failed | Found(dir: Option<D>, fid: Option<FileId>)

  /** The walk of `_find_file` if every directory were read from the disc again. */
  function Walk(image: Image, entries: seq<FileId>, rest: seq<Name>, fid: Option<FileId>): Lookup<seq<FileId>>
    decreases |rest|, 1
  {
    if rest == [] then Found(Some(entries), fid)
    else match Scan(entries, rest[0])
      case None => Failed
      case Some(i) =>
        if IsDirectory(entries[i]) then Enter(image, entries[i], rest[1..])
        else if rest[1..] != [] then Failed  // parent is a file
        else Found(None, Some(entries[i]))
  }

  function Enter(image: Image, f: FileId, rest: seq<Name>): Lookup<seq<FileId>>
    decreases |rest|, 2
  {
    var dir := image(f.icb);
    if dir.ok then Walk(image, EntriesOf(dir.files), rest, Some(f)) else Failed
  }

  /** A caller that wants a file identifier gets an error for the root. */
  function Deliver<D>(needFid: bool, r: Lookup<D>): Lookup<D> {
    if needFid && r.Found? && r.fid.None? then Failed else r
  }

  // ------------------------------------------------------------ path splitting

  const SLASH: u8 := 0x2f
  const BACKSLASH: u8 := 0x5c

  predicate IsSeparator(c: u8) { c == SLASH || c == BACKSLASH }

  predicate IsToken(t: Name) { t != [] && forall i :: 0 <= i < |t| ==> !IsSeparator(t[i]) }

  /** Length of the leading stretch without separators. */
  function Span(path: Name): (n: nat)
    ensures n <= |path| && (forall i :: 0 <= i < n ==> !IsSeparator(path[i]))
    ensures n < |path| ==> IsSeparator(path[n])
  {
    if path == [] || IsSeparator(path[0]) then 0 else 1 + Span(path[1..])
  }

  /** Repeated `strtok_r(.., "/\\", ..)`: runs of separators count as one. */
  function Tokens(path: Name): (ts: seq<Name>)
    ensures forall i :: 0 <= i < |ts| ==> IsToken(ts[i])
    decreases |path|
  {
    if path == [] then []
    else if IsSeparator(path[0]) then Tokens(path[1..])
    else [path[..Span(path)]] + Tokens(path[Span(path)..])
  }

  /** One component with the separators in front of it. */
  datatype Part = Part(gap: Name, token: Name)

  /** The characters '/' and '\\'. */
  predicate Separates(c: u8) { c == 0x2f || c == 0x5c }

  ghost predicate ValidPart(p: Part) {
    && p.token != [] && (forall i :: 0 <= i < |p.token| ==> !Separates(p.token[i]))
    && forall i :: 0 <= i < |p.gap| ==> Separates(p.gap[i])
  }

  function Spell(parts: seq<Part>, trail: Name): Name {
    if parts == [] then trail else parts[0].gap + (parts[0].token + Spell(parts[1..], trail))
  }

  function PartTokens(parts: seq<Part>): seq<Name> {
    if parts == [] then [] else [parts[0].token] + PartTokens(parts[1..])
  }

  lemma {:induction false} SkipSeparators(gap: Name, path: Name)
    requires forall i :: 0 <= i < |gap| ==> IsSeparator(gap[i])
    ensures Tokens(gap + path) == Tokens(path)
  {
    if gap == [] {
      assert gap + path == path;
    } else {
      assert (gap + path)[1..] == gap[1..] + path;
      SkipSeparators(gap[1..], path);
    }
  }

  lemma TakeToken(token: Name, rest: Name)
    requires IsToken(token) && (rest == [] || IsSeparator(rest[0]))
    ensures Tokens(token + rest) == [token] + Tokens(rest)
  {
    var path := token + rest;
    var n := Span(path);
    assert forall i :: 0 <= i < |token| ==> path[i] == token[i];
    assert rest != [] ==> path[|token|] == rest[0];
    assert n == |token|;
    assert path[..n] == token && path[n..] == rest;
  }

  /** Splitting recovers the components, whichever and however many separators
      stand before, between and after them. */
  lemma {:induction false} TokensOfSpelling(parts: seq<Part>, trail: Name)
    requires forall i :: 0 <= i < |parts| ==> ValidPart(parts[i])
    requires forall i :: 1 <= i < |parts| ==> parts[i].gap != []
    requires forall i :: 0 <= i < |trail| ==> Separates(trail[i])
    ensures Tokens(Spell(parts, trail)) == PartTokens(parts)
    decreases |parts|
  {
    if parts == [] {
      SkipSeparators(trail, []);
      assert trail + [] == trail;
    } else {
      var rest := Spell(parts[1..], trail);
      assert ValidPart(parts[0]);
      SkipSeparators(parts[0].gap, parts[0].token + rest);
      assert rest == [] || IsSeparator(rest[0]) by {
        if |parts| > 1 { assert ValidPart(parts[1]); }
      }
      TakeToken(parts[0].token, rest);
      TokensOfSpelling(parts[1..], trail);
    }
  }
}
