/**
 * The registered torrents and the files that mirror them: what each operation does to both, and
 * what survives any run of additions, removals, alerts, resets and restarts.
 */
module Registry {
  import opened Common
  import opened MagnetCodec

  newtype nibble = x: int | 0 <= x < 16

  /** What identifies a torrent, before it is printed. */
  type Digest = seq<nibble>

  function HexDigit(n: nibble): char {
    if n < 10 then '0' + n as int as char else 'a' + (n - 10) as int as char
  }

  /** The printed form of a digest, used in file names and as key. */
  function GetInfoHash(d: Digest): (hash: string)
    ensures |hash| == |d|
    ensures forall i :: 0 <= i < |d| ==> hash[i] == HexDigit(d[i])
  {
    seq(|d|, i requires 0 <= i < |d| => HexDigit(d[i]))
  }

  function LowerChar(c: char): char {
    if 'A' <= c <= 'Z' then c - 'A' + 'a' else c
  }

  function Lower(s: string): (t: string)
    ensures |t| == |s|
    ensures forall i :: 0 <= i < |s| ==> t[i] == LowerChar(s[i])
  {
    seq(|s|, i requires 0 <= i < |s| => LowerChar(s[i]))
  }

  /** Comparison of hashes as lookups do it. */
  predicate Iequals(a: string, b: string) {
    Lower(a) == Lower(b)
  }

  predicate Canonical(hash: string) {
    Lower(hash) == hash
  }

  lemma InfoHashCanonical(d: Digest)
    ensures Canonical(GetInfoHash(d))
  {
    var h := GetInfoHash(d);
    forall i | 0 <= i < |h|
      ensures Lower(h)[i] == h[i]
    {
    }
  }

  /** Printed digests are lower-case hexadecimal, digit by digit, so they tell torrents apart. */
  lemma InfoHashIs(a: Digest, b: Digest)
    ensures forall i :: 0 <= i < |a| ==> GetInfoHash(a)[i] == "0123456789abcdef"[a[i]]
    ensures GetInfoHash(a) == GetInfoHash(b) <==> a == b
  {
    if GetInfoHash(a) == GetInfoHash(b) {
      forall i | 0 <= i < |a|
        ensures a[i] == b[i]
      {
        assert GetInfoHash(a)[i] == HexDigit(a[i]) && GetInfoHash(b)[i] == HexDigit(b[i]);
      }
    }
  }

  /** An upper-case Latin letter and its lower-case one. */
  predicate CaseOf(upper: char, lower: char) {
    65 <= upper as int <= 90 && lower as int == upper as int + 32
  }

  /** Hashes are the same to a lookup iff they differ at most in the case of letters. */
  lemma IequalsIs(a: string, b: string)
    ensures Iequals(a, b) <==>
              && |a| == |b|
              && forall i :: 0 <= i < |a| ==> a[i] == b[i] || CaseOf(a[i], b[i]) || CaseOf(b[i], a[i])
  {
    if Iequals(a, b) {
      forall i | 0 <= i < |a|
        ensures a[i] == b[i] || CaseOf(a[i], b[i]) || CaseOf(b[i], a[i])
      {
        assert Lower(a)[i] == LowerChar(a[i]) && Lower(b)[i] == LowerChar(b[i]);
      }
    }
  }

  // ------------------------------------------------------------------------------------------

  /** Files by kind and stem; a parts file keeps the dot that starts its name. */
  datatype FileName =
    FastResume(stem: string) | TorrentMeta(stem: string) | MagnetLink(stem: string) | Parts(stem: string)

  /** What reading a file gives: torrent data that libtorrent decodes, or not, or plain bytes. */
  datatype Content = Decodes(digest: Digest) | Undecodable | Bytes(bytes: seq<byte>)

  type Disk = map<FileName, Content>

  /** libtorrent's reading of a magnet link. */
  type MagnetParser = seq<byte> -> Option<Digest>

  /** How reading a file turns out: a torrent, an error of its format, or nothing that could be parsed. */
  datatype Reading = Torrent(hash: string, wanted: bool) | FormatError | Unreadable

  function Read(disk: Disk, name: FileName, parse: MagnetParser): Reading {
    if name !in disk || name.Parts? then Unreadable
    else if name.MagnetLink? then
      if !disk[name].Bytes? || Decode(disk[name].bytes, SIZE_BYTES).None? then Unreadable
      else
        var m := Decode(disk[name].bytes, SIZE_BYTES).value;
        var d := parse(m.link);
        if d.None? then FormatError else Torrent(GetInfoHash(d.value), m.download)
    else if !disk[name].Decodes? then FormatError
    else Torrent(GetInfoHash(disk[name].digest), name.FastResume?)
  }

  /** Registered hashes, each with the download argument it was added with. */
  type Table = map<string, bool>

  datatype State = State(torrents: Table, disk: Disk)

  predicate Has(torrents: Table, hash: string) {
    exists k :: k in torrents && Iequals(k, hash)
  }

  /** Loading one file. The session may refuse some torrents. */
  function LoadFile(s: State, name: FileName, parse: MagnetParser, refused: set<string>): State {
    match Read(s.disk, name, parse)
    case Unreadable => s
    case FormatError => s.(disk := s.disk - {name})
    case Torrent(hash, wanted) =>
      if Has(s.torrents, hash) then
        match name
        case FastResume(_) => s.(disk := s.disk - {name})
        case TorrentMeta(_) => s
        case _ => s.(disk := s.disk - {MagnetLink(hash)})
      else if hash in refused then s.(disk := s.disk - {name})
      else s.(torrents := s.torrents[hash := wanted])
  }

  function LoadFiles(s: State, names: seq<FileName>, parse: MagnetParser, refused: set<string>): State {
    if names == [] then s
    else LoadFile(LoadFiles(s, names[..|names| - 1], parse, refused), names[|names| - 1], parse, refused)
  }

  function TrimDots(s: string): string {
    if s != [] && s[0] == '.' then TrimDots(s[1..]) else s
  }

  /** Removes the parts files of unknown torrents. */
  function CleanParts(s: State): State {
    s.(disk := map name | name in s.disk && (name.Parts? ==> Has(s.torrents, TrimDots(name.stem))) :: s.disk[name])
  }

  function Kind(name: FileName): nat {
    match name
    case FastResume(_) => 0
    case TorrentMeta(_) => 1
    case MagnetLink(_) => 2
    case Parts(_) => 3
  }

  function OfKind(listing: seq<FileName>, kind: nat): seq<FileName> {
    if listing == [] then []
    else
      var last := listing[|listing| - 1];
      OfKind(listing[..|listing| - 1], kind) + if Kind(last) == kind then [last] else []
  }

  /** The order in which the files of a directory listing are loaded. */
  function LoadOrder(listing: seq<FileName>): seq<FileName> {
    OfKind(listing, 0) + OfKind(listing, 1) + OfKind(listing, 2)
  }

  /** Loading a directory, given in some order. */
  function Load(s: State, listing: seq<FileName>, parse: MagnetParser, refused: set<string>): State {
    CleanParts(LoadFiles(s, LoadOrder(listing), parse, refused))
  }

  /** A listing names each file of the disk once. */
  ghost predicate Lists(listing: seq<FileName>, disk: Disk) {
    && (forall i :: 0 <= i < |listing| ==> listing[i] in disk)
    && (forall name :: name in disk ==> exists i :: 0 <= i < |listing| && listing[i] == name)
    && (forall i, j :: 0 <= i < j < |listing| ==> listing[i] != listing[j])
  }

  // ------------------------------------------------------------------------------------------

  /** Files that mirror torrents decode to the hash they are named after. */
  ghost predicate CanonicalDisk(disk: Disk, parse: MagnetParser) {
    forall name :: name in disk && !name.Parts? ==>
      Read(disk, name, parse).Torrent? && Read(disk, name, parse).hash == name.stem
  }

  /** Some file decodes to the hash. */
  predicate OnDisk(disk: Disk, hash: string) {
    FastResume(hash) in disk || TorrentMeta(hash) in disk || MagnetLink(hash) in disk
  }

  function Stems(files: set<FileName>): set<string> {
    set name | name in files && !name.Parts? :: name.stem
  }

  /** The download argument a torrent is added with: true from resume data, false from a torrent file, else as saved. */
  function Wanted(disk: Disk, files: set<FileName>, hash: string, parse: MagnetParser): bool {
    if FastResume(hash) in files then true
    else if TorrentMeta(hash) in files then false
    else
      var reading := Read(disk, MagnetLink(hash), parse);
      reading.Torrent? && reading.wanted
  }

  /** Loading drops the files of refused torrents, and magnets of torrents that have another file. */
  predicate Drops(files: set<FileName>, name: FileName, refused: set<string>) {
    && name in files && !name.Parts?
    && (name.stem in refused
        || (name.MagnetLink? && (FastResume(name.stem) in files || TorrentMeta(name.stem) in files)))
  }

  /** Where loading some of the files of a canonical disk leads, whatever their order. */
  function LoadedFrom(disk: Disk, files: set<FileName>, parse: MagnetParser, refused: set<string>): State {
    State(map h | h in Stems(files) && h !in refused :: Wanted(disk, files, h, parse),
          map name | name in disk && !Drops(files, name, refused) :: disk[name])
  }

  ghost predicate CanonicalKeys(torrents: Table) {
    forall h :: h in torrents ==> Canonical(h)
  }

  lemma HasIsMember(torrents: Table, hash: string)
    requires CanonicalKeys(torrents) && Canonical(hash)
    ensures Has(torrents, hash) <==> hash in torrents
  {
    if hash in torrents {
      assert Iequals(hash, hash);
    }
  }

  /** On a canonical disk a file that mirrors a torrent reads as the torrent it is named after. */
  lemma CanonicalRead(disk: Disk, name: FileName, parse: MagnetParser)
    requires CanonicalDisk(disk, parse) && name in disk && !name.Parts?
    ensures Read(disk, name, parse).Torrent? && Read(disk, name, parse).hash == name.stem && Canonical(name.stem)
  {
    assert Read(disk, name, parse).Torrent?;
    if name.MagnetLink? {
      InfoHashCanonical(parse(Decode(disk[name].bytes, SIZE_BYTES).value.link).value);
    } else {
      InfoHashCanonical(disk[name].digest);
    }
  }

  lemma ReadKept(disk: Disk, less: Disk, name: FileName, parse: MagnetParser)
    requires name in disk && name in less && disk[name] == less[name]
    ensures Read(less, name, parse) == Read(disk, name, parse)
  {
  }

  /** What a file adds to the torrents loaded before it, which come from files of its kind or an earlier one. */
  lemma TableStep(disk: Disk, files: set<FileName>, name: FileName, parse: MagnetParser, refused: set<string>)
    requires name in disk && !name.Parts? && name !in files
    requires Read(disk, name, parse).Torrent?
    requires forall f :: f in files ==> Kind(f) <= Kind(name)
    ensures var before, h := LoadedFrom(disk, files, parse, refused).torrents, name.stem;
            LoadedFrom(disk, files + {name}, parse, refused).torrents
            == if h in refused || h in Stems(files) then before else before[h := Read(disk, name, parse).wanted]
  {
    var h := name.stem;
    var before, after := LoadedFrom(disk, files, parse, refused).torrents,
                         LoadedFrom(disk, files + {name}, parse, refused).torrents;
    StemsMore(files, name);
    assert before.Keys == Stems(files) - refused && after.Keys == Stems(files) + {h} - refused;
    forall k | k in before
      ensures after[k] == before[k]
    {
      WantedKept(disk, files, name, k, parse);
    }
    WantedOfFirst(disk, files, name, parse);
    hide Read, Stems, Wanted, Kind;
  }

  lemma StemsMore(files: set<FileName>, name: FileName)
    requires !name.Parts?
    ensures Stems(files + {name}) == Stems(files) + {name.stem}
  {
  }

  lemma WantedKept(disk: Disk, files: set<FileName>, name: FileName, k: string, parse: MagnetParser)
    requires k in Stems(files) && forall f :: f in files ==> Kind(f) <= Kind(name)
    ensures Wanted(disk, files + {name}, k, parse) == Wanted(disk, files, k, parse)
  {
    StemsOf(files, k);
  }

  lemma WantedOfFirst(disk: Disk, files: set<FileName>, name: FileName, parse: MagnetParser)
    requires name in disk && !name.Parts? && Read(disk, name, parse).Torrent?
    ensures name.stem !in Stems(files) ==>
              Wanted(disk, files + {name}, name.stem, parse) == Read(disk, name, parse).wanted
  {
    StemsOf(files, name.stem);
  }

  lemma StemsOf(files: set<FileName>, h: string)
    ensures h in Stems(files) <==> FastResume(h) in files || TorrentMeta(h) in files || MagnetLink(h) in files
  {
    if h in Stems(files) {
      var f :| f in files && !f.Parts? && f.stem == h;
      assert f == FastResume(h) || f == TorrentMeta(h) || f == MagnetLink(h);
    } else {
      assert forall f :: f in files && !f.Parts? ==> f.stem != h;
    }
  }

  /** What a file changes on the disk. */
  lemma DiskStep(disk: Disk, files: set<FileName>, name: FileName, parse: MagnetParser, refused: set<string>)
    requires name in disk && !name.Parts? && name !in files
    requires forall f :: f in files ==> Kind(f) <= Kind(name)
    ensures var before, h := LoadedFrom(disk, files, parse, refused).disk, name.stem;
            && name in before && before[name] == disk[name]
            && LoadedFrom(disk, files + {name}, parse, refused).disk
               == if h in refused || (name.MagnetLink? && h in Stems(files)) then before - {name} else before
  {
    var h := name.stem;
    StemsOf(files, h);
    forall f | f in disk && f != name
      ensures Drops(files + {name}, f, refused) <==> Drops(files, f, refused)
    {
      assert f.MagnetLink? && f in files ==> Kind(name) == 2;
    }
  }

  /** One more file: the files before it are of its kind or an earlier one. */
  lemma LoadOneMore(disk: Disk, files: set<FileName>, name: FileName, parse: MagnetParser, refused: set<string>)
    requires CanonicalDisk(disk, parse) && files <= disk.Keys
    requires name in disk && !name.Parts? && name !in files
    requires forall f :: f in files ==> Kind(f) <= Kind(name)
    ensures LoadFile(LoadedFrom(disk, files, parse, refused), name, parse, refused)
         == LoadedFrom(disk, files + {name}, parse, refused)
  {
    var s, h := LoadedFrom(disk, files, parse, refused), name.stem;
    LoadedKeysCanonical(disk, files, parse, refused);
    CanonicalRead(disk, name, parse);
    TableStep(disk, files, name, parse, refused);
    DiskStep(disk, files, name, parse, refused);
    HasIsMember(s.torrents, h);
    ReadKept(disk, s.disk, name, parse);
    StemsOf(files, h);
    assert h in s.torrents <==> h in Stems(files) && h !in refused;
    hide LoadedFrom, Read, Has, CanonicalDisk, CanonicalKeys;
  }

  lemma LoadedKeysCanonical(disk: Disk, files: set<FileName>, parse: MagnetParser, refused: set<string>)
    requires CanonicalDisk(disk, parse) && files <= disk.Keys
    ensures CanonicalKeys(LoadedFrom(disk, files, parse, refused).torrents)
  {
    forall h | h in LoadedFrom(disk, files, parse, refused).torrents
      ensures Canonical(h)
    {
      StemsOf(files, h);
      if FastResume(h) in files {
        CanonicalRead(disk, FastResume(h), parse);
      } else if TorrentMeta(h) in files {
        CanonicalRead(disk, TorrentMeta(h), parse);
      } else {
        CanonicalRead(disk, MagnetLink(h), parse);
      }
    }
  }

  function FilesIn(names: seq<FileName>): set<FileName> {
    set i | 0 <= i < |names| :: names[i]
  }

  ghost predicate Distinct(names: seq<FileName>) {
    forall i, j :: 0 <= i < j < |names| ==> names[i] != names[j]
  }

  ghost predicate ByKind(names: seq<FileName>) {
    forall i, j :: 0 <= i < j < |names| ==> Kind(names[i]) <= Kind(names[j])
  }

  lemma {:induction false} LoadFilesIs(disk: Disk, names: seq<FileName>, parse: MagnetParser, refused: set<string>)
    requires CanonicalDisk(disk, parse) && Distinct(names) && ByKind(names)
    requires forall i :: 0 <= i < |names| ==> names[i] in disk && !names[i].Parts?
    ensures LoadFiles(State(map[], disk), names, parse, refused) == LoadedFrom(disk, FilesIn(names), parse, refused)
  {
    if names != [] {
      var last := |names| - 1;
      LoadFilesIs(disk, names[..last], parse, refused);
      assert FilesIn(names) == FilesIn(names[..last]) + {names[last]};
      LoadOneMore(disk, FilesIn(names[..last]), names[last], parse, refused);
    } else {
      var loaded := LoadedFrom(disk, {}, parse, refused);
      assert FilesIn(names) == {} && loaded.torrents == map[] && loaded.disk == disk;
    }
  }

  lemma {:induction false} OfKindSelects(listing: seq<FileName>, kind: nat)
    requires Distinct(listing)
    ensures Distinct(OfKind(listing, kind))
    ensures forall name :: name in FilesIn(OfKind(listing, kind)) <==> name in FilesIn(listing) && Kind(name) == kind
    ensures forall i :: 0 <= i < |OfKind(listing, kind)| ==> Kind(OfKind(listing, kind)[i]) == kind
  {
    if listing != [] {
      var last := |listing| - 1;
      var before, name := OfKind(listing[..last], kind), listing[last];
      OfKindSelects(listing[..last], kind);
      assert listing == listing[..last] + [name];
      FilesInAppend(listing[..last], [name]);
      FilesInAppend(before, [name]);
      assert FilesIn([name]) == {name} by {
        assert [name][0] == name;
      }
      assert OfKind(listing, kind) == if Kind(name) == kind then before + [name] else before;
      assert FilesIn(listing) == FilesIn(listing[..last]) + {name};
      forall i | 0 <= i < |before|
        ensures before[i] != name
      {
        assert before[i] in FilesIn(before);
      }
    }
  }

  lemma LoadOrderSelects(listing: seq<FileName>, disk: Disk)
    requires Lists(listing, disk)
    ensures var names := LoadOrder(listing);
            && Distinct(names) && ByKind(names)
            && FilesIn(names) == set name | name in disk && !name.Parts?
  {
    var a, b, c := OfKind(listing, 0), OfKind(listing, 1), OfKind(listing, 2);
    OfKindSelects(listing, 0);
    OfKindSelects(listing, 1);
    OfKindSelects(listing, 2);
    var names := LoadOrder(listing);
    forall i, j | 0 <= i < j < |names|
      ensures names[i] != names[j] && Kind(names[i]) <= Kind(names[j])
    {
    }
    assert FilesIn(names) == FilesIn(a) + FilesIn(b) + FilesIn(c) by {
      FilesInAppend(a, b);
      FilesInAppend(a + b, c);
    }
    forall name
      ensures name in FilesIn(names) <==> name in disk && !name.Parts?
    {
      assert name in FilesIn(listing) <==> name in disk;
    }
  }

  lemma FilesInAppend(a: seq<FileName>, b: seq<FileName>)
    ensures FilesIn(a + b) == FilesIn(a) + FilesIn(b)
  {
    forall name | name in FilesIn(b)
      ensures name in FilesIn(a + b)
    {
      var i :| 0 <= i < |b| && b[i] == name;
      assert (a + b)[|a| + i] == name;
    }
    forall name | name in FilesIn(a)
      ensures name in FilesIn(a + b)
    {
      var i :| 0 <= i < |a| && a[i] == name;
      assert (a + b)[i] == name;
    }
  }

  function Mirrors(disk: Disk): set<FileName> {
    set name | name in disk && !name.Parts?
  }

  /** What loading a canonical disk into an empty registry gives: no listing is mentioned. */
  function Reloaded(disk: Disk, parse: MagnetParser, refused: set<string>): State {
    CleanParts(LoadedFrom(disk, Mirrors(disk), parse, refused))
  }

  /** Order independence: whatever order the directory is listed in, loading it gives the same torrents and files. */
  lemma LoadIgnoresOrder(disk: Disk, listing: seq<FileName>, parse: MagnetParser, refused: set<string>)
    requires CanonicalDisk(disk, parse) && Lists(listing, disk)
    ensures Load(State(map[], disk), listing, parse, refused) == Reloaded(disk, parse, refused)
  {
    var names := LoadOrder(listing);
    LoadOrderSelects(listing, disk);
    forall i | 0 <= i < |names|
      ensures names[i] in disk && !names[i].Parts?
    {
      assert names[i] in FilesIn(names);
    }
    LoadFilesIs(disk, names, parse, refused);
  }

  // ------------------------------------------------------------------------------------------
  // Loading any directory, whatever its files are named after and hold.

  /** What loading some files of a directory has come to. */
  ghost predicate LoadedSome(disk: Disk, names: seq<FileName>, s: State, parse: MagnetParser, refused: set<string>) {
    && (forall f :: f in s.disk ==> f in disk && s.disk[f] == disk[f])
    && (forall h :: h in s.torrents ==> h !in refused && ReadAmong(disk, names, Torrent(h, s.torrents[h]), parse))
    && (forall f :: f in names ==> Settled(disk, f, s, parse))
    && (forall f :: f in disk && f !in s.disk ==> Deletable(disk, f, parse))
  }

  /** Some of the files reads as the torrent. */
  predicate ReadAmong(disk: Disk, names: seq<FileName>, reading: Reading, parse: MagnetParser) {
    exists f :: f in names && Read(disk, f, parse) == reading
  }

  /** A file that has been loaded is gone, or its torrent is registered, or nothing could be read. */
  predicate Settled(disk: Disk, f: FileName, s: State, parse: MagnetParser) {
    f in s.disk ==>
      match Read(disk, f, parse)
      case Torrent(hash, _) => Has(s.torrents, hash)
      case FormatError => false
      case Unreadable => true
  }

  /** A file that loading may delete: it reads as a torrent or has a format error, or is named as one a magnet is of. */
  predicate Deletable(disk: Disk, f: FileName, parse: MagnetParser) {
    && !f.Parts?
    && (!Read(disk, f, parse).Unreadable?
        || (f.MagnetLink?
            && exists g :: g in disk && g.MagnetLink? && Read(disk, g, parse).Torrent?
                           && Read(disk, g, parse).hash == f.stem))
  }

  /** What loading one file may do to the directory and the registry. */
  lemma LoadFileDoes(disk: Disk, s: State, name: FileName, parse: MagnetParser, refused: set<string>)
    requires name in disk && !name.Parts? && forall f :: f in s.disk ==> f in disk && s.disk[f] == disk[f]
    ensures var t, r := LoadFile(s, name, parse, refused), Read(disk, name, parse);
            && (forall f :: f in t.disk ==> f in s.disk && t.disk[f] == s.disk[f])
            && (forall f :: f in s.disk && f !in t.disk ==>
                  (f == name && !r.Unreadable?) || (name.MagnetLink? && r.Torrent? && f == MagnetLink(r.hash)))
            && (t.torrents == s.torrents
                || (r.Torrent? && r.hash !in refused && t.torrents == s.torrents[r.hash := r.wanted]))
            && (forall k :: Has(s.torrents, k) ==> Has(t.torrents, k))
            && Settled(disk, name, t, parse)
  {
    if name in s.disk {
      ReadKept(disk, s.disk, name, parse);
    } else {
      assert Read(s.disk, name, parse).Unreadable?;
    }
    var t, r := LoadFile(s, name, parse, refused), Read(disk, name, parse);
    assert r.Torrent? ==> Iequals(r.hash, r.hash);
    assert t.torrents == s.torrents || (r.Torrent? && !Has(s.torrents, r.hash));
    hide Read, Iequals;
  }

  lemma LoadedOneMore(disk: Disk, names: seq<FileName>, s: State, name: FileName, parse: MagnetParser,
                      refused: set<string>)
    requires LoadedSome(disk, names, s, parse, refused) && name in disk && !name.Parts?
    ensures LoadedSome(disk, names + [name], LoadFile(s, name, parse, refused), parse, refused)
  {
    hide Read, LoadFile, Has, Settled, Deletable, ReadAmong;
    var t, all := LoadFile(s, name, parse, refused), names + [name];
    LoadFileDoes(disk, s, name, parse, refused);
    SettledMore(disk, names, s, t, name, parse);
    DeletableMore(disk, s, t, name, parse);
    forall h | h in t.torrents
      ensures h !in refused && ReadAmong(disk, all, Torrent(h, t.torrents[h]), parse)
    {
      ReadAmongMore(disk, names, name, Torrent(h, t.torrents[h]), parse);
    }
  }

  lemma DeletableMore(disk: Disk, s: State, t: State, name: FileName, parse: MagnetParser)
    requires name in disk && !name.Parts?
    requires forall f :: f in disk && f !in s.disk ==> Deletable(disk, f, parse)
    requires var r := Read(disk, name, parse);
             forall f :: f in s.disk && f !in t.disk ==>
               (f == name && !r.Unreadable?) || (name.MagnetLink? && r.Torrent? && f == MagnetLink(r.hash))
    ensures forall f :: f in disk && f !in t.disk ==> Deletable(disk, f, parse)
  {
    hide Read;
  }

  lemma ReadAmongMore(disk: Disk, names: seq<FileName>, name: FileName, reading: Reading, parse: MagnetParser)
    ensures ReadAmong(disk, names + [name], reading, parse) <==>
              ReadAmong(disk, names, reading, parse) || Read(disk, name, parse) == reading
  {
    hide Read;
    var all := names + [name];
    assert name in all && forall f :: f in names ==> f in all;
  }

  lemma SettledMore(disk: Disk, names: seq<FileName>, s: State, t: State, name: FileName, parse: MagnetParser)
    requires forall f :: f in names ==> Settled(disk, f, s, parse)
    requires forall f :: f in t.disk ==> f in s.disk
    requires forall k :: Has(s.torrents, k) ==> Has(t.torrents, k)
    requires Settled(disk, name, t, parse)
    ensures forall f :: f in names + [name] ==> Settled(disk, f, t, parse)
  {
    hide Has, Read;
    forall f | f in names
      ensures Settled(disk, f, t, parse)
    {
      assert Settled(disk, f, s, parse);
    }
  }

  lemma {:induction false} LoadedAll(disk: Disk, names: seq<FileName>, parse: MagnetParser, refused: set<string>)
    requires forall i :: 0 <= i < |names| ==> names[i] in disk && !names[i].Parts?
    ensures LoadedSome(disk, names, LoadFiles(State(map[], disk), names, parse, refused), parse, refused)
  {
    if names != [] {
      var before, last := names[..|names| - 1], names[|names| - 1];
      LoadedAll(disk, before, parse, refused);
      LoadedOneMore(disk, before, LoadFiles(State(map[], disk), before, parse, refused), last, parse, refused);
      assert before + [last] == names;
    }
  }

  /**
   * Loading any directory into an empty registry. What is registered was read from some file and not refused; a
   * file with an error of format goes and registers nothing; a file that stays and reads as a torrent has its
   * torrent registered. One that cannot be parsed stays, unless it is named as a magnet file's torrent.
   */
  lemma LoadAny(disk: Disk, listing: seq<FileName>, parse: MagnetParser, refused: set<string>)
    requires Lists(listing, disk)
    ensures var t := Load(State(map[], disk), listing, parse, refused);
            && (forall f :: f in t.disk ==> f in disk && t.disk[f] == disk[f])
            && (forall h :: h in t.torrents ==>
                  h !in refused && exists f :: f in disk && Read(disk, f, parse) == Torrent(h, t.torrents[h]))
            && (forall f :: f in disk && !f.Parts? && Read(disk, f, parse).FormatError? ==> f !in t.disk)
            && (forall f :: f in t.disk && Read(disk, f, parse).Torrent? ==>
                  Has(t.torrents, Read(disk, f, parse).hash))
            && (forall f :: f in disk && !f.Parts? && f !in t.disk ==> Deletable(disk, f, parse))
  {
    var names := LoadOrder(listing);
    LoadOrderSelects(listing, disk);
    forall i | 0 <= i < |names|
      ensures names[i] in disk && !names[i].Parts?
    {
      assert names[i] in FilesIn(names);
    }
    LoadedAll(disk, names, parse, refused);
    forall f | f in disk && !f.Parts?
      ensures f in names
    {
      assert f in FilesIn(names);
    }
    var s := LoadFiles(State(map[], disk), names, parse, refused);
    hide Read, LoadFiles, LoadOrder, Has, Lists;
    var t := CleanParts(s);
    forall h | h in t.torrents
      ensures exists f :: f in disk && Read(disk, f, parse) == Torrent(h, t.torrents[h])
    {
      var f :| f in names && Read(disk, f, parse) == Torrent(h, t.torrents[h]);
      assert f in disk;
    }
    assert forall f :: f in disk && !f.Parts? ==> Settled(disk, f, s, parse);
  }

  /** Resume data stays only if it decodes, to a torrent that was not registered before it. */
  lemma ResumeDataStays(s: State, name: FileName, parse: MagnetParser, refused: set<string>)
    requires name.FastResume? && name in LoadFile(s, name, parse, refused).disk
    ensures name in s.disk && s.disk[name].Decodes? && !Has(s.torrents, GetInfoHash(s.disk[name].digest))
  {
    hide Has;
  }

  lemma HasAlike(torrents: Table, a: string, b: string)
    requires Has(torrents, a) && Iequals(a, b)
    ensures Has(torrents, b)
  {
    hide Lower;
  }

  lemma ResumeDataRead(disk: Disk, name: FileName, s: State, parse: MagnetParser)
    requires name.FastResume? && name in s.disk && name in disk && Settled(disk, name, s, parse)
    ensures disk[name].Decodes? && Has(s.torrents, GetInfoHash(disk[name].digest))
  {
    hide Has;
  }

  /** The two files decode, to different torrents. */
  predicate Differ(disk: Disk, a: FileName, b: FileName) {
    && a in disk && b in disk && disk[a].Decodes? && disk[b].Decodes?
    && !Iequals(GetInfoHash(disk[a].digest), GetInfoHash(disk[b].digest))
  }

  lemma ResumeDataDiffers(disk: Disk, before: seq<FileName>, s: State, f: FileName, last: FileName,
                          parse: MagnetParser, refused: set<string>)
    requires LoadedSome(disk, before, s, parse, refused) && f in before && f in disk && f.FastResume?
    requires last in disk && last.FastResume?
    requires var left := LoadFile(s, last, parse, refused).disk; f in left && last in left
    ensures Differ(disk, f, last)
  {
    assert Settled(disk, f, s, parse);
    LoadFileDoes(disk, s, last, parse, refused);
    ResumeDataStays(s, last, parse, refused);
    hide LoadFile, Settled, Deletable, ReadAmong, Read, Iequals, Has, GetInfoHash;
    ResumeDataRead(disk, f, s, parse);
    var a, b := GetInfoHash(disk[f].digest), GetInfoHash(disk[last].digest);
    if Iequals(a, b) {
      HasAlike(s.torrents, a, b);
    }
  }

  /** Of resume data for one torrent in several files, one file at most stays. */
  lemma {:induction false} ResumeDataOnce(disk: Disk, names: seq<FileName>, parse: MagnetParser, refused: set<string>,
                                          i: nat, j: nat)
    requires forall k :: 0 <= k < |names| ==> names[k] in disk && !names[k].Parts?
    requires i < j < |names| && names[i].FastResume? && names[j].FastResume?
    requires names[i] in LoadFiles(State(map[], disk), names, parse, refused).disk
    requires names[j] in LoadFiles(State(map[], disk), names, parse, refused).disk
    ensures Differ(disk, names[i], names[j])
  {
    var before, last := names[..|names| - 1], names[|names| - 1];
    var s := LoadFiles(State(map[], disk), before, parse, refused);
    assert LoadFiles(State(map[], disk), names, parse, refused) == LoadFile(s, last, parse, refused);
    hide LoadFiles, LoadFile, Read, Differ;
    LoadedAll(disk, before, parse, refused);
    if j < |names| - 1 {
      LoadFileDoes(disk, s, last, parse, refused);
      ResumeDataOnce(disk, before, parse, refused, i, j);
    } else {
      assert before[i] in before;
      ResumeDataDiffers(disk, before, s, names[i], last, parse, refused);
    }
  }

  /**
   * The same by what a file holds: resume data and torrent files stay only if they decode, to a registered torrent,
   * and magnet files that were written whole only if their link is one, of a registered torrent.
   */
  lemma LoadAnyKeeps(disk: Disk, listing: seq<FileName>, parse: MagnetParser, refused: set<string>, name: FileName,
                     m: Magnet)
    requires Lists(listing, disk) && name in disk
    requires name in Load(State(map[], disk), listing, parse, refused).disk
    ensures var t := Load(State(map[], disk), listing, parse, refused);
            && (name.FastResume? || name.TorrentMeta? ==>
                  disk[name].Decodes? && Has(t.torrents, GetInfoHash(disk[name].digest)))
            && (name.MagnetLink? && |m.link| < SIZE_LIMIT && disk[name] == Bytes(Encode(m, SIZE_BYTES)) ==>
                  parse(m.link).Some? && Has(t.torrents, GetInfoHash(parse(m.link).value)))
            && (name.Parts? ==> Has(t.torrents, TrimDots(name.stem)))
  {
    LoadAny(disk, listing, parse, refused);
    CountsFit(SIZE_BYTES);
    if |m.link| < SIZE_LIMIT {
      DecodeEncode(m, SIZE_BYTES);
    }
    hide LoadFiles, LoadOrder, Has, Lists, Encode, Decode, GetInfoHash, TrimDots;
  }

  // ------------------------------------------------------------------------------------------

  /** What happens to the service. An addition may be refused by the session; resetting and restarting reload. */
  datatype Event =
    | AddMagnet(link: seq<byte>, download: bool, accepted: bool)
    | AddTorrentData(data: Content, download: bool, accepted: bool)
    | AddTorrentFile(data: Content, download: bool, accepted: bool)
    | Remove(hash: string)
    | SaveResumeData(digest: Digest)
    | MetadataReceived(digest: Digest)
    | Reload(listing: seq<FileName>, refused: set<string>)

  function AddMagnetStep(s: State, link: seq<byte>, download: bool, accepted: bool, parse: MagnetParser): State {
    var d := parse(link);
    if d.None? || Has(s.torrents, GetInfoHash(d.value)) || !accepted then s
    else
      var h := GetInfoHash(d.value);
      State(s.torrents[h := download], s.disk[MagnetLink(h) := Bytes(Encode(Magnet(link, download), SIZE_BYTES))])
  }

  /** `keep`: a torrent file already in place is not overwritten. */
  function AddTorrentStep(s: State, data: Content, download: bool, accepted: bool, keep: bool): State {
    if !data.Decodes? || Has(s.torrents, GetInfoHash(data.digest)) || !accepted then s
    else
      var h := GetInfoHash(data.digest);
      State(s.torrents[h := download],
            if keep && TorrentMeta(h) in s.disk then s.disk else s.disk[TorrentMeta(h) := data])
  }

  function FilesNamed(hash: string): set<FileName> {
    {Parts("." + hash), FastResume(hash), TorrentMeta(hash), MagnetLink(hash)}
  }

  /** The lookup ignores case; the files deleted are those spelled as asked. */
  function RemoveStep(s: State, hash: string): State {
    if !Has(s.torrents, hash) then s
    else State(map h | h in s.torrents && !Iequals(h, hash) :: s.torrents[h], s.disk - FilesNamed(hash))
  }

  function Step(s: State, e: Event, parse: MagnetParser): State {
    match e
    case AddMagnet(link, download, accepted) => AddMagnetStep(s, link, download, accepted, parse)
    case AddTorrentData(data, download, accepted) => AddTorrentStep(s, data, download, accepted, false)
    case AddTorrentFile(data, download, accepted) => AddTorrentStep(s, data, download, accepted, true)
    case Remove(hash) => RemoveStep(s, hash)
    case SaveResumeData(d) => s.(disk := s.disk[FastResume(GetInfoHash(d)) := Decodes(d)])
    case MetadataReceived(d) =>
      s.(disk := s.disk[TorrentMeta(GetInfoHash(d)) := Decodes(d)] - {MagnetLink(GetInfoHash(d))})
    case Reload(listing, refused) => Load(State(map[], s.disk), listing, parse, refused)
  }

  function After(s: State, events: seq<Event>, parse: MagnetParser): State {
    if events == [] then s
    else Step(After(s, events[..|events| - 1], parse), events[|events| - 1], parse)
  }

  /** Links have a size that can be written, and a reload lists the directory as it is. */
  ghost predicate Possible(s: State, e: Event) {
    match e
    case AddMagnet(link, _, _) => |link| < SIZE_LIMIT
    case Reload(listing, _) => Lists(listing, s.disk)
    case _ => true
  }

  ghost predicate AllPossible(s: State, events: seq<Event>, parse: MagnetParser) {
    forall i :: 0 <= i < |events| ==> Possible(After(s, events[..i], parse), events[i])
  }

  /** Files are named after what they decode to, and every registered torrent has one. */
  ghost predicate Inv(s: State, parse: MagnetParser) {
    && CanonicalDisk(s.disk, parse)
    && CanonicalKeys(s.torrents)
    && forall h :: h in s.torrents ==> OnDisk(s.disk, h)
  }

  /** The files and torrents after a reload. */
  lemma ReloadedIs(disk: Disk, parse: MagnetParser, refused: set<string>)
    requires CanonicalDisk(disk, parse)
    ensures var r := Reloaded(disk, parse, refused);
            && CanonicalKeys(r.torrents)
            && (forall h :: h in r.torrents <==> OnDisk(disk, h) && h !in refused)
            && (forall name :: name in r.disk ==> name in disk && r.disk[name] == disk[name])
            && (forall name :: name in r.disk && !name.Parts? <==>
                  name in disk && !name.Parts? && !Drops(Mirrors(disk), name, refused))
            && (forall name :: name in r.disk && name.Parts? <==>
                  name in disk && name.Parts? && Has(r.torrents, TrimDots(name.stem)))
  {
    var r, files := Reloaded(disk, parse, refused), Mirrors(disk);
    LoadedKeysCanonical(disk, files, parse, refused);
    forall h
      ensures h in r.torrents <==> OnDisk(disk, h) && h !in refused
    {
      StemsOf(files, h);
    }
  }

  /** The download argument a reload adds a torrent with, from the files on the disk. */
  predicate Wish(disk: Disk, h: string, parse: MagnetParser) {
    FastResume(h) in disk
    || (TorrentMeta(h) !in disk && Read(disk, MagnetLink(h), parse).Torrent? && Read(disk, MagnetLink(h), parse).wanted)
  }

  lemma ReloadedWish(disk: Disk, parse: MagnetParser, refused: set<string>, h: string)
    requires CanonicalDisk(disk, parse) && h in Reloaded(disk, parse, refused).torrents
    ensures Reloaded(disk, parse, refused).torrents[h] == Wish(disk, h, parse)
  {
  }

  /** Deleting files leaves the others named after what they decode to. */
  lemma FewerFiles(disk: Disk, fewer: Disk, parse: MagnetParser)
    requires CanonicalDisk(disk, parse)
    requires forall name :: name in fewer ==> name in disk && fewer[name] == disk[name]
    ensures CanonicalDisk(fewer, parse)
  {
    forall name | name in fewer && !name.Parts?
      ensures Read(fewer, name, parse).Torrent? && Read(fewer, name, parse).hash == name.stem
    {
      assert Read(disk, name, parse).Torrent?;
      ReadKept(disk, fewer, name, parse);
    }
  }

  lemma ReloadKeepsInv(disk: Disk, parse: MagnetParser, refused: set<string>)
    requires CanonicalDisk(disk, parse)
    ensures Inv(Reloaded(disk, parse, refused), parse)
  {
    var r, files := Reloaded(disk, parse, refused), Mirrors(disk);
    ReloadedIs(disk, parse, refused);
    FewerFiles(disk, r.disk, parse);
    hide Reloaded, Read;
    forall h | h in r.torrents
      ensures OnDisk(r.disk, h)
    {
      assert FastResume(h) in r.disk <==> FastResume(h) in disk;
      assert TorrentMeta(h) in r.disk <==> TorrentMeta(h) in disk;
    }
  }

  /** Each event keeps the files named after their torrents, and a file for each registered torrent. */
  lemma StepKeepsInv(s: State, e: Event, parse: MagnetParser)
    requires Inv(s, parse) && Possible(s, e)
    ensures Inv(Step(s, e, parse), parse)
  {
    match e {
      case AddMagnet(link, download, accepted) =>
        if parse(link).Some? {
          DecodeEncode(Magnet(link, download), SIZE_BYTES);
          WriteKeepsInv(s, parse(link).value, MagnetLink(GetInfoHash(parse(link).value)),
                        Bytes(Encode(Magnet(link, download), SIZE_BYTES)), download, parse);
        }
      case AddTorrentData(data, download, _) =>
        if data.Decodes? {
          WriteKeepsInv(s, data.digest, TorrentMeta(GetInfoHash(data.digest)), data, download, parse);
        }
      case AddTorrentFile(data, download, _) =>
        if data.Decodes? {
          WriteKeepsInv(s, data.digest, TorrentMeta(GetInfoHash(data.digest)), data, download, parse);
        }
      case Remove(hash) => RemoveKeepsInv(s, hash, parse);
      case SaveResumeData(d) => WriteKeepsInv(s, d, FastResume(GetInfoHash(d)), Decodes(d), true, parse);
      case MetadataReceived(d) =>
        WriteKeepsInv(s, d, TorrentMeta(GetInfoHash(d)), Decodes(d), true, parse);
        MagnetReplaced(s, d, parse);
      case Reload(listing, refused) =>
        LoadIgnoresOrder(s.disk, listing, parse, refused);
        ReloadKeepsInv(s.disk, parse, refused);
    }
  }

  lemma WriteKeepsInv(s: State, d: Digest, name: FileName, content: Content, download: bool, parse: MagnetParser)
    requires Inv(s, parse) && !name.Parts? && name.stem == GetInfoHash(d)
    requires Read(map[name := content], name, parse).Torrent?
    requires Read(map[name := content], name, parse).hash == GetInfoHash(d)
    ensures Inv(s.(disk := s.disk[name := content]), parse)
    ensures Inv(State(s.torrents[GetInfoHash(d) := download], s.disk[name := content]), parse)
    ensures OnDisk(s.disk, GetInfoHash(d)) ==> Inv(s.(torrents := s.torrents[GetInfoHash(d) := download]), parse)
  {
    var disk := s.disk[name := content];
    InfoHashCanonical(d);
    assert Read(disk, name, parse) == Read(map[name := content], name, parse);
    forall f | f in s.disk && f != name
      ensures Read(disk, f, parse) == Read(s.disk, f, parse)
    {
    }
  }

  lemma MagnetReplaced(s: State, d: Digest, parse: MagnetParser)
    requires Inv(s.(disk := s.disk[TorrentMeta(GetInfoHash(d)) := Decodes(d)]), parse)
    ensures Inv(Step(s, MetadataReceived(d), parse), parse)
  {
    var before := s.disk[TorrentMeta(GetInfoHash(d)) := Decodes(d)];
    var after := before - {MagnetLink(GetInfoHash(d))};
    FewerFiles(before, after, parse);
    hide Read;
  }

  /** Files spelled like a registered torrent belong to that torrent or to none. */
  lemma RemoveKeepsInv(s: State, hash: string, parse: MagnetParser)
    requires Inv(s, parse)
    ensures Inv(RemoveStep(s, hash), parse)
  {
    var t := RemoveStep(s, hash);
    FewerFiles(s.disk, t.disk, parse);
    assert forall h :: h in t.torrents ==> h in s.torrents;
    hide RemoveStep, CanonicalDisk, OnDisk;
    forall h | h in t.torrents
      ensures OnDisk(t.disk, h)
    {
      OthersKeepFiles(s, hash, h);
    }
  }

  lemma OthersKeepFiles(s: State, hash: string, h: string)
    requires h in RemoveStep(s, hash).torrents && OnDisk(s.disk, h)
    ensures OnDisk(RemoveStep(s, hash).disk, h)
  {
    hide Lower, Has;
    assert RemoveStep(s, hash) != s ==> h != hash;
  }

  /** In every run that starts well, every registered torrent has a file that decodes to it. */
  lemma {:induction false} RunKeepsInv(s: State, events: seq<Event>, parse: MagnetParser)
    requires Inv(s, parse) && AllPossible(s, events, parse)
    ensures Inv(After(s, events, parse), parse)
  {
    if events != [] {
      var last := |events| - 1;
      forall i | 0 <= i < last
        ensures Possible(After(s, events[..last][..i], parse), events[..last][i])
      {
        assert events[..last][..i] == events[..i];
      }
      RunKeepsInv(s, events[..last], parse);
      StepKeepsInv(After(s, events[..last], parse), events[last], parse);
    }
  }

  // ------------------------------------------------------------------------------------------

  lemma ReloadStep(s: State, listing: seq<FileName>, refused: set<string>, parse: MagnetParser)
    requires CanonicalDisk(s.disk, parse) && Lists(listing, s.disk)
    ensures Step(s, Reload(listing, refused), parse) == Reloaded(s.disk, parse, refused)
  {
    LoadIgnoresOrder(s.disk, listing, parse, refused);
  }

  /**
   * No torrent is lost: a reload registers exactly the torrents that have a file and are not refused.
   * Hence it keeps every registered torrent the session accepts, and adds only torrents whose files
   * were left without one.
   */
  lemma NoTorrentLost(s: State, listing: seq<FileName>, refused: set<string>, parse: MagnetParser)
    requires Inv(s, parse) && Lists(listing, s.disk)
    ensures var t := Step(s, Reload(listing, refused), parse);
            && (forall h :: h in t.torrents <==> OnDisk(s.disk, h) && h !in refused)
            && (forall h :: h in s.torrents ==> (h in t.torrents <==> h !in refused))
            && (refused == {} ==> (t.torrents.Keys == s.torrents.Keys <==>
                                     forall h :: OnDisk(s.disk, h) ==> h in s.torrents))
  {
    ReloadStep(s, listing, refused, parse);
    ReloadedIs(s.disk, parse, refused);
    hide Reloaded, Step, OnDisk, CanonicalDisk, CanonicalKeys;
    var t := Step(s, Reload(listing, refused), parse);
    if t.torrents.Keys == s.torrents.Keys {
      assert forall h :: h in t.torrents <==> h in s.torrents;
    }
  }

  /** A magnet file stays only when it is its torrent's only file, and a parts file only for a known torrent. */
  lemma ReloadTidies(s: State, listing: seq<FileName>, refused: set<string>, parse: MagnetParser, h: string)
    requires Inv(s, parse) && Lists(listing, s.disk)
    ensures var t := Step(s, Reload(listing, refused), parse);
            && (MagnetLink(h) in t.disk <==>
                  MagnetLink(h) in s.disk && h !in refused && FastResume(h) !in s.disk && TorrentMeta(h) !in s.disk)
            && (FastResume(h) in t.disk <==> FastResume(h) in s.disk && h !in refused)
            && (TorrentMeta(h) in t.disk <==> TorrentMeta(h) in s.disk && h !in refused)
            && (Parts(h) in t.disk <==> Parts(h) in s.disk && Lower(TrimDots(h)) in t.torrents)
  {
    ReloadStep(s, listing, refused, parse);
    ReloadedIs(s.disk, parse, refused);
    HasLower(Reloaded(s.disk, parse, refused).torrents, TrimDots(h));
    hide Reloaded, Step, Has, Lower, OnDisk, CanonicalDisk, CanonicalKeys;
  }

  lemma HasLower(torrents: Table, hash: string)
    requires CanonicalKeys(torrents)
    ensures Has(torrents, hash) <==> Lower(hash) in torrents
  {
    LowerCanonical(hash);
    HasIsMember(torrents, Lower(hash));
    assert forall k :: Iequals(k, hash) <==> Iequals(k, Lower(hash));
  }

  lemma LowerCanonical(s: string)
    ensures Canonical(Lower(s))
  {
    assert forall i :: 0 <= i < |s| ==> Lower(Lower(s))[i] == Lower(s)[i];
  }

  lemma {:induction false} TrimsDots(dots: string, h: string)
    requires (forall i :: 0 <= i < |dots| ==> dots[i] == '.') && (h != "" ==> h[0] != '.')
    ensures TrimDots(dots + h) == h
  {
    if dots == "" {
      assert dots + h == h;
    } else {
      TrimsDots(dots[1..], h);
      assert (dots + h)[1..] == dots[1..] + h;
    }
  }

  /** The parts file of a torrent stays iff the torrent is registered, however many dots lead its name. */
  lemma PartsFileStays(s: State, listing: seq<FileName>, refused: set<string>, parse: MagnetParser, dots: string,
                       h: string)
    requires Inv(s, parse) && Lists(listing, s.disk) && Canonical(h)
    requires (forall i :: 0 <= i < |dots| ==> dots[i] == '.') && (h != "" ==> h[0] != '.')
    ensures var t := Step(s, Reload(listing, refused), parse);
            && (Parts(dots + h) in t.disk <==> Parts(dots + h) in s.disk && h in t.torrents)
            && (Parts("." + h) in t.disk <==> Parts("." + h) in s.disk && h in t.torrents)
            && (forall name :: name in t.disk ==> name in s.disk && t.disk[name] == s.disk[name])
  {
    TrimsDots(dots, h);
    TrimsDots(".", h);
    ReloadTidies(s, listing, refused, parse, dots + h);
    ReloadTidies(s, listing, refused, parse, "." + h);
    ReloadStep(s, listing, refused, parse);
    ReloadedIs(s.disk, parse, refused);
    hide Step, Reloaded, CanonicalDisk, CanonicalKeys, Has, OnDisk, Drops;
  }

  /**
   * The download argument a reloaded torrent is added with: a magnet's is kept, that of a mere torrent file
   * is not. With resume data it is true, and the file priorities saved there decide what is downloaded.
   */
  lemma WishAfterReload(s: State, listing: seq<FileName>, refused: set<string>, parse: MagnetParser, h: string)
    requires Inv(s, parse) && Lists(listing, s.disk) && OnDisk(s.disk, h) && h !in refused
    ensures var t := Step(s, Reload(listing, refused), parse);
            h in t.torrents && t.torrents[h] == Wish(s.disk, h, parse)
  {
    ReloadStep(s, listing, refused, parse);
    ReloadedIs(s.disk, parse, refused);
    ReloadedWish(s.disk, parse, refused, h);
    hide *;
  }

  /**
   * Idempotence: reloading what a reload left changes neither the registry nor the disk iff the session
   * refuses none of the torrents that the first reload registered.
   */
  lemma ReloadTwice(s: State, first: seq<FileName>, second: seq<FileName>, refused: set<string>, again: set<string>,
                    parse: MagnetParser)
    requires Inv(s, parse) && Lists(first, s.disk)
    requires Lists(second, Step(s, Reload(first, refused), parse).disk)
    ensures var t := Step(s, Reload(first, refused), parse);
            Step(t, Reload(second, again), parse) == t <==> again !! t.torrents.Keys
  {
    var t := Step(s, Reload(first, refused), parse);
    ReloadStep(s, first, refused, parse);
    ReloadKeepsInv(s.disk, parse, refused);
    ReloadStep(t, second, again, parse);
    ReloadedIs(t.disk, parse, again);
    hide Step, Reloaded, Inv, CanonicalDisk, CanonicalKeys, Lists, OnDisk, Has;
    if again !! t.torrents.Keys {
      SameTorrents(s.disk, parse, refused, again);
      SameDisk(s.disk, parse, refused, again);
    } else {
      var h :| h in again && h in t.torrents;
      assert h !in Reloaded(t.disk, parse, again).torrents;
    }
  }

  lemma SameDisk(disk: Disk, parse: MagnetParser, refused: set<string>, again: set<string>)
    requires CanonicalDisk(disk, parse) && again !! Reloaded(disk, parse, refused).torrents.Keys
    ensures var t := Reloaded(disk, parse, refused); Reloaded(t.disk, parse, again).disk == t.disk
  {
    ReloadKeepsInv(disk, parse, refused);
    var t := Reloaded(disk, parse, refused);
    var u := Reloaded(t.disk, parse, again);
    ReloadedIs(t.disk, parse, again);
    forall name | name in t.disk
      ensures name in u.disk
    {
      SameFile(disk, parse, refused, again, name);
    }
    hide Reloaded, Has, OnDisk, CanonicalDisk, CanonicalKeys, Drops;
    assert u.disk == t.disk;
  }

  lemma SameFile(disk: Disk, parse: MagnetParser, refused: set<string>, again: set<string>, name: FileName)
    requires CanonicalDisk(disk, parse) && CanonicalDisk(Reloaded(disk, parse, refused).disk, parse)
    requires again !! Reloaded(disk, parse, refused).torrents.Keys
    ensures name in Reloaded(disk, parse, refused).disk ==>
              name in Reloaded(Reloaded(disk, parse, refused).disk, parse, again).disk
  {
    var t := Reloaded(disk, parse, refused);
    SameTorrents(disk, parse, refused, again);
    ReloadedIs(disk, parse, refused);
    ReloadedIs(t.disk, parse, again);
    hide Reloaded, CanonicalDisk, CanonicalKeys, Has, OnDisk;
    if name in t.disk && !name.Parts? {
      assert !Drops(Mirrors(disk), name, refused);
    }
  }

  lemma ReloadedCanonical(disk: Disk, parse: MagnetParser, refused: set<string>)
    requires CanonicalDisk(disk, parse)
    ensures CanonicalDisk(Reloaded(disk, parse, refused).disk, parse)
  {
    ReloadKeepsInv(disk, parse, refused);
  }

  lemma SameTorrents(disk: Disk, parse: MagnetParser, refused: set<string>, again: set<string>)
    requires CanonicalDisk(disk, parse) && again !! Reloaded(disk, parse, refused).torrents.Keys
    ensures var t := Reloaded(disk, parse, refused); Reloaded(t.disk, parse, again).torrents == t.torrents
  {
    hide *;
    ReloadedCanonical(disk, parse, refused);
    var t := Reloaded(disk, parse, refused);
    var u := Reloaded(t.disk, parse, again);
    forall h
      ensures h in u.torrents <==> h in t.torrents
      ensures h in t.torrents ==> u.torrents[h] == t.torrents[h]
    {
      SameTorrent(disk, parse, refused, again, h);
    }
    assert u.torrents.Keys == t.torrents.Keys;
  }

  lemma SameTorrent(disk: Disk, parse: MagnetParser, refused: set<string>, again: set<string>, h: string)
    requires CanonicalDisk(disk, parse) && CanonicalDisk(Reloaded(disk, parse, refused).disk, parse)
    requires again !! Reloaded(disk, parse, refused).torrents.Keys
    ensures var t := Reloaded(disk, parse, refused);
            var u := Reloaded(t.disk, parse, again);
            (h in u.torrents <==> h in t.torrents) && (h in t.torrents ==> u.torrents[h] == t.torrents[h])
  {
    var t := Reloaded(disk, parse, refused);
    ReloadKeepsInv(disk, parse, refused);
    ReloadedIs(disk, parse, refused);
    ReloadedIs(t.disk, parse, again);
    if h in t.torrents {
      ReloadedWish(disk, parse, refused, h);
      ReloadedWish(t.disk, parse, again, h);
      SameWish(disk, parse, refused, h);
    }
    if OnDisk(t.disk, h) {
      KeptFromDisk(disk, parse, refused, h);
    }
    hide Reloaded, OnDisk, CanonicalDisk, CanonicalKeys, Drops, Has, Wish;
  }

  lemma KeptFromDisk(disk: Disk, parse: MagnetParser, refused: set<string>, h: string)
    requires CanonicalDisk(disk, parse) && OnDisk(Reloaded(disk, parse, refused).disk, h)
    ensures OnDisk(disk, h) && h !in refused
  {
    ReloadedIs(disk, parse, refused);
    hide Reloaded, CanonicalDisk;
  }

  lemma SameWish(disk: Disk, parse: MagnetParser, refused: set<string>, h: string)
    requires CanonicalDisk(disk, parse) && h !in refused
    ensures Wish(Reloaded(disk, parse, refused).disk, h, parse) == Wish(disk, h, parse)
  {
    var t := Reloaded(disk, parse, refused);
    ReloadedIs(disk, parse, refused);
    hide Reloaded, CanonicalDisk;
    assert FastResume(h) in t.disk <==> FastResume(h) in disk;
    assert TorrentMeta(h) in t.disk <==> TorrentMeta(h) in disk;
    if MagnetLink(h) in t.disk {
      ReadKept(disk, t.disk, MagnetLink(h), parse);
    }
  }

  // ------------------------------------------------------------------------------------------

  /** Neither registered nor mirrored by a file. */
  predicate Absent(s: State, h: string) {
    h !in s.torrents && !OnDisk(s.disk, h)
  }

  /** The event adds the torrent, or is an alert for it. */
  predicate Concerns(e: Event, h: string, parse: MagnetParser) {
    match e
    case AddMagnet(link, _, _) => parse(link).Some? && GetInfoHash(parse(link).value) == h
    case AddTorrentData(data, _, _) => data.Decodes? && GetInfoHash(data.digest) == h
    case AddTorrentFile(data, _, _) => data.Decodes? && GetInfoHash(data.digest) == h
    case SaveResumeData(d) => GetInfoHash(d) == h
    case MetadataReceived(d) => GetInfoHash(d) == h
    case _ => false
  }

  lemma AbsentStep(s: State, e: Event, h: string, parse: MagnetParser)
    requires Inv(s, parse) && Possible(s, e) && Absent(s, h) && !Concerns(e, h, parse)
    ensures Absent(Step(s, e, parse), h)
  {
    if e.Reload? {
      ReloadStep(s, e.listing, e.refused, parse);
      ReloadedIs(s.disk, parse, e.refused);
      hide Step, Reloaded, CanonicalDisk, CanonicalKeys;
      assert FastResume(h) !in s.disk && TorrentMeta(h) !in s.disk && MagnetLink(h) !in s.disk;
    }
  }

  /** An absent torrent stays away through every run in which nothing adds it and no alert for it arrives. */
  lemma {:induction false} AbsentRun(s: State, events: seq<Event>, h: string, parse: MagnetParser)
    requires Inv(s, parse) && AllPossible(s, events, parse) && Absent(s, h)
    requires forall i :: 0 <= i < |events| ==> !Concerns(events[i], h, parse)
    ensures Absent(After(s, events, parse), h)
  {
    if events != [] {
      var last := |events| - 1;
      forall i | 0 <= i < last
        ensures Possible(After(s, events[..last][..i], parse), events[..last][i])
      {
        assert events[..last][..i] == events[..i];
      }
      RunKeepsInv(s, events[..last], parse);
      AbsentRun(s, events[..last], h, parse);
      AbsentStep(After(s, events[..last], parse), events[last], h, parse);
    }
  }

  /** The event takes a torrent's files: a removal spelled as they are, or a reload that is refused it. */
  predicate Takes(e: Event, h: string) {
    e == Remove(h) || (e.Reload? && h in e.refused)
  }

  lemma OnDiskStep(s: State, e: Event, h: string, parse: MagnetParser)
    requires Inv(s, parse) && Possible(s, e) && OnDisk(s.disk, h) && !Takes(e, h)
    ensures OnDisk(Step(s, e, parse).disk, h)
  {
    if e.Reload? {
      ReloadStep(s, e.listing, e.refused, parse);
      ReloadedIs(s.disk, parse, e.refused);
      hide Step, Reloaded, CanonicalDisk, CanonicalKeys, Has;
    } else if e.Remove? {
      OnDiskRemove(s, e.hash, h);
    } else {
      hide CanonicalDisk, CanonicalKeys, Has, Encode;
    }
  }

  lemma OnDiskRemove(s: State, hash: string, h: string)
    requires OnDisk(s.disk, h) && hash != h
    ensures OnDisk(RemoveStep(s, hash).disk, h)
  {
    hide Has, Iequals;
  }

  lemma {:induction false} OnDiskRun(s: State, events: seq<Event>, h: string, parse: MagnetParser)
    requires Inv(s, parse) && AllPossible(s, events, parse) && OnDisk(s.disk, h)
    requires forall i :: 0 <= i < |events| ==> !Takes(events[i], h)
    ensures OnDisk(After(s, events, parse).disk, h)
  {
    if events != [] {
      var before := events[..|events| - 1];
      PossiblePrefix(s, events, parse);
      RunKeepsInv(s, before, parse);
      OnDiskRun(s, before, h, parse);
      OnDiskStep(After(s, before, parse), events[|events| - 1], h, parse);
    }
  }

  /**
   * Removal: the torrent leaves the registry however its hash is spelled, but its files go, the parts file
   * too, iff the hash is spelled as the files are. Otherwise they stay, and the next reload brings it back.
   */
  lemma RemovalIsPermanentIffSpelled(s: State, name: string, parse: MagnetParser)
    requires Inv(s, parse) && Has(s.torrents, name)
    ensures var t, h := Step(s, Remove(name), parse), Lower(name);
            && h in s.torrents && h !in t.torrents
            && (Absent(t, h) <==> name == h)
            && (name == h ==> Parts("." + h) !in t.disk)
    ensures var t, h := Step(s, Remove(name), parse), Lower(name);
            forall listing :: Lists(listing, t.disk) ==>
              (h in Step(t, Reload(listing, {}), parse).torrents <==> name != h)
  {
    var t, h := Step(s, Remove(name), parse), Lower(name);
    HasLower(s.torrents, name);
    LowerCanonical(name);
    RemoveKeepsInv(s, name, parse);
    FilesOfOtherSpelling(s, name, parse);
    hide Step;
    forall listing | Lists(listing, t.disk)
      ensures h in Step(t, Reload(listing, {}), parse).torrents <==> name != h
    {
      NoTorrentLost(t, listing, {}, parse);
    }
  }

  /**
   * Over every run after the removal in which nothing adds the torrent and no alert for it arrives: spelled
   * as stored it stays away; otherwise, as long as nothing else takes its files, a reload brings it back.
   */
  lemma RemovalOverRuns(s: State, name: string, events: seq<Event>, parse: MagnetParser)
    requires Inv(s, parse) && Has(s.torrents, name)
    requires AllPossible(Step(s, Remove(name), parse), events, parse)
    requires forall i :: 0 <= i < |events| ==> !Concerns(events[i], Lower(name), parse)
    ensures var h, end := Lower(name), After(Step(s, Remove(name), parse), events, parse);
            if name == h then Absent(end, h)
            else (forall i :: 0 <= i < |events| ==> !Takes(events[i], h)) ==>
                   forall listing :: Lists(listing, end.disk) ==> h in Step(end, Reload(listing, {}), parse).torrents
  {
    var t, h := Step(s, Remove(name), parse), Lower(name);
    RemovalIsPermanentIffSpelled(s, name, parse);
    assert name != h ==> OnDisk(t.disk, h);
    hide *;
    StepKeepsInv(s, Remove(name), parse) by {
      RemovalPossible(s, name);
    }
    if name == h {
      AbsentRun(t, events, h, parse);
    } else if forall i :: 0 <= i < |events| ==> !Takes(events[i], h) {
      OnDiskRun(t, events, h, parse);
      RunKeepsInv(t, events, parse);
      var end := After(t, events, parse);
      forall listing | Lists(listing, end.disk)
        ensures h in Step(end, Reload(listing, {}), parse).torrents
      {
        NoTorrentLost(end, listing, {}, parse);
      }
    }
  }

  lemma RemovalPossible(s: State, name: string)
    ensures Possible(s, Remove(name))
  {
  }

  /** Such a run: a magnet whose torrent is "a" is added, and removed as "A". */
  lemma OtherSpellingReturns(link: seq<byte>, listing: seq<FileName>, parse: MagnetParser)
    requires parse(link) == Some([10]) && |link| < SIZE_LIMIT && listing == [MagnetLink("a")]
    ensures var added := Step(State(map[], map[]), AddMagnet(link, true, true), parse);
            var removed := Step(added, Remove("A"), parse);
            && added.torrents == map["a" := true] && removed.torrents == map[]
            && Lists(listing, removed.disk) && "a" in Step(removed, Reload(listing, {}), parse).torrents
  {
    var start := State(map[], map[]);
    var added := Step(start, AddMagnet(link, true, true), parse);
    assert GetInfoHash([10]) == "a" && Lower("A") == "a" && Lower("a") == "a";
    assert !Has(start.torrents, "a");
    StepKeepsInv(start, AddMagnet(link, true, true), parse);
    var removed := Step(added, Remove("A"), parse);
    assert Has(added.torrents, "A") by {
      assert Iequals("a", "A");
    }
    assert removed.torrents == map[];
    assert removed.disk.Keys == {listing[0]};
    RemovalIsPermanentIffSpelled(added, "A", parse);
  }

  lemma FilesOfOtherSpelling(s: State, name: string, parse: MagnetParser)
    requires Inv(s, parse) && Has(s.torrents, name) && Lower(name) in s.torrents
    ensures var t := RemoveStep(s, name);
            Lower(name) !in t.torrents && (OnDisk(t.disk, Lower(name)) <==> name != Lower(name))
  {
    var h := Lower(name);
    LowerCanonical(name);
    assert Iequals(h, name);
    assert OnDisk(s.disk, h);
    hide Lower, Inv, Has;
  }

  /** A late alert, of either kind, brings an absent torrent back at the next reload iff it is an alert for it. */
  lemma LateAlertReturns(s: State, h: string, alert: Event, listing: seq<FileName>, parse: MagnetParser)
    requires Inv(s, parse) && Absent(s, h) && (alert.SaveResumeData? || alert.MetadataReceived?)
    requires Lists(listing, Step(s, alert, parse).disk)
    ensures h in Step(Step(s, alert, parse), Reload(listing, {}), parse).torrents <==> GetInfoHash(alert.digest) == h
  {
    var t := Step(s, alert, parse);
    StepKeepsInv(s, alert, parse);
    NoTorrentLost(t, listing, {}, parse);
    hide Inv, CanonicalDisk, Reloaded, Lists;
  }

  // ------------------------------------------------------------------------------------------
  // What single events leave.

  /** The torrent that an addition adds, if its data or link can be read. */
  function Subject(e: Event, parse: MagnetParser): Option<Digest> {
    match e
    case AddMagnet(link, _, _) => parse(link)
    case AddTorrentData(data, _, _) => if data.Decodes? then Some(data.digest) else None
    case AddTorrentFile(data, _, _) => if data.Decodes? then Some(data.digest) else None
    case _ => None
  }

  /** The session took the torrent, which was not registered. */
  predicate Adds(s: State, e: Event, parse: MagnetParser) {
    && (e.AddMagnet? || e.AddTorrentData? || e.AddTorrentFile?)
    && e.accepted && Subject(e, parse).Some? && !Has(s.torrents, GetInfoHash(Subject(e, parse).value))
  }

  /**
   * An addition registers its torrent with the download argument given, and has a file that reads as it: a magnet
   * file with that argument, or a torrent file. It changes nothing else, and nothing at all when it adds nothing.
   */
  lemma AddedAs(s: State, e: Event, parse: MagnetParser)
    requires (e.AddMagnet? || e.AddTorrentData? || e.AddTorrentFile?) && Possible(s, e)
    ensures var t := Step(s, e, parse);
            if !Adds(s, e, parse) then t == s
            else
              var h := GetInfoHash(Subject(e, parse).value);
              var file := if e.AddMagnet? then MagnetLink(h) else TorrentMeta(h);
              && t.torrents.Keys == s.torrents.Keys + {h} && t.torrents[h] == e.download
              && (forall k :: k in s.torrents ==> t.torrents[k] == s.torrents[k])
              && t.disk.Keys == s.disk.Keys + {file}
              && (forall f :: f in s.disk && f != file ==> t.disk[f] == s.disk[f])
              && (if e.AddTorrentFile? && file in s.disk then t.disk[file] == s.disk[file]
                  else Read(t.disk, file, parse) == Torrent(h, e.AddMagnet? && e.download))
  {
    if Adds(s, e, parse) {
      var h := GetInfoHash(Subject(e, parse).value);
      assert h !in s.torrents by {
        assert Iequals(h, h);
      }
      if e.AddMagnet? {
        DecodeEncode(Magnet(e.link, e.download), SIZE_BYTES);
      }
    }
    hide Has, GetInfoHash, Encode, Decode;
  }

  /**
   * What becomes of the download argument of an addition at the next reload: a magnet's is kept, unless another
   * file of its torrent is there; that of a torrent file is lost, and true only with resume data.
   */
  lemma FlagAfterReload(s: State, e: Event, listing: seq<FileName>, parse: MagnetParser)
    requires Inv(s, parse) && Possible(s, e) && Adds(s, e, parse) && Lists(listing, Step(s, e, parse).disk)
    ensures var h := GetInfoHash(Subject(e, parse).value);
            var u := Step(Step(s, e, parse), Reload(listing, {}), parse);
            && h in u.torrents
            && (u.torrents[h] <==>
                  FastResume(h) in s.disk || (e.AddMagnet? && TorrentMeta(h) !in s.disk && e.download))
  {
    var t, h := Step(s, e, parse), GetInfoHash(Subject(e, parse).value);
    AddedAs(s, e, parse);
    StepKeepsInv(s, e, parse);
    assert OnDisk(t.disk, h);
    WishAfterReload(t, listing, {}, parse, h);
    hide Step, Inv, Lists, Has, Read, GetInfoHash, Adds;
  }

  /** A removal deletes only files that bear the name asked for, and takes only torrents of that name off. */
  lemma RemovesOnly(s: State, name: string, parse: MagnetParser)
    ensures var t := Step(s, Remove(name), parse);
            && (forall f :: f in s.disk && f !in t.disk ==> f.stem == (if f.Parts? then "." + name else name))
            && (forall f :: f in t.disk ==> f in s.disk && t.disk[f] == s.disk[f])
            && (forall h :: h in t.torrents <==> h in s.torrents && !Iequals(h, name))
            && (forall h :: h in t.torrents ==> t.torrents[h] == s.torrents[h])
  {
    hide Iequals;
  }

  // ------------------------------------------------------------------------------------------
  // The metadata alert in its two writes, between which other threads may act: no mutex is held.

  function WriteTorrentFile(s: State, d: Digest): State {
    s.(disk := s.disk[TorrentMeta(GetInfoHash(d)) := Decodes(d)])
  }

  function DeleteMagnetFile(s: State, d: Digest): State {
    s.(disk := s.disk - {MagnetLink(GetInfoHash(d))})
  }

  /** The torrent has a file besides a magnet. */
  predicate Secured(disk: Disk, h: string) {
    FastResume(h) in disk || TorrentMeta(h) in disk
  }

  lemma DeletingMagnet(s: State, d: Digest, parse: MagnetParser)
    requires Inv(s, parse)
    ensures var h := GetInfoHash(d);
            Inv(DeleteMagnetFile(s, d), parse) <==> h !in s.torrents || Secured(s.disk, h)
  {
    var t, h := DeleteMagnetFile(s, d), GetInfoHash(d);
    FewerFiles(s.disk, t.disk, parse);
    hide CanonicalDisk, CanonicalKeys, Read;
    forall k | k in s.torrents
      ensures OnDisk(t.disk, k) <==> k != h || Secured(s.disk, h)
    {
      assert OnDisk(s.disk, k);
    }
  }

  /** The event takes the torrent's files; a removal does so only of a registered torrent. */
  predicate Bares(s: State, e: Event, h: string) {
    Takes(e, h) && (e.Remove? ==> h in s.torrents)
  }

  /** The event writes the torrent a file besides a magnet. */
  predicate Secures(s: State, e: Event, h: string) {
    match e
    case SaveResumeData(d) => GetInfoHash(d) == h
    case MetadataReceived(d) => GetInfoHash(d) == h
    case AddTorrentData(data, _, accepted) =>
      accepted && data.Decodes? && GetInfoHash(data.digest) == h && h !in s.torrents
    case AddTorrentFile(data, _, accepted) =>
      accepted && data.Decodes? && GetInfoHash(data.digest) == h && h !in s.torrents
    case _ => false
  }

  /** The event adds the torrent as a magnet. */
  predicate AddsMagnet(s: State, e: Event, h: string, parse: MagnetParser) {
    && e.AddMagnet? && e.accepted && parse(e.link).Some?
    && GetInfoHash(parse(e.link).value) == h && h !in s.torrents
  }

  lemma SecuredStep(s: State, e: Event, h: string, parse: MagnetParser)
    requires Inv(s, parse) && Possible(s, e) && Canonical(h)
    ensures Secured(Step(s, e, parse).disk, h) <==> Secures(s, e, h) || (Secured(s.disk, h) && !Bares(s, e, h))
  {
    if e.Reload? {
      ReloadStep(s, e.listing, e.refused, parse);
      ReloadedIs(s.disk, parse, e.refused);
      hide Step, Reloaded, CanonicalDisk, CanonicalKeys, Has;
    } else if e.Remove? {
      SecuredRemove(s, e.hash, h);
    } else {
      HasIsMember(s.torrents, h);
      hide Has, CanonicalDisk, CanonicalKeys, Lower, Encode;
    }
  }

  lemma SecuredRemove(s: State, hash: string, h: string)
    requires CanonicalKeys(s.torrents) && Canonical(h)
    ensures Secured(RemoveStep(s, hash).disk, h) <==> Secured(s.disk, h) && !(hash == h && h in s.torrents)
  {
    HasIsMember(s.torrents, h);
    hide Has, Lower, CanonicalKeys, Iequals;
  }

  /** Event `i` took all the torrent's files, and none since has written it one besides a magnet. */
  ghost predicate BareSince(s: State, events: seq<Event>, h: string, parse: MagnetParser, i: nat) {
    && i < |events| && Bares(After(s, events[..i], parse), events[i], h)
    && forall k :: i < k < |events| ==> !Secures(After(s, events[..k], parse), events[k], h)
  }

  predicate AddedAt(s: State, events: seq<Event>, h: string, parse: MagnetParser, j: nat) {
    j < |events| && AddsMagnet(After(s, events[..j], parse), events[j], h, parse)
  }

  lemma SameBefore(events: seq<Event>, k: nat)
    requires k < |events| - 1
    ensures var before := events[..|events| - 1]; before[..k] == events[..k] && before[k] == events[k]
  {
  }

  lemma BarePrefix(s: State, events: seq<Event>, h: string, parse: MagnetParser, i: nat)
    requires events != [] && i < |events| - 1
    ensures var before := events[..|events| - 1];
            BareSince(s, events, h, parse, i) <==>
              BareSince(s, before, h, parse, i) && !Secures(After(s, before, parse), events[|before|], h)
    ensures AddedAt(s, events, h, parse, i) <==> AddedAt(s, events[..|events| - 1], h, parse, i)
  {
    hide Secures, Bares, After, AddsMagnet;
    var before := events[..|events| - 1];
    SameBefore(events, i);
    if BareSince(s, events, h, parse, i) {
      assert !Secures(After(s, events[..|before|], parse), events[|before|], h);
      forall k | i < k < |before|
        ensures !Secures(After(s, before[..k], parse), before[k], h)
      {
        SameBefore(events, k);
        assert !Secures(After(s, events[..k], parse), events[k], h);
      }
    }
    if BareSince(s, before, h, parse, i) && !Secures(After(s, before, parse), events[|before|], h) {
      forall k | i < k < |events|
        ensures !Secures(After(s, events[..k], parse), events[k], h)
      {
        if k < |before| {
          SameBefore(events, k);
          assert !Secures(After(s, before[..k], parse), before[k], h);
        }
      }
    }
  }

  lemma PossiblePrefix(s: State, events: seq<Event>, parse: MagnetParser)
    requires AllPossible(s, events, parse) && events != []
    ensures var before := events[..|events| - 1];
            AllPossible(s, before, parse) && Possible(After(s, before, parse), events[|before|])
  {
    var before := events[..|events| - 1];
    forall i | 0 <= i < |before|
      ensures Possible(After(s, before[..i], parse), before[i])
    {
      assert before[..i] == events[..i];
    }
  }

  lemma BareStep(s: State, events: seq<Event>, h: string, parse: MagnetParser)
    requires events != []
    ensures var before, e := events[..|events| - 1], events[|events| - 1];
            var t := After(s, before, parse);
            (exists i: nat :: BareSince(s, events, h, parse, i)) <==>
              Bares(t, e, h) || (!Secures(t, e, h) && exists i: nat :: BareSince(s, before, h, parse, i))
  {
    hide Secures, Bares, After;
    var last := |events| - 1;
    var before := events[..last];
    forall i: nat | i < last {
      BarePrefix(s, events, h, parse, i);
    }
    if Bares(After(s, before, parse), events[last], h) {
      assert BareSince(s, events, h, parse, last);
    } else if !Secures(After(s, before, parse), events[last], h) {
      if i: nat :| BareSince(s, before, h, parse, i) {
        assert BareSince(s, events, h, parse, i);
      }
    }
  }

  /** A torrent that had such a file has none iff some event took its files and none since wrote it one. */
  lemma {:induction false} UnsecuredIff(s: State, events: seq<Event>, h: string, parse: MagnetParser)
    requires Inv(s, parse) && AllPossible(s, events, parse) && Canonical(h) && Secured(s.disk, h)
    ensures !Secured(After(s, events, parse).disk, h) <==> exists i: nat :: BareSince(s, events, h, parse, i)
  {
    if events != [] {
      var before, e := events[..|events| - 1], events[|events| - 1];
      PossiblePrefix(s, events, parse);
      RunKeepsInv(s, before, parse);
      UnsecuredIff(s, before, h, parse);
      SecuredStep(After(s, before, parse), e, h, parse);
      BareStep(s, events, h, parse);
      assert Bares(After(s, before, parse), e, h) ==> !Secures(After(s, before, parse), e, h);
      hide Inv, Secures, Bares, Secured, Step, Possible, BareSince, AllPossible;
    }
  }

  /** A torrent without such a file that is not absent has been added as a magnet since its files were taken. */
  lemma {:induction false} BareIsAdded(s: State, events: seq<Event>, h: string, parse: MagnetParser, i: nat)
    returns (j: nat)
    requires Inv(s, parse) && AllPossible(s, events, parse) && Canonical(h)
    requires BareSince(s, events, h, parse, i) && !Absent(After(s, events, parse), h)
    ensures i < j && AddedAt(s, events, h, parse, j)
  {
    var last := |events| - 1;
    var before := events[..last];
    PossiblePrefix(s, events, parse);
    RunKeepsInv(s, before, parse);
    var t, e := After(s, before, parse), events[last];
    if i == last {
      BaresAll(t, e, h, parse);
    } else {
      BarePrefix(s, events, h, parse, i);
      hide Inv, CanonicalDisk, CanonicalKeys, Bares, Secures, Step, Absent, AddsMagnet;
      if Absent(t, h) {
        j := last;
        FirstToConcern(t, e, h, parse);
      } else {
        j := BareIsAdded(s, before, h, parse, i);
        BarePrefix(s, events, h, parse, j);
      }
    }
  }

  lemma BaresAll(s: State, e: Event, h: string, parse: MagnetParser)
    requires Inv(s, parse) && Possible(s, e) && Canonical(h) && Bares(s, e, h)
    ensures Absent(Step(s, e, parse), h)
  {
    if e.Reload? {
      ReloadStep(s, e.listing, e.refused, parse);
      ReloadedIs(s.disk, parse, e.refused);
      hide Step, Reloaded, CanonicalDisk, CanonicalKeys, Has;
    } else {
      RemovedIsAbsent(s, h);
    }
  }

  lemma RemovedIsAbsent(s: State, h: string)
    requires CanonicalKeys(s.torrents) && Canonical(h) && h in s.torrents
    ensures Absent(RemoveStep(s, h), h)
  {
    HasIsMember(s.torrents, h);
    hide Has, Lower, CanonicalKeys;
  }

  /** Only an addition or an alert brings an absent torrent back. */
  lemma FirstToConcern(s: State, e: Event, h: string, parse: MagnetParser)
    requires Inv(s, parse) && Possible(s, e) && Canonical(h)
    requires Absent(s, h) && !Absent(Step(s, e, parse), h) && !Secures(s, e, h)
    ensures AddsMagnet(s, e, h, parse)
  {
    if !Concerns(e, h, parse) {
      AbsentStep(s, e, h, parse);
    }
    hide CanonicalDisk;
  }

  /**
   * Whatever happens between the two writes, the second leaves every registered torrent a file, unless in
   * between all the torrent's files were taken, it was added again as a magnet, and it is still
   * registered with nothing else. Hence it is safe if no such removal or reload happens.
   */
  lemma SplitAlertSafeIff(s: State, d: Digest, events: seq<Event>, parse: MagnetParser)
    requires Inv(s, parse) && AllPossible(WriteTorrentFile(s, d), events, parse)
    ensures var h, w := GetInfoHash(d), WriteTorrentFile(s, d);
            var t := After(w, events, parse);
            && (Inv(DeleteMagnetFile(t, d), parse) <==>
                  !(h in t.torrents && exists i: nat, j: nat ::
                      i < j && BareSince(w, events, h, parse, i) && AddedAt(w, events, h, parse, j)))
            && ((forall i :: 0 <= i < |events| ==> !Takes(events[i], h)) ==> Inv(DeleteMagnetFile(t, d), parse))
  {
    var h, w := GetInfoHash(d), WriteTorrentFile(s, d);
    var t := After(w, events, parse);
    WriteKeepsInv(s, d, TorrentMeta(h), Decodes(d), true, parse);
    InfoHashCanonical(d);
    RunKeepsInv(w, events, parse);
    UnsecuredIff(w, events, h, parse);
    DeletingMagnet(t, d, parse);
    if h in t.torrents && !Secured(t.disk, h) {
      var i: nat :| BareSince(w, events, h, parse, i);
      var j := BareIsAdded(w, events, h, parse, i);
      assert BareSince(w, events, h, parse, i) && AddedAt(w, events, h, parse, j);
    }
  }

  /**
   * Such a run exists: a torrent removed and added again as a magnet between the two writes is
   * left registered with no file, whatever the link, and the next reload loses it.
   */
  lemma SplitAlertLosesTorrent(link: seq<byte>, d: Digest, parse: MagnetParser)
    requires parse(link) == Some(d) && |link| < SIZE_LIMIT
    ensures var h := GetInfoHash(d);
            var added := Step(State(map[], map[]), AddMagnet(link, true, true), parse);
            var removed := Step(WriteTorrentFile(added, d), Remove(h), parse);
            var again := Step(removed, AddMagnet(link, true, true), parse);
            var end := DeleteMagnetFile(again, d);
            && h in end.torrents && !OnDisk(end.disk, h)
            && h !in Reloaded(end.disk, parse, {}).torrents
  {
    var h := GetInfoHash(d);
    var start := State(map[], map[]);
    var added := Step(start, AddMagnet(link, true, true), parse);
    assert !Has(start.torrents, h);
    assert h in added.torrents && Iequals(h, h);
    var written := WriteTorrentFile(added, d);
    var removed := Step(written, Remove(h), parse);
    assert removed.torrents == map[];
    assert !Has(removed.torrents, h);
    var again := Step(removed, AddMagnet(link, true, true), parse);
    var end := DeleteMagnetFile(again, d);
    assert end.disk == map[];
    assert Mirrors(end.disk) == {};
  }
}
