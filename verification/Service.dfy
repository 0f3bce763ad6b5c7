/** The service's list of torrents and its directory, changed in place as the registry prescribes. */
module Services {
  import opened Common
  import opened MagnetCodec
  import opened Registry

  datatype Registered = Registered(hash: string, wanted: bool)

  function TableOf(torrents: seq<Registered>): Table {
    if torrents == [] then map[]
    else
      var last := torrents[|torrents| - 1];
      TableOf(torrents[..|torrents| - 1])[last.hash := last.wanted]
  }

  /** No two torrents share a hash, ignoring case. */
  ghost predicate NoDuplicates(torrents: seq<Registered>) {
    forall i, j :: 0 <= i < j < |torrents| ==> !Iequals(torrents[i].hash, torrents[j].hash)
  }

  lemma {:induction false} TableHas(torrents: seq<Registered>, hash: string)
    ensures Has(TableOf(torrents), hash) <==> exists i :: 0 <= i < |torrents| && Iequals(torrents[i].hash, hash)
  {
    if torrents != [] {
      var last := |torrents| - 1;
      var before := torrents[..last];
      TableHas(before, hash);
      if Has(TableOf(before), hash) {
        var k :| k in TableOf(before) && Iequals(k, hash);
        assert k in TableOf(torrents);
        var i :| 0 <= i < |before| && Iequals(before[i].hash, hash);
        assert torrents[i] == before[i];
      } else if Iequals(torrents[last].hash, hash) {
        assert torrents[last].hash in TableOf(torrents);
      } else {
        forall i | 0 <= i < |torrents|
          ensures !Iequals(torrents[i].hash, hash)
        {
          assert i < last ==> before[i] == torrents[i];
        }
      }
    }
  }

  /** A table without the entries for a hash, ignoring case. */
  function Erased(table: Table, hash: string): Table {
    map h | h in table && !Iequals(h, hash) :: table[h]
  }

  lemma ErasedStep(table: Table, last: Registered, hash: string)
    ensures Erased(table[last.hash := last.wanted], hash)
         == if Iequals(last.hash, hash) then Erased(table, hash) else Erased(table, hash)[last.hash := last.wanted]
  {
    hide Iequals;
  }

  lemma NothingErased(table: Table, hash: string)
    requires !Has(table, hash)
    ensures Erased(table, hash) == table
  {
    hide Iequals;
  }

  lemma OthersDiffer(torrents: seq<Registered>, i: nat, hash: string)
    requires NoDuplicates(torrents) && i < |torrents| && Iequals(torrents[i].hash, hash)
    ensures forall j :: 0 <= j < |torrents| && j != i ==> !Iequals(torrents[j].hash, hash)
  {
    hide Lower;
  }

  lemma TableLast(torrents: seq<Registered>, last: Registered)
    ensures TableOf(torrents + [last]) == TableOf(torrents)[last.hash := last.wanted]
  {
    assert (torrents + [last])[..|torrents|] == torrents;
  }

  lemma EraseKeepsLast(before: seq<Registered>, last: Registered, i: nat, hash: string)
    requires i < |before| && !Iequals(last.hash, hash)
    requires TableOf(before[..i] + before[i + 1..]) == Erased(TableOf(before), hash)
    ensures var all := before + [last]; TableOf(all[..i] + all[i + 1..]) == Erased(TableOf(all), hash)
  {
    hide Iequals, Erased, TableOf;
    var shorter, all := before[..i] + before[i + 1..], before + [last];
    assert all[..i] + all[i + 1..] == shorter + [last];
    TableLast(shorter, last);
    TableLast(before, last);
    ErasedStep(TableOf(before), last, hash);
  }

  /** Erasing the torrent found for a hash erases its entries from the table, and no others. */
  lemma {:induction false} TableErase(torrents: seq<Registered>, i: nat, hash: string)
    requires NoDuplicates(torrents) && i < |torrents| && Iequals(torrents[i].hash, hash)
    ensures TableOf(torrents[..i] + torrents[i + 1..]) == Erased(TableOf(torrents), hash)
  {
    var before, last := torrents[..|torrents| - 1], torrents[|torrents| - 1];
    assert torrents == before + [last];
    OthersDiffer(torrents, i, hash);
    hide Iequals, Erased, Has, TableOf;
    if i == |before| {
      assert torrents[..i] + torrents[i + 1..] == before;
      TableHas(before, hash);
      NothingErased(TableOf(before), hash);
      TableLast(before, last);
      ErasedStep(TableOf(before), last, hash);
    } else {
      TableErase(before, i, hash);
      EraseKeepsLast(before, last, i, hash);
    }
  }

  lemma FilesGone(disk: Disk, hash: string)
    ensures disk - {Parts("." + hash)} - {FastResume(hash)} - {TorrentMeta(hash)} - {MagnetLink(hash)}
         == disk - FilesNamed(hash)
  {
  }

  /** How an addition ends; `CopyFailed`: the torrent was added, but its file could not be copied. */
  datatype AddResult = Added(hash: string) | LoadError | Duplicate(hash: string) | CopyFailed(hash: string)

  /** A torrent file given by path: one of the service's directory, or another. */
  datatype Source = InDirectory(name: FileName) | Elsewhere(data: Content)

  function ContentOf(disk: Disk, source: Source): Content {
    match source
    case InDirectory(name) => if name in disk then disk[name] else Undecodable
    case Elsewhere(data) => data
  }

  /** The answer to adding torrent data. */
  function Answer(s: State, data: Content, accepted: bool): AddResult {
    if !data.Decodes? then LoadError
    else if Has(s.torrents, GetInfoHash(data.digest)) then Duplicate(GetInfoHash(data.digest))
    else if !accepted then LoadError
    else Added(GetInfoHash(data.digest))
  }

  /**
   * The answer tells what happened to the registry: a torrent was added iff it is now there and was not before;
   * it was a duplicate iff it had been; otherwise it could not be read, or the session refused it.
   */
  lemma AnswerTells(s: State, data: Content, download: bool, accepted: bool, parse: MagnetParser)
    ensures var r, t := Answer(s, data, accepted), Step(s, Event.AddTorrentData(data, download, accepted), parse);
            && (r.Added? <==> t != s) && !r.CopyFailed?
            && (r.Added? ==> data.Decodes? && r.hash == GetInfoHash(data.digest)
                             && !Has(s.torrents, r.hash) && Has(t.torrents, r.hash))
            && (r.Duplicate? <==> data.Decodes? && Has(s.torrents, GetInfoHash(data.digest)))
            && (r.LoadError? ==> !data.Decodes? || !accepted)
  {
    if data.Decodes? {
      var h := GetInfoHash(data.digest);
      assert Iequals(h, h);
      assert !Has(s.torrents, h) ==> h !in s.torrents;
    }
    hide GetInfoHash, Iequals;
  }

  class Service {
    const parse: MagnetParser
    var mTorrents: seq<Registered>
    var disk: Disk

    ghost predicate Valid()
      reads this
    {
      NoDuplicates(mTorrents)
    }

    ghost function Model(): State
      reads this
    {
      State(TableOf(mTorrents), disk)
    }

    /** A service that starts: it loads the directory. */
    constructor (parse: MagnetParser, disk: Disk, listing: seq<FileName>, refused: set<string>)
      requires Lists(listing, disk)
      ensures Valid() && this.parse == parse
      ensures Model() == Step(State(map[], disk), Reload(listing, refused), parse)
    {
      this.parse, this.disk, mTorrents := parse, disk, [];
      new;
      LoadTorrentFiles(listing, refused);
    }

    /** The position of the torrent with a hash, ignoring case, or the number of torrents. */
    method FindTorrent(hash: string) returns (i: nat)
      ensures i <= |mTorrents|
      ensures i < |mTorrents| ==> Iequals(mTorrents[i].hash, hash)
      ensures i < |mTorrents| <==> Has(TableOf(mTorrents), hash)
    {
      TableHas(mTorrents, hash);
      for n := 0 to |mTorrents|
        invariant forall j :: 0 <= j < n ==> !Iequals(mTorrents[j].hash, hash)
      {
        if Iequals(mTorrents[n].hash, hash) {
          return n;
        }
      }
      return |mTorrents|;
    }

    method AddTorrentWithParams(hash: string, wanted: bool, accepted: bool) returns (r: AddResult)
      requires Valid()
      modifies `mTorrents
      ensures Valid()
      ensures r == if Has(old(Model()).torrents, hash) then Duplicate(hash)
                   else if !accepted then LoadError else Added(hash)
      ensures Model().torrents == if r.Added? then old(Model()).torrents[hash := wanted] else old(Model()).torrents
    {
      var found := FindTorrent(hash);
      if found < |mTorrents| {
        return Duplicate(hash);
      }
      if !accepted {
        return LoadError;
      }
      TableHas(mTorrents, hash);
      mTorrents := mTorrents + [Registered(hash, wanted)];
      return Added(hash);
    }

    method AddMagnet(link: seq<byte>, download: bool, save: bool, accepted: bool) returns (r: AddResult)
      requires Valid()
      modifies this
      ensures Valid()
      ensures var t := AddMagnetStep(old(Model()), link, download, accepted, parse);
              Model() == if save then t else State(t.torrents, old(disk))
      ensures r == if parse(link).None? then LoadError
                   else if Has(old(Model()).torrents, GetInfoHash(parse(link).value))
                   then Duplicate(GetInfoHash(parse(link).value))
                   else if !accepted then LoadError else Added(GetInfoHash(parse(link).value))
    {
      var d := parse(link);
      if d.None? {
        return LoadError;
      }
      var infoHash := GetInfoHash(d.value);
      r := AddTorrentWithParams(infoHash, download, accepted);
      if r.Added? && save {
        disk := disk[MagnetLink(infoHash) := Bytes(Encode(Magnet(link, download), SIZE_BYTES))];
      }
    }

    method AddTorrentData(data: Content, download: bool, accepted: bool) returns (r: AddResult)
      requires Valid()
      modifies this
      ensures Valid() && Model() == Step(old(Model()), Event.AddTorrentData(data, download, accepted), parse)
      ensures r == Answer(old(Model()), data, accepted)
    {
      if !data.Decodes? {
        return LoadError;
      }
      var infoHash := GetInfoHash(data.digest);
      r := AddTorrentWithParams(infoHash, download, accepted);
      if r.Added? {
        disk := disk[TorrentMeta(infoHash) := data];
      }
    }

    /**
     * Adds a torrent file; when asked to save it, copies it unless it is itself the file that the torrent
     * is saved in. A copy does not overwrite: with another file in place it fails, after the addition.
     */
    method AddTorrentFile(source: Source, download: bool, save: bool, accepted: bool) returns (r: AddResult)
      requires Valid()
      modifies this
      ensures Valid()
      ensures var data := ContentOf(old(disk), source);
              var t := Step(old(Model()), Event.AddTorrentFile(data, download, accepted), parse);
              var answer := Answer(old(Model()), data, accepted);
              && Model() == (if save then t else State(t.torrents, old(disk)))
              && r == if save && answer.Added? && source != InDirectory(TorrentMeta(answer.hash))
                         && TorrentMeta(answer.hash) in old(disk)
                      then CopyFailed(answer.hash) else answer
    {
      var data := ContentOf(disk, source);
      if !data.Decodes? {
        return LoadError;
      }
      var infoHash := GetInfoHash(data.digest);
      r := AddTorrentWithParams(infoHash, download, accepted);
      if r.Added? && save {
        var destPath := TorrentMeta(infoHash);
        if source != InDirectory(destPath) {
          if destPath in disk {
            return CopyFailed(infoHash);
          }
          disk := disk[destPath := data];
        }
      }
    }

    method AddTorrentWithResumeData(data: Content, accepted: bool) returns (r: AddResult)
      requires Valid()
      modifies `mTorrents
      ensures Valid()
      ensures r == Answer(old(Model()), data, accepted)
      ensures Model().torrents == if r.Added? then old(Model()).torrents[r.hash := true] else old(Model()).torrents
    {
      if !data.Decodes? {
        return LoadError;
      }
      r := AddTorrentWithParams(GetInfoHash(data.digest), true, accepted);
    }

    /** The answer is false when there is no such torrent. */
    method RemoveTorrent(hash: string) returns (ok: bool)
      requires Valid()
      modifies this
      ensures Valid() && Model() == Step(old(Model()), Remove(hash), parse)
      ensures ok <==> Has(old(Model()).torrents, hash)
    {
      var it := FindTorrent(hash);
      if it == |mTorrents| {
        return false;
      }
      TableErase(mTorrents, it, hash);
      hide Lower, TableOf, Has, FilesNamed;
      FilesGone(disk, hash);
      disk := disk - {Parts("." + hash)};
      disk := disk - {FastResume(hash)};
      disk := disk - {TorrentMeta(hash)};
      disk := disk - {MagnetLink(hash)};
      mTorrents := mTorrents[..it] + mTorrents[it + 1..];
      return true;
    }

    method RemoveTorrents()
      modifies `mTorrents
      ensures mTorrents == []
    {
      while mTorrents != []
        decreases |mTorrents|
      {
        mTorrents := mTorrents[1..];
      }
    }

    method HandleSaveResumeData(d: Digest)
      requires Valid()
      modifies `disk
      ensures Valid() && Model() == Step(old(Model()), SaveResumeData(d), parse)
    {
      disk := disk[FastResume(GetInfoHash(d)) := Decodes(d)];
    }

    method HandleMetadataReceived(d: Digest)
      requires Valid()
      modifies `disk
      ensures Valid() && Model() == Step(old(Model()), MetadataReceived(d), parse)
    {
      disk := disk[TorrentMeta(GetInfoHash(d)) := Decodes(d)];
      disk := disk - {MagnetLink(GetInfoHash(d))};
    }

    /** The reset of a settings update. */
    method Reset(listing: seq<FileName>, refused: set<string>)
      requires Valid() && Lists(listing, disk)
      modifies this
      ensures Valid() && Model() == Step(old(Model()), Reload(listing, refused), parse)
    {
      RemoveTorrents();
      LoadTorrentFiles(listing, refused);
    }

    method LoadFastResume(f: FileName, refused: set<string>)
      requires Valid() && f.FastResume?
      modifies this
      ensures Valid() && Model() == LoadFile(old(Model()), f, parse, refused)
    {
      var data := ContentOf(disk, InDirectory(f));
      var accepted := data.Decodes? && GetInfoHash(data.digest) !in refused;
      var r := AddTorrentWithResumeData(data, accepted);
      if !r.Added? {
        disk := disk - {f};
      }
    }

    method LoadTorrentMeta(f: FileName, refused: set<string>)
      requires Valid() && f.TorrentMeta?
      modifies this
      ensures Valid() && Model() == LoadFile(old(Model()), f, parse, refused)
    {
      var data := ContentOf(disk, InDirectory(f));
      var accepted := data.Decodes? && GetInfoHash(data.digest) !in refused;
      var r := AddTorrentFile(InDirectory(f), false, false, accepted);
      if r == LoadError {
        disk := disk - {f};
      }
    }

    method LoadMagnet(f: FileName, refused: set<string>)
      requires Valid() && f.MagnetLink?
      modifies this
      ensures Valid() && Model() == LoadFile(old(Model()), f, parse, refused)
    {
      var m := if f in disk && disk[f].Bytes? then Decode(disk[f].bytes, SIZE_BYTES) else None;
      if m.None? {
        return;
      }
      var accepted := parse(m.value.link).Some? && GetInfoHash(parse(m.value.link).value) !in refused;
      var r := AddMagnet(m.value.link, m.value.download, false, accepted);
      match r {
        case Duplicate(hash) => disk := disk - {MagnetLink(hash)};
        case LoadError => disk := disk - {f};
        case _ =>
      }
    }

    method LoadTorrentFiles(listing: seq<FileName>, refused: set<string>)
      requires Valid() && Lists(listing, disk)
      modifies this
      ensures Valid() && Model() == Load(old(Model()), listing, parse, refused)
    {
      hide LoadFiles, Lists, Registry.LoadFile;
      ghost var start := Model();
      var fastResumeFiles, torrentFiles, magnetFiles := [], [], [];
      for i := 0 to |listing|
        invariant fastResumeFiles == OfKind(listing[..i], 0)
        invariant torrentFiles == OfKind(listing[..i], 1)
        invariant magnetFiles == OfKind(listing[..i], 2)
      {
        assert listing[..i + 1][..i] == listing[..i];
        match listing[i] {
          case FastResume(_) => fastResumeFiles := fastResumeFiles + [listing[i]];
          case TorrentMeta(_) => torrentFiles := torrentFiles + [listing[i]];
          case MagnetLink(_) => magnetFiles := magnetFiles + [listing[i]];
          case Parts(_) =>
        }
      }
      assert listing[..|listing|] == listing;
      LoadAll(fastResumeFiles, 0, refused) by { AllOfKind(listing, 0); }
      LoadAll(torrentFiles, 1, refused) by { AllOfKind(listing, 1); }
      LoadAll(magnetFiles, 2, refused) by { AllOfKind(listing, 2); }
      LoadFilesAppend(start, fastResumeFiles, torrentFiles, parse, refused);
      LoadFilesAppend(start, fastResumeFiles + torrentFiles, magnetFiles, parse, refused);
      LoadFilesShrink(start, LoadOrder(listing), parse, refused);
      assert forall name :: name in disk ==> exists i :: 0 <= i < |listing| && listing[i] == name by {
        ListsAll(listing, start.disk);
      }
      RemoveStaleParts(listing);
    }

    /** The loop over the files of one kind. */
    method LoadAll(files: seq<FileName>, kind: nat, refused: set<string>)
      requires Valid() && kind < 3 && forall i :: 0 <= i < |files| ==> Kind(files[i]) == kind
      modifies this
      ensures Valid() && Model() == LoadFiles(old(Model()), files, parse, refused)
    {
      for i := 0 to |files|
        invariant Valid() && Model() == LoadFiles(old(Model()), files[..i], parse, refused)
      {
        assert files[..i + 1][..i] == files[..i];
        match kind {
          case 0 => LoadFastResume(files[i], refused);
          case 1 => LoadTorrentMeta(files[i], refused);
          case _ => LoadMagnet(files[i], refused);
        }
      }
      assert files[..|files|] == files;
    }

    method RemoveStaleParts(listing: seq<FileName>)
      requires Valid() && forall name :: name in disk ==> exists i :: 0 <= i < |listing| && listing[i] == name
      modifies `disk
      ensures Valid() && Model() == CleanParts(old(Model()))
    {
      ghost var before := disk;
      for i := 0 to |listing|
        invariant forall name :: name in disk ==> name in before && disk[name] == before[name]
        invariant forall name :: name in before && !Stale(TableOf(mTorrents), name) ==> name in disk
        invariant forall k :: 0 <= k < i && Stale(TableOf(mTorrents), listing[k]) ==> listing[k] !in disk
      {
        if listing[i].Parts? {
          var found := FindTorrent(TrimDots(listing[i].stem));
          if found == |mTorrents| {
            disk := disk - {listing[i]};
          }
        }
      }
      assert Model() == CleanParts(old(Model()));
    }
  }

  lemma ListsAll(listing: seq<FileName>, disk: Disk)
    requires Lists(listing, disk)
    ensures forall name :: name in disk ==> exists i :: 0 <= i < |listing| && listing[i] == name
  {
  }

  predicate Stale(torrents: Table, name: FileName) {
    name.Parts? && !Has(torrents, TrimDots(name.stem))
  }

  lemma {:induction false} AllOfKind(listing: seq<FileName>, kind: nat)
    ensures forall i :: 0 <= i < |OfKind(listing, kind)| ==> Kind(OfKind(listing, kind)[i]) == kind
  {
    if listing != [] {
      AllOfKind(listing[..|listing| - 1], kind);
    }
  }

  lemma {:induction false} LoadFilesAppend(s: State, a: seq<FileName>, b: seq<FileName>, parse: MagnetParser,
                                           refused: set<string>)
    ensures LoadFiles(s, a + b, parse, refused) == LoadFiles(LoadFiles(s, a, parse, refused), b, parse, refused)
  {
    if b == [] {
      assert a + b == a;
    } else {
      LoadFilesAppend(s, a, b[..|b| - 1], parse, refused);
      assert (a + b)[..|a + b| - 1] == a + b[..|b| - 1];
    }
  }

  /** Loading only deletes files. */
  lemma {:induction false} LoadFilesShrink(s: State, names: seq<FileName>, parse: MagnetParser, refused: set<string>)
    ensures forall name :: name in LoadFiles(s, names, parse, refused).disk ==> name in s.disk
  {
    if names != [] {
      LoadFilesShrink(s, names[..|names| - 1], parse, refused);
    }
  }
}
