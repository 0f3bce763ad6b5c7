/** The listing of a folder of a torrent: its files, and its subfolders with totals. */
module Items {
  import opened Common

  /** A path is its components, none of them empty; they hold no separators. */
  type Path = seq<string>

  datatype FileEntry = FileEntry(path: Path, size: int, done: int, wanted: bool)

  datatype FolderStatus =
    FolderStatus(total: int, done: int, wanted: int, wantedDone: int, wantedCount: int, progress: real)

  datatype Folder = Folder(name: string, path: string, length: int, count: int, status: Option<FolderStatus>)

  /** A trailing slash reads as a last component ".", which is dropped. */
  function NormalisedPrefix(prefix: Path): Path {
    if prefix != [] && prefix[|prefix| - 1] == "." then prefix[..|prefix| - 1] else prefix
  }

  function Joined(path: Path): string {
    if path == [] then ""
    else if |path| == 1 then path[0]
    else path[0] + "/" + Joined(path[1..])
  }

  /** The path of a subfolder, with the trailing slash that marks it as a folder. */
  function FolderPath(prefix: Path, name: string): string {
    (if prefix == [] then name else Joined(prefix) + "/" + name) + "/"
  }

  /** Looking a folder up by its path is looking it up by its name. */
  lemma FolderPathInjective(prefix: Path, a: string, b: string)
    ensures FolderPath(prefix, a) == FolderPath(prefix, b) <==> a == b
  {
    var start := if prefix == [] then "" else Joined(prefix) + "/";
    assert FolderPath(prefix, a) == start + a + "/";
    assert FolderPath(prefix, b) == start + b + "/";
    if FolderPath(prefix, a) == FolderPath(prefix, b) {
      assert |a| == |b|;
      assert a == (start + a + "/")[|start|..|start| + |a|];
      assert b == (start + b + "/")[|start|..|start| + |b|];
    }
  }

  /** How many components follow the prefix; none when it does not lead the path. */
  function Depth(prefix: Path, path: Path): int {
    if prefix <= path then |path| - |prefix| else 0
  }

  predicate InFolder(prefix: Path, name: string, f: FileEntry) {
    Depth(prefix, f.path) > 1 && f.path[|prefix|] == name
  }

  /** The files directly in the folder, in order. */
  function FilesAt(files: seq<FileEntry>, prefix: Path): seq<FileEntry> {
    if files == [] then []
    else
      var last := files[|files| - 1];
      FilesAt(files[..|files| - 1], prefix) + if Depth(prefix, last.path) == 1 then [last] else []
  }

  /** Totals of files: how many, and their sizes and progress, all and wanted ones. */
  datatype Totals = Totals(count: int, size: int, done: int, wantedCount: int, wanted: int, wantedDone: int)

  const NONE := Totals(0, 0, 0, 0, 0, 0)

  function Plus(a: Totals, b: Totals): Totals {
    Totals(a.count + b.count, a.size + b.size, a.done + b.done, a.wantedCount + b.wantedCount,
           a.wanted + b.wanted, a.wantedDone + b.wantedDone)
  }

  function Weight(f: FileEntry): Totals {
    if f.wanted then Totals(1, f.size, f.done, 1, f.size, f.done) else Totals(1, f.size, f.done, 0, 0, 0)
  }

  /** Totals of the files in one subfolder. */
  function TotalIn(files: seq<FileEntry>, prefix: Path, name: string): Totals {
    if files == [] then NONE
    else
      var last := files[|files| - 1];
      var before := TotalIn(files[..|files| - 1], prefix, name);
      if InFolder(prefix, name, last) then Plus(before, Weight(last)) else before
  }

  /** Totals of all files in subfolders. */
  function TotalDeeper(files: seq<FileEntry>, prefix: Path): Totals {
    if files == [] then NONE
    else
      var last := files[|files| - 1];
      var before := TotalDeeper(files[..|files| - 1], prefix);
      if Depth(prefix, last.path) > 1 then Plus(before, Weight(last)) else before
  }

  function SumOver(names: seq<string>, files: seq<FileEntry>, prefix: Path): Totals {
    if names == [] then NONE
    else
      var last := |names| - 1;
      Plus(SumOver(names[..last], files, prefix), TotalIn(files, prefix, names[last]))
  }

  predicate DistinctNames(names: seq<string>) {
    forall i, j :: 0 <= i < j < |names| ==> names[i] != names[j]
  }

  predicate Covers(names: seq<string>, prefix: Path, f: FileEntry) {
    exists i :: 0 <= i < |names| && InFolder(prefix, names[i], f)
  }

  lemma CoversStep(names: seq<string>, prefix: Path, f: FileEntry)
    requires DistinctNames(names) && names != []
    ensures var k := |names| - 1;
            && (Covers(names, prefix, f) <==> Covers(names[..k], prefix, f) || InFolder(prefix, names[k], f))
            && !(Covers(names[..k], prefix, f) && InFolder(prefix, names[k], f))
  {
    var k := |names| - 1;
    if Covers(names[..k], prefix, f) {
      var i :| 0 <= i < k && InFolder(prefix, names[..k][i], f);
      assert InFolder(prefix, names[i], f);
    }
  }

  /** One more file adds its weight to the sum over distinct folders iff it is in one of them. */
  lemma {:induction false} SumOverStep(names: seq<string>, files: seq<FileEntry>, prefix: Path)
    requires DistinctNames(names) && files != []
    ensures var last := files[|files| - 1];
            var before := SumOver(names, files[..|files| - 1], prefix);
            SumOver(names, files, prefix) == if Covers(names, prefix, last) then Plus(before, Weight(last)) else before
  {
    if names != [] {
      var k := |names| - 1;
      SumOverStep(names[..k], files, prefix);
      CoversStep(names, prefix, files[|files| - 1]);
      hide Covers, InFolder, Weight;
    }
  }

  lemma {:induction false} SumOverNothing(names: seq<string>, prefix: Path)
    ensures SumOver(names, [], prefix) == NONE
  {
    if names != [] {
      SumOverNothing(names[..|names| - 1], prefix);
    }
  }

  /** Conservation: subfolders that are distinct and cover the deeper files add up to them, in every total. */
  lemma {:induction false} Conservation(names: seq<string>, files: seq<FileEntry>, prefix: Path)
    requires DistinctNames(names)
    requires forall i :: 0 <= i < |files| && Depth(prefix, files[i].path) > 1 ==> files[i].path[|prefix|] in names
    ensures SumOver(names, files, prefix) == TotalDeeper(files, prefix)
  {
    if files == [] {
      SumOverNothing(names, prefix);
    } else {
      var last := files[|files| - 1];
      Conservation(names, files[..|files| - 1], prefix);
      SumOverStep(names, files, prefix);
      if Depth(prefix, last.path) > 1 {
        var i :| 0 <= i < |names| && names[i] == last.path[|prefix|];
        assert InFolder(prefix, names[i], last);
      }
    }
  }

  /** Each file strictly below the folder counts once: as an entry of its own or in one subfolder. */
  lemma {:induction false} Partition(files: seq<FileEntry>, prefix: Path)
    ensures |FilesAt(files, prefix)| + TotalDeeper(files, prefix).count == Below(files, prefix)
  {
    if files != [] {
      Partition(files[..|files| - 1], prefix);
    }
  }

  /** How many files lie strictly below the folder. */
  function Below(files: seq<FileEntry>, prefix: Path): int {
    if files == [] then 0
    else Below(files[..|files| - 1], prefix) + if Depth(prefix, files[|files| - 1].path) >= 1 then 1 else 0
  }

  /** Totals stay ordered: what is wanted and done is done, and what is done is there. */
  lemma {:induction false} TotalsOrdered(files: seq<FileEntry>, prefix: Path, name: string)
    requires forall i :: 0 <= i < |files| ==> 0 <= files[i].done <= files[i].size
    ensures var t := TotalIn(files, prefix, name);
            0 <= t.wantedDone <= t.done <= t.size && t.wantedDone <= t.wanted <= t.size && 0 <= t.wantedCount <= t.count
  {
    if files != [] {
      TotalsOrdered(files[..|files| - 1], prefix, name);
    }
  }

  function ProgressOf(done: int, total: int): real {
    if total > 0 then 100.0 * done as real / total as real else 100.0
  }

  function StatusOf(t: Totals, progress: real): FolderStatus {
    FolderStatus(t.size, t.done, t.wanted, t.wantedDone, t.wantedCount, progress)
  }

  /** The folder entry for totals, before and after its progress is set. */
  function Entry(prefix: Path, name: string, t: Totals, withStatus: bool, complete: bool): Folder {
    Folder(name, FolderPath(prefix, name), t.size, t.count,
           if withStatus then Some(StatusOf(t, if complete then ProgressOf(t.done, t.size) else 0.0)) else None)
  }

  function NamesOf(folders: seq<Folder>): (names: seq<string>)
    ensures |names| == |folders|
    ensures forall i :: 0 <= i < |folders| ==> names[i] == folders[i].name
  {
    seq(|folders|, i requires 0 <= i < |folders| => folders[i].name)
  }

  /** The list holds one entry for each subfolder some file is in, with the totals of the files in it. */
  ghost predicate Lists(folders: seq<Folder>, files: seq<FileEntry>, prefix: Path, withStatus: bool, complete: bool) {
    && DistinctNames(NamesOf(folders))
    && (forall i :: 0 <= i < |folders| ==>
          && folders[i].count > 0
          && var name := folders[i].name;
             folders[i] == Entry(prefix, name, TotalIn(files, prefix, name), withStatus, complete))
    && (forall i :: 0 <= i < |files| && Depth(prefix, files[i].path) > 1 ==>
          exists k :: 0 <= k < |folders| && folders[k].name == files[i].path[|prefix|])
  }

  /** No file is in a folder that is not listed. */
  lemma {:induction false} NotListed(files: seq<FileEntry>, prefix: Path, name: string)
    requires forall i :: 0 <= i < |files| ==> !InFolder(prefix, name, files[i])
    ensures TotalIn(files, prefix, name) == NONE
  {
    if files != [] {
      NotListed(files[..|files| - 1], prefix, name);
    }
  }

  lemma TotalInStep(files: seq<FileEntry>, f: FileEntry, prefix: Path, name: string)
    ensures TotalIn(files + [f], prefix, name)
         == if InFolder(prefix, name, f) then Plus(TotalIn(files, prefix, name), Weight(f))
            else TotalIn(files, prefix, name)
  {
    assert (files + [f])[..|files|] == files;
  }

  /** The last folder with a path, searched from the end; None when there is none. */
  method FindFolder(folders: seq<Folder>, path: string) returns (at: Option<nat>)
    ensures at.Some? ==> at.value < |folders| && folders[at.value].path == path
    ensures at.None? ==> forall i :: 0 <= i < |folders| ==> folders[i].path != path
  {
    var i := |folders|;
    while i > 0
      invariant 0 <= i <= |folders|
      invariant forall k :: i <= k < |folders| ==> folders[k].path != path
    {
      i := i - 1;
      if folders[i].path == path {
        return Some(i);
      }
    }
    return None;
  }

  /** Looking folders up by path is looking them up by name. */
  lemma KeyedByName(folders: seq<Folder>, files: seq<FileEntry>, prefix: Path, withStatus: bool, name: string)
    requires Lists(folders, files, prefix, withStatus, false)
    ensures forall i :: 0 <= i < |folders| ==>
              && (folders[i].path == FolderPath(prefix, name) <==> folders[i].name == name)
              && var other := folders[i].name;
                 folders[i] == Entry(prefix, other, TotalIn(files, prefix, other), withStatus, false)
  {
    forall i | 0 <= i < |folders|
      ensures folders[i].path == FolderPath(prefix, name) <==> folders[i].name == name
    {
      FolderPathInjective(prefix, folders[i].name, name);
    }
  }

  /** Adds a file of a subfolder: to the subfolder's entry, or in a new one. */
  method AddToFolder(folders: seq<Folder>, f: FileEntry, ghost files: seq<FileEntry>, prefix: Path, withStatus: bool)
    returns (r: seq<Folder>)
    requires Depth(prefix, f.path) > 1 && Lists(folders, files, prefix, withStatus, false)
    ensures Lists(r, files + [f], prefix, withStatus, false)
  {
    var name := f.path[|prefix|];
    var path := FolderPath(prefix, name);
    var it := FindFolder(folders, path);
    KeyedByName(folders, files, prefix, withStatus, name);
    hide Lists, FolderPath, InFolder, Weight;
    if it.None? {
      var entry := NewEntry(prefix, name, f, withStatus);
      r := folders + [entry];
      NewFolder(folders, f, files, prefix, withStatus);
    } else {
      var entry := AddToEntry(folders[it.value], f, TotalIn(files, prefix, name), prefix, withStatus);
      r := folders[it.value := entry];
      OldFolder(folders, it.value, f, files, prefix, withStatus);
    }
  }

  method NewEntry(prefix: Path, name: string, f: FileEntry, withStatus: bool) returns (entry: Folder)
    ensures entry == Entry(prefix, name, Weight(f), withStatus, false)
  {
    var status := None;
    if withStatus {
      status := Some(if f.wanted then FolderStatus(f.size, f.done, f.size, f.done, 1, 0.0)
                     else FolderStatus(f.size, f.done, 0, 0, 0, 0.0));
    }
    entry := Folder(name, FolderPath(prefix, name), f.size, 1, status);
  }

  method AddToEntry(before: Folder, f: FileEntry, ghost t: Totals, prefix: Path, withStatus: bool)
    returns (entry: Folder)
    requires before == Entry(prefix, before.name, t, withStatus, false)
    ensures entry == Entry(prefix, before.name, Plus(t, Weight(f)), withStatus, false)
  {
    entry := before.(length := before.length + f.size, count := before.count + 1);
    if withStatus {
      var s := before.status.value;
      s := s.(total := s.total + f.size, done := s.done + f.done);
      if f.wanted {
        s := s.(wanted := s.wanted + f.size, wantedDone := s.wantedDone + f.done, wantedCount := s.wantedCount + 1);
      }
      entry := entry.(status := Some(s));
    }
  }

  lemma NewFolder(folders: seq<Folder>, f: FileEntry, files: seq<FileEntry>, prefix: Path, withStatus: bool)
    requires Depth(prefix, f.path) > 1 && Lists(folders, files, prefix, withStatus, false)
    requires forall i :: 0 <= i < |folders| ==> folders[i].name != f.path[|prefix|]
    ensures Lists(folders + [Entry(prefix, f.path[|prefix|], Weight(f), withStatus, false)], files + [f],
                  prefix, withStatus, false)
  {
    var name := f.path[|prefix|];
    var r := folders + [Entry(prefix, name, Weight(f), withStatus, false)];
    NotListed(files, prefix, name);
    hide FolderPath, TotalIn;
    assert DistinctNames(NamesOf(r));
    forall i | 0 <= i < |r|
      ensures r[i].count > 0
      ensures r[i] == Entry(prefix, r[i].name, TotalIn(files + [f], prefix, r[i].name), withStatus, false)
    {
      TotalInStep(files, f, prefix, r[i].name);
    }
    StillListed(folders, r, f, files, prefix, |folders|);
  }

  lemma OldFolder(folders: seq<Folder>, at: nat, f: FileEntry, files: seq<FileEntry>, prefix: Path, withStatus: bool)
    requires Depth(prefix, f.path) > 1 && Lists(folders, files, prefix, withStatus, false)
    requires at < |folders| && folders[at].name == f.path[|prefix|]
    ensures var t := Plus(TotalIn(files, prefix, folders[at].name), Weight(f));
            Lists(folders[at := Entry(prefix, folders[at].name, t, withStatus, false)], files + [f],
                  prefix, withStatus, false)
  {
    var name := folders[at].name;
    var r := folders[at := Entry(prefix, name, Plus(TotalIn(files, prefix, name), Weight(f)), withStatus, false)];
    assert NamesOf(r) == NamesOf(folders);
    forall i | 0 <= i < |r|
      ensures r[i].count > 0
      ensures r[i] == Entry(prefix, r[i].name, TotalIn(files + [f], prefix, r[i].name), withStatus, false)
    {
      TotalInStep(files, f, prefix, r[i].name);
      assert i != at ==> NamesOf(folders)[i] != NamesOf(folders)[at];
    }
    StillListed(folders, r, f, files, prefix, at);
  }

  lemma StillListed(folders: seq<Folder>, r: seq<Folder>, f: FileEntry, files: seq<FileEntry>, prefix: Path, at: nat)
    requires |folders| <= |r| && forall k :: 0 <= k < |folders| ==> r[k].name == folders[k].name
    requires Depth(prefix, f.path) > 1 && at < |r| && r[at].name == f.path[|prefix|]
    requires forall i :: 0 <= i < |files| && Depth(prefix, files[i].path) > 1 ==>
               exists k :: 0 <= k < |folders| && folders[k].name == files[i].path[|prefix|]
    ensures forall i :: 0 <= i < |files + [f]| && Depth(prefix, (files + [f])[i].path) > 1 ==>
              exists k :: 0 <= k < |r| && r[k].name == (files + [f])[i].path[|prefix|]
  {
    forall i | 0 <= i < |files + [f]| && Depth(prefix, (files + [f])[i].path) > 1
      ensures exists k :: 0 <= k < |r| && r[k].name == (files + [f])[i].path[|prefix|]
    {
      if i < |files| {
        var k :| 0 <= k < |folders| && folders[k].name == files[i].path[|prefix|];
        assert r[k].name == files[i].path[|prefix|];
      }
    }
  }

  datatype Response = InvalidFolder | Listing(folders: seq<Folder>, files: seq<FileEntry>)

  /** The endpoint: `given` tells whether a folder was asked for. */
  method TorrentItems(files: seq<FileEntry>, folder: Path, given: bool, withStatus: bool) returns (r: Response)
    ensures var prefix := NormalisedPrefix(folder);
            && (r.InvalidFolder? <==> given && Below(files, prefix) == 0)
            && (r.Listing? ==> r.files == FilesAt(files, prefix) && Lists(r.folders, files, prefix, withStatus, true))
  {
    hide Lists, Depth, TotalIn, Below, NamesOf;
    var prefix := NormalisedPrefix(folder);
    var fileInfoList, folderInfoList := [], [];
    NothingYet(prefix, withStatus);
    for n := 0 to |files|
      invariant fileInfoList == FilesAt(files[..n], prefix)
      invariant Lists(folderInfoList, files[..n], prefix, withStatus, false)
    {
      assert files[..n + 1] == files[..n] + [files[n]] && (files[..n] + [files[n]])[..n] == files[..n];
      var numComponents := Depth(prefix, files[n].path);
      if numComponents == 1 {
        fileInfoList := fileInfoList + [files[n]];
        OtherFile(folderInfoList, files[n], files[..n], prefix, withStatus);
      } else if numComponents > 1 {
        folderInfoList := AddToFolder(folderInfoList, files[n], files[..n], prefix, withStatus);
      } else {
        OtherFile(folderInfoList, files[n], files[..n], prefix, withStatus);
      }
    }
    assert files[..|files|] == files;
    NothingListed(folderInfoList, files, prefix, withStatus);
    if withStatus {
      folderInfoList := SetProgress(folderInfoList, files, prefix);
    } else {
      NoProgress(folderInfoList, files, prefix);
    }
    if given && folderInfoList == [] && fileInfoList == [] {
      return InvalidFolder;
    }
    return Listing(folderInfoList, fileInfoList);
  }

  lemma NothingYet(prefix: Path, withStatus: bool)
    ensures Lists([], [], prefix, withStatus, false)
  {
  }

  /** Without status there is no progress to set. */
  lemma NoProgress(folders: seq<Folder>, files: seq<FileEntry>, prefix: Path)
    requires Lists(folders, files, prefix, false, false)
    ensures Lists(folders, files, prefix, false, true)
  {
  }

  /** A file outside every subfolder leaves the list as it is. */
  lemma OtherFile(folders: seq<Folder>, f: FileEntry, files: seq<FileEntry>, prefix: Path, withStatus: bool)
    requires Lists(folders, files, prefix, withStatus, false) && Depth(prefix, f.path) <= 1
    ensures Lists(folders, files + [f], prefix, withStatus, false)
  {
    forall i | 0 <= i < |folders|
      ensures TotalIn(files + [f], prefix, folders[i].name) == TotalIn(files, prefix, folders[i].name)
    {
      TotalInStep(files, f, prefix, folders[i].name);
    }
  }

  /** Both lists are empty iff no file lies below the folder. */
  lemma NothingListed(folders: seq<Folder>, files: seq<FileEntry>, prefix: Path, withStatus: bool)
    requires Lists(folders, files, prefix, withStatus, false)
    ensures folders == [] && FilesAt(files, prefix) == [] <==> Below(files, prefix) == 0
  {
    Partition(files, prefix);
    DeeperIffSome(files, prefix);
    if folders != [] {
      SomeInFolder(files, prefix, folders[0].name);
    }
  }

  lemma {:induction false} DeeperIffSome(files: seq<FileEntry>, prefix: Path)
    ensures TotalDeeper(files, prefix).count >= 0
    ensures TotalDeeper(files, prefix).count == 0 <==>
              forall i :: 0 <= i < |files| ==> Depth(prefix, files[i].path) <= 1
  {
    if files != [] {
      DeeperIffSome(files[..|files| - 1], prefix);
    }
  }

  lemma {:induction false} SomeInFolder(files: seq<FileEntry>, prefix: Path, name: string)
    requires TotalIn(files, prefix, name).count > 0
    ensures exists i :: 0 <= i < |files| && InFolder(prefix, name, files[i])
  {
    if forall i :: 0 <= i < |files| ==> !InFolder(prefix, name, files[i]) {
      NotListed(files, prefix, name);
    }
  }

  method SetProgress(folders: seq<Folder>, ghost files: seq<FileEntry>, prefix: Path) returns (r: seq<Folder>)
    requires Lists(folders, files, prefix, true, false)
    ensures Lists(r, files, prefix, true, true) && |r| == |folders|
  {
    r := folders;
    for i := 0 to |folders|
      invariant |r| == |folders|
      invariant forall k :: 0 <= k < |folders| ==>
                  r[k] == Entry(prefix, folders[k].name, TotalIn(files, prefix, folders[k].name), true, k < i)
    {
      var fs := r[i].status.value;
      var progress := if fs.total > 0 then 100.0 * fs.done as real / fs.total as real else 100.0;
      r := r[i := r[i].(status := Some(fs.(progress := progress)))];
    }
    assert NamesOf(r) == NamesOf(folders);
    forall i | 0 <= i < |files| && Depth(prefix, files[i].path) > 1
      ensures exists k :: 0 <= k < |r| && r[k].name == files[i].path[|prefix|]
    {
      var k :| 0 <= k < |folders| && folders[k].name == files[i].path[|prefix|];
      assert r[k].name == folders[k].name;
    }
  }

  /** The file counts and lengths shown for the folders, added up. */
  function ShownCount(folders: seq<Folder>): int {
    if folders == [] then 0 else ShownCount(folders[..|folders| - 1]) + folders[|folders| - 1].count
  }

  function ShownLength(folders: seq<Folder>): int {
    if folders == [] then 0 else ShownLength(folders[..|folders| - 1]) + folders[|folders| - 1].length
  }

  lemma SumOverLast(folders: seq<Folder>, files: seq<FileEntry>, prefix: Path)
    requires folders != []
    ensures var last := |folders| - 1;
            SumOver(NamesOf(folders), files, prefix)
            == Plus(SumOver(NamesOf(folders[..last]), files, prefix), TotalIn(files, prefix, folders[last].name))
  {
    hide TotalIn;
    assert NamesOf(folders)[..|folders| - 1] == NamesOf(folders[..|folders| - 1]);
  }

  lemma {:induction false} ShownIsSum(folders: seq<Folder>, files: seq<FileEntry>, prefix: Path)
    requires forall i :: 0 <= i < |folders| ==>
               && folders[i].count == TotalIn(files, prefix, folders[i].name).count
               && folders[i].length == TotalIn(files, prefix, folders[i].name).size
    ensures ShownCount(folders) == SumOver(NamesOf(folders), files, prefix).count
    ensures ShownLength(folders) == SumOver(NamesOf(folders), files, prefix).size
  {
    if folders != [] {
      hide TotalIn;
      var last := |folders| - 1;
      ShownIsSum(folders[..last], files, prefix);
      SumOverLast(folders, files, prefix);
    }
  }

  /**
   * The listing as a whole: folders have distinct paths, and with the files at the level they account
   * for every file strictly below the folder once, and for the sizes and progress of the deeper ones.
   */
  lemma ListingConserves(folders: seq<Folder>, files: seq<FileEntry>, prefix: Path, withStatus: bool)
    requires Lists(folders, files, prefix, withStatus, true)
    ensures forall i, j :: 0 <= i < j < |folders| ==> folders[i].path != folders[j].path
    ensures SumOver(NamesOf(folders), files, prefix) == TotalDeeper(files, prefix)
    ensures |FilesAt(files, prefix)| + ShownCount(folders) == Below(files, prefix)
    ensures ShownLength(folders) == TotalDeeper(files, prefix).size
  {
    forall i, j | 0 <= i < j < |folders|
      ensures folders[i].path != folders[j].path
    {
      FolderPathInjective(prefix, folders[i].name, folders[j].name);
      assert NamesOf(folders)[i] != NamesOf(folders)[j];
    }
    forall i | 0 <= i < |files| && Depth(prefix, files[i].path) > 1
      ensures files[i].path[|prefix|] in NamesOf(folders)
    {
      var k :| 0 <= k < |folders| && folders[k].name == files[i].path[|prefix|];
      assert NamesOf(folders)[k] == folders[k].name;
    }
    Conservation(NamesOf(folders), files, prefix);
    Partition(files, prefix);
    ShownIsSum(folders, files, prefix);
  }

  // ------------------------------------------------------------------------------------------
  // The listing without its recursions.

  /**
   * Where a file is listed: one below the folder is an entry of its own iff one component follows the prefix, else
   * it is in the subfolder that the next component names, and in no other. Any other file is not listed at all.
   */
  lemma FilePlaced(f: FileEntry, prefix: Path, name: string, rest: Path, n: string)
    ensures f.path == prefix + [name] + rest ==>
              && (InFolder(prefix, n, f) <==> rest != [] && n == name)
              && FilesAt([f], prefix) == (if rest == [] then [f] else [])
              && Below([f], prefix) == 1
    ensures !(prefix < f.path) ==> !InFolder(prefix, n, f) && FilesAt([f], prefix) == [] && Below([f], prefix) == 0
  {
    assert [f][..0] == [];
    if f.path == prefix + [name] + rest {
      assert prefix <= f.path && |f.path| - |prefix| == 1 + |rest|;
    }
  }

  lemma OneMoreAt(files: seq<FileEntry>, f: FileEntry, prefix: Path)
    ensures FilesAt(files + [f], prefix) == FilesAt(files, prefix) + FilesAt([f], prefix)
    ensures Below(files + [f], prefix) == Below(files, prefix) + Below([f], prefix)
  {
    assert (files + [f])[..|files|] == files && [f][..0] == [];
  }

  /** Files are listed in the order they have in the torrent. */
  lemma {:induction false} FilesAtAppend(a: seq<FileEntry>, b: seq<FileEntry>, prefix: Path)
    ensures FilesAt(a + b, prefix) == FilesAt(a, prefix) + FilesAt(b, prefix)
    ensures Below(a + b, prefix) == Below(a, prefix) + Below(b, prefix)
  {
    if b == [] {
      assert a + b == a;
    } else {
      var before, last := b[..|b| - 1], b[|b| - 1];
      assert b == before + [last] && a + b == a + before + [last];
      FilesAtAppend(a, before, prefix);
      OneMoreAt(a + before, last, prefix);
      OneMoreAt(before, last, prefix);
      hide FilesAt, Below;
      AppendThree(FilesAt(a, prefix), FilesAt(before, prefix), FilesAt([last], prefix));
    }
  }

  lemma AppendThree(a: seq<FileEntry>, b: seq<FileEntry>, c: seq<FileEntry>)
    ensures a + b + c == a + (b + c)
  {
  }

  lemma {:induction false} JoinedAppend(a: Path, b: Path)
    requires a != [] && b != []
    ensures Joined(a + b) == Joined(a) + "/" + Joined(b)
  {
    if |a| == 1 {
      assert (a + b)[1..] == b;
    } else {
      JoinedAppend(a[1..], b);
      assert (a + b)[1..] == a[1..] + b;
      hide Joined;
      assert Joined(a + b) == a[0] + "/" + (Joined(a[1..]) + "/" + Joined(b));
    }
  }

  /** Components are joined with single slashes; a subfolder's path is that of its components, and a slash. */
  lemma JoinedIs(prefix: Path, more: Path, name: string)
    ensures Joined([]) == "" && Joined([name]) == name
    ensures prefix != [] && more != [] ==> Joined(prefix + more) == Joined(prefix) + "/" + Joined(more)
    ensures FolderPath(prefix, name) == Joined(prefix + [name]) + "/"
  {
    assert Joined([name]) == name;
    if prefix == [] {
      assert prefix + [name] == [name];
    } else {
      JoinedAppend(prefix, [name]);
      if more != [] {
        JoinedAppend(prefix, more);
      }
    }
    hide Joined;
  }

  /** A trailing slash in the folder asked for changes nothing. */
  lemma TrailingSlash(folder: Path)
    ensures folder == [] || folder[|folder| - 1] != "." ==>
              NormalisedPrefix(folder) == folder && NormalisedPrefix(folder + ["."]) == folder
  {
    assert (folder + ["."])[..|folder|] == folder;
  }

  /** A number of each file of a subfolder, and nothing for other files. */
  function Each(files: seq<FileEntry>, prefix: Path, name: string, of: FileEntry -> int): (values: seq<int>)
    ensures |values| == |files|
  {
    seq(|files|, i requires 0 <= i < |files| => if InFolder(prefix, name, files[i]) then of(files[i]) else 0)
  }

  lemma EachLast(files: seq<FileEntry>, prefix: Path, name: string, of: FileEntry -> int)
    requires files != []
    ensures var last := files[|files| - 1];
            Sum(Each(files, prefix, name, of))
            == Sum(Each(files[..|files| - 1], prefix, name, of)) + if InFolder(prefix, name, last) then of(last) else 0
  {
    var last := files[|files| - 1];
    var before := Each(files[..|files| - 1], prefix, name, of);
    var value := if InFolder(prefix, name, last) then of(last) else 0;
    assert Each(files, prefix, name, of) == before + [value];
    SumAppend(before, [value]);
    assert [value][1..] == [] && Sum([value]) == value;
  }

  function One(f: FileEntry): int {
    1
  }

  function Size(f: FileEntry): int {
    f.size
  }

  function Done(f: FileEntry): int {
    f.done
  }

  function WantedOne(f: FileEntry): int {
    if f.wanted then 1 else 0
  }

  function WantedSize(f: FileEntry): int {
    if f.wanted then f.size else 0
  }

  function WantedDone(f: FileEntry): int {
    if f.wanted then f.done else 0
  }

  /** The totals of a subfolder are sums over its files: their number, sizes and progress, of all and of wanted ones. */
  lemma {:induction false} FolderTotals(files: seq<FileEntry>, prefix: Path, name: string)
    ensures var t := TotalIn(files, prefix, name);
            && t.count == Sum(Each(files, prefix, name, One))
            && t.size == Sum(Each(files, prefix, name, Size))
            && t.done == Sum(Each(files, prefix, name, Done))
            && t.wantedCount == Sum(Each(files, prefix, name, WantedOne))
            && t.wanted == Sum(Each(files, prefix, name, WantedSize))
            && t.wantedDone == Sum(Each(files, prefix, name, WantedDone))
  {
    if files != [] {
      FolderTotals(files[..|files| - 1], prefix, name);
      EachLast(files, prefix, name, One);
      EachLast(files, prefix, name, Size);
      EachLast(files, prefix, name, Done);
      EachLast(files, prefix, name, WantedOne);
      EachLast(files, prefix, name, WantedSize);
      EachLast(files, prefix, name, WantedDone);
      hide Each, Sum, InFolder;
    }
  }

  /**
   * What is shown for a subfolder: its path, how many files it holds and their sizes; with status also how much of
   * them is done and wanted, and the exact percentage done, 100 for a folder of empty files.
   */
  lemma FolderShows(folders: seq<Folder>, i: nat, files: seq<FileEntry>, prefix: Path, withStatus: bool)
    requires Lists(folders, files, prefix, withStatus, true) && i < |folders|
    ensures var f := folders[i];
            && f.path == Joined(prefix + [f.name]) + "/"
            && f.count == Sum(Each(files, prefix, f.name, One)) && f.count > 0
            && f.length == Sum(Each(files, prefix, f.name, Size))
            && (f.status.Some? <==> withStatus)
    ensures withStatus ==>
              var name, s := folders[i].name, folders[i].status.value;
              && s.total == Sum(Each(files, prefix, name, Size))
              && s.done == Sum(Each(files, prefix, name, Done))
              && s.wantedCount == Sum(Each(files, prefix, name, WantedOne))
              && s.wanted == Sum(Each(files, prefix, name, WantedSize))
              && s.wantedDone == Sum(Each(files, prefix, name, WantedDone))
              && s.progress == ProgressOf(s.done, s.total)
  {
    var f, t := folders[i], TotalIn(files, prefix, folders[i].name);
    hide *;
    EntryListed(folders, i, files, prefix, withStatus);
    EntryShows(prefix, f.name, t, withStatus);
    FolderTotals(files, prefix, f.name);
    JoinedIs(prefix, [], f.name);
  }

  /** That percentage, exactly. */
  lemma ProgressIs(done: int, total: int)
    ensures total > 0 ==> ProgressOf(done, total) * total as real == 100.0 * done as real
    ensures total <= 0 ==> ProgressOf(done, total) == 100.0
    ensures 0 <= done <= total ==> 0.0 <= ProgressOf(done, total) <= 100.0
  {
    if 0 <= done <= total && 0 < total {
      PercentageInRange(done, total);
    }
  }

  lemma EntryListed(folders: seq<Folder>, i: nat, files: seq<FileEntry>, prefix: Path, withStatus: bool)
    requires Lists(folders, files, prefix, withStatus, true) && i < |folders|
    ensures var name := folders[i].name;
            folders[i].count > 0 && folders[i] == Entry(prefix, name, TotalIn(files, prefix, name), withStatus, true)
  {
  }

  lemma EntryShows(prefix: Path, name: string, t: Totals, withStatus: bool)
    ensures var f := Entry(prefix, name, t, withStatus, true);
            && f.path == FolderPath(prefix, name) && f.count == t.count && f.length == t.size
            && (f.status.Some? <==> withStatus)
    ensures withStatus ==>
              var s := Entry(prefix, name, t, withStatus, true).status.value;
              && s.total == t.size && s.done == t.done
              && s.wantedCount == t.wantedCount && s.wanted == t.wanted && s.wantedDone == t.wantedDone
              && s.progress == ProgressOf(s.done, s.total)
  {
  }
}
