/** One simulated download (`TorrentInfo` in torrent_manager.py): its fields, its creation,
    the per-record statistics step and the placeholder files made on completion. Randomness is
    a `Draw` supplied by the caller; the filesystem's answers are part of it too. */
module Record {
  import opened Results
  import opened Text
  import opened Naming

  const MiB: nat := 1024 * 1024
  const MinSizeMiB: nat := 100
  const MaxSizeMiB: nat := 5000
  const DownloadDir := "/tmp/downloads"
  const Extensions: seq<string> := [".mp4", ".mkv", ".avi", ".txt", ".pdf", ".zip"]
  const MinFiles: nat := 2
  const MaxFiles: nat := 5

  datatype Status = Downloading | Paused | Completed | Error

  /** The status as the text the API filters on. */
  function StatusName(s: Status): string {
    match s
    case Downloading => "downloading"
    case Paused => "paused"
    case Completed => "completed"
    case Error => "error"
  }

  /** One placeholder file: its name, its path and its size on disk in bytes. */
  datatype FileEntry = FileEntry(name: string, path: string, size: nat)

  /** Where a record came from: a magnet link, or the saved path of an uploaded `.torrent`. */
  datatype Origin = MagnetLink(link: string) | TorrentFile(path: string)

  /** A torrent record; speeds are KB/s, sizes bytes, `eta` whole seconds. */
  datatype Torrent = Torrent(
    id: Id,
    name: string,
    origin: Origin,
    status: Status,
    progress: real,
    downloadSpeed: real,
    uploadSpeed: real,
    peers: int,
    seeds: int,
    totalSize: int,
    downloaded: int,
    eta: Option<int>,
    addedAt: int,
    files: seq<FileEntry>)
  {
    /** What every record reachable through the manager satisfies. */
    predicate Valid() {
      && 0.0 <= progress <= 100.0
      && (progress == 100.0 <==> status == Completed)
      && SizeOk(totalSize)
      && downloaded == DownloadedBytes(progress, totalSize)
      && (|files| > 0 ==> status == Completed)
      && 0.0 <= downloadSpeed <= 5000.0 && 0.0 <= uploadSpeed <= 500.0
      && (peers == 0 || 5 <= peers <= 50)
      && (seeds == 0 || 10 <= seeds <= 100)
      && (eta.Some? ==> eta.value >= 0)
    }
  }

  /** A size drawn as `randint(100, 5000) * 1024 * 1024`. */
  predicate SizeOk(size: int) {
    size % MiB == 0 && MinSizeMiB * MiB <= size <= MaxSizeMiB * MiB
  }

  /** `int((progress / 100) * total_size)`; `int` truncates, which is the floor here. */
  function DownloadedBytes(progress: real, totalSize: int): (r: int)
    ensures r as real <= (progress / 100.0) * totalSize as real < r as real + 1.0
  {
    ((progress / 100.0) * totalSize as real).Floor
  }

  /** The downloaded byte count lies between 0 and the total size, and is the total at 100%. */
  lemma DownloadedBounds(progress: real, totalSize: int)
    requires 0.0 <= progress <= 100.0 && totalSize >= 0
    ensures 0 <= DownloadedBytes(progress, totalSize) <= totalSize
    ensures progress == 100.0 ==> DownloadedBytes(progress, totalSize) == totalSize
  {
    var x := (progress / 100.0) * totalSize as real;
    assert 0.0 <= x <= totalSize as real by {
      var f := progress / 100.0;
      assert 0.0 <= f <= 1.0;
      assert f * totalSize as real <= 1.0 * totalSize as real;
    }
  }

  /** More progress never means fewer downloaded bytes. */
  lemma DownloadedMonotone(p1: real, p2: real, totalSize: int)
    requires p1 <= p2 && totalSize >= 0
    ensures DownloadedBytes(p1, totalSize) <= DownloadedBytes(p2, totalSize)
  {
    assert (p1 / 100.0) * totalSize as real <= (p2 / 100.0) * totalSize as real by {
      assert p1 / 100.0 <= p2 / 100.0;
    }
  }

  /** `int((remaining_bytes / 1024) / download_speed)`: seconds left at the current speed. */
  function EtaSeconds(totalSize: int, downloaded: int, speed: real): (s: int)
    requires speed > 0.0
    ensures downloaded <= totalSize ==> s >= 0
  {
    (((totalSize - downloaded) as real / 1024.0) / speed).Floor
  }

  /** The record's download directory, `DOWNLOAD_DIR / name`. */
  function DownloadPath(name: string): string {
    DownloadDir + "/" + name
  }

  /** A fresh record (`TorrentInfo.__init__`) of `sizeMiB` MiB. */
  function NewTorrent(id: Id, name: string, origin: Origin, sizeMiB: int, addedAt: int): (t: Torrent)
    requires MinSizeMiB <= sizeMiB <= MaxSizeMiB
    ensures t.Valid()
    ensures t.id == id && t.name == name && t.origin == origin && t.addedAt == addedAt
    ensures t.status == Downloading && t.progress == 0.0 && t.files == []
    ensures t.totalSize == sizeMiB * MiB
    ensures t.downloadSpeed == 0.0 && t.uploadSpeed == 0.0 && t.peers == 0 && t.seeds == 0
    ensures t.downloaded == 0 && t.eta == None
  {
    Torrent(id, name, origin, Downloading, 0.0, 0.0, 0.0, 0, 0, sizeMiB * MiB, 0, None, addedAt, [])
  }

  /** The random choices and filesystem answers of one `_create_dummy_files` call: the extension
      index of each planned file (`randint(2, 5)` of them), how many were written before any
      write failed, and the on-disk size of each file written. */
  datatype Materialize = Materialize(picks: seq<nat>, written: nat, sizes: seq<nat>) {
    predicate Valid() {
      && MinFiles <= |picks| <= MaxFiles
      && (forall i :: 0 <= i < |picks| ==> picks[i] < |Extensions|)
      && written <= |picks|
      && |sizes| == written
    }
  }

  /** The random values one statistics step draws. */
  datatype Draw = Draw(
    increment: real,
    downloadSpeed: real,
    uploadSpeed: real,
    peers: int,
    seeds: int,
    files: Materialize)
  {
    predicate Valid() {
      && 0.5 <= increment <= 3.0
      && 500.0 <= downloadSpeed <= 5000.0
      && 50.0 <= uploadSpeed <= 500.0
      && 5 <= peers <= 50
      && 10 <= seeds <= 100
      && files.Valid()
    }
  }

  /** The name of placeholder file number `index` (1-based): `<name>_part<index><ext>`. */
  function PartName(name: string, index: nat, ext: string): (r: string)
    requires 1 <= index <= MaxFiles
    ensures StartsWith(r, name + "_part")
    ensures |r| == |name| + 6 + |ext|
    ensures r[|name| + 5] == Digit(index)
    ensures EndsWith(r, ext)
  {
    var r := name + "_part" + [Digit(index)] + ext;
    assert r[..|name + "_part"|] == name + "_part";
    assert r[|r| - |ext|..] == ext;
    r
  }

  /** No two entries share a name. */
  predicate DistinctNames(fs: seq<FileEntry>) {
    forall i, j :: 0 <= i < j < |fs| ==> fs[i].name != fs[j].name
  }

  /** The entries `_create_dummy_files` appends: one per file written, in order. */
  function DummyFiles(name: string, m: Materialize): (fs: seq<FileEntry>)
    requires m.Valid()
    ensures |fs| == m.written <= MaxFiles
    ensures forall i :: 0 <= i < |fs| ==>
      && StartsWith(fs[i].name, name + "_part")
      && |fs[i].name| == |name| + 6 + |Extensions[m.picks[i]]|
      && fs[i].name[|name| + 5] == Digit(i + 1)
      && EndsWith(fs[i].name, Extensions[m.picks[i]])
      && fs[i].path == DownloadPath(name) + "/" + fs[i].name
      && fs[i].size == m.sizes[i]
    ensures DistinctNames(fs)
  {
    var fs := seq(m.written, i requires 0 <= i < m.written =>
      var fname := PartName(name, i + 1, Extensions[m.picks[i]]);
      FileEntry(fname, DownloadPath(name) + "/" + fname, m.sizes[i]));
    forall i, j | 0 <= i < j < |fs| ensures fs[i].name != fs[j].name {
      assert fs[i].name[|name| + 5] != fs[j].name[|name| + 5];
    }
    fs
  }

  /** One `update_stats` call. Downloading: progress rises by the increment, clamped to 100;
      speeds, peers and seeds are redrawn; bytes and eta are recomputed; reaching 100 completes
      the record and makes its files. Paused: speeds drop to 0 and eta is cleared. Completed and
      error records do not change. */
  function UpdateStats(t: Torrent, d: Draw): (r: Torrent)
    requires t.Valid() && d.Valid()
    ensures r.Valid()
    ensures r.id == t.id && r.name == t.name && r.origin == t.origin
    ensures r.totalSize == t.totalSize && r.addedAt == t.addedAt
    ensures t.progress <= r.progress && t.downloaded <= r.downloaded
    ensures t.status in {Completed, Error} ==> r == t
    ensures t.status == Paused ==>
      && r.status == Paused && r.progress == t.progress && r.downloaded == t.downloaded
      && r.peers == t.peers && r.seeds == t.seeds && r.files == t.files
      && r.downloadSpeed == 0.0 && r.uploadSpeed == 0.0 && r.eta == None
    ensures t.status == Downloading ==>
      && r.peers == d.peers && r.seeds == d.seeds && r.uploadSpeed == d.uploadSpeed
      && r.progress <= t.progress + d.increment
      && (r.status == Completed <==> t.progress + d.increment >= 100.0)
    ensures t.status == Downloading && r.status != Completed ==>
      && r.status == Downloading && r.progress == t.progress + d.increment
      && r.downloadSpeed == d.downloadSpeed && r.files == []
      && r.eta == Some(EtaSeconds(r.totalSize, r.downloaded, d.downloadSpeed))
    ensures t.status == Downloading && r.status == Completed ==>
      && r.progress == 100.0 && r.downloaded == r.totalSize
      && r.downloadSpeed == 0.0 && r.eta == Some(0)
      && r.files == DummyFiles(t.name, d.files)
  {
    match t.status
    case Downloading =>
      var progress := if t.progress + d.increment < 100.0 then t.progress + d.increment else 100.0;
      var downloaded := DownloadedBytes(progress, t.totalSize);
      DownloadedBounds(progress, t.totalSize);
      DownloadedMonotone(t.progress, progress, t.totalSize);
      var eta := if d.downloadSpeed > 0.0 then Some(EtaSeconds(t.totalSize, downloaded, d.downloadSpeed)) else t.eta;
      if progress >= 100.0 then
        t.(status := Completed, progress := 100.0, downloadSpeed := 0.0, uploadSpeed := d.uploadSpeed,
           peers := d.peers, seeds := d.seeds, downloaded := downloaded, eta := Some(0),
           files := t.files + DummyFiles(t.name, d.files))
      else
        t.(progress := progress, downloadSpeed := d.downloadSpeed, uploadSpeed := d.uploadSpeed,
           peers := d.peers, seeds := d.seeds, downloaded := downloaded, eta := eta)
    case Paused =>
      t.(downloadSpeed := 0.0, uploadSpeed := 0.0, eta := None)
    case Completed => t
    case Error => t
  }

  /** Successive statistics steps, one per draw. */
  function Run(t: Torrent, ds: seq<Draw>): (r: Torrent)
    requires t.Valid()
    requires forall i :: 0 <= i < |ds| ==> ds[i].Valid()
    ensures r.Valid()
    ensures t.progress <= r.progress
    decreases |ds|
  {
    if |ds| == 0 then t else Run(UpdateStats(t, ds[0]), ds[1..])
  }

  /** A completed record is untouched by any number of later steps: completion happens once. */
  lemma {:induction false} CompletedStaysPut(t: Torrent, ds: seq<Draw>)
    requires t.Valid() && t.status == Completed
    requires forall i :: 0 <= i < |ds| ==> ds[i].Valid()
    ensures Run(t, ds) == t
    decreases |ds|
  {
    if |ds| > 0 {
      CompletedStaysPut(UpdateStats(t, ds[0]), ds[1..]);
    }
  }

  /** While nothing pauses it, a downloading record gains at least half a percent per step, so
      `n` steps leave it completed or at least `n / 2` percent further along. */
  lemma {:induction false} RunAdvances(t: Torrent, ds: seq<Draw>)
    requires t.Valid() && t.status == Downloading
    requires forall i :: 0 <= i < |ds| ==> ds[i].Valid()
    ensures Run(t, ds).status == Completed
      || (Run(t, ds).status == Downloading && Run(t, ds).progress >= t.progress + 0.5 * |ds| as real)
    decreases |ds|
  {
    if |ds| > 0 {
      var next := UpdateStats(t, ds[0]);
      if next.status == Completed {
        CompletedStaysPut(next, ds[1..]);
      } else {
        RunAdvances(next, ds[1..]);
      }
    }
  }

  /** 200 uninterrupted steps always complete a download. */
  lemma CompletesWithin200Steps(t: Torrent, ds: seq<Draw>)
    requires t.Valid() && t.status == Downloading
    requires forall i :: 0 <= i < |ds| ==> ds[i].Valid()
    requires |ds| >= 200
    ensures Run(t, ds).status == Completed
  {
    RunAdvances(t, ds);
  }
}
