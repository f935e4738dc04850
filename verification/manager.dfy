/** The in-memory registry of torrent records and its operations (`TorrentManager` in
    torrent_manager.py). Every operation is a pure function from the registry before the call
    to the registry after it, paired with the operation's success value or failure. */
module Manager {
  import opened Results
  import opened Text
  import opened Naming
  import opened Record

  /** No element occurs twice. */
  predicate Distinct(s: seq<string>) {
    forall i, j :: 0 <= i < j < |s| ==> s[i] != s[j]
  }

  /** In a list without repeats, the first element does not recur; the rest has no repeats. */
  lemma HeadNotInTail(s: seq<string>)
    requires Distinct(s) && |s| > 0
    ensures s[0] !in s[1..] && Distinct(s[1..])
  {
    forall j | 0 <= j < |s| - 1 ensures s[1..][j] != s[0] {
      assert s[1..][j] == s[j + 1];
    }
  }

  /** The registry: Python's `Dict[str, TorrentInfo]`, whose insertion order is `order`. */
  datatype Registry = Registry(order: seq<string>, table: map<string, Torrent>) {
    /** Each key is listed once, in insertion order, and maps to a valid record with that id. */
    predicate Valid() {
      && Distinct(order)
      && (forall k :: k in table ==> k in order)
      && (forall i :: 0 <= i < |order| ==> order[i] in table)
      && (forall k :: k in table ==> table[k].id == k && table[k].Valid())
    }
  }

  /** What the environment supplies to an add: the md5-prefix id of a text, the current time
      rendered `%Y%m%d_%H%M%S`, the creation time, and the size drawn by `randint(100, 5000)`. */
  datatype Env = Env(digest: string -> Id, stamp: string, addedAt: int, sizeMiB: int) {
    predicate Valid() {
      MinSizeMiB <= sizeMiB <= MaxSizeMiB
    }
  }

  /** The filesystem's answer to a write or a removal. */
  datatype IoResult = IoOk | IoFailed(reason: string)

  /** Whether a path exists on disk and, if it does, how removing it goes. */
  datatype OnDisk = Absent | Present(removal: IoResult)

  datatype Failure =
    | InvalidMagnet
    | InvalidFileType
    | AlreadyExists
    | SaveFailed(reason: string)
    | NotFound
    | CannotPauseCompleted
    | NotPaused
    | DeleteFilesFailed(reason: string)
    | FileNotFound
    | DeleteFileFailed(reason: string)

  datatype Done =
    | AddedTorrent(id: Id, name: string)
    | PausedTorrent(name: string)
    | ResumedTorrent(name: string)
    | DeletedTorrent(name: string)
    | DeletedFile(filename: string)

  /** The registry after an operation, and what the operation reports. */
  datatype Step = Step(registry: Registry, result: Result<Done, Failure>)

  /** The marks a refusal's message starts with: an error, or a warning for a request that is
      merely redundant or out of turn. */
  const ErrorMark := "❌ "
  const WarningMark := "⚠️ "

  predicate IsWarning(f: Failure) {
    f == AlreadyExists || f == CannotPauseCompleted || f == NotPaused
  }

  /** What a success message names: the record's display name, or the deleted file's name. */
  function Subject(d: Done): string {
    match d
    case AddedTorrent(_, name) => name
    case PausedTorrent(name) => name
    case ResumedTorrent(name) => name
    case DeletedTorrent(name) => name
    case DeletedFile(filename) => filename
  }

  /** The message text each outcome reports. The leading mark tells the outcome: a success
      message carries neither refusal mark and ends with what it acted on; a refusal starts with
      the warning or the error mark; a refusal caused by the file system ends with its reason. */
  function Message(r: Result<Done, Failure>): (m: string)
    ensures r.Success? ==> !StartsWith(m, ErrorMark) && !StartsWith(m, WarningMark)
    ensures r.Success? ==> EndsWith(m, Subject(r.value))
    ensures r.Failure? ==> StartsWith(m, if IsWarning(r.error) then WarningMark else ErrorMark)
    ensures r.Failure? && (r.error.SaveFailed? || r.error.DeleteFilesFailed? || r.error.DeleteFileFailed?) ==>
      EndsWith(m, r.error.reason)
  {
    match r
    case Success(d) =>
      var lead := SuccessLead(d);
      assert (lead + Subject(d))[0] == lead[0];
      lead + Subject(d)
    case Failure(f) =>
      var mark := if IsWarning(f) then WarningMark else ErrorMark;
      assert (mark + RefusalText(f))[..|mark|] == mark;
      mark + RefusalText(f)
  }

  /** The text of a success message ahead of its subject. */
  function SuccessLead(d: Done): (lead: string)
    ensures |lead| > 0 && lead[0] != ErrorMark[0] && lead[0] != WarningMark[0]
  {
    match d
    case AddedTorrent(_, _) => "✅ Added torrent: "
    case PausedTorrent(_) => "⏸️ Paused: "
    case ResumedTorrent(_) => "▶️ Resumed: "
    case DeletedTorrent(_) => "\U{1F5D1}️ Deleted: "
    case DeletedFile(_) => "\U{1F5D1}️ Deleted file: "
  }

  /** The text of a refusal message after its mark. */
  function RefusalText(f: Failure): (text: string)
    ensures f.SaveFailed? || f.DeleteFilesFailed? || f.DeleteFileFailed? ==> EndsWith(text, f.reason)
  {
    match f
    case InvalidMagnet => "Invalid magnet link format"
    case InvalidFileType => "Invalid file type. Please upload a .torrent file"
    case AlreadyExists => "Torrent already exists"
    case SaveFailed(e) => "Error saving torrent file: " + e
    case NotFound => "Torrent not found"
    case CannotPauseCompleted => "Cannot pause completed torrent"
    case NotPaused => "Torrent is not paused"
    case DeleteFilesFailed(e) => "Error deleting files: " + e
    case FileNotFound => "File not found"
    case DeleteFileFailed(e) => "Error deleting file: " + e
  }

  /** `after` is `before` with exactly one new key `id` appended; every other entry is kept. */
  ghost predicate InsertedOnly(before: Registry, after: Registry, id: string) {
    && id !in before.table
    && after.order == before.order + [id]
    && after.table.Keys == before.table.Keys + {id}
    && |after.table| == |before.table| + 1
    && (forall k :: k in before.table ==> after.table[k] == before.table[k])
  }

  /** `after` differs from `before` at most in the record stored under `id`. */
  ghost predicate OthersUnchanged(before: Registry, after: Registry, id: string) {
    && after.order == before.order
    && after.table.Keys == before.table.Keys
    && (forall k :: k in before.table && k != id ==> after.table[k] == before.table[k])
  }

  /** Adding a new key grows a map by one. */
  lemma MapInsertCard<K, V>(m: map<K, V>, k: K, v: V)
    requires k !in m
    ensures |m[k := v]| == |m| + 1
  {
    assert m[k := v].Keys == m.Keys + {k};
  }

  /** Removing a present key shrinks a map by one. */
  lemma MapRemoveCard<K, V>(m: map<K, V>, k: K)
    requires k in m
    ensures |m - {k}| == |m| - 1
  {
    assert (m - {k}).Keys == m.Keys - {k};
  }

  /** A new manager holds no records (`TorrentManager.__init__`). */
  function NewManager(): (reg: Registry)
    ensures reg.Valid() && |reg.table| == 0 && |reg.order| == 0
  {
    Registry([], map[])
  }

  /** Appending a valid record under a new key keeps the registry valid. */
  lemma InsertKeepsValid(reg: Registry, t: Torrent)
    requires reg.Valid() && t.Valid() && t.id !in reg.table
    ensures Registry(reg.order + [t.id], reg.table[t.id := t]).Valid()
  {
    var r := Registry(reg.order + [t.id], reg.table[t.id := t]);
    assert Distinct(r.order) by {
      forall i, j | 0 <= i < j < |r.order| ensures r.order[i] != r.order[j] {
        assert r.order[i] == reg.order[i] && reg.order[i] in reg.table;
        if j < |reg.order| {
          assert r.order[j] == reg.order[j];
        }
      }
    }
    forall i | 0 <= i < |r.order| ensures r.order[i] in r.table {
      if i < |reg.order| {
        assert r.order[i] == reg.order[i];
      }
    }
    forall k | k in r.table ensures r.table[k].id == k && r.table[k].Valid() {
      if k != t.id {
        assert r.table[k] == reg.table[k];
      }
    }
  }

  /** Replacing the record under an existing key by a valid record with the same id keeps the
      registry valid. */
  lemma ReplaceKeepsValid(reg: Registry, t: Torrent)
    requires reg.Valid() && t.Valid() && t.id in reg.table
    ensures reg.(table := reg.table[t.id := t]).Valid()
  {
    var r := reg.(table := reg.table[t.id := t]);
    forall k | k in r.table ensures r.table[k].id == k && r.table[k].Valid() {
      if k != t.id {
        assert r.table[k] == reg.table[k];
      }
    }
  }

  /** Removing a key from both the order and the map keeps the registry valid. */
  lemma RemoveKeepsValid(reg: Registry, id: string)
    requires reg.Valid()
    ensures Registry(Without(reg.order, id), reg.table - {id}).Valid()
  {
    var r := Registry(Without(reg.order, id), reg.table - {id});
    forall i | 0 <= i < |r.order| ensures r.order[i] in r.table {
      assert r.order[i] in reg.order;
    }
    forall k | k in r.table ensures k in r.order && r.table[k].id == k && r.table[k].Valid() {
      assert r.table[k] == reg.table[k];
    }
  }

  /** Appends a new record under its own id. */
  function Insert(reg: Registry, t: Torrent): (r: Registry)
    requires reg.Valid() && t.Valid() && t.id !in reg.table
    ensures r.Valid() && InsertedOnly(reg, r, t.id) && r.table[t.id] == t
  {
    InsertKeepsValid(reg, t);
    MapInsertCard(reg.table, t.id, t);
    Registry(reg.order + [t.id], reg.table[t.id := t])
  }

  /** `add_magnet`: reject a link without the `magnet:?` prefix, then an id already present;
      otherwise add a downloading record named after the link. */
  function AddMagnet(reg: Registry, link: string, env: Env): (s: Step)
    requires reg.Valid() && env.Valid()
    ensures s.registry.Valid()
    ensures s.result.Success? <==> IsMagnet(link) && env.digest(link) !in reg.table
    ensures !IsMagnet(link) ==> s == Step(reg, Failure(InvalidMagnet))
    ensures IsMagnet(link) && env.digest(link) in reg.table ==> s == Step(reg, Failure(AlreadyExists))
    ensures s.result.Success? ==>
      var id := env.digest(link);
      var name := DisplayName(link, env.stamp);
      && s.result.value == AddedTorrent(id, name)
      && InsertedOnly(reg, s.registry, id)
      && s.registry.table[id] == NewTorrent(id, name, MagnetLink(link), env.sizeMiB, env.addedAt)
  {
    if !IsMagnet(link) then Step(reg, Failure(InvalidMagnet))
    else
      var name := DisplayName(link, env.stamp);
      var id := env.digest(link);
      if id in reg.table then Step(reg, Failure(AlreadyExists))
      else
        var t := NewTorrent(id, name, MagnetLink(link), env.sizeMiB, env.addedAt);
        Step(Insert(reg, t), Success(AddedTorrent(id, name)))
  }

  /** Where an uploaded descriptor is saved: `DOWNLOAD_DIR / filename`. */
  function SavedPath(filename: string): string {
    DownloadDir + "/" + filename
  }

  /** `add_torrent_file`: reject a name not ending in `.torrent`, then an id already present,
      then a failed save; otherwise add a downloading record named after the file's stem. */
  function AddTorrentFile(reg: Registry, filename: string, env: Env, save: IoResult): (s: Step)
    requires reg.Valid() && env.Valid()
    ensures s.registry.Valid()
    ensures s.result.Success? <==>
      IsTorrentFileName(filename) && env.digest(filename) !in reg.table && save == IoOk
    ensures !s.result.Success? ==> s.registry == reg
    ensures !IsTorrentFileName(filename) ==> s.result == Failure(InvalidFileType)
    ensures IsTorrentFileName(filename) && env.digest(filename) in reg.table ==>
      s.result == Failure(AlreadyExists)
    ensures IsTorrentFileName(filename) && env.digest(filename) !in reg.table && save.IoFailed? ==>
      s.result == Failure(SaveFailed(save.reason))
    ensures s.result.Success? ==>
      var id := env.digest(filename);
      && s.result.value == AddedTorrent(id, FileStem(filename))
      && InsertedOnly(reg, s.registry, id)
      && s.registry.table[id]
         == NewTorrent(id, FileStem(filename), TorrentFile(SavedPath(filename)), env.sizeMiB, env.addedAt)
  {
    if !IsTorrentFileName(filename) then Step(reg, Failure(InvalidFileType))
    else
      var name := FileStem(filename);
      var id := env.digest(filename);
      if id in reg.table then Step(reg, Failure(AlreadyExists))
      else match save
        case IoFailed(e) => Step(reg, Failure(SaveFailed(e)))
        case IoOk =>
          var t := NewTorrent(id, name, TorrentFile(SavedPath(filename)), env.sizeMiB, env.addedAt);
          Step(Insert(reg, t), Success(AddedTorrent(id, name)))
  }

  /** `pause_torrent`: unknown ids and completed records are refused; any other record becomes
      paused. */
  function Pause(reg: Registry, id: string): (s: Step)
    requires reg.Valid()
    ensures s.registry.Valid()
    ensures id !in reg.table ==> s == Step(reg, Failure(NotFound))
    ensures id in reg.table && reg.table[id].status == Completed ==>
      s == Step(reg, Failure(CannotPauseCompleted))
    ensures id in reg.table && reg.table[id].status != Completed ==>
      && s.result == Success(PausedTorrent(reg.table[id].name))
      && OthersUnchanged(reg, s.registry, id)
      && s.registry.table[id] == reg.table[id].(status := Paused)
  {
    if id !in reg.table then Step(reg, Failure(NotFound))
    else
      var t := reg.table[id];
      if t.status == Completed then Step(reg, Failure(CannotPauseCompleted))
      else
        ReplaceKeepsValid(reg, t.(status := Paused));
        Step(reg.(table := reg.table[id := t.(status := Paused)]), Success(PausedTorrent(t.name)))
  }

  /** `resume_torrent`: only a paused record resumes, becoming downloading; anything else is
      refused and nothing changes. */
  function Resume(reg: Registry, id: string): (s: Step)
    requires reg.Valid()
    ensures s.registry.Valid()
    ensures s.result.Success? <==> id in reg.table && reg.table[id].status == Paused
    ensures id !in reg.table ==> s == Step(reg, Failure(NotFound))
    ensures id in reg.table && reg.table[id].status != Paused ==> s == Step(reg, Failure(NotPaused))
    ensures s.result.Success? ==>
      && s.result.value == ResumedTorrent(reg.table[id].name)
      && OthersUnchanged(reg, s.registry, id)
      && s.registry.table[id] == reg.table[id].(status := Downloading)
  {
    if id !in reg.table then Step(reg, Failure(NotFound))
    else
      var t := reg.table[id];
      if t.status != Paused then Step(reg, Failure(NotPaused))
      else
        ReplaceKeepsValid(reg, t.(status := Downloading));
        Step(reg.(table := reg.table[id := t.(status := Downloading)]), Success(ResumedTorrent(t.name)))
  }

  /** `s` without `x`, keeping the order of the rest. */
  function Without(s: seq<string>, x: string): (r: seq<string>)
    ensures x !in r
    ensures forall y :: y in r <==> y in s && y != x
    ensures x !in s ==> r == s
    ensures Distinct(s) ==> Distinct(r)
  {
    if |s| == 0 then []
    else
      var rest := Without(s[1..], x);
      assert Distinct(s) ==> s[0] !in rest by {
        if Distinct(s) {
          HeadNotInTail(s);
        }
      }
      if s[0] == x then rest else [s[0]] + rest
  }

  /** In a list without repeats, removing the element at position `i` closes the gap: the
      elements before and after it keep their order. */
  lemma {:induction false} WithoutAt(s: seq<string>, x: string, i: nat)
    requires Distinct(s) && i < |s| && s[i] == x
    ensures Without(s, x) == s[..i] + s[i + 1..]
  {
    HeadNotInTail(s);
    if i == 0 {
      WithoutHead(s, x);
      assert s[..0] + s[1..] == s[1..];
    } else {
      assert s[0] != s[i];
      WithoutAt(s[1..], x, i - 1);
      WithoutHead(s, x);
      ConsSlices(s, i);
    }
  }

  /** One step of `Without` at the head of the list. */
  lemma WithoutHead(s: seq<string>, x: string)
    requires |s| > 0
    ensures Without(s, x) == if s[0] == x then Without(s[1..], x) else [s[0]] + Without(s[1..], x)
  {
  }

  /** The slices of `s[1..]` around `i - 1`, behind `s[0]`, are the slices of `s` around `i`. */
  lemma ConsSlices(s: seq<string>, i: nat)
    requires 0 < i < |s|
    ensures [s[0]] + (s[1..][..i - 1] + s[1..][i..]) == s[..i] + s[i + 1..]
  {
    assert s[1..][..i - 1] + s[1..][i..] == s[1..i] + s[i + 1..];
  }

  /** `delete_torrent`: unknown ids are refused; when files are to be deleted and the download
      directory exists, a failed removal keeps the record; otherwise only `id` is removed. */
  function Delete(reg: Registry, id: string, deleteFiles: bool, dir: OnDisk): (s: Step)
    requires reg.Valid()
    ensures s.registry.Valid()
    ensures s.result.Success? <==>
      id in reg.table && !(deleteFiles && dir.Present? && dir.removal.IoFailed?)
    ensures id !in reg.table ==> s == Step(reg, Failure(NotFound))
    ensures id in reg.table && deleteFiles && dir.Present? && dir.removal.IoFailed? ==>
      s == Step(reg, Failure(DeleteFilesFailed(dir.removal.reason)))
    ensures s.result.Success? ==>
      && s.result.value == DeletedTorrent(reg.table[id].name)
      && s.registry.table.Keys == reg.table.Keys - {id}
      && |s.registry.table| == |reg.table| - 1
      && (forall k :: k in s.registry.table ==> s.registry.table[k] == reg.table[k])
      && s.registry.order == Without(reg.order, id)
      && exists i :: 0 <= i < |reg.order| && reg.order[i] == id && s.registry.order == reg.order[..i] + reg.order[i + 1..]
  {
    if id !in reg.table then Step(reg, Failure(NotFound))
    else
      var t := reg.table[id];
      if deleteFiles && dir.Present? && dir.removal.IoFailed? then
        Step(reg, Failure(DeleteFilesFailed(dir.removal.reason)))
      else
        MapRemoveCard(reg.table, id);
        RemoveKeepsValid(reg, id);
        var i :| 0 <= i < |reg.order| && reg.order[i] == id;
        WithoutAt(reg.order, id, i);
        Step(Registry(Without(reg.order, id), reg.table - {id}), Success(DeletedTorrent(t.name)))
  }

  /** `get_torrent`: the record stored under `id`, if any. */
  function GetTorrent(reg: Registry, id: string): (r: Option<Torrent>)
    requires reg.Valid()
    ensures r.Some? <==> id in reg.table
    ensures r.Some? ==> r.value.id == id && r.value.Valid()
  {
    if id in reg.table then Some(reg.table[id]) else None
  }

  /** A list without repeats has as many elements as the set of its elements. */
  lemma {:induction false} DistinctCardinality(s: seq<string>)
    requires Distinct(s)
    ensures |set x | x in s| == |s|
  {
    if |s| > 0 {
      DistinctCardinality(s[1..]);
      assert (set x | x in s) == {s[0]} + (set x | x in s[1..]);
      HeadNotInTail(s);
    }
  }

  /** A valid registry lists as many keys as its map holds. */
  lemma KeysCardinality(reg: Registry)
    requires reg.Valid()
    ensures |reg.order| == |reg.table|
  {
    assert reg.table.Keys == set x | x in reg.order;
    DistinctCardinality(reg.order);
  }

  /** Listing the records of the keys in order lists exactly the map's values. */
  lemma ListsValues(reg: Registry, ts: seq<Torrent>)
    requires reg.Valid() && |ts| == |reg.order|
    requires forall i :: 0 <= i < |ts| ==> ts[i] == reg.table[reg.order[i]]
    ensures forall t :: t in ts <==> t in reg.table.Values
  {
    forall t | t in reg.table.Values ensures t in ts {
      var k :| k in reg.table && reg.table[k] == t;
      var i :| 0 <= i < |reg.order| && reg.order[i] == k;
      assert ts[i] == t;
    }
  }

  /** `get_all_torrents`: every record once, in insertion order. */
  function GetAll(reg: Registry): (ts: seq<Torrent>)
    requires reg.Valid()
    ensures |ts| == |reg.order| == |reg.table|
    ensures forall i :: 0 <= i < |ts| ==> ts[i] == reg.table[reg.order[i]]
    ensures forall t :: t in ts <==> t in reg.table.Values
  {
    KeysCardinality(reg);
    var ts := seq(|reg.order|, i requires 0 <= i < |reg.order| => reg.table[reg.order[i]]);
    ListsValues(reg, ts);
    ts
  }

  /** `get_torrent_files`: the record's files, or none for an unknown id. Only a completed
      record has files. */
  function GetFiles(reg: Registry, id: string): (fs: seq<FileEntry>)
    requires reg.Valid()
    ensures id !in reg.table ==> fs == []
    ensures id in reg.table ==> fs == reg.table[id].files
    ensures |fs| > 0 ==> id in reg.table && reg.table[id].status == Completed
  {
    match GetTorrent(reg, id)
    case None => []
    case Some(t) => t.files
  }

  /** `j` is the first index of a file called `filename`. */
  predicate FirstNamed(files: seq<FileEntry>, filename: string, j: int) {
    && 0 <= j < |files|
    && files[j].name == filename
    && (forall k :: 0 <= k < j ==> files[k].name != filename)
  }

  /** No file is called `filename`. */
  predicate NoneNamed(files: seq<FileEntry>, filename: string) {
    forall k :: 0 <= k < |files| ==> files[k].name != filename
  }

  /** A list has at most one first entry of a given name. */
  lemma FirstNamedUnique(files: seq<FileEntry>, filename: string, j: nat)
    requires FirstNamed(files, filename, j)
    ensures forall j' :: FirstNamed(files, filename, j') ==> j' == j
  {
  }

  /** The first index of a file called `filename`, if there is one. */
  function FindFile(files: seq<FileEntry>, filename: string): (r: Option<nat>)
    ensures r.Some? ==> FirstNamed(files, filename, r.value)
    ensures r.None? <==> NoneNamed(files, filename)
  {
    if |files| == 0 then None
    else if files[0].name == filename then Some(0)
    else match FindFile(files[1..], filename)
      case None => None
      case Some(j) => Some(j + 1)
  }

  /** `delete_file`: refuse an unknown id or a name no file has; a failed removal of an
      existing file changes nothing; otherwise the first file with that name leaves the list. */
  function DeleteFile(reg: Registry, id: string, filename: string, file: OnDisk): (s: Step)
    requires reg.Valid()
    ensures s.registry.Valid()
    ensures !s.result.Success? ==> s.registry == reg
    ensures id !in reg.table ==> s.result == Failure(NotFound)
    ensures id in reg.table && NoneNamed(reg.table[id].files, filename) ==>
      s.result == Failure(FileNotFound)
    ensures id in reg.table && !NoneNamed(reg.table[id].files, filename) ==>
      file.Present? && file.removal.IoFailed? ==>
      s.result == Failure(DeleteFileFailed(file.removal.reason))
    ensures s.result.Success? <==>
      id in reg.table && !NoneNamed(reg.table[id].files, filename) &&
      !(file.Present? && file.removal.IoFailed?)
    ensures s.result.Success? ==>
      && s.result.value == DeletedFile(filename)
      && OthersUnchanged(reg, s.registry, id)
      && var before := reg.table[id].files;
      && (forall j :: FirstNamed(before, filename, j) ==>
          s.registry.table[id] == reg.table[id].(files := before[..j] + before[j + 1..]))
      && exists j :: FirstNamed(before, filename, j)
  {
    if id !in reg.table then Step(reg, Failure(NotFound))
    else
      var t := reg.table[id];
      match FindFile(t.files, filename)
      case None => Step(reg, Failure(FileNotFound))
      case Some(j) =>
        if file.Present? && file.removal.IoFailed? then
          Step(reg, Failure(DeleteFileFailed(file.removal.reason)))
        else
          var t' := t.(files := t.files[..j] + t.files[j + 1..]);
          RemoveFirstNamed(reg, id, filename, j);
          Step(reg.(table := reg.table[id := t']), Success(DeletedFile(filename)))
  }

  /** Dropping the first entry called `filename` from a record keeps the registry valid and
      changes nothing else. */
  lemma RemoveFirstNamed(reg: Registry, id: string, filename: string, j: nat)
    requires reg.Valid() && id in reg.table && FirstNamed(reg.table[id].files, filename, j)
    ensures var before := reg.table[id].files;
      var r := reg.(table := reg.table[id := reg.table[id].(files := before[..j] + before[j + 1..])]);
      && r.Valid()
      && OthersUnchanged(reg, r, id)
      && forall j' :: FirstNamed(before, filename, j') ==> j' == j
  {
    var t := reg.table[id];
    FirstNamedUnique(t.files, filename, j);
    ReplaceKeepsValid(reg, t.(files := t.files[..j] + t.files[j + 1..]));
  }

  /** Every record after its own statistics step. */
  function StepAll(reg: Registry, draws: map<string, Draw>): (r: Registry)
    requires reg.Valid()
    requires forall k :: k in reg.table ==> k in draws && draws[k].Valid()
    ensures r.Valid()
    ensures r.order == reg.order && r.table.Keys == reg.table.Keys
    ensures forall k :: k in reg.table ==> r.table[k] == UpdateStats(reg.table[k], draws[k])
  {
    Registry(reg.order, map k | k in reg.table :: UpdateStats(reg.table[k], draws[k]))
  }

  /** Applies `f` to each key of `keys`, in order, collecting the results by key. */
  method ApplyInOrder<V>(keys: seq<string>, f: string --> V) returns (m: map<string, V>)
    requires forall i :: 0 <= i < |keys| ==> f.requires(keys[i])
    ensures forall k :: k in m <==> k in keys
    ensures forall k :: k in m ==> m[k] == f(k)
  {
    m := map[];
    var i := 0;
    while i < |keys|
      invariant 0 <= i <= |keys|
      invariant forall k :: k in m ==> k in keys[..i] && m[k] == f(k)
      invariant forall j :: 0 <= j < i ==> keys[j] in m
    {
      m := m[keys[i] := f(keys[i])];
      i := i + 1;
    }
    assert keys[..i] == keys;
  }

  /** `update_all_stats`: one statistics step for every record, in registry order, each with
      its own draw. */
  method UpdateAllStats(reg: Registry, draws: map<string, Draw>) returns (r: Registry)
    requires reg.Valid()
    requires forall k :: k in reg.table ==> k in draws && draws[k].Valid()
    ensures r == StepAll(reg, draws)
  {
    var table := ApplyInOrder(reg.order,
      k requires k in reg.table && k in draws && reg.table[k].Valid() && draws[k].Valid() =>
        UpdateStats(reg.table[k], draws[k]));
    r := Registry(reg.order, table);
  }

  /** Removing an element appended to a list that did not hold it gives the list back. */
  lemma {:induction false} WithoutAppended(s: seq<string>, x: string)
    requires x !in s
    ensures Without(s + [x], x) == s
  {
    if |s| > 0 {
      WithoutAppended(s[1..], x);
      assert (s + [x])[1..] == s[1..] + [x];
    }
  }

  /** Adding the same magnet link twice: the second add is refused as a duplicate and changes
      nothing. */
  lemma AddSameLinkTwice(reg: Registry, link: string, env: Env)
    requires reg.Valid() && env.Valid()
    requires AddMagnet(reg, link, env).result.Success?
    ensures var again := AddMagnet(AddMagnet(reg, link, env).registry, link, env);
      again.result == Failure(AlreadyExists) && again.registry == AddMagnet(reg, link, env).registry
  {
  }

  /** Taking out the key a registry just gained gives the registry it was gained from. */
  lemma InsertedThenRemoved(before: Registry, after: Registry, id: string)
    requires id !in before.order && InsertedOnly(before, after, id)
    ensures Registry(Without(after.order, id), after.table - {id}) == before
  {
    WithoutAppended(before.order, id);
    var rest := after.table - {id};
    assert rest.Keys == before.table.Keys;
    assert forall k :: k in rest ==> rest[k] == before.table[k];
  }

  /** Deleting a just-added torrent, when no file removal fails, restores the registry. */
  lemma AddThenDelete(reg: Registry, link: string, env: Env, deleteFiles: bool, dir: OnDisk)
    requires reg.Valid() && env.Valid()
    requires AddMagnet(reg, link, env).result.Success?
    requires !(deleteFiles && dir.Present? && dir.removal.IoFailed?)
    ensures Delete(AddMagnet(reg, link, env).registry, env.digest(link), deleteFiles, dir).registry == reg
  {
    var id := env.digest(link);
    var added := AddMagnet(reg, link, env).registry;
    var removed := Delete(added, id, deleteFiles, dir).registry;
    assert id !in reg.order;
    InsertedThenRemoved(reg, added, id);
    assert removed == Registry(Without(added.order, id), added.table - {id});
  }

  /** Deleting a torrent just added from a file, when no file removal fails, restores the
      registry. */
  lemma AddFileThenDelete(reg: Registry, filename: string, env: Env, deleteFiles: bool, dir: OnDisk)
    requires reg.Valid() && env.Valid()
    requires AddTorrentFile(reg, filename, env, IoOk).result.Success?
    requires !(deleteFiles && dir.Present? && dir.removal.IoFailed?)
    ensures Delete(AddTorrentFile(reg, filename, env, IoOk).registry, env.digest(filename), deleteFiles, dir).registry
      == reg
  {
    var id := env.digest(filename);
    var added := AddTorrentFile(reg, filename, env, IoOk).registry;
    var removed := Delete(added, id, deleteFiles, dir).registry;
    assert id !in reg.order;
    InsertedThenRemoved(reg, added, id);
    assert removed == Registry(Without(added.order, id), added.table - {id});
  }

  /** Pausing and then resuming a downloading torrent restores the registry. */
  lemma PauseThenResume(reg: Registry, id: string)
    requires reg.Valid() && id in reg.table && reg.table[id].status == Downloading
    ensures Pause(reg, id).result.Success?
    ensures Resume(Pause(reg, id).registry, id) == Step(reg, Success(ResumedTorrent(reg.table[id].name)))
  {
    var t := reg.table[id];
    assert t.(status := Paused).(status := Downloading) == t;
    assert reg.table[id := t.(status := Paused)][id := t] == reg.table;
  }

  /** A paused torrent's next statistics step stops both speeds and clears the eta, and leaves
      its progress where it was. */
  lemma PauseThenStats(reg: Registry, id: string, d: Draw)
    requires reg.Valid() && d.Valid() && id in reg.table && reg.table[id].status == Downloading
    ensures var t := UpdateStats(Pause(reg, id).registry.table[id], d);
      && t.status == Paused && t.downloadSpeed == 0.0 && t.uploadSpeed == 0.0 && t.eta == None
      && t.progress == reg.table[id].progress
  {
  }

  /** A completed torrent is terminal: pause and resume refuse it without change and the
      statistics step leaves it as it is. */
  lemma CompletedIsTerminal(reg: Registry, id: string, draws: map<string, Draw>)
    requires reg.Valid() && id in reg.table && reg.table[id].status == Completed
    requires forall k :: k in reg.table ==> k in draws && draws[k].Valid()
    ensures Pause(reg, id) == Step(reg, Failure(CannotPauseCompleted))
    ensures Resume(reg, id) == Step(reg, Failure(NotPaused))
    ensures StepAll(reg, draws).table[id] == reg.table[id]
    ensures reg.table[id].progress == 100.0
  {
  }

  /** When a record's file names are distinct, as the placeholder files' are, deleting a file
      by name removes exactly one entry and leaves no file of that name. */
  lemma DeleteFileRemovesName(reg: Registry, id: string, filename: string, file: OnDisk)
    requires reg.Valid() && id in reg.table && DistinctNames(reg.table[id].files)
    requires !NoneNamed(reg.table[id].files, filename) && !(file.Present? && file.removal.IoFailed?)
    ensures var after := DeleteFile(reg, id, filename, file).registry.table[id].files;
      && |after| == |reg.table[id].files| - 1
      && NoneNamed(after, filename)
  {
    var before := reg.table[id].files;
    var j := FindFile(before, filename).value;
    assert DeleteFile(reg, id, filename, file).registry.table[id].files == before[..j] + before[j + 1..];
    RemoveOnlyNamed(before, filename, j);
  }

  /** Removing the one entry called `filename` from entries with distinct names leaves none. */
  lemma RemoveOnlyNamed(before: seq<FileEntry>, filename: string, j: nat)
    requires DistinctNames(before) && j < |before| && before[j].name == filename
    ensures |before[..j] + before[j + 1..]| == |before| - 1
    ensures NoneNamed(before[..j] + before[j + 1..], filename)
  {
    var after := before[..j] + before[j + 1..];
    forall k | 0 <= k < |after| ensures after[k].name != filename {
      if k < j {
        assert after[k] == before[k];
      } else {
        assert after[k] == before[k + 1];
      }
    }
  }
}
