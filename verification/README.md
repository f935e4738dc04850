# Torrent lifecycle manager, modelled in Dafny

This project models the simulated torrent engine of a small torrent-downloader web app. It also
models the command dispatcher that exposes that engine as an API.

- **The manager** (`torrent_manager.py`) keeps an in-memory registry that maps a 12-character
  id to a torrent record.
  - It adds torrents from magnet links or uploaded `.torrent` files. It validates the link or
    file name, works out a display name, and refuses duplicates.
  - It pauses, resumes and deletes torrents, and deletes single files of a completed torrent.
  - Pause and resume move a record between `downloading` and `paused`. The statistics step
    moves a downloading record on to `completed`. While downloading, progress rises by a random
    increment and is clamped at 100. The record completes exactly once, and it gains its
    placeholder files when it does. The `error` status exists, but nothing assigns it.
- **The dispatcher** (`api.py`, `process_api_action`) checks required fields, dispatches to the
  manager, filters the listing by status, and wraps every outcome in a response. A response
  holds a success flag, a message, a timestamp and an optional payload.

Every operation is a pure function: it takes a registry and returns the new registry with its
outcome. Anything impure in the original becomes a parameter:
- randomness is a bounded `Draw`;
- the md5-derived id is the `digest` function of an `Env`;
- the clock is the `stamp`/`addedAt` fields of an `Env` and the response `timestamp`;
- file-system outcomes are `IoResult` and `OnDisk` values.

The modules follow the program's structure:

| module | file | contents |
|---|---|---|
| `Results` | `results.dfy` | `Option` and `Result` |
| `Text` | `text.dfy` | the Python string operations the source uses: `in`, `split(sep)[0]`, `str.replace`, integer formatting |
| `Naming` | `naming.dfy` | ids, link and file-name validation, the `dn=` display-name parser, the `.torrent` stem |
| `Record` | `record.dfy` | the torrent record, its invariant, creation, and the statistics step |
| `Manager` | `manager.dfy` | the registry and the `TorrentManager` operations |
| `Api` | `api.dfy` | requests, responses and `process_api_action` |

The registry is an insertion-ordered key list plus a map. This reproduces Python's dict order,
which `get_all_torrents` and the API listing expose. Its invariant, `Registry.Valid`, says:
- the key list has no repeats and matches the map's keys;
- every record is stored under its own id;
- every record satisfies `Torrent.Valid`.

`Torrent.Valid` says:
- progress lies in 0..100;
- progress is 100 exactly when the status is `completed`;
- the downloaded count is `floor(progress / 100 * total_size)`;
- files exist only on completed records;
- the download speed lies in 0..5000 and the upload speed in 0..500 (0 until first drawn,
  after a pause, or after completion for the download speed);
- peers are 0 or in 5..50, seeds are 0 or in 10..100, and an eta is never negative.

Every operation keeps both invariants.

A natural reading of the magnet display-name rule is "the text after `dn=` up to the first
`&`". The code computes `link.split("dn=")[1].split("&")[0]`, so a second `dn=` ends the name
just as `&` does. `Naming.DisplayName` follows the code, and `Naming.SecondKeyEndsName` states
the difference.

## Model

| member | source | states |
|---|---|---|
| Text.Find | torrent_manager.py:155 | the first occurrence of the pattern, with no occurrence before it; none exactly when the text does not contain the pattern |
| Text.Before | torrent_manager.py:156 | `split(sep)[0]`: the longest prefix holding no separator, which is the whole text exactly when the separator is absent, and is followed by the separator otherwise |
| Text.Replace | torrent_manager.py:157 | `str.replace` leaves a text without the pattern unchanged, introduces no characters other than the replacement's, and does not lengthen the text when the replacement is no longer than the pattern |
| Text.ReplaceAtFirst | torrent_manager.py:157 | `str.replace` keeps the text before the first occurrence, puts the replacement in its place and carries on with the text after it |
| Text.ReplaceSkip | torrent_manager.py:157 | a prefix in which no occurrence starts is copied unchanged |
| Text.ReplaceSplit | torrent_manager.py:157 | for a pattern whose first character does not recur in it, replacing in `a + pat + b`, where `a` holds no occurrence, gives `a + rep` followed by the replacement in `b` |
| Text.ReplaceCharAppend | torrent_manager.py:157 | replacing one character by another distributes over concatenation |
| Text.ReplaceChar | torrent_manager.py:157 | replacing one character by another acts position by position and keeps the length |
| Text.ReplaceTrailing | torrent_manager.py:185 | removing a pattern whose only occurrence is a trailing copy gives back the text before it |
| Text.NatToString | api.py:158 | the decimal text used in the `Found N ...` messages is non-empty, all digits, and starts with `0` only for 0 |
| Text.NatToStringValue | api.py:158 | that decimal text reads back as N, so together with the no-leading-zero clause it is the usual decimal rendering |
| Naming.Decode | torrent_manager.py:157 | the decoded name holds no `+`, is no longer than the raw value, adds only spaces, and equals a raw value that has no `+` and no `%20` |
| Naming.DecodePercentSpace | torrent_manager.py:157 | `%20` becomes a space: `a + "%20" + b`, with neither `+` nor `%` in `a`, decodes to `a + " "` followed by `b` decoded |
| Naming.DecodePlusSpace | torrent_manager.py:157 | `+` becomes a space: `a + "+" + b`, with neither `+` nor `%` in `a`, decodes to `a + " "` followed by `b` decoded |
| Naming.DecodePlain | torrent_manager.py:157 | a value with neither `+` nor `%` decodes to itself |
| Naming.DecodeWithoutPercent | torrent_manager.py:157 | without `%`, decoding only turns `+` into spaces |
| Naming.ExampleDecode | torrent_manager.py:157 | `My+Movie` decodes to `My Movie` |
| Naming.ExamplePercentDecode | torrent_manager.py:157 | `My%20Movie` decodes to `My Movie` |
| Naming.DisplayName | torrent_manager.py:155-161 | a link without `dn=` is named `Torrent_<stamp>`; otherwise the name holds no `+` and is shorter than the link by at least the length of `dn=` |
| Naming.DisplayNameSpec | torrent_manager.py:155-161 | with no `dn=`, the name is `Torrent_<stamp>`; otherwise the link has exactly one name field (the value after the first `dn=`, up to the end, an `&` or another `dn=`) and the name is that field decoded |
| Naming.DisplayNameClean | torrent_manager.py:155-157 | a name taken from a `dn=` field contains neither `+` nor `&` |
| Naming.KeyAfterClean | torrent_manager.py:155-156 | in `pre + "dn=" + rest`, where `pre` holds no `dn=`, the first `dn=` is the one after `pre` |
| Naming.PlainDisplayName | torrent_manager.py:155-157 | a link `pre + "dn=" + raw`, where neither part holds `dn=` and `raw` holds no `&`, is named after `raw` decoded |
| Naming.SecondKeyEndsName | torrent_manager.py:156 | with the same conditions on `pre` and `raw`, a second `dn=` after `raw` ends the name, whatever follows it |
| Naming.ExampleDisplayName | torrent_manager.py:155-157 | the link `magnet:?xt=urn:btih:ABC&dn=My+Movie` is named `My Movie` |
| Naming.FileStem | torrent_manager.py:185 | the stem of an upload name is no longer than it and uses only its characters |
| Naming.FileStemSplit | torrent_manager.py:185 | every `.torrent` is removed, not only a trailing one: the stem of `a + ".torrent" + b`, with no `.torrent` in `a`, is `a` followed by the stem of `b` |
| Naming.FileStemSinglePass | torrent_manager.py:185 | removal is one left-to-right pass: the stem of `.tor.torrentrent` is `.torrent` |
| Naming.FileStemOfUpload | torrent_manager.py:181-185 | `x.torrent` passes the file-type check and its stem is `x`, when `x` holds no other `.torrent` |
| Record.NewTorrent | torrent_manager.py:23-38 | a new record is valid and downloading, with progress 0, no files, zero speeds, peers, seeds and bytes, no eta, and a total of the drawn 100..5000 MiB |
| Record.DownloadedBytes | torrent_manager.py:57 | the downloaded count is the truncation of `progress / 100 * total_size`: at most that product and less than one below it |
| Record.DownloadedBounds | torrent_manager.py:57 | the downloaded count lies in 0..total size and equals the total at 100% |
| Record.DownloadedMonotone | torrent_manager.py:57 | more progress never gives fewer downloaded bytes |
| Record.EtaSeconds | torrent_manager.py:60-63 | the eta is non-negative while no more than the total has been downloaded |
| Record.PartName | torrent_manager.py:89 | a placeholder name starts with `<name>_part`, has the 1-based index digit right after it, ends with the extension, and has no other characters |
| Record.DummyFiles | torrent_manager.py:78-105 | one entry per file written, at most 5; entry `i` is named `<name>_part<i+1><ext>` with the extension picked for it, lies inside the record's download directory, and has its on-disk size; no two entries share a name |
| Record.UpdateStats | torrent_manager.py:41-76 | a valid record stays valid and keeps its identity; progress and bytes never decrease; paused records get zero speeds and no eta and are otherwise frozen; downloading records take the drawn peers, seeds and speeds, grow by the increment clamped at 100, and complete exactly when they reach 100, with speed 0, eta 0, full bytes and the new files; completed and error records do not change |
| Record.Run | torrent_manager.py:41-76 | any number of statistics steps keep the record valid and its progress non-decreasing |
| Record.CompletedStaysPut | torrent_manager.py:43-71 | a completed record is unchanged by any number of later steps |
| Record.RunAdvances | torrent_manager.py:43-67 | each uninterrupted step adds at least half a percent, so a downloading record is completed or at least `n / 2` percent further along after `n` steps |
| Record.CompletesWithin200Steps | torrent_manager.py:43-67 | 200 uninterrupted steps always complete a download |
| Manager.Message | torrent_manager.py:151-287 | a success message carries neither refusal mark and ends with the name it acted on; a refusal starts with `⚠️` for a duplicate, a completed record or a record that is not paused, and with `❌` otherwise; a refusal caused by the file system ends with its reason |
| Manager.NewManager | torrent_manager.py:129-131 | a new manager has an empty, valid registry |
| Manager.Insert | torrent_manager.py:171-172 | storing a new record appends its key and adds exactly that entry, leaving every other entry as it was |
| Manager.AddMagnet | torrent_manager.py:144-174 | success exactly when the link starts with `magnet:?` and its id is new; a bad link or a duplicate changes nothing; on success exactly one fresh downloading record is added, under the link's id and with the link's display name |
| Manager.AddTorrentFile | torrent_manager.py:176-204 | success exactly when the name ends in `.torrent`, its id is new and the save succeeds; every failure changes nothing and is reported in that order; on success exactly one fresh record is added, named after the file's stem and pointing at the saved path |
| Manager.Pause | torrent_manager.py:206-216 | an unknown id fails, a completed record is refused, and anything else becomes paused with nothing else changed |
| Manager.Resume | torrent_manager.py:218-228 | success exactly from `paused`, which becomes downloading with nothing else changed; an unknown id or another status fails without change |
| Manager.Without | torrent_manager.py:246 | removing a key from the key list keeps exactly the other keys, and keeps a list without repeats free of them |
| Manager.WithoutAt | torrent_manager.py:246 | in a key list without repeats, removing the key at position `i` closes the gap and keeps the order of the keys before and after it |
| Manager.Delete | torrent_manager.py:230-247 | an unknown id fails; a failed removal of existing files keeps the record; otherwise exactly that key disappears from its position in the key order, the other keys keep their order, and every other entry is kept |
| Manager.GetTorrent | torrent_manager.py:249-251 | a record exactly for a known id, and it is the valid record stored under that id |
| Manager.GetAll | torrent_manager.py:253-255 | every record exactly once, in insertion order |
| Manager.GetFiles | torrent_manager.py:262-267 | no files for an unknown id, the record's files otherwise; only completed records have files |
| Manager.FindFile | torrent_manager.py:276-277 | the index of the first file with that name, or none exactly when no file has it |
| Manager.DeleteFile | torrent_manager.py:269-287 | success exactly when the id is known, some file has the name and its unlink does not fail; an unknown id, a missing name and a failed unlink each fail with their own error and change nothing; otherwise exactly the first entry with that name is removed and nothing else changes |
| Manager.StepAll | torrent_manager.py:257-260 | one statistics step applied to every record, with keys and order kept |
| Manager.ApplyInOrder | torrent_manager.py:259-260 | visiting every key in order gives a map over exactly those keys holding each key's image |
| Manager.UpdateAllStats | torrent_manager.py:257-260 | the loop over all records gives the registry in which every record took its own statistics step |
| Manager.AddSameLinkTwice | torrent_manager.py:164-168 | adding the same link a second time is refused as a duplicate and changes nothing |
| Manager.AddThenDelete | torrent_manager.py:245-247 | deleting a torrent just added gives back the registry from before the add |
| Manager.AddFileThenDelete | torrent_manager.py:245-247 | deleting a torrent just added from an uploaded file gives back the registry from before the add |
| Manager.PauseThenResume | torrent_manager.py:206-228 | pausing then resuming a downloading torrent gives back the registry |
| Manager.PauseThenStats | torrent_manager.py:73-76 | after a pause, the next statistics step zeroes both speeds, clears the eta and keeps the progress |
| Manager.CompletedIsTerminal | torrent_manager.py:206-228 | a completed record cannot be paused or resumed and is unchanged by the statistics step |
| Manager.DeleteFileRemovesName | torrent_manager.py:276-283 | when the file names are distinct, deleting a file removes exactly one entry and no file of that name remains |
| Api.WithStatus | api.py:155 | keeps exactly the records whose status name is the filter |
| Api.FilterStatus | api.py:151-155 | `all` keeps the listing as it is; any other filter keeps exactly the records whose status name equals it |
| Api.WithStatusAppend | api.py:155 | filtering keeps the relative order of the records it keeps |
| Api.FilterByStatusName | api.py:154-155 | filtering by a status's name keeps exactly the records in that status |
| Api.FilterUnknownStatus | api.py:154-155 | a filter that is neither `all` nor a status name keeps nothing |
| Api.Process | api.py:112-169 | an empty link or id is refused with no change and no data; an unknown action fails; each action gives its manager operation's outcome and message; only a successful add carries the new id; listings always succeed, change nothing, and carry the filtered records or the files |
| Api.DeleteDefaultsToFiles | api.py:146 | a delete request without `delete_files` behaves as one asking to remove the files |
| Api.ListAllInOrder | api.py:150-158 | listing with `all`, or with no filter, returns every record in registration order |
| Api.ListByStatus | api.py:150-158 | listing with a status name returns exactly the records in that status |

## Left out

- The web interface (`ui.py`, `main.py`), the API form and help page in `api.py`
  (`handle_api_request`, `render_api_help`), and authentication (`auth.py`) are not part of
  this model. They are rendering and session handling, not engine logic.
- The md5 hash behind the ids is the `digest` parameter of `Env`. Its results have the shape of
  the first 12 hex digits of a digest; the hash function itself is not modelled.
- The random draws are `Draw` and `Env.sizeMiB` values, bounded as the source draws them.
  Nothing about their distribution is modelled.
- The current time is a parameter:
  - `Env.stamp` is the `%Y%m%d_%H%M%S` text used in fallback names;
  - `Env.addedAt` is the added time;
  - the response `timestamp` is the session's time text.
- File-system effects are parameters. Saving an upload, the `rmtree` of a delete and the `unlink`
  of a file delete are each only a success or a failure. Whether a path exists is `OnDisk`. The
  bytes of an upload, the dummy files' contents, and the `mkdir` of the download directories are
  not modelled.
- `_create_dummy_files` is modelled as a `Materialize` value: the extension picks, how many files
  were written before any failure, and each file's on-disk size. The error message it shows on
  failure is left out.
- Floating-point numbers are Dafny reals, so rounding is not modelled. Python's `int()` on the
  non-negative byte and eta values is the floor.
- The eta is an optional number of seconds, not a `timedelta`.
- `to_dict` is left out: its rounding, its eta text (where a zero `timedelta` reads as none) and
  its time formatting. Listing payloads carry the records themselves.
- Paths are plain `/`-joined text, without `pathlib` normalisation.
- The catch-all `except` in `process_api_action` and the bare `except` around the name parsing
  are left out. Neither has a failing operation to catch in this model.
- The `error` status exists in the model, but no operation ever assigns it, as in the source.
- `delete_files` is a boolean in the model. The source accepts any truthy value there.
- Manager.DeleteFileRemovesName: states removal of the only match just for records with distinct
  file names. `Manager.DeleteFile` itself states that exactly the first match is removed in every
  case.
