/** The request layer: one action name plus the request's fields in, one response record out,
    with the manager's registry threaded through. */
module Api {
  import opened Results
  import opened Text
  import opened Naming
  import opened Record
  import opened Manager

  /** The fields a request may carry; a field the caller left out is `None`. */
  datatype Request = Request(
    magnetLink: Option<string>,
    torrentId: Option<string>,
    deleteFiles: Option<bool>,
    status: Option<string>)

  /** What a successful response carries besides its message. */
  datatype Payload =
    | NewTorrentId(torrentId: string)
    | TorrentList(torrents: seq<Torrent>)
    | FileList(files: seq<FileEntry>)

  /** A response: success flag, message, the caller's timestamp text and, only when there is
      any, the payload. */
  datatype Response = Response(success: bool, message: string, timestamp: string, data: Option<Payload>)

  datatype Handled = Handled(response: Response, registry: Registry)

  const AllStatuses := "all"
  const MagnetRequired := "Magnet link is required"
  const IdRequired := "Torrent ID is required"

  /** A text field as the request layer reads it: absent reads as empty. */
  function Field(v: Option<string>): string {
    v.GetOr("")
  }

  /** The records whose status name is `name`, in the order given. */
  function WithStatus(ts: seq<Torrent>, name: string): (r: seq<Torrent>)
    ensures |r| <= |ts|
    ensures forall t :: t in r <==> t in ts && StatusName(t.status) == name
  {
    if ts == [] then []
    else if StatusName(ts[0].status) == name then [ts[0]] + WithStatus(ts[1..], name)
    else WithStatus(ts[1..], name)
  }

  /** The status filter of `list_torrents`: `all` keeps every record, anything else keeps the
      records whose status name equals it. */
  function FilterStatus(ts: seq<Torrent>, filter: string): (r: seq<Torrent>)
    ensures |r| <= |ts|
    ensures filter == AllStatuses ==> r == ts
    ensures filter != AllStatuses ==> forall t :: t in r <==> t in ts && StatusName(t.status) == filter
  {
    if filter == AllStatuses then ts else WithStatus(ts, filter)
  }

  /** The request an action expects a torrent id for. */
  predicate NeedsId(action: string) {
    action == "pause" || action == "resume" || action == "delete" || action == "list_files"
  }

  predicate Known(action: string) {
    action == "add_magnet" || NeedsId(action) || action == "list_torrents"
  }

  /** A refusal that leaves the registry alone and carries no payload. */
  ghost predicate Refused(h: Handled, reg: Registry, message: string) {
    && !h.response.success
    && h.response.message == message
    && h.response.data == None
    && h.registry == reg
  }

  /** The response for a manager step that carries no payload. */
  function Plain(s: Step, timestamp: string): Handled {
    Handled(Response(s.result.Success?, Message(s.result), timestamp, None), s.registry)
  }

  /** `process_api_action`: dispatch on the action name; the file-system outcome of a delete
      and the response timestamp are parameters. */
  function Process(action: string, req: Request, reg: Registry, env: Env, dir: OnDisk, timestamp: string): (h: Handled)
    requires reg.Valid() && env.Valid()
    ensures h.registry.Valid()
    ensures h.response.timestamp == timestamp
    ensures !Known(action) ==> Refused(h, reg, "Unknown action: " + action)
    ensures action == "add_magnet" && Field(req.magnetLink) == "" ==> Refused(h, reg, MagnetRequired)
    ensures NeedsId(action) && Field(req.torrentId) == "" ==> Refused(h, reg, IdRequired)
    ensures action == "add_magnet" && Field(req.magnetLink) != "" ==>
      var s := AddMagnet(reg, Field(req.magnetLink), env);
      && h.registry == s.registry
      && h.response.success == s.result.Success?
      && h.response.message == Message(s.result)
      && (h.response.data.Some? <==> h.response.success)
      && (h.response.success ==> h.response.data == Some(NewTorrentId(env.digest(Field(req.magnetLink)))))
    ensures action == "pause" && Field(req.torrentId) != "" ==> h == Plain(Pause(reg, Field(req.torrentId)), timestamp)
    ensures action == "resume" && Field(req.torrentId) != "" ==> h == Plain(Resume(reg, Field(req.torrentId)), timestamp)
    ensures action == "delete" && Field(req.torrentId) != "" ==>
      h == Plain(Delete(reg, Field(req.torrentId), req.deleteFiles.GetOr(true), dir), timestamp)
    ensures action == "list_torrents" ==>
      && h.response.success && h.registry == reg
      && h.response.data == Some(TorrentList(FilterStatus(GetAll(reg), req.status.GetOr(AllStatuses))))
      && h.response.message == "Found " + NatToString(|h.response.data.value.torrents|) + " torrents"
    ensures action == "list_files" && Field(req.torrentId) != "" ==>
      && h.response.success && h.registry == reg
      && h.response.data == Some(FileList(GetFiles(reg, Field(req.torrentId))))
      && h.response.message == "Found " + NatToString(|h.response.data.value.files|) + " files"
    ensures action != "list_torrents" && action != "list_files" ==> h.response.data.Some? ==> action == "add_magnet"
  {
    if action == "add_magnet" then
      var link := Field(req.magnetLink);
      if link == "" then Handled(Response(false, MagnetRequired, timestamp, None), reg)
      else
        var s := AddMagnet(reg, link, env);
        var data := if s.result.Success? then Some(NewTorrentId(s.result.value.id)) else None;
        Handled(Response(s.result.Success?, Message(s.result), timestamp, data), s.registry)
    else if NeedsId(action) && Field(req.torrentId) == "" then
      Handled(Response(false, IdRequired, timestamp, None), reg)
    else if action == "pause" then
      Plain(Pause(reg, Field(req.torrentId)), timestamp)
    else if action == "resume" then
      Plain(Resume(reg, Field(req.torrentId)), timestamp)
    else if action == "delete" then
      Plain(Delete(reg, Field(req.torrentId), req.deleteFiles.GetOr(true), dir), timestamp)
    else if action == "list_torrents" then
      var ts := FilterStatus(GetAll(reg), req.status.GetOr(AllStatuses));
      Handled(Response(true, "Found " + NatToString(|ts|) + " torrents", timestamp, Some(TorrentList(ts))), reg)
    else if action == "list_files" then
      var fs := GetFiles(reg, Field(req.torrentId));
      Handled(Response(true, "Found " + NatToString(|fs|) + " files", timestamp, Some(FileList(fs))), reg)
    else
      Handled(Response(false, "Unknown action: " + action, timestamp, None), reg)
  }

  /** Keeping by status distributes over concatenation: the filter keeps the relative order of
      the records it keeps. */
  lemma {:induction false} WithStatusAppend(a: seq<Torrent>, b: seq<Torrent>, name: string)
    ensures WithStatus(a + b, name) == WithStatus(a, name) + WithStatus(b, name)
  {
    if a != [] {
      assert (a + b)[0] == a[0];
      assert (a + b)[1..] == a[1..] + b;
      WithStatusAppend(a[1..], b, name);
    } else {
      assert a + b == b;
    }
  }

  /** Distinct statuses have distinct names, so filtering by a status's name keeps exactly the
      records in that status. */
  lemma FilterByStatusName(ts: seq<Torrent>, s: Status)
    ensures forall t :: t in FilterStatus(ts, StatusName(s)) <==> t in ts && t.status == s
  {
  }

  /** A filter that is neither `all` nor a status name matches nothing. */
  lemma {:induction false} FilterUnknownStatus(ts: seq<Torrent>, filter: string)
    requires filter != AllStatuses
    requires forall s: Status :: StatusName(s) != filter
    ensures FilterStatus(ts, filter) == []
  {
    if ts != [] {
      FilterUnknownStatus(ts[1..], filter);
    }
  }

  /** A `delete` request without the `delete_files` field behaves as one asking for the
      downloaded files to be removed. */
  lemma DeleteDefaultsToFiles(req: Request, reg: Registry, env: Env, dir: OnDisk, timestamp: string)
    requires reg.Valid() && env.Valid() && req.deleteFiles == None
    ensures Process("delete", req, reg, env, dir, timestamp)
      == Process("delete", req.(deleteFiles := Some(true)), reg, env, dir, timestamp)
  {
  }

  /** Listing with the `all` filter, or with no filter field, returns every record in
      registration order. */
  lemma ListAllInOrder(req: Request, reg: Registry, env: Env, dir: OnDisk, timestamp: string)
    requires reg.Valid() && env.Valid()
    requires req.status == None || req.status == Some(AllStatuses)
    ensures var h := Process("list_torrents", req, reg, env, dir, timestamp);
      && h.response.data.Some? && h.response.data.value.TorrentList?
      && var ts := h.response.data.value.torrents;
      && |ts| == |reg.order|
      && forall i :: 0 <= i < |ts| ==> ts[i] == reg.table[reg.order[i]]
  {
  }

  /** Listing by a status name returns exactly the records in that status. */
  lemma ListByStatus(req: Request, reg: Registry, env: Env, dir: OnDisk, timestamp: string, s: Status)
    requires reg.Valid() && env.Valid() && req.status == Some(StatusName(s))
    ensures var h := Process("list_torrents", req, reg, env, dir, timestamp);
      && h.response.data.Some? && h.response.data.value.TorrentList?
      && forall t :: t in h.response.data.value.torrents <==> t in reg.table.Values && t.status == s
  {
    FilterByStatusName(GetAll(reg), s);
  }
}
