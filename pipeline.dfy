/**
  The effect of the rehydration pipeline on the world it touches, as pure
  state transformers named after the methods of `PtRehydration`. Each takes the
  world before the call and gives the world after it; the class in
  rehydration.dfy is proved to change its fields exactly as these say.
 */
module Pipeline {
  import opened RubyString
  import opened IdListParser
  import opened Batching
  import opened Activities

  /** The configuration values the pipeline reads (all directories exist). */
  datatype Config = Config(
    storage: string,       // "files" writes activities to the out-box; anything else uses the datastore
    keepNaFiles: bool,     // write <id>.na / <id>.old detail files
    outBox: string,
    outBoxNa: string,
    outBoxOld: string)

  /** The two kinds of unavailable-ID list `writeList` is called with. */
  datatype ListKind = Na | Old {
    function Name(): string {
      match this
      case Na => "na"
      case Old => "old"
    }
  }

  /**
    The observable actions whose order matters: a POST of one group, the move
    of an in-box file to the completed folder, and an append (mode "a") of a
    list to an `ids_<kind>.dat` file.
   */
  datatype Event =
    | Posted(ids: seq<string>)
    | Moved(name: string)
    | Appended(path: string, ids: seq<string>)

  /** One name `Dir.foreach` yields for the in-box. */
  datatype Entry = Entry(name: string, isDirectory: bool)

  /**
    Everything the pipeline reads or changes:
    - files: the out-box files written in mode "w"/"wb", path to contents;
    - datastore: the contents handed to `storeActivity`, in order;
    - naList, oldList: `@id_na_list` and `@id_old_list`;
    - inBox, completed: the regular files of the in-box and completed folders, name to contents;
    - requestList: `@id_request_list`;
    - log: the POSTs, moves and list appends, in order.
   */
  datatype World = World(
    files: map<string, string>,
    datastore: seq<string>,
    naList: seq<string>,
    oldList: seq<string>,
    inBox: map<string, string>,
    completed: map<string, string>,
    requestList: seq<string>,
    log: seq<Event>)

  /** The world `initialize` leaves: both unavailable lists and the request list empty. */
  function Initial(files: map<string, string>, datastore: seq<string>,
                   inBox: map<string, string>, completed: map<string, string>): (w: World)
    ensures w.naList == [] && w.oldList == [] && w.requestList == [] && w.log == []
    ensures w.inBox == inBox && w.completed == completed && w.files == files && w.datastore == datastore
  {
    World(files, datastore, [], [], inBox, completed, [], [])
  }

  function JsonPath(cfg: Config, id: string): string {
    cfg.outBox + "/" + id + ".json"
  }

  function NaPath(cfg: Config, id: string): string {
    cfg.outBoxNa + "/" + id + ".na"
  }

  function OldPath(cfg: Config, id: string): string {
    cfg.outBoxOld + "/" + id + ".old"
  }

  /** The text of a detail file. */
  function Detail(id: string, status: string): string {
    id + " => " + status
  }

  /** `self.send("out_box_" + type) + "/" + "ids_" + type + ".dat"`. */
  function ListPath(cfg: Config, kind: ListKind): string {
    (match kind case Na => cfg.outBoxNa case Old => cfg.outBoxOld) + "/" + "ids_" + kind.Name() + ".dat"
  }

  /** `handleNotAvailable` for a record with this ID and status. */
  function HandleNotAvailable(cfg: Config, w: World, id: string, status: string): (r: World)
    ensures r.datastore == w.datastore && r.inBox == w.inBox && r.completed == w.completed
    ensures r.requestList == w.requestList && r.log == w.log
  {
    match Classify(status)
    case TooOld =>
      w.(oldList := w.oldList + [id],
         files := if cfg.keepNaFiles then w.files[OldPath(cfg, id) := Detail(id, status)] else w.files)
    case NotAvailable =>
      w.(naList := w.naList + [id],
         files := if cfg.keepNaFiles then w.files[NaPath(cfg, id) := Detail(id, status)] else w.files)
    case Unrecognised => w
  }

  /** The body of the `each` loop of `processResponse` for one record. */
  function ProcessActivity(cfg: Config, w: World, a: Activity): (r: World)
    ensures r.inBox == w.inBox && r.completed == w.completed
    ensures r.requestList == w.requestList && r.log == w.log
  {
    match a
    case Available(id, content) =>
      if cfg.storage == "files" then w.(files := w.files[JsonPath(cfg, id) := content])
      else w.(datastore := w.datastore + [content])
    case Unavailable(id, status) => HandleNotAvailable(cfg, w, id, status)
  }

  /** `processResponse`: the records in response order. */
  function ProcessResponse(cfg: Config, w: World, records: seq<Activity>): (r: World)
    ensures r.inBox == w.inBox && r.completed == w.completed
    ensures r.requestList == w.requestList && r.log == w.log
    decreases |records|
  {
    if records == [] then w
    else ProcessResponse(cfg, ProcessActivity(cfg, w, records[0]), records[1..])
  }

  /** The POST events of a sequence of groups. */
  function Posts(groups: seq<seq<string>>): (events: seq<Event>)
    ensures |events| == |groups|
    ensures forall k :: 0 <= k < |groups| ==> events[k] == Posted(groups[k])
  {
    if groups == [] then [] else [Posted(groups[0])] + Posts(groups[1..])
  }

  /**
    The `each_slice` loop of `manageRequests` over these groups: POST the group
    (the API's answer is `api(group)`), then process the response.
   */
  function ManageGroups(cfg: Config, api: seq<string> -> seq<Activity>, w: World,
                        groups: seq<seq<string>>): (r: World)
    ensures r.inBox == w.inBox && r.completed == w.completed && r.requestList == w.requestList
    ensures r.log == w.log + Posts(groups)
    decreases |groups|
  {
    if groups == [] then w
    else
      var posted := w.(log := w.log + [Posted(groups[0])]);
      var next := ProcessResponse(cfg, posted, api(groups[0]));
      assert next.log == w.log + [Posted(groups[0])];
      var r := ManageGroups(cfg, api, next, groups[1..]);
      assert Posts(groups) == [Posted(groups[0])] + Posts(groups[1..]);
      r
  }

  /** `manageRequests`: one request per group of at most 25 IDs of the request list. */
  function ManageRequests(cfg: Config, api: seq<string> -> seq<Activity>, w: World): (r: World)
    ensures r.inBox == w.inBox && r.completed == w.completed && r.requestList == w.requestList
  {
    ManageGroups(cfg, api, w, Batches(w.requestList))
  }

  /** `writeList(kind, list)`: one append of the list to its `.dat` file. */
  function WriteList(cfg: Config, w: World, kind: ListKind, list: seq<string>): (r: World)
    ensures r.log == w.log + [Appended(ListPath(cfg, kind), list)]
    ensures r == w.(log := r.log)
  {
    w.(log := w.log + [Appended(ListPath(cfg, kind), list)])
  }

  /** The entries the loop of `getActivities` skips: "." and ".." and sub-directories. */
  predicate Skipped(e: Entry) {
    e.name == "." || e.name == ".." || e.isDirectory
  }

  /**
    What `Dir.foreach` of an existing directory yields: every regular name is
    a file of the in-box, and no regular name comes twice.
   */
  predicate InboxListing(inBox: map<string, string>, entries: seq<Entry>) {
    && (forall k :: 0 <= k < |entries| && !Skipped(entries[k]) ==> entries[k].name in inBox)
    && (forall j, k :: 0 <= j < k < |entries| && !Skipped(entries[j]) && !Skipped(entries[k]) ==>
          entries[j].name != entries[k].name)
  }

  /** The ID list of one in-box file: its text stripped, then parsed. */
  function FileIds(contents: string): seq<string> {
    ParseRequestList(Strip(contents))
  }

  /**
    The body of the loop of `getActivities` for one entry: read, strip and
    parse the file, run its requests, move it (unchanged) to the completed
    folder, then append the na list and the old list.
   */
  function ProcessEntry(cfg: Config, api: seq<string> -> seq<Activity>, w: World, e: Entry): (r: World)
    requires !Skipped(e) ==> e.name in w.inBox
    ensures Skipped(e) ==> r == w
    ensures r.inBox == if Skipped(e) then w.inBox else w.inBox - {e.name}
    ensures w.completed.Keys <= r.completed.Keys
  {
    if Skipped(e) then w
    else
      var contents := w.inBox[e.name];
      var managed := ManageRequests(cfg, api, w.(requestList := FileIds(contents)));
      var moved := managed.(inBox := managed.inBox - {e.name},
                            completed := managed.completed[e.name := contents],
                            log := managed.log + [Moved(e.name)]);
      var naWritten := WriteList(cfg, moved, Na, moved.naList);
      WriteList(cfg, naWritten, Old, naWritten.oldList)
  }

  /**
    `getActivities` over the in-box entries in the order they are listed: files
    only ever leave the in-box, and the completed folder only ever grows.
   */
  function GetActivities(cfg: Config, api: seq<string> -> seq<Activity>, w: World,
                         entries: seq<Entry>): (r: World)
    requires InboxListing(w.inBox, entries)
    ensures r.inBox.Keys <= w.inBox.Keys
    ensures w.completed.Keys <= r.completed.Keys
    decreases |entries|
  {
    if entries == [] then w
    else
      ListingAfterEntry(cfg, api, w, entries);
      GetActivities(cfg, api, ProcessEntry(cfg, api, w, entries[0]), entries[1..])
  }

  /** After the first entry is processed, the rest of the listing still names files of the in-box. */
  lemma ListingAfterEntry(cfg: Config, api: seq<string> -> seq<Activity>, w: World, entries: seq<Entry>)
    requires InboxListing(w.inBox, entries) && entries != []
    ensures InboxListing(ProcessEntry(cfg, api, w, entries[0]).inBox, entries[1..])
  {
    var next := ProcessEntry(cfg, api, w, entries[0]);
    forall k | 0 <= k < |entries| - 1 && !Skipped(entries[1..][k])
      ensures entries[1..][k].name in next.inBox
    {
      assert entries[1..][k] == entries[k + 1];
    }
  }
}
