/**
  What the rehydration pipeline guarantees: how statuses reach the two
  unavailable lists, where activity content ends up, how the request list is
  cut into POSTs, and what one pass over the in-box does to each file.
 */
module PipelineProperties {
  import opened RubyString
  import opened IdListParser
  import opened Batching
  import opened Activities
  import opened Pipeline

  // ---------------------------------------------------------------------
  // handleNotAvailable

  /**
    "timeframe" is looked for first, so it wins over "not found"; otherwise "not
    found" or "invalid ID" selects the na list; any other status leaves the
    whole world as it was. At most one ID, the record's own, is appended.
   */
  lemma HandleNotAvailableLists(cfg: Config, w: World, id: string, status: string)
    ensures var r := HandleNotAvailable(cfg, w, id, status);
      && (Contains(status, "timeframe") ==> r.oldList == w.oldList + [id] && r.naList == w.naList)
      && (!Contains(status, "timeframe") && (Contains(status, "not found") || Contains(status, "invalid ID")) ==>
            r.naList == w.naList + [id] && r.oldList == w.oldList)
      && (!Contains(status, "timeframe") && !Contains(status, "not found") && !Contains(status, "invalid ID") ==>
            r == w)
      && |r.naList| + |r.oldList| <= |w.naList| + |w.oldList| + 1
  {
  }

  /**
    Detail files are written only when `keep_na_files` is set, at
    `<out_box_old>/<id>.old` or `<out_box_na>/<id>.na`, holding exactly
    `id => status`; a later write to the same path replaces the earlier text.
   */
  lemma HandleNotAvailableDetailFiles(cfg: Config, w: World, id: string, status: string)
    ensures var r := HandleNotAvailable(cfg, w, id, status);
      && (!cfg.keepNaFiles ==> r.files == w.files)
      && (cfg.keepNaFiles && Classify(status) == TooOld ==> r.files == w.files[OldPath(cfg, id) := Detail(id, status)])
      && (cfg.keepNaFiles && Classify(status) == NotAvailable ==> r.files == w.files[NaPath(cfg, id) := Detail(id, status)])
      && (Classify(status) == Unrecognised ==> r.files == w.files)
  {
  }

  /** Two records with the same ID and old-list statuses: the detail file holds the second status only. */
  lemma DetailFileOverwritten(cfg: Config, w: World, id: string, first: string, second: string)
    requires cfg.keepNaFiles && Classify(first) == TooOld && Classify(second) == TooOld
    ensures var r := HandleNotAvailable(cfg, HandleNotAvailable(cfg, w, id, first), id, second);
      r.files[OldPath(cfg, id)] == Detail(id, second)
  {
  }

  // ---------------------------------------------------------------------
  // Paths

  /** The last character of each kind of out-box path. */
  lemma PathEndings(cfg: Config, id: string)
    ensures JsonPath(cfg, id)[|JsonPath(cfg, id)| - 1] == 'n'
    ensures NaPath(cfg, id)[|NaPath(cfg, id)| - 1] == 'a'
    ensures OldPath(cfg, id)[|OldPath(cfg, id)| - 1] == 'd'
  {
  }

  /** A detail file is never one of the activity files. */
  lemma DetailPathsAreNotJson(cfg: Config, id: string, other: string)
    ensures NaPath(cfg, id) != JsonPath(cfg, other)
    ensures OldPath(cfg, id) != JsonPath(cfg, other)
  {
    PathEndings(cfg, id);
    PathEndings(cfg, other);
  }

  /** Different IDs get different activity files. */
  lemma JsonPathInjective(cfg: Config, a: string, b: string)
    requires JsonPath(cfg, a) == JsonPath(cfg, b)
    ensures a == b
  {
    var pre := cfg.outBox + "/";
    assert JsonPath(cfg, a) == pre + a + ".json";
    assert JsonPath(cfg, b) == pre + b + ".json";
    assert |a| == |b|;
    assert a == JsonPath(cfg, a)[|pre|..|pre| + |a|];
    assert b == JsonPath(cfg, b)[|pre|..|pre| + |b|];
  }

  // ---------------------------------------------------------------------
  // processResponse

  /** An available record never touches the na or old lists. */
  lemma AvailableLeavesLists(cfg: Config, w: World, id: string, content: string)
    ensures var r := ProcessActivity(cfg, w, Available(id, content));
      && r.naList == w.naList && r.oldList == w.oldList
      && (cfg.storage == "files" ==> r.files == w.files[JsonPath(cfg, id) := content] && r.datastore == w.datastore)
      && (cfg.storage != "files" ==> r.datastore == w.datastore + [content] && r.files == w.files)
  {
  }

  /** One record adds its own na or old ID, if any, to the lists. */
  lemma ProcessActivityLists(cfg: Config, w: World, a: Activity)
    ensures ProcessActivity(cfg, w, a).naList == w.naList + NaIds([a])
    ensures ProcessActivity(cfg, w, a).oldList == w.oldList + OldIds([a])
  {
    assert [a][1..] == [];
  }

  /** The lists grow by the response's na and old IDs, in response order. */
  lemma {:induction false} ProcessResponseLists(cfg: Config, w: World, records: seq<Activity>)
    ensures ProcessResponse(cfg, w, records).naList == w.naList + NaIds(records)
    ensures ProcessResponse(cfg, w, records).oldList == w.oldList + OldIds(records)
    decreases |records|
  {
    if records != [] {
      var w1 := ProcessActivity(cfg, w, records[0]);
      ProcessResponseLists(cfg, w1, records[1..]);
      ProcessActivityLists(cfg, w, records[0]);
      FiltersAppend([records[0]], records[1..]);
      assert [records[0]] + records[1..] == records;
    }
  }

  /**
    Without "files" storage every available content goes to the datastore, in
    response order; with it the datastore is never used.
   */
  lemma {:induction false} ProcessResponseStore(cfg: Config, w: World, records: seq<Activity>)
    ensures cfg.storage != "files" ==>
      ProcessResponse(cfg, w, records).datastore == w.datastore + AvailableContents(records)
    ensures cfg.storage == "files" ==> ProcessResponse(cfg, w, records).datastore == w.datastore
    decreases |records|
  {
    if records != [] {
      ProcessResponseStore(cfg, ProcessActivity(cfg, w, records[0]), records[1..]);
    }
  }

  /**
    With "files" storage, `<out_box>/<id>.json` ends up holding the content of
    the LAST available record with that ID (mode "wb" overwrites); with no such
    record the file is as it was.
   */
  lemma {:induction false} ProcessResponseJsonFile(cfg: Config, w: World, records: seq<Activity>, id: string)
    requires cfg.storage == "files"
    ensures var r := ProcessResponse(cfg, w, records);
      var p := JsonPath(cfg, id);
      match LastContent(records, id)
      case Some(c) => p in r.files && r.files[p] == c
      case None => (p in r.files <==> p in w.files) && (p in w.files ==> r.files[p] == w.files[p])
    decreases |records|
  {
    if records != [] {
      var w1 := ProcessActivity(cfg, w, records[0]);
      ProcessResponseJsonFile(cfg, w1, records[1..], id);
      var p := JsonPath(cfg, id);
      match records[0]
      case Available(i, _) =>
        if i != id {
          if p == JsonPath(cfg, i) { JsonPathInjective(cfg, id, i); }
        }
      case Unavailable(i, _) =>
        DetailPathsAreNotJson(cfg, i, id);
    }
  }

  /** Neither detail files nor "files" storage: no file is written. */
  lemma {:induction false} ProcessResponseWritesNoFile(cfg: Config, w: World, records: seq<Activity>)
    requires !cfg.keepNaFiles && cfg.storage != "files"
    ensures ProcessResponse(cfg, w, records).files == w.files
    decreases |records|
  {
    if records != [] {
      ProcessResponseWritesNoFile(cfg, ProcessActivity(cfg, w, records[0]), records[1..]);
    }
  }

  // ---------------------------------------------------------------------
  // manageRequests

  /** The API's answers to the groups, one after another. */
  function Responses(api: seq<string> -> seq<Activity>, groups: seq<seq<string>>): seq<Activity> {
    if groups == [] then [] else api(groups[0]) + Responses(api, groups[1..])
  }

  /** The answers to consecutive runs of groups are the answers to each run, one after the other. */
  lemma {:induction false} ResponsesAppend(api: seq<string> -> seq<Activity>, g1: seq<seq<string>>, g2: seq<seq<string>>)
    ensures Responses(api, g1 + g2) == Responses(api, g1) + Responses(api, g2)
    decreases |g1|
  {
    if g1 == [] {
      assert g1 + g2 == g2;
    } else {
      assert (g1 + g2)[0] == g1[0] && (g1 + g2)[1..] == g1[1..] + g2;
      ResponsesAppend(api, g1[1..], g2);
    }
  }

  /**
    One POST per group, in order: ceil(N/25) POSTs for N requested IDs, each of
    25 IDs except possibly the last, and together they carry the request list
    exactly.
   */
  lemma ManageRequestsPosts(cfg: Config, api: seq<string> -> seq<Activity>, w: World)
    ensures var r := ManageRequests(cfg, api, w);
      && r.log == w.log + Posts(Batches(w.requestList))
      && |r.log| - |w.log| == (|w.requestList| + IdApiRequestLimit - 1) / IdApiRequestLimit
      && Flatten(Batches(w.requestList)) == w.requestList
  {
    BatchesPartition(w.requestList);
    BatchCount(w.requestList);
  }

  /** An empty request list makes no POST and changes nothing. */
  lemma EmptyRequestListNoPost(cfg: Config, api: seq<string> -> seq<Activity>, w: World)
    requires w.requestList == []
    ensures ManageRequests(cfg, api, w) == w
  {
  }

  /** Across all groups, the lists grow by the na and old IDs of all the responses, in order. */
  lemma {:induction false} ManageGroupsLists(cfg: Config, api: seq<string> -> seq<Activity>, w: World,
                                             groups: seq<seq<string>>)
    ensures ManageGroups(cfg, api, w, groups).naList == w.naList + NaIds(Responses(api, groups))
    ensures ManageGroups(cfg, api, w, groups).oldList == w.oldList + OldIds(Responses(api, groups))
    decreases |groups|
  {
    if groups != [] {
      var posted := w.(log := w.log + [Posted(groups[0])]);
      var w1 := ProcessResponse(cfg, posted, api(groups[0]));
      assert ManageGroups(cfg, api, w, groups) == ManageGroups(cfg, api, w1, groups[1..]);
      ProcessResponseLists(cfg, posted, api(groups[0]));
      ManageGroupsLists(cfg, api, w1, groups[1..]);
      FiltersAppend(api(groups[0]), Responses(api, groups[1..]));
    }
  }

  /** Without "files" storage, the datastore receives the available contents of all the responses, in order. */
  lemma {:induction false} ManageGroupsStore(cfg: Config, api: seq<string> -> seq<Activity>, w: World,
                                             groups: seq<seq<string>>)
    requires cfg.storage != "files"
    ensures ManageGroups(cfg, api, w, groups).datastore == w.datastore + AvailableContents(Responses(api, groups))
    decreases |groups|
  {
    if groups != [] {
      var posted := w.(log := w.log + [Posted(groups[0])]);
      var w1 := ProcessResponse(cfg, posted, api(groups[0]));
      assert ManageGroups(cfg, api, w, groups) == ManageGroups(cfg, api, w1, groups[1..]);
      ProcessResponseStore(cfg, posted, api(groups[0]));
      ManageGroupsStore(cfg, api, w1, groups[1..]);
      FiltersAppend(api(groups[0]), Responses(api, groups[1..]));
    }
  }

  /** Across all groups, an activity file holds the content of the last available record for its ID. */
  lemma {:induction false} ManageGroupsJsonFile(cfg: Config, api: seq<string> -> seq<Activity>, w: World,
                                                groups: seq<seq<string>>, id: string)
    requires cfg.storage == "files"
    ensures var r := ManageGroups(cfg, api, w, groups);
      var p := JsonPath(cfg, id);
      match LastContent(Responses(api, groups), id)
      case Some(c) => p in r.files && r.files[p] == c
      case None => (p in r.files <==> p in w.files) && (p in w.files ==> r.files[p] == w.files[p])
    decreases |groups|
  {
    if groups != [] {
      var posted := w.(log := w.log + [Posted(groups[0])]);
      var w1 := ProcessResponse(cfg, posted, api(groups[0]));
      ProcessResponseJsonFile(cfg, posted, api(groups[0]), id);
      ManageGroupsJsonFile(cfg, api, w1, groups[1..], id);
      LastContentAppend(api(groups[0]), Responses(api, groups[1..]), id);
    }
  }

  // ---------------------------------------------------------------------
  // getActivities

  /** The requests of one file: its ID list cut into groups of at most 25. */
  function FileGroups(contents: string): seq<seq<string>> {
    Batches(FileIds(contents))
  }

  /**
    One regular in-box file: it leaves the in-box for the completed folder
    under the same name and with the text it had; the request list is its
    parsed IDs; the lists grow by what its responses hold.
   */
  lemma ProcessEntryMove(cfg: Config, api: seq<string> -> seq<Activity>, w: World, e: Entry)
    requires !Skipped(e) && e.name in w.inBox
    ensures var r := ProcessEntry(cfg, api, w, e);
      && r.inBox == w.inBox - {e.name}
      && r.completed == w.completed[e.name := w.inBox[e.name]]
      && r.requestList == FileIds(w.inBox[e.name])
      && r.naList == w.naList + NaIds(Responses(api, FileGroups(w.inBox[e.name])))
      && r.oldList == w.oldList + OldIds(Responses(api, FileGroups(w.inBox[e.name])))
  {
    var contents := w.inBox[e.name];
    ManageGroupsLists(cfg, api, w.(requestList := FileIds(contents)), FileGroups(contents));
  }

  /**
    The order of one file's actions: all of its POSTs, then the move, then the
    append of the whole na list and of the whole old list as they stand after
    this file (so each append repeats the IDs of earlier files).
   */
  lemma ProcessEntryLog(cfg: Config, api: seq<string> -> seq<Activity>, w: World, e: Entry)
    requires !Skipped(e) && e.name in w.inBox
    ensures var r := ProcessEntry(cfg, api, w, e);
      r.log == w.log + Posts(FileGroups(w.inBox[e.name]))
               + [Moved(e.name), Appended(ListPath(cfg, Na), r.naList), Appended(ListPath(cfg, Old), r.oldList)]
  {
  }

  /**
    A file of three IDs whose records come back not-found, invalid and
    too-old: one POST, two IDs for the na list and one for the old list, no
    activity file and nothing for the datastore.
   */
  lemma ThreeUnavailableIds(cfg: Config, api: seq<string> -> seq<Activity>, w: World, e: Entry,
                            a: string, b: string, c: string, s1: string, s2: string, s3: string)
    requires !Skipped(e) && e.name in w.inBox && FileIds(w.inBox[e.name]) == [a, b, c]
    requires api([a, b, c]) == [Unavailable(a, s1), Unavailable(b, s2), Unavailable(c, s3)]
    requires Classify(s1) == NotAvailable && Classify(s2) == NotAvailable && Classify(s3) == TooOld
    ensures var r := ProcessEntry(cfg, api, w, e);
      && r.naList == w.naList + [a, b] && r.oldList == w.oldList + [c]
      && r.log == w.log + [Posted([a, b, c]), Moved(e.name),
                           Appended(ListPath(cfg, Na), w.naList + [a, b]), Appended(ListPath(cfg, Old), w.oldList + [c])]
      && r.datastore == w.datastore
      && r.files == if cfg.keepNaFiles
                    then w.files[NaPath(cfg, a) := Detail(a, s1)][NaPath(cfg, b) := Detail(b, s2)][OldPath(cfg, c) := Detail(c, s3)]
                    else w.files
  {
    var ids := [a, b, c];
    assert Batches(ids) == [ids];
    var posted := w.(requestList := ids, log := w.log + [Posted(ids)]);
    ThreeUnavailableRecords(cfg, posted, a, b, c, s1, s2, s3);
    var w3 := ProcessResponse(cfg, posted, api(ids));
    assert ManageGroups(cfg, api, w.(requestList := ids), [ids]) == ManageGroups(cfg, api, w3, [ids][1..]);
  }

  /** A response of three unavailable records is handled record by record, in order. */
  lemma ThreeUnavailableRecords(cfg: Config, w: World, a: string, b: string, c: string,
                                s1: string, s2: string, s3: string)
    ensures ProcessResponse(cfg, w, [Unavailable(a, s1), Unavailable(b, s2), Unavailable(c, s3)])
            == HandleNotAvailable(cfg, HandleNotAvailable(cfg, HandleNotAvailable(cfg, w, a, s1), b, s2), c, s3)
  {
    var records := [Unavailable(a, s1), Unavailable(b, s2), Unavailable(c, s3)];
    var w1 := HandleNotAvailable(cfg, w, a, s1);
    var w2 := HandleNotAvailable(cfg, w1, b, s2);
    var w3 := HandleNotAvailable(cfg, w2, c, s3);
    var rest1 := [Unavailable(b, s2), Unavailable(c, s3)];
    var rest2 := [Unavailable(c, s3)];
    assert records[1..] == rest1 && rest1[1..] == rest2 && rest2[1..] == [];
    assert ProcessResponse(cfg, w3, []) == w3;
    assert ProcessResponse(cfg, w2, rest2) == w3;
    assert ProcessResponse(cfg, w1, rest1) == w3;
  }

  /** A file of only whitespace makes no POST: the move and the two appends are all it causes. */
  lemma BlankFileNoPost(cfg: Config, api: seq<string> -> seq<Activity>, w: World, e: Entry)
    requires !Skipped(e) && e.name in w.inBox
    requires forall k :: 0 <= k < |w.inBox[e.name]| ==> IsStripChar(w.inBox[e.name][k])
    ensures var r := ProcessEntry(cfg, api, w, e);
      && r.log == w.log + [Moved(e.name), Appended(ListPath(cfg, Na), w.naList), Appended(ListPath(cfg, Old), w.oldList)]
      && r.naList == w.naList && r.oldList == w.oldList
  {
    BlankFileHasNoIds(w.inBox[e.name]);
  }

  /** ".", ".." and sub-directories are skipped: a listing of only those changes nothing. */
  lemma {:induction false} GetActivitiesSkipsAll(cfg: Config, api: seq<string> -> seq<Activity>, w: World,
                                                 entries: seq<Entry>)
    requires forall k :: 0 <= k < |entries| ==> Skipped(entries[k])
    ensures GetActivities(cfg, api, w, entries) == w
    decreases |entries|
  {
    if entries != [] {
      assert Skipped(entries[0]);
      GetActivitiesSkipsAll(cfg, api, w, entries[1..]);
    }
  }

  /** The lists are never cleared: the lists after a pass start with the lists before it. */
  lemma {:induction false} GetActivitiesListsGrow(cfg: Config, api: seq<string> -> seq<Activity>, w: World,
                                                  entries: seq<Entry>)
    requires InboxListing(w.inBox, entries)
    ensures w.naList <= GetActivities(cfg, api, w, entries).naList
    ensures w.oldList <= GetActivities(cfg, api, w, entries).oldList
    decreases |entries|
  {
    if entries != [] {
      var next := ProcessEntry(cfg, api, w, entries[0]);
      if !Skipped(entries[0]) {
        ProcessEntryMove(cfg, api, w, entries[0]);
      }
      ListingAfterEntry(cfg, api, w, entries);
      GetActivitiesListsGrow(cfg, api, next, entries[1..]);
    }
  }

  /** Every regular file listed ends up in the completed folder, with its text, and no longer in the in-box. */
  lemma {:induction false} GetActivitiesCompletes(cfg: Config, api: seq<string> -> seq<Activity>, w: World,
                                                  entries: seq<Entry>, k: nat)
    requires InboxListing(w.inBox, entries)
    requires k < |entries| && !Skipped(entries[k])
    ensures var r := GetActivities(cfg, api, w, entries);
      && entries[k].name !in r.inBox
      && entries[k].name in r.completed
      && r.completed[entries[k].name] == w.inBox[entries[k].name]
    decreases |entries|
  {
    var next := ProcessEntry(cfg, api, w, entries[0]);
    if !Skipped(entries[0]) {
      ProcessEntryMove(cfg, api, w, entries[0]);
    }
    ListingAfterEntry(cfg, api, w, entries);
    if k == 0 {
      LaterKeep(cfg, api, next, entries[1..], entries[0].name);
    } else {
      assert entries[1..][k - 1] == entries[k];
      GetActivitiesCompletes(cfg, api, next, entries[1..], k - 1);
    }
  }

  /** A completed file listed no more stays completed, and a name not listed stays out of the in-box. */
  lemma {:induction false} LaterKeep(cfg: Config, api: seq<string> -> seq<Activity>, w: World,
                                     entries: seq<Entry>, name: string)
    requires InboxListing(w.inBox, entries)
    requires name !in w.inBox && name in w.completed
    ensures var r := GetActivities(cfg, api, w, entries);
      name !in r.inBox && name in r.completed && r.completed[name] == w.completed[name]
    decreases |entries|
  {
    if entries != [] {
      var next := ProcessEntry(cfg, api, w, entries[0]);
      if !Skipped(entries[0]) {
        ProcessEntryMove(cfg, api, w, entries[0]);
      }
      ListingAfterEntry(cfg, api, w, entries);
      LaterKeep(cfg, api, next, entries[1..], name);
    }
  }

  // ---------------------------------------------------------------------
  // a whole pass of getActivities

  /** The names of the regular files of a listing: those `getActivities` processes. */
  function Listed(entries: seq<Entry>): set<string>
    decreases |entries|
  {
    if entries == [] then {}
    else (if Skipped(entries[0]) then {} else {entries[0].name}) + Listed(entries[1..])
  }

  /** A name is listed exactly when some regular entry of the listing carries it. */
  lemma {:induction false} ListedNames(entries: seq<Entry>, name: string)
    ensures name in Listed(entries) <==>
            exists k :: 0 <= k < |entries| && !Skipped(entries[k]) && entries[k].name == name
    decreases |entries|
  {
    if entries != [] {
      ListedNames(entries[1..], name);
      if exists k :: 0 <= k < |entries| && !Skipped(entries[k]) && entries[k].name == name {
        var k :| 0 <= k < |entries| && !Skipped(entries[k]) && entries[k].name == name;
        if k > 0 {
          assert entries[1..][k - 1] == entries[k];
        }
      }
      if exists j :: 0 <= j < |entries| - 1 && !Skipped(entries[1..][j]) && entries[1..][j].name == name {
        var j :| 0 <= j < |entries| - 1 && !Skipped(entries[1..][j]) && entries[1..][j].name == name;
        assert entries[j + 1] == entries[1..][j];
      }
    }
  }

  /** The requests of a whole pass: the groups of every regular file, in listing order. */
  function PassGroups(inBox: map<string, string>, entries: seq<Entry>): seq<seq<string>>
    requires forall k :: 0 <= k < |entries| && !Skipped(entries[k]) ==> entries[k].name in inBox
    decreases |entries|
  {
    if entries == [] then []
    else
      assert forall k :: 0 <= k < |entries| - 1 ==> entries[1..][k] == entries[k + 1];
      (if Skipped(entries[0]) then [] else FileGroups(inBox[entries[0].name])) + PassGroups(inBox, entries[1..])
  }

  /** Removing a name no regular entry carries does not change the requests of a pass. */
  lemma {:induction false} PassGroupsRemove(inBox: map<string, string>, name: string, entries: seq<Entry>)
    requires forall k :: 0 <= k < |entries| && !Skipped(entries[k]) ==> entries[k].name in inBox - {name}
    ensures PassGroups(inBox - {name}, entries) == PassGroups(inBox, entries)
    decreases |entries|
  {
    if entries != [] {
      assert forall k :: 0 <= k < |entries| - 1 ==> entries[1..][k] == entries[k + 1];
      PassGroupsRemove(inBox, name, entries[1..]);
    }
  }

  /** Without "files" storage, one regular file hands the datastore the available contents of its responses. */
  lemma ProcessEntryStore(cfg: Config, api: seq<string> -> seq<Activity>, w: World, e: Entry)
    requires !Skipped(e) && e.name in w.inBox && cfg.storage != "files"
    ensures ProcessEntry(cfg, api, w, e).datastore
            == w.datastore + AvailableContents(Responses(api, FileGroups(w.inBox[e.name])))
  {
    var contents := w.inBox[e.name];
    ManageGroupsStore(cfg, api, w.(requestList := FileIds(contents)), FileGroups(contents));
  }

  /**
    After a pass the in-box is exactly the old in-box without the listed
    files, and the completed folder holds exactly its old names and those.
   */
  lemma {:induction false} GetActivitiesFrame(cfg: Config, api: seq<string> -> seq<Activity>, w: World,
                                              entries: seq<Entry>)
    requires InboxListing(w.inBox, entries)
    ensures var r := GetActivities(cfg, api, w, entries);
      && r.inBox == w.inBox - Listed(entries)
      && r.completed.Keys == w.completed.Keys + Listed(entries)
    decreases |entries|
  {
    if entries == [] {
      assert w.inBox - {} == w.inBox;
    } else {
      var e := entries[0];
      var next := ProcessEntry(cfg, api, w, e);
      GetActivitiesStep(cfg, api, w, entries);
      GetActivitiesFrame(cfg, api, next, entries[1..]);
      if !Skipped(e) {
        ProcessEntryMove(cfg, api, w, e);
        MapMinusTwice(w.inBox, {e.name}, Listed(entries[1..]));
      }
    }
  }

  /** Removing two sets of keys one after the other removes their union. */
  lemma MapMinusTwice(m: map<string, string>, a: set<string>, b: set<string>)
    ensures (m - a) - b == m - (a + b)
  {
  }

  /** The responses of a pass: those of its first regular file, then those of the rest of the pass. */
  lemma PassRecordsStep(api: seq<string> -> seq<Activity>, inBox: map<string, string>, entries: seq<Entry>)
    requires InboxListing(inBox, entries) && entries != [] && !Skipped(entries[0])
    ensures forall k :: 1 <= k < |entries| && !Skipped(entries[k]) ==> entries[k].name in inBox - {entries[0].name}
    ensures Responses(api, PassGroups(inBox, entries))
            == Responses(api, FileGroups(inBox[entries[0].name]))
               + Responses(api, PassGroups(inBox - {entries[0].name}, entries[1..]))
  {
    var rest := entries[1..];
    assert forall k :: 0 <= k < |rest| ==> rest[k] == entries[k + 1];
    PassGroupsRemove(inBox, entries[0].name, rest);
    ResponsesAppend(api, FileGroups(inBox[entries[0].name]), PassGroups(inBox, rest));
  }

  /** A pass is its first entry, then the pass over the rest of the listing. */
  lemma GetActivitiesStep(cfg: Config, api: seq<string> -> seq<Activity>, w: World, entries: seq<Entry>)
    requires InboxListing(w.inBox, entries) && entries != []
    ensures InboxListing(ProcessEntry(cfg, api, w, entries[0]).inBox, entries[1..])
    ensures GetActivities(cfg, api, w, entries)
            == GetActivities(cfg, api, ProcessEntry(cfg, api, w, entries[0]), entries[1..])
  {
    ListingAfterEntry(cfg, api, w, entries);
  }

  /** Growth by the records of one file and then by those of the rest is growth by both, in order. */
  lemma PassListsStep(w: World, next: World, r: World, first: seq<Activity>, later: seq<Activity>)
    requires next.naList == w.naList + NaIds(first) && next.oldList == w.oldList + OldIds(first)
    requires r.naList == next.naList + NaIds(later) && r.oldList == next.oldList + OldIds(later)
    ensures r.naList == w.naList + NaIds(first + later) && r.oldList == w.oldList + OldIds(first + later)
  {
    FiltersAppend(first, later);
    ConcatAssoc(w.naList, NaIds(first), NaIds(later));
    ConcatAssoc(w.oldList, OldIds(first), OldIds(later));
  }

  /** The same for the datastore. */
  lemma PassStoreStep(w: World, next: World, r: World, first: seq<Activity>, later: seq<Activity>)
    requires next.datastore == w.datastore + AvailableContents(first)
    requires r.datastore == next.datastore + AvailableContents(later)
    ensures r.datastore == w.datastore + AvailableContents(first + later)
  {
    FiltersAppend(first, later);
    ConcatAssoc(w.datastore, AvailableContents(first), AvailableContents(later));
  }

  /** Appending is associative. */
  lemma ConcatAssoc(x: seq<string>, y: seq<string>, z: seq<string>)
    ensures (x + y) + z == x + (y + z)
  {
  }

  /**
    Over a pass the na list and the old list grow by what the responses to all
    listed files hold, in listing order and within a file in request order.
   */
  lemma {:induction false} GetActivitiesLists(cfg: Config, api: seq<string> -> seq<Activity>, w: World,
                                              entries: seq<Entry>)
    requires InboxListing(w.inBox, entries)
    ensures var r := GetActivities(cfg, api, w, entries);
      var records := Responses(api, PassGroups(w.inBox, entries));
      && r.naList == w.naList + NaIds(records)
      && r.oldList == w.oldList + OldIds(records)
    decreases |entries|
  {
    if entries != [] {
      var e := entries[0];
      var next := ProcessEntry(cfg, api, w, e);
      GetActivitiesStep(cfg, api, w, entries);
      GetActivitiesLists(cfg, api, next, entries[1..]);
      if !Skipped(e) {
        var first := Responses(api, FileGroups(w.inBox[e.name]));
        var later := Responses(api, PassGroups(next.inBox, entries[1..]));
        ProcessEntryMove(cfg, api, w, e);
        PassRecordsStep(api, w.inBox, entries);
        PassListsStep(w, next, GetActivities(cfg, api, next, entries[1..]), first, later);
      } else {
        assert PassGroups(w.inBox, entries) == PassGroups(w.inBox, entries[1..]);
      }
    }
  }

  /** Without "files" storage the datastore receives the available contents of all responses of a pass, in order. */
  lemma {:induction false} GetActivitiesStore(cfg: Config, api: seq<string> -> seq<Activity>, w: World,
                                              entries: seq<Entry>)
    requires InboxListing(w.inBox, entries) && cfg.storage != "files"
    ensures GetActivities(cfg, api, w, entries).datastore
            == w.datastore + AvailableContents(Responses(api, PassGroups(w.inBox, entries)))
    decreases |entries|
  {
    if entries != [] {
      var e := entries[0];
      var next := ProcessEntry(cfg, api, w, e);
      GetActivitiesStep(cfg, api, w, entries);
      GetActivitiesStore(cfg, api, next, entries[1..]);
      if !Skipped(e) {
        var first := Responses(api, FileGroups(w.inBox[e.name]));
        var later := Responses(api, PassGroups(next.inBox, entries[1..]));
        ProcessEntryMove(cfg, api, w, e);
        ProcessEntryStore(cfg, api, w, e);
        PassRecordsStep(api, w.inBox, entries);
        PassStoreStep(w, next, GetActivities(cfg, api, next, entries[1..]), first, later);
      } else {
        assert PassGroups(w.inBox, entries) == PassGroups(w.inBox, entries[1..]);
      }
    }
  }
}
