/**
  The `PtRehydration` object: its lists, its view of the in-box and out-box
  folders and its POST log are fields that the methods update in place. Each
  method is proved to leave exactly the world the matching function of
  `Pipeline` describes, so every lemma of `PipelineProperties` holds of it.
 */
module Rehydration {
  import opened RubyString
  import IdListParser
  import opened Batching
  import opened Activities
  import Pipeline

  class PtRehydration {
    const cfg: Pipeline.Config
    /** The Rehydration API: the records it answers to a POST of these IDs. */
    const api: seq<string> -> seq<Activity>

    var files: map<string, string>
    var datastore: seq<string>
    var idNaList: seq<string>
    var idOldList: seq<string>
    var inBox: map<string, string>
    var inBoxCompleted: map<string, string>
    var idRequestList: seq<string>
    var log: seq<Pipeline.Event>

    /** The fields, as the world the `Pipeline` functions act on. */
    function State(): Pipeline.World
      reads this
    {
      Pipeline.World(files, datastore, idNaList, idOldList, inBox, inBoxCompleted, idRequestList, log)
    }

    /** `initialize`: the request, na and old lists start empty. */
    constructor (cfg: Pipeline.Config, api: seq<string> -> seq<Activity>, files: map<string, string>,
                 datastore: seq<string>, inBox: map<string, string>, inBoxCompleted: map<string, string>)
      ensures this.cfg == cfg && this.api == api
      ensures State() == Pipeline.Initial(files, datastore, inBox, inBoxCompleted)
    {
      this.cfg := cfg;
      this.api := api;
      this.files := files;
      this.datastore := datastore;
      idNaList := [];
      idOldList := [];
      this.inBox := inBox;
      this.inBoxCompleted := inBoxCompleted;
      idRequestList := [];
      log := [];
    }

    /** `parseRequestList`: the tokens become the request list, and are returned. */
    method ParseRequestList(contents: string) returns (ids: seq<string>)
      modifies this
      ensures ids == IdListParser.ParseRequestList(contents)
      ensures State() == old(State()).(requestList := ids)
    {
      ids := IdListParser.ParseRequestList(contents);
      idRequestList := ids;
    }

    /** `handleNotAvailable`: classify the status, append the ID, write the detail file if asked to. */
    method HandleNotAvailable(id: string, status: string)
      modifies this
      ensures State() == Pipeline.HandleNotAvailable(cfg, old(State()), id, status)
    {
      if Contains(status, "timeframe") {
        idOldList := idOldList + [id];
        if cfg.keepNaFiles {
          files := files[Pipeline.OldPath(cfg, id) := Pipeline.Detail(id, status)];
        }
      } else if Contains(status, "not found") || Contains(status, "invalid ID") {
        idNaList := idNaList + [id];
        if cfg.keepNaFiles {
          files := files[Pipeline.NaPath(cfg, id) := Pipeline.Detail(id, status)];
        }
      }
    }

    /** `processResponse`: each record in response order goes to its file, the datastore or `HandleNotAvailable`. */
    method ProcessResponse(records: seq<Activity>)
      modifies this
      ensures State() == Pipeline.ProcessResponse(cfg, old(State()), records)
    {
      for i := 0 to |records|
        invariant Pipeline.ProcessResponse(cfg, State(), records[i..]) == Pipeline.ProcessResponse(cfg, old(State()), records)
      {
        assert records[i..][0] == records[i] && records[i..][1..] == records[i + 1..];
        match records[i]
        case Available(id, content) =>
          if cfg.storage == "files" {
            files := files[Pipeline.JsonPath(cfg, id) := content];
          } else {
            datastore := datastore + [content];
          }
        case Unavailable(id, status) =>
          HandleNotAvailable(id, status);
      }
    }

    /** `@http.POST` of one group: recorded in the log, answered by the API. */
    method Post(ids: seq<string>) returns (response: seq<Activity>)
      modifies this
      ensures response == api(ids)
      ensures State() == old(State()).(log := old(log) + [Pipeline.Posted(ids)])
    {
      log := log + [Pipeline.Posted(ids)];
      response := api(ids);
    }

    /** `manageRequests`: the request list in consecutive groups of at most 25, one POST each. */
    method ManageRequests()
      modifies this
      ensures State() == Pipeline.ManageRequests(cfg, api, old(State()))
    {
      var ids := idRequestList;
      var i := 0;
      while i < |ids|
        invariant 0 <= i <= |ids|
        invariant idRequestList == ids
        invariant Pipeline.ManageGroups(cfg, api, State(), Batches(ids[i..]))
                  == Pipeline.ManageRequests(cfg, api, old(State()))
      {
        var end := if |ids| - i <= IdApiRequestLimit then |ids| else i + IdApiRequestLimit;
        var group := ids[i..end];
        assert Batches(ids[i..]) == [group] + Batches(ids[end..]) by {
          if |ids| - i > IdApiRequestLimit {
            assert ids[i..][..IdApiRequestLimit] == group;
            assert ids[i..][IdApiRequestLimit..] == ids[end..];
          } else {
            assert group == ids[i..];
            assert ids[end..] == [];
            assert Batches(ids[end..]) == [];
          }
        }
        var response := Post(group);
        ProcessResponse(response);
        i := end;
      }
    }

    /** `writeList(kind, list)`: append the list to `<out_box_kind>/ids_<kind>.dat`. */
    method WriteList(kind: Pipeline.ListKind, list: seq<string>)
      modifies this
      ensures State() == Pipeline.WriteList(cfg, old(State()), kind, list)
    {
      log := log + [Pipeline.Appended(Pipeline.ListPath(cfg, kind), list)];
    }

    /**
      The body of the `getActivities` loop for one regular file: strip and
      parse its text, run its requests, move it to the completed folder, then
      append both lists.
     */
    method ProcessFile(e: Pipeline.Entry)
      requires !Pipeline.Skipped(e) && e.name in inBox
      modifies this
      ensures State() == Pipeline.ProcessEntry(cfg, api, old(State()), e)
    {
      var contents := inBox[e.name];
      var ids := ParseRequestList(Strip(contents));
      ManageRequests();
      inBox := inBox - {e.name};
      inBoxCompleted := inBoxCompleted[e.name := contents];
      log := log + [Pipeline.Moved(e.name)];
      WriteList(Pipeline.Na, idNaList);
      WriteList(Pipeline.Old, idOldList);
    }

    /**
      `getActivities`: every regular file of the listing is stripped, parsed and
      requested, then moved to the completed folder, then both lists are appended.
     */
    method GetActivities(entries: seq<Pipeline.Entry>)
      requires Pipeline.InboxListing(inBox, entries)
      modifies this
      ensures State() == Pipeline.GetActivities(cfg, api, old(State()), entries)
    {
      for k := 0 to |entries|
        invariant Pipeline.InboxListing(inBox, entries[k..])
        invariant Pipeline.GetActivities(cfg, api, State(), entries[k..])
                  == Pipeline.GetActivities(cfg, api, old(State()), entries)
      {
        var e := entries[k];
        assert entries[k..][0] == e && entries[k..][1..] == entries[k + 1..];
        Pipeline.ListingAfterEntry(cfg, api, State(), entries[k..]);
        if e.name == "." || e.name == ".." {
        } else if e.isDirectory {
        } else {
          ProcessFile(e);
        }
      }
    }
  }
}
