/**
  The records of a Rehydration API response and how the script classifies the
  unavailable ones from their status text.
 */
module Activities {
  import opened RubyString
  import opened Wrappers

  /**
    One element of the parsed response array. `content` is the activity's JSON
    as `to_json` renders it; the model never looks inside it.
   */
  datatype Activity =
    | Available(id: string, content: string)
    | Unavailable(id: string, status: string)

  /** What `handleNotAvailable` does with a status. */
  datatype Outcome =
    | TooOld          // appended to the old list
    | NotAvailable    // appended to the na list
    | Unrecognised    // dropped: no branch matches

  /**
    The order of the `include?` conditions: "timeframe" first; then "not found" or
    "invalid ID"; nothing else. The matches are case-sensitive substring matches.
   */
  function Classify(status: string): Outcome {
    if Contains(status, "timeframe") then TooOld
    else if Contains(status, "not found") || Contains(status, "invalid ID") then NotAvailable
    else Unrecognised
  }

  /** The IDs of a response that go to the na list, in response order. */
  function NaIds(records: seq<Activity>): (ids: seq<string>)
    ensures |ids| <= |records|
  {
    if records == [] then []
    else
      var head := match records[0]
        case Unavailable(id, status) => if Classify(status) == NotAvailable then [id] else []
        case Available(_, _) => [];
      head + NaIds(records[1..])
  }

  /** The IDs of a response that go to the old list, in response order. */
  function OldIds(records: seq<Activity>): (ids: seq<string>)
    ensures |ids| <= |records|
  {
    if records == [] then []
    else
      var head := match records[0]
        case Unavailable(id, status) => if Classify(status) == TooOld then [id] else []
        case Available(_, _) => [];
      head + OldIds(records[1..])
  }

  /** The contents of the available records of a response, in response order. */
  function AvailableContents(records: seq<Activity>): (contents: seq<string>)
    ensures |contents| <= |records|
  {
    if records == [] then []
    else
      var head := match records[0]
        case Available(_, content) => [content]
        case Unavailable(_, _) => [];
      head + AvailableContents(records[1..])
  }

  /** The content of the last available record with this ID, if any. */
  function LastContent(records: seq<Activity>, id: string): Option<string> {
    if records == [] then None
    else
      var later := LastContent(records[1..], id);
      if later.Some? then later
      else if records[0].Available? && records[0].id == id then Some(records[0].content)
      else None
  }

  /** The responses of consecutive requests, read as one record sequence. */
  lemma {:induction false} FiltersAppend(a: seq<Activity>, b: seq<Activity>)
    ensures NaIds(a + b) == NaIds(a) + NaIds(b)
    ensures OldIds(a + b) == OldIds(a) + OldIds(b)
    ensures AvailableContents(a + b) == AvailableContents(a) + AvailableContents(b)
    decreases |a|
  {
    if a != [] {
      assert (a + b)[1..] == a[1..] + b;
      FiltersAppend(a[1..], b);
    } else {
      assert a + b == b;
    }
  }

  /** A later record with the ID wins over every earlier one. */
  lemma {:induction false} LastContentAppend(a: seq<Activity>, b: seq<Activity>, id: string)
    ensures LastContent(a + b, id) == if LastContent(b, id).Some? then LastContent(b, id) else LastContent(a, id)
    decreases |a|
  {
    if a != [] {
      assert (a + b)[1..] == a[1..] + b;
      LastContentAppend(a[1..], b, id);
    } else {
      assert a + b == b;
    }
  }

  // The status texts of the API's documented example responses.

  lemma ClassifyOutsideTimeframe(status: string)
    requires status == "outside available timeframe"
    ensures Classify(status) == TooOld
  {
    assert status == "outside available " + "timeframe" + "";
    ContainsInfix("outside available ", "timeframe", "");
  }

  /** "not found" and "invalid ID format" both go to the na list. */
  lemma ClassifyNotAvailable(status: string)
    requires status == "not found" || status == "invalid ID format"
    ensures Classify(status) == NotAvailable
  {
    if status == "not found" {
      assert status == "" + "not found" + "";
      ContainsInfix("", "not found", "");
      ContainsNeedsChar(status, "timeframe", 'i');
    } else {
      assert status == "" + "invalid ID" + " format";
      ContainsInfix("", "invalid ID", " format");
      ContainsNeedsChar(status, "timeframe", 'e');
    }
  }

  /**
    The matches are case-sensitive ("Not Found" matches none of them), and a
    status none of the conditions matches is dropped, not defaulted to the na list.
   */
  lemma ClassifyUnrecognised(status: string)
    requires status == "Not Found" || status == "rate limited"
    ensures Classify(status) == Unrecognised
  {
    if status == "Not Found" {
      ContainsNeedsChar(status, "timeframe", 'i');
      ContainsNeedsChar(status, "not found", 'f');
      ContainsNeedsChar(status, "invalid ID", 'i');
    } else {
      ContainsNeedsChar(status, "timeframe", 'f');
      ContainsNeedsChar(status, "not found", 'o');
      ContainsNeedsChar(status, "invalid ID", 'v');
    }
  }
}
