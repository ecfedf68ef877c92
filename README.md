# Rehydration batch pipeline, modelled in Dafny

This project models the batch core of the Gnip Rehydration script
(`pt_rehydration.rb`), which fetches archived posts by ID. The model covers:

- how one in-box file's text becomes a list of ID tokens (`parseRequestList`);
- how the list is cut into API requests of at most 25 IDs (`manageRequests`);
- how each returned record is routed (`processResponse`): an available record goes to an `<id>.json` file or to the datastore, and an unavailable one goes to the na or old list (`handleNotAvailable`);
- how a pass over the in-box moves each file to the completed folder and appends the na and old lists to their `.dat` files (`getActivities`, `writeList`).

It also models the small helpers from the same file:

- the URL builder of `PtREST`;
- the `PtDatabase` helpers that do not talk to MySQL: native ID, Point coordinates, matching rules, and the quote/backslash scrub.

Layout, one module per file:

- `ruby_string.dfy` (`RubyString`): the Ruby string operations the core uses.
  - `\s`, and `strip`, which also removes NUL.
  - `gsub(/\s+/, "")`.
  - `include?`.
  - `split` on one character or on `/\D/`. Leading and inner empty fields are kept; trailing ones are dropped.
  - awk-style `split(" ")`.
  - `gsub` of one character.

  Each is written out as its own definition, and lemmas state where it cuts the text and what it keeps.
- `id_list_parser.dfy` (`IdListParser`): `parseRequestList` and one lemma per delimiter branch.
- `batching.dfy` (`Batching`): `each_slice(ID_API_REQUEST_LIMIT)` with `ID_API_REQUEST_LIMIT = 25`.
- `activities.dfy` (`Activities`): the parsed response record (`Available(id, content)` / `Unavailable(id, status)`), the status classifier, and the per-response filters.
- `pipeline.dfy` (`Pipeline`): the world the pipeline acts on, and one pure transformer per Ruby method.
  - The world holds the out-box files, the datastore hand-overs, the two lists, the in-box and completed folders, the request list, and a log of POSTs, moves and list appends.
  - Each transformer takes the world before the call and returns the world after it.
- `pipeline_properties.dfy` (`PipelineProperties`): what the pipeline guarantees, as lemmas about those transformers.
- `rehydration.dfy` (`Rehydration`): the class `PtRehydration`. Its fields are updated in place by `while`/`for` loops that mirror `each`, `each_slice` and `Dir.foreach`. Every method is proved to leave exactly the state that the matching `Pipeline` function gives, so every `PipelineProperties` lemma holds of the class.
- `rest.dfy` (`Rest`): `PtREST#getRehydrationURL` as a method on class `PtRest`.
- `wrappers.dfy` (`Wrappers`): the `Option` type, for a value that may be nil or a parse that may fail.
- `database_helpers.dfy` (`DatabaseHelpers`):
  - `getNativeID`, with Ruby's `Integer()` written out.
  - `getGeoCoordinates` and `getMatchingRules`.
  - `handleSpecialCharacters`, as an in-place method on a character array.

Where the documented behaviour and the code differ, the model follows the code:

- In the catch-all branch the code splits on every single non-digit (`/\D/`), not on runs of them. So `"1|2||3"` gives `["1", "2", "", "3"]`; see `RubyString.FieldsAdjacentSeparators`.
- The na and old lists are created once in `initialize` and never cleared. Each append to `ids_na.dat` / `ids_old.dat` therefore carries the cumulative lists of all earlier files, not a per-file summary.
- A status that matches none of the three conditions is dropped. It is not defaulted to the na list.

## Model

| member | source | states |
|---|---|---|
| RubyString.RemoveSpaces | pt_rehydration.rb:280 | the result holds no whitespace, is no longer than the text, and is the text itself when it held none |
| RubyString.RemoveSpacesAppend | pt_rehydration.rb:280 | deleting whitespace distributes over concatenation |
| RubyString.RemoveSpacesDropsSpace | pt_rehydration.rb:280 | a whitespace character anywhere in the text contributes nothing |
| RubyString.RemoveSpacesKeeps | pt_rehydration.rb:289 | deleting whitespace introduces no character the text did not hold |
| RubyString.StripLeft | pt_rehydration.rb:343 | `lstrip`, defined as dropping leading whitespace and NULs one at a time; what it keeps is stated by StripLeftSuffix |
| RubyString.StripRight | pt_rehydration.rb:343 | `rstrip`, defined as dropping trailing whitespace and NULs one at a time; what it keeps is stated by StripRightPrefix |
| RubyString.Strip | pt_rehydration.rb:343 | `strip!`, defined as `rstrip` after `lstrip`; StripEmpty and the two lemmas below state its result |
| RubyString.StripLeftSuffix | pt_rehydration.rb:343 | `lstrip` leaves a suffix that does not start with whitespace or NUL, and everything it drops is whitespace or NUL |
| RubyString.StripRightPrefix | pt_rehydration.rb:343 | `rstrip` leaves a prefix that does not end with whitespace or NUL, and everything it drops is whitespace or NUL |
| RubyString.StripEmpty | pt_rehydration.rb:343 | the stripped text is empty exactly when the text holds only whitespace and NULs |
| RubyString.Fields | pt_rehydration.rb:281 | the unlimited split gives at least one field, and no field holds the separator |
| RubyString.DropTrailingEmpty | pt_rehydration.rb:281 | the trailing empty fields are removed and only those: the result is a prefix, its last field is not empty, and every field dropped was empty |
| RubyString.Split | pt_rehydration.rb:281-290 | no field of `split` holds the separator, and the last field is never empty |
| RubyString.JoinFields | pt_rehydration.rb:281 | joining the fields with the separator gives the text back |
| RubyString.JoinDropped | pt_rehydration.rb:281 | dropping the trailing empty fields drops only separators from the joined text |
| RubyString.FieldsConsSeparator | pt_rehydration.rb:281 | a leading separator gives a leading empty field |
| RubyString.FieldsConsPlain | pt_rehydration.rb:281 | a leading non-separator starts the first field |
| RubyString.FieldsOfPlain | pt_rehydration.rb:281 | a text without the separator is one field, itself |
| RubyString.SplitJoin | pt_rehydration.rb:281-285 | the text is the `split` fields joined by the separator, followed by some number of separators (the trailing empty fields `split` dropped) |
| RubyString.FieldsAppend | pt_rehydration.rb:281 | a separator cuts the fields of the text exactly at that point |
| RubyString.SplitTrailingSeparator | pt_rehydration.rb:283 | a separator at the end of the text changes nothing in `split` |
| RubyString.FieldsAdjacentSeparators | pt_rehydration.rb:290 | two separators in a row keep the empty field between them |
| RubyString.FieldsAllEmpty | pt_rehydration.rb:625 | every field is empty exactly when every character is a separator |
| RubyString.SplitEmpty | pt_rehydration.rb:625 | `split(c)` gives no field exactly when the text is empty or nothing but `c` |
| RubyString.SplitLast | pt_rehydration.rb:625 | the last field of `split(c)` is the non-empty text after the last `c` |
| RubyString.SplitChars | pt_rehydration.rb:281-290 | every character of every field is a character of the text |
| RubyString.Digits | pt_rehydration.rb:290 | the digits of a text, kept in order, are all digits |
| RubyString.NonDigitFieldsConcat | pt_rehydration.rb:290 | the unlimited fields of a split on `/\D/`, run together, are the digits of the text |
| RubyString.ConcatDropped | pt_rehydration.rb:290 | dropping empty trailing fields does not change their concatenation |
| RubyString.NonDigitSplitConcat | pt_rehydration.rb:290 | the fields of a split on `/\D/`, run together, are exactly the digits of the text in order |
| RubyString.DigitsOfRemoveSpaces | pt_rehydration.rb:289-290 | deleting whitespace does not change the digits of the text |
| RubyString.WordLength | pt_rehydration.rb:287 | the leading word is free of whitespace and ends at the text's end or at a whitespace character |
| RubyString.AwkSplit | pt_rehydration.rb:287 | the awk-style split gives only non-empty words free of whitespace |
| RubyString.AwkSplitConcat | pt_rehydration.rb:287 | the words, run together, are the text without its whitespace |
| RubyString.AwkSplitChars | pt_rehydration.rb:287 | every character of every word is a character of the text |
| RubyString.WordLengthBeforeSpace | pt_rehydration.rb:287 | a whitespace character after the text does not extend its leading word (helper for AwkSplitAtSpace) |
| RubyString.AwkSplitAtSpace | pt_rehydration.rb:287 | a whitespace character cuts the text: the words of the whole are the words before it followed by the words after it |
| RubyString.AwkSplitOfWord | pt_rehydration.rb:287 | a non-empty text without whitespace is exactly one word, itself |
| RubyString.Contains | pt_rehydration.rb:221 | `include?`, defined as: the pattern is a prefix of the text or of one of its suffixes; ContainsAt and ContainsOccurs tie it to substring positions in both directions |
| RubyString.ContainsAt | pt_rehydration.rb:221 | a pattern occurring at any position is contained (`include?`) |
| RubyString.ContainsOccurs | pt_rehydration.rb:221 | conversely, when `include?` holds it returns a position at which the pattern occurs in the text |
| RubyString.ContainsLength | pt_rehydration.rb:221-231 | a pattern longer than the text is never contained |
| RubyString.ContainsInfix | pt_rehydration.rb:221-231 | a text contains every infix of it, whatever surrounds it |
| RubyString.ContainsNeedsChar | pt_rehydration.rb:221-231 | a text without some character of the pattern does not contain the pattern |
| RubyString.Replaced | pt_rehydration.rb:686-690 | `gsub` of one character keeps the length |
| RubyString.ReplacedAt | pt_rehydration.rb:686-690 | each position holds the replacement if it held the replaced character, else its old character |
| IdListParser.ParseRequestList | pt_rehydration.rb:277-294 | no ID token ever holds a comma, and empty text gives no ID |
| IdListParser.CommaPrecedence | pt_rehydration.rb:279-281 | with a comma anywhere, all whitespace is deleted and the text is split on commas only; no token holds whitespace or a comma; the tokens joined by commas give back the whitespace-free text up to trailing commas |
| IdListParser.CommaFileIgnoresWhitespace | pt_rehydration.rb:279-281 | in a comma file a whitespace character anywhere, tab or newline included, changes no ID |
| IdListParser.TabBranch | pt_rehydration.rb:282-283 | without a comma but with a tab, the text is split on tabs; no token holds a tab or a comma; the tokens joined by tabs give back the text up to trailing tabs |
| IdListParser.TabSeparatedIds | pt_rehydration.rb:282-283 | three comma-free and tab-free IDs separated by tabs are read back as exactly those three |
| IdListParser.TrailingTabIgnored | pt_rehydration.rb:282-283 | in the tab branch a trailing tab adds no empty ID |
| IdListParser.NewlineBranch | pt_rehydration.rb:284-285 | with neither comma nor tab but a newline, the text is split on newlines; no token holds a newline, tab or comma; the join gives back the text up to trailing newlines |
| IdListParser.SpaceBranch | pt_rehydration.rb:286-287 | with only spaces left as delimiters, the tokens are non-empty and free of whitespace, and together they spell the text without its whitespace |
| IdListParser.SpaceSeparatedIds | pt_rehydration.rb:286-287 | two whitespace-free, comma-free IDs separated by a space are read back as exactly those two |
| IdListParser.NonDigitBranch | pt_rehydration.rb:288-290 | the catch-all is the split on every non-digit of the whitespace-free text; every token is a run of digits, and the tokens together are exactly the digits of the text |
| IdListParser.NonDigitSeparatedIds | pt_rehydration.rb:288-290 | in the catch-all one non-digit between two runs of digits cuts the text into exactly those two runs, an empty first run kept as an empty ID |
| IdListParser.BlankFileHasNoIds | pt_rehydration.rb:343-345 | a file holding only whitespace and NULs gives no ID once stripped |
| Batching.Batches | pt_rehydration.rb:311 | every group holds between 1 and 25 IDs, and every group but the last holds exactly 25 |
| Batching.BatchesPartition | pt_rehydration.rb:311 | the groups, concatenated in order, are exactly the request list |
| Batching.BatchCount | pt_rehydration.rb:311 | there are ceil(N / 25) groups for N IDs, and none for none |
| Activities.Classify | pt_rehydration.rb:221-241 | the outcome of the `include?` conditions in their order: "timeframe" first, then "not found" or "invalid ID", else nothing; the Classify lemmas and HandleNotAvailableLists state it |
| Activities.FiltersAppend | pt_rehydration.rb:259-272 | the na IDs, old IDs and available contents of two responses in a row are those of the first, then those of the second |
| Activities.LastContentAppend | pt_rehydration.rb:264-266 | for one ID, a later record's content wins over every earlier one |
| Activities.ClassifyOutsideTimeframe | pt_rehydration.rb:221 | the status "outside available timeframe" goes to the old list |
| Activities.ClassifyNotAvailable | pt_rehydration.rb:231-233 | the statuses "not found" and "invalid ID format" both go to the na list |
| Activities.ClassifyUnrecognised | pt_rehydration.rb:221-241 | the conditions are case-sensitive, so "Not Found" matches none of them, and an unknown status such as "rate limited" is dropped, not defaulted to the na list |
| Pipeline.Initial | pt_rehydration.rb:134-136 | `initialize` leaves the request list, the na list and the old list empty |
| Pipeline.HandleNotAvailable | pt_rehydration.rb:218-246 | handling an unavailable record touches only the two lists and the files |
| Pipeline.ProcessActivity | pt_rehydration.rb:260-272 | routing one record never touches the in-box, the completed folder, the request list or the POST log |
| Pipeline.ProcessResponse | pt_rehydration.rb:255-274 | routing a response never touches the in-box, the completed folder, the request list or the POST log |
| Pipeline.Posts | pt_rehydration.rb:311-321 | one POST event per group, in group order, carrying that group |
| Pipeline.ManageGroups | pt_rehydration.rb:311-322 | the log grows by exactly one POST per group, in order; the in-box, completed folder and request list are unchanged |
| Pipeline.ManageRequests | pt_rehydration.rb:309-323 | running the requests of the request list leaves the in-box, the completed folder and the request list as they were |
| Pipeline.WriteList | pt_rehydration.rb:297-306 | `writeList` appends the whole list to `<out_box_kind>/ids_<kind>.dat` and changes nothing else |
| Pipeline.FileIds | pt_rehydration.rb:343-345 | the IDs of one in-box file: its text stripped, then parsed; ProcessEntryMove states that they become the request list |
| Pipeline.ProcessEntry | pt_rehydration.rb:335-357 | a skipped entry (".", "..", a sub-directory) changes nothing at all; a regular one leaves the in-box; the completed folder only grows |
| Pipeline.ListingAfterEntry | pt_rehydration.rb:335 | after one entry is handled, the rest of the listing still names files of the in-box |
| Pipeline.GetActivities | pt_rehydration.rb:332-358 | the whole pass over the listing: files only ever leave the in-box, and the completed folder only ever grows; GetActivitiesFrame, GetActivitiesLists and GetActivitiesStore state exactly what a pass changes |
| PipelineProperties.HandleNotAvailableLists | pt_rehydration.rb:221-241 | a "timeframe" status goes to the old list even if it also says "not found"; otherwise "not found" or "invalid ID" goes to the na list; any other status changes nothing; at most one ID, the record's own, is appended |
| PipelineProperties.HandleNotAvailableDetailFiles | pt_rehydration.rb:225-239 | detail files are written only with `keep_na_files`, at `<out_box_old>/<id>.old` or `<out_box_na>/<id>.na`, holding exactly `id => status` |
| PipelineProperties.DetailFileOverwritten | pt_rehydration.rb:227-228 | a second record for the same ID replaces the detail file's text (mode "w") |
| PipelineProperties.PathEndings | pt_rehydration.rb:227-264 | the `.json`, `.na` and `.old` paths end in 'n', 'a' and 'd' |
| PipelineProperties.DetailPathsAreNotJson | pt_rehydration.rb:227-264 | a detail file is never an activity file |
| PipelineProperties.JsonPathInjective | pt_rehydration.rb:264 | different IDs get different activity files |
| PipelineProperties.AvailableLeavesLists | pt_rehydration.rb:260-269 | an available record never touches the lists; with "files" storage it writes `<out_box>/<id>.json`, otherwise it hands its content to the datastore |
| PipelineProperties.ProcessActivityLists | pt_rehydration.rb:259-272 | one record adds its own na or old ID, if any |
| PipelineProperties.ProcessResponseLists | pt_rehydration.rb:259-272 | the lists grow by the response's na IDs and old IDs, in response order |
| PipelineProperties.ProcessResponseStore | pt_rehydration.rb:263-269 | without "files" storage the datastore receives every available content in response order; with it the datastore is untouched |
| PipelineProperties.ProcessResponseJsonFile | pt_rehydration.rb:263-266 | with "files" storage `<out_box>/<id>.json` holds the content of the last available record with that ID, and is untouched when there is none |
| PipelineProperties.ProcessResponseWritesNoFile | pt_rehydration.rb:225-266 | with neither detail files nor "files" storage no file is written |
| PipelineProperties.ResponsesAppend | pt_rehydration.rb:311-321 | the answers to consecutive runs of groups are the answers to the first run followed by those to the second |
| PipelineProperties.ManageRequestsPosts | pt_rehydration.rb:309-323 | one POST per group of the request list, in order: ceil(N / 25) POSTs, and together they carry the request list exactly |
| PipelineProperties.EmptyRequestListNoPost | pt_rehydration.rb:311 | an empty request list makes no POST and changes nothing |
| PipelineProperties.ManageGroupsLists | pt_rehydration.rb:311-322 | across all groups the lists grow by the na and old IDs of all the responses, in order |
| PipelineProperties.ManageGroupsStore | pt_rehydration.rb:311-322 | without "files" storage the datastore receives the available contents of all responses, in order |
| PipelineProperties.ManageGroupsJsonFile | pt_rehydration.rb:311-322 | across all groups an activity file holds the content of the last available record for its ID |
| PipelineProperties.ProcessEntryMove | pt_rehydration.rb:341-352 | a regular file leaves the in-box for the completed folder under the same name with the text it had; the request list is its parsed IDs; the lists grow by what its responses hold |
| PipelineProperties.ProcessEntryLog | pt_rehydration.rb:345-356 | one file's actions come in this order: all its POSTs, then the move, then the append of the whole na list, then of the whole old list |
| PipelineProperties.ThreeUnavailableIds | pt_rehydration.rb:221-358 | a file of three IDs answered not-found, invalid and too-old makes one POST; the na list grows by the first two IDs and the old list by the third, and the appends carry those lists; the datastore is untouched; the files change by exactly the three detail files with `keep_na_files` and not at all without |
| PipelineProperties.ThreeUnavailableRecords | pt_rehydration.rb:259-272 | three records are handled one after another, in response order |
| PipelineProperties.BlankFileNoPost | pt_rehydration.rb:343-356 | a blank file makes no POST: it causes only the move and the two appends |
| PipelineProperties.GetActivitiesSkipsAll | pt_rehydration.rb:337-338 | ".", ".." and sub-directories are skipped: a listing of only those changes nothing |
| PipelineProperties.GetActivitiesListsGrow | pt_rehydration.rb:335-357 | the lists are never cleared: after a pass they start with the lists before it |
| PipelineProperties.GetActivitiesCompletes | pt_rehydration.rb:352 | every regular file listed ends up in the completed folder with its text, and not in the in-box |
| PipelineProperties.ListedNames | pt_rehydration.rb:337-341 | a name is among the files a pass handles exactly when some listed entry that is not skipped has that name |
| PipelineProperties.PassGroupsRemove | pt_rehydration.rb:341-352 | the ID groups of the files still to come do not depend on a file already moved out of the in-box |
| PipelineProperties.ProcessEntryStore | pt_rehydration.rb:341-352 | with a database, one regular file adds to the datastore the contents of its available activities, in response order |
| PipelineProperties.PassRecordsStep | pt_rehydration.rb:335-357 | the responses of a pass are those to the first regular file's groups, followed by those of the rest of the pass |
| PipelineProperties.GetActivitiesStep | pt_rehydration.rb:335-357 | a pass is its first entry followed by a pass over the rest, whose names are still in the in-box as needed |
| PipelineProperties.PassListsStep | pt_rehydration.rb:311-321 | list growth by one file's records and then by the rest's is growth by all of them, in order |
| PipelineProperties.PassStoreStep | pt_rehydration.rb:311-321 | the same for the datastore |
| PipelineProperties.GetActivitiesFrame | pt_rehydration.rb:332-358 | nothing else changes in the folders: after a pass the in-box is the old in-box minus exactly the listed regular files, and the completed names are the old ones plus exactly those |
| PipelineProperties.GetActivitiesLists | pt_rehydration.rb:332-358 | after a pass the na list and the old list are their old values followed by the unavailable and the too-old IDs of all the listed files' responses, in listing order |
| PipelineProperties.GetActivitiesStore | pt_rehydration.rb:332-358 | with a database, after a pass the datastore is its old value followed by the contents of all the listed files' available activities, in listing order |
| PipelineProperties.LaterKeep | pt_rehydration.rb:352 | a completed file that is not listed again stays completed and out of the in-box |
| Rehydration.PtRehydration.constructor | pt_rehydration.rb:134-136 | the object starts with empty request, na and old lists |
| Rehydration.PtRehydration.ParseRequestList | pt_rehydration.rb:277-294 | the tokens are returned and become `@id_request_list`; nothing else changes |
| Rehydration.PtRehydration.HandleNotAvailable | pt_rehydration.rb:218-246 | the fields become what `Pipeline.HandleNotAvailable` gives |
| Rehydration.PtRehydration.ProcessResponse | pt_rehydration.rb:255-274 | the `each` loop leaves the fields as `Pipeline.ProcessResponse` gives them |
| Rehydration.PtRehydration.Post | pt_rehydration.rb:319 | a POST is logged with its group, and the answer is the API's |
| Rehydration.PtRehydration.ManageRequests | pt_rehydration.rb:309-323 | the `each_slice` loop leaves the fields as `Pipeline.ManageRequests` gives them |
| Rehydration.PtRehydration.WriteList | pt_rehydration.rb:297-306 | one append of the list to its `.dat` file is logged |
| Rehydration.PtRehydration.ProcessFile | pt_rehydration.rb:341-356 | one regular file is handled as `Pipeline.ProcessEntry` states |
| Rehydration.PtRehydration.GetActivities | pt_rehydration.rb:332-358 | the `Dir.foreach` loop leaves the fields as `Pipeline.GetActivities` gives them |
| Rest.RehydrationUrl | pt_rehydration.rb:409-412 | the activities endpoint of an account and publisher; UrlNamesAccount and UrlInjective state what it determines |
| Rest.UpToSlash | pt_rehydration.rb:409-412 | a helper for UrlNamesAccount: the account segment read back out of a built URL is a prefix of what follows the root URL and holds no '/' |
| Rest.UrlNamesAccount | pt_rehydration.rb:409-412 | the URL starts with the root URL, and an account name without '/' is read back from it unchanged |
| Rest.UrlInjective | pt_rehydration.rb:409-412 | different accounts (without '/') give different URLs |
| Rest.PtRest.constructor | pt_rehydration.rb:370-387 | `PtREST.new` with no arguments: `@url` and `@account_name` start nil; the publisher is the one the caller then assigns |
| Rest.PtRest.GetRehydrationURL | pt_rehydration.rb:402-414 | an account passed in wins, then the client's own account; `@url` becomes base + account + "/publishers/" + publisher + "/rehydration/activities.json" and is returned; with no account `@url` is set to the root URL alone and the returned value is the message `p` printed |
| DatabaseHelpers.DigitValue | pt_rehydration.rb:625 | a decimal digit has its usual value, and no character is worth more than 36 |
| DatabaseHelpers.Radix | pt_rehydration.rb:625 | `Integer()` reads base 2, 8, 10 or 16, and its digits start within the text |
| DatabaseHelpers.TrimLeftSuffix | pt_rehydration.rb:625 | `Integer()` drops leading whitespace and only that |
| DatabaseHelpers.TrimRightPrefix | pt_rehydration.rb:625 | `Integer()` drops trailing whitespace and only that |
| DatabaseHelpers.TrimNothing | pt_rehydration.rb:625 | text that neither starts nor ends with whitespace is not trimmed |
| DatabaseHelpers.ParseInteger | pt_rehydration.rb:625 | `Integer()` on a string: surrounding whitespace trimmed, an optional sign, a radix prefix, then digits of that radix; the ParseInteger lemmas state its values |
| DatabaseHelpers.ParseIntegerPlain | pt_rehydration.rb:625 | trimmed text without a sign reads as the unsigned value |
| DatabaseHelpers.ParseIntegerMinus | pt_rehydration.rb:625 | trimmed text with a minus sign reads as the negated value after it |
| DatabaseHelpers.GetNativeID | pt_rehydration.rb:624-626 | it raises for want of a field exactly when `split(":")` gives none |
| DatabaseHelpers.DecimalString | pt_rehydration.rb:622 | a number's decimal text is a non-empty run of digits without a leading zero |
| DatabaseHelpers.DecimalStringValue | pt_rehydration.rb:625 | the decimal text of n has the value n in base 10 |
| DatabaseHelpers.DecimalStringUnsigned | pt_rehydration.rb:625 | the decimal text of n reads back as n without a sign |
| DatabaseHelpers.DecimalStringParses | pt_rehydration.rb:625 | `Integer()` of the decimal text of n is n |
| DatabaseHelpers.NativeIdAfterLastColon | pt_rehydration.rb:620-626 | for the documented form `tag:search.twitter.com,2005:<n>`, whatever precedes the last ':', the native ID is the number after it |
| DatabaseHelpers.NativeIdIgnoresTrailingColon | pt_rehydration.rb:625 | a trailing ':' does not hide the number before it (`split` drops the empty last field) |
| DatabaseHelpers.NativeIdNeedsAField | pt_rehydration.rb:625 | an empty ID, or one of only ':', raises instead of giving a number |
| DatabaseHelpers.ParseIntegerNegative | pt_rehydration.rb:625 | a minus sign before the decimal text of n reads as -n |
| DatabaseHelpers.ParseIntegerHex | pt_rehydration.rb:625 | a 0x prefix reads the digits after it as hexadecimal |
| DatabaseHelpers.LeadingZeroIsOctal | pt_rehydration.rb:625 | a leading zero followed by digits means octal, so an 8 or 9 after it is rejected |
| DatabaseHelpers.GetGeoCoordinates | pt_rehydration.rb:657-679 | the default (0, 0), as opposed to coordinate values, exactly when there is no root `geo` of type "Point"; for a Point, `coordinates[0]` and `coordinates[1]` in that order, each nil when the array is too short for it |
| DatabaseHelpers.GetMatchingRules | pt_rehydration.rb:634-636 | the rule value and the rule tag are both "rehydration" |
| DatabaseHelpers.Sanitized | pt_rehydration.rb:684-691 | the scrubbed text: every quote and every backslash replaced by '_'; SanitizedAt, SanitizedIsClean and SanitizedIdempotent state it |
| DatabaseHelpers.SanitizedAt | pt_rehydration.rb:683-693 | the scrub keeps the length; each quote or backslash becomes '_' and every other character stays |
| DatabaseHelpers.SanitizedIsClean | pt_rehydration.rb:683-693 | no quote and no backslash survives |
| DatabaseHelpers.SanitizedIdempotent | pt_rehydration.rb:683-693 | scrubbing twice is scrubbing once |
| DatabaseHelpers.ReplacedAbsent | pt_rehydration.rb:685-690 | a `gsub!` skipped because `include?` is false would have changed nothing |
| DatabaseHelpers.ReplaceAll | pt_rehydration.rb:686-689 | `gsub!` of one character, in place, leaves exactly the replaced text |
| DatabaseHelpers.HandleSpecialCharacters | pt_rehydration.rb:683-693 | the text, changed in place, becomes its scrubbed form |

## Left out

- JSON: `JSON.parse` of the response and `to_json` of contents, lists and request bodies are library calls. A response is taken as an already-parsed sequence of records. `content` is the activity's JSON text, passed through unread. A `.dat` append is logged with the list it serialises.
- HTTP: the `PtREST` transport (`POST`/`PUT`/`GET`/`DELETE`, TLS, basic auth, `url=` and `URI.parse`) is a foreign library. The API is a function from a group of IDs to the records it answers.
- MySQL: `connect`, `storeActivity`, the SQL text and the native-ID/posted-time/geo extraction done when storing are a foreign database client. The datastore is the sequence of contents handed to `storeActivity`. The helpers `storeActivity` calls are modelled on their own.
- Configuration and start-up: YAML loading, Base64 password handling, `OptionParser`, and `checkDirectory`/`mkpath` are glue and library calls. All directories are taken as existing, and the configuration as given.
- `getPostedTime` and `getFileDateString` read dates and the clock through library calls.
- Console output from `p` is not modelled. Only the value `p` returns in `getRehydrationURL` is kept.
- `Dir.foreach` order: the in-box listing is a given sequence of entries. It is required to name only files of the in-box, each regular name once, as a real directory listing does.
- Encoding: file text is taken as a sequence of characters. Invalid byte sequences, on which `gsub!(/\s+/, "")`, `split(/\D/)` and `strip!` raise before the file is moved, are not modelled.
- I/O failures and the error paths they raise are not modelled: a missing file, a failed `mv`, a non-2xx response, malformed JSON, or a record without `status`.
- The file system is reduced to three parts: out-box files (path to text), the in-box and completed folders (name to text), and the log of appends. The model does not capture aliasing between these directories. Example: an out-box configured to be the in-box.
- Pipeline.ProcessActivity: any storage value other than "files" hands the content to the datastore. The source fails there when `@datastore` was never set, that is, when storage is neither "files" nor "database".
- DatabaseHelpers.ParseInteger: the underscores `Integer()` accepts between digits (`"1_000"`) are not modelled. Such text reads as not an integer.
- DatabaseHelpers.GetGeoCoordinates: `coordinates` is always a sequence. A `geo` Point without a `coordinates` array (nil in Ruby, which raises) is not modelled. The latitude and longitude values are opaque, standing in for floating-point numbers. So a Point at [0, 0] gives two `Value`s, which the model keeps apart from the default `Zero`, although Ruby returns equal numbers in both cases.
- Rest.PtRest.GetRehydrationURL: what the caller does with the result is not modelled. `initialize` assigns it to `@http.url`, even when it is the message.
- `handleSpecialCharacters` returns the same string object it was given. The model changes the array in place and returns nothing.
- `strip!` here removes NUL at both ends. Older Ruby versions leave a leading NUL in place.
