# tiny_http error-log service, modelled in Dafny

This project models the logic of the tiny_http log service and proves properties of that model. The service collects error reports from game clients. It groups equal reports under the hash of their normalised message and keeps the reporters of each group. It serves lists, details and an HTML menu of the groups. A small offline script tallies which graphics features client devices support.

The model has one module per concern:

| file | module | what it models |
|---|---|---|
| basics.dfy | `Basics` | `Option`, its default (`OrDefault`), and `Reply`. A `Reply` is the three outcomes of a guarded handler: the Basic-auth challenge, `403 Forbidden`, or a body. |
| text.dfy | `Text` | The string helpers the handlers rely on. These are `split(",")` / `join(",")`, the first line of a message, and decimal formatting. They also include the two ways the code turns a stored id back into a number: an integer-column comparison and `parse::<i32>`. |
| auth.dfy | `Auth` | `user_authentication` (src/api/mod.rs): the admin tier, then the baseline tier, then an open door. |
| log_key.dfy | `LogKey` | `normalize_error_message` and the group key `md5(normalized + "-" + log_type)`. |
| log_store.dfy | `LogStore` | The `upload_log` and `upload_user` tables as a class `Store` with two maps and an id counter. The handlers upload, complete, remove, clear, detail and user-log are methods and functions of that class. The class invariant `Valid` says: ids below the counter, groups filed under their key, listed ids live, no id in two groups, and at most 101 ids per group. |
| log_list.dfy | `LogList` | `api_log_list`: the type filter, the status counts and the pagination arithmetic. |
| log_html.dfy | `LogHtml` | `index` routing and the `log_content` menu loop: skipping, numbering, dot colour, version tag, and the head placeholder. |
| show_support.dfy | `ShowSupport` | `convert_to_dict` (strip, key:value scan, last-wins dict, bool/int coercion), `collect_info_func` as a `Counter` class, and the row loop as a `Survey` class. |

Where the behaviour described for the service and its code disagree, the model follows the code:

- **Reporter cap.** A reporter is saved while the group lists at most 100 ids (`split(",").count() > 100` stops it). A group's list therefore stops at 101 ids, not 100.
- **Baseline credentials.** A caller passes the baseline tier when the username OR the password matches, not only when both do.
- **Group key.** It is computed from the normalised message, with every `0x…` address replaced.
- **Menu head.** The `log_content` head placeholder is emptied for an admin and gets the remove-all button for everybody else, as the code is written.

External effects are parameters:

- MD5 is the `digest` function the store is constructed with.
- The clock is the `now` argument.
- The caller address is an `Option<string>`.
- The JSON parse of a reporter's version string is a `parseVersion` function argument.
- The database rows are maps and sequences. A list already ordered by `last_time` descending is a precondition (`NewestFirst`) where ordering matters.

## Model

| member | source | states |
|---|---|---|
| Basics.OrDefault | src/api/mod.rs:32 | The value if present, else the default. It gives the empty password when Basic auth omits one, and `unknown` when the caller's address is missing (src/api/log.rs:76-80). |
| Auth.UserAuthentication | src/api/mod.rs:26-54 | There are three outcomes, each as an iff. Admin is granted exactly when an admin field is configured and both fields match the admin pair. The challenge is given exactly when a baseline field is configured and neither field matches it. Everyone else is an ordinary caller. |
| Auth.NoAdminWithoutAdminPair | src/api/mod.rs:34-41 | With both admin fields empty, nobody is ever admin. |
| Auth.OpenWhenUnconfigured | src/api/mod.rs:53 | With nothing configured, every caller is an ordinary caller. |
| Auth.BaselineUsernameAlonePasses | src/api/mod.rs:43-46 | The configured username passes the baseline tier with any password. |
| Auth.AdminBeatsBaseline | src/api/mod.rs:34-40 | The admin pair is granted admin whatever the baseline pair is. |
| Text.Split | src/api/log.rs:69 | `split` yields at least one piece, and no piece holds the separator. |
| Text.Join | src/api/log.rs:111 | `join(",")`: the pieces with the separator between them. Its inverse is stated by JoinSplit and SplitJoin. |
| Text.JoinSplit | src/api/log.rs:102-111 | Joining the pieces of a split gives the string back. |
| Text.SplitJoin | src/api/log.rs:102-111 | Splitting a join of separator-free pieces gives the pieces back. |
| Text.SplitAppend | src/api/log.rs:102-111 | Pushing a separator-free id and joining again splits into the old pieces plus the new one, at the end. |
| Text.FirstPieceOfSplit | src/api/log_html.rs:77-82 | The text up to the first separator is `split(...)[0]`. |
| Text.FirstPieceSpec | src/api/log_html.rs:77-82 | The first piece is a separator-free prefix. It ends at the end of the text or at a separator. |
| Text.NatToString | src/api/log.rs:107-110 | `format!("{}", id)` is a non-empty digit string without a leading zero. |
| Text.NatToStringRoundTrip | src/api/log.rs:107-110 | Reading back the digits of a formatted id gives the id. |
| Text.ParseDecimal | src/api/log.rs:351-354 | A token matches an integer id iff it is a non-empty run of digits, and then it matches its value. |
| Text.ParseDecimalRoundTrip | src/api/log.rs:351-354 | An id written by the upload is found again by the lookup. |
| Text.ParseI32 | src/api/log.rs:519-523 | `parse::<i32>` gives only values in the 32-bit range. On digits, `+` digits or `-` digits it gives the (negated) value iff that value fits. It gives nothing unless the text is digits after an optional first character and ends in a digit, so `""`, `"-"` and `"abc"` give nothing. |
| Text.ParseI32RoundTrip | src/api/log.rs:519-523 | Every 32-bit value written in decimal parses back to itself. |
| LogKey.HexRun | src/api/log.rs:40 | The greedy `[0-9a-fA-F]+` run ends at a non-hex character or at the end of the text, and its last character is hex. |
| LogKey.Normalize | src/api/log.rs:38-44 | `replace_all` of `0x[0-9a-fA-F]+` by `[MEMORY_ADDRESS]`, defined left to right: at an address, the placeholder and the rest after the whole hex run; else the character kept. Its properties are the lemmas below. |
| LogKey.GroupKey | src/api/log.rs:57-59 | The key is the digest of the normalised message, `-` and the type. What it promises is stated by SameKeyModuloAddressDigits and DistinctInputsDistinctKeys. |
| LogKey.NormalizeHead | src/api/log.rs:38-44 | Normalising keeps the text empty iff it was empty. It starts with `[` where an address starts, else with the input's first character. |
| LogKey.NormalizeIsAddressFree | src/api/log.rs:38-44 | No `0x`+hex address survives normalisation. |
| LogKey.NormalizeAddressFreeUnchanged | src/api/log.rs:38-44 | Text without an address is left unchanged. |
| LogKey.NormalizeFixedPoints | src/api/log.rs:38-44 | Normalising leaves a text unchanged iff it holds no address. |
| LogKey.NormalizeIdempotent | src/api/log.rs:38-44 | Normalising twice is normalising once. |
| LogKey.NormalizeAppend | src/api/log.rs:38-44 | When no address is left open at the end of the prefix (no trailing `0x` plus only hex digits), and the prefix does not end in `0` before a `x`, the two parts normalise separately (left-to-right, non-overlapping matches). |
| LogKey.CleanBoundaryNoOpen | src/api/log.rs:40 | A prefix ending in a character that is neither a hex digit nor `x` leaves no address open. |
| LogKey.NoOpenAddressSuffix | src/api/log.rs:40 | Dropping the front of a text opens no address at its end. |
| LogKey.HexRunBelow | src/api/log.rs:40 | The greedy hex run stops at or before the first non-hex character. |
| LogKey.NormalizeAddressFront | src/api/log.rs:38-44 | `0x` plus hex digits at the front becomes one placeholder and swallows the whole hex run. |
| LogKey.NormalizeAtAddress | src/api/log.rs:38-44 | An address after a prefix that leaves no address open becomes one placeholder, whatever its digits, and swallows the hex digits after it. |
| LogKey.SameKeyModuloAddressDigits | src/api/log.rs:38-59 | Two messages that differ only in an address's digits get the same group key, whenever the text before the address does not end in `0x` followed only by hex digits. |
| LogKey.OpenPrefixKeepsDigits | src/api/log.rs:40-41 | After the open prefix `0x`, the address `0x1` is cut at its `0`: `0x0x1` normalises to `[MEMORY_ADDRESS]x1`, and `0x` leaves an address open. |
| LogKey.OpenPrefixSplitsKeys | src/api/log.rs:38-59 | Under a collision-free digest, `0x0x1` and `0x0x2` get different keys, so the condition on the prefix above cannot be dropped. |
| LogKey.CrashAddressNormalized | src/api/log.rs:38-44 | `crash at 0xDEADBEEF` normalises to `crash at [MEMORY_ADDRESS]`. |
| LogKey.CrashAddressesShareKey | src/api/log.rs:57-59 | `crash at 0xDEADBEEF` and `crash at 0x1` of one type share their key. |
| LogKey.CrashDigestInputsDiffer | src/api/log.rs:57-58 | `crash at 0xDEADBEEF` and `different crash` hash different texts. |
| LogKey.DistinctInputsDistinctKeys | src/api/log.rs:57-59 | Under a collision-free digest, different digest inputs give different keys. |
| LogKey.DifferentCrashDifferentKey | src/api/log.rs:57-59 | Under a collision-free digest, `crash at 0xDEADBEEF` and `different crash` get different keys. |
| LogStore.DecimalId | src/api/log.rs:351-354 | The ids a token names in an `Id.eq(token)` lookup: its value if it is a digit string, else none. |
| LogStore.I32Id | src/api/log.rs:519-523 | The ids `clear` deletes for a token: its `parse::<i32>` value, else none. |
| LogStore.RefIdsOfMember | src/api/log.rs:432-445 | An id is named by a list iff some token of it denotes that id. |
| LogStore.CanRemove | src/api/log.rs:379 | `can_remove` holds iff the group is solved and the caller is admin. |
| LogStore.Resolve | src/api/log.rs:351-366 | The detail's reporter loop: each token, in order, gives the reporter it names if that reporter still exists. ResolveSound and ResolveComplete state what it lists. |
| LogStore.ResolveSound | src/api/log.rs:349-366 | The detail lists at most one reporter per token. Each one listed is a live reporter named in the list, with its stored fields. |
| LogStore.ResolveComplete | src/api/log.rs:349-366 | When every token names a live reporter, the detail lists all of them in list order. |
| LogStore.I32IdsWithinRefIds | src/api/log.rs:519-523 | On digit-only lists, `clear` deletes no id the group does not name. |
| LogStore.I32IdsCoverRefIds | src/api/log.rs:519-523 | On lists of ids within the i32 range, `clear` deletes exactly the ids the group names. |
| LogStore.AddReporterKeepsInv | src/api/log.rs:74-97 | Saving a reporter under the next id keeps the store invariant, and no group names that id yet. |
| LogStore.PutGroupKeepsInv | src/api/log.rs:143-146 | Writing a well-formed group with live, unshared ids under its own key keeps the invariant. |
| LogStore.BumpKeepsInv | src/api/log.rs:99-121 | Bumping a group keeps the invariant. The new id list is the old list plus the new id, at the end. |
| LogStore.NewGroupKeepsInv | src/api/log.rs:122-140 | Creating a group with the one new id keeps the invariant. Its list is that id alone. |
| LogStore.RemoveKeepsInv | src/api/log.rs:426-452 | Deleting a group and the reporters it names keeps the invariant. |
| LogStore.ClearKeepsInv | src/api/log.rs:513-536 | Deleting every group of a type and their i32-parsable ids keeps the invariant. |
| LogStore.Store.Upload | src/api/log.rs:47-150 | Every report is answered with ok. A type not starting with `error` changes nothing. Otherwise the report is filed under `md5(normalize(message) + "-" + type)`. A reporter is saved iff the group is new or lists at most 100 ids. A new group is made with count 1, status 0, times `now` and the new id. An existing group gets count+1, last time `now`, status 0 kept and any other status -1, the new id appended only if saved, and every other field unchanged. The invariant is kept. |
| LogStore.Store.SaveReporter | src/api/log.rs:74-97 | The reporter row is stored under the next id, and no group names that id yet. |
| LogStore.Store.BumpGroup | src/api/log.rs:99-121 | The read-modify-write of an existing group, with the field-by-field new state. |
| LogStore.Store.CreateGroup | src/api/log.rs:122-140 | The new group row, stored under its key. |
| LogStore.Store.Complete | src/api/log.rs:389-413 | A challenged caller changes nothing. Otherwise a known hash gets status 1 and resolution time `now` with every other field kept. An unknown hash changes nothing. The answer is ok either way. |
| LogStore.Store.Remove | src/api/log.rs:416-455 | A challenge or 403 unless admin, with nothing deleted. For an admin, the group and exactly the reporters it names are deleted. Other groups are untouched. An unknown hash deletes nothing. |
| LogStore.Store.DeleteDecimalIds | src/api/log.rs:432-445 | The deletion loop removes exactly the ids the list names. |
| LogStore.Store.Clear | src/api/log.rs:504-539 | A challenge or 403 unless admin, with nothing deleted. For an admin, every group of the type and exactly their i32-parsable ids are deleted. Groups of other types are untouched. |
| LogStore.Store.DeleteClearedIds | src/api/log.rs:519-530 | The outer clear loop removes exactly the ids of the cleared groups. |
| LogStore.Store.DeleteI32Ids | src/api/log.rs:519-530 | The inner clear loop removes exactly the i32-parsable ids of one list. |
| LogStore.Store.Detail | src/api/log.rs:334-386 | A challenge iff authentication fails. An unknown hash gives `no file: <hash>`. A known hash gives the group's fields, its resolved reporters in list order, and `can_remove`. |
| LogStore.Store.DetailListsAllReporters | src/api/log.rs:349-366 | In a valid store, a detail lists every reporter the group names. |
| LogStore.Store.ListsCapped | src/api/log.rs:67-72 | In a valid store, a group lists 1 to 101 ids and never more ids than reports. |
| LogStore.Store.UserLog | src/api/log.rs:469-496 | The answer carries the reporter's logs. Empty logs give `No logs for id <id>`. An unknown id gives `Not found user log for id <id>`. |
| LogList.OfLogType | src/api/log_html.rs:63-64 | A group is in the result iff it is in the input and has the type; the result is no longer than the input. |
| LogList.OfLogTypeAppend | src/api/log_html.rs:63-64 | Filtering two lists one after the other gives the two filtered lists one after the other. |
| LogList.OfLogTypeCons | src/api/log_html.rs:63-64 | A first row stays first iff it has the type, then the rest filtered. |
| LogList.OfLogTypeInOrder | src/api/log_html.rs:63-64 | Of two rows of the type, the earlier one comes earlier in the result: the query's order is kept. |
| LogList.Matching | src/api/log.rs:208-210 | An empty type filter keeps every group. Otherwise exactly the groups of that type are kept. |
| LogList.OfLogTypeNewestFirst | src/api/log.rs:264-266 | Filtering keeps a newest-first order. |
| LogList.CountStatus | src/api/log.rs:232-254 | A status count is at most the number of groups. |
| LogList.PendingSolvedWithinTotal | src/api/log.rs:218-254 | pending + solved <= total. |
| LogList.ClampPage | src/api/log.rs:213 | `page.max(1)`. |
| LogList.ClampSize | src/api/log.rs:214 | `page_size.max(1).min(100)`: at least 1, at most 100, unchanged in range, 1 below it and 100 above it. |
| LogList.PageOffset | src/api/log.rs:215 | The offset is exactly the (page-1)-th multiple of the page size. |
| LogList.TotalPages | src/api/log.rs:256-261 | 0 pages iff no groups. Otherwise the least page count that covers them (the ceiling). |
| LogList.Window | src/api/log.rs:264-268 | `offset`/`limit`: at most `limit` rows, row k being row offset+k. It is empty past the end. |
| LogList.Items | src/api/log.rs:276-286 | One list item per row, in order, with the row's fields. |
| LogList.ListLogs | src/api/log.rs:187-300 | A challenge iff authentication fails. Otherwise the totals count all matching groups, and the admin flag is the tier reached. The page count is `TotalPages` of the group count: 0 iff there are no groups, else the least count of pages that covers them. The items are the requested page of the matching groups, at the overflow-free offset. |
| LogList.PageItems | src/api/log.rs:213-216 | At most one page size of items, each of them a matching group. |
| LogList.PageNewestFirst | src/api/log.rs:264-268 | A page of a newest-first list is newest first. |
| LogList.RowOnItsPage | src/api/log.rs:215-216 | The k-th matching group is item k mod size of page k div size + 1. |
| LogList.PagePastEndIsEmpty | src/api/log.rs:256-268 | A page past the last page is empty. |
| LogList.WrapI32 | src/api/log.rs:215 | 32-bit two's-complement wrap: in range, equal modulo 2^32, the identity on in-range values. |
| LogList.I32AsU64 | src/api/log.rs:215 | `as u64` of an i32 sign-extends: negative values wrap to 2^64 + x. |
| LogList.PageOffsetAsWritten | src/api/log.rs:215 | The offset as computed in i32 agrees with the true offset whenever the product fits. |
| LogList.OffsetWrapsToFirstPage | src/api/log.rs:215 | Page 67108865 of size 64 wraps to offset 0, the first page (see Findings). |
| LogHtml.Index | src/api/log_html.rs:14-38 | A challenge iff authentication fails. Otherwise `favicon.ico` gives the icon, `index.html` gives the page, and anything else redirects to `/index.html`. |
| LogHtml.StatusDot | src/api/log_html.rs:121-131 | -1 is yellow, 1 is green, anything else is red (each an iff). |
| LogHtml.VersionTag | src/api/log_html.rs:84-106 | `[Lobby]` when nothing parsed. Game 0 gives `[Lobby]` or `[Lobby(branch)]`. Any other game gives `[Game<id>]`. |
| LogHtml.VersionTagNamesGame | src/api/log_html.rs:96-105 | The tag names a game iff a non-zero game id was parsed, and the lobby otherwise. |
| LogHtml.FirstReporterVersion | src/api/log_html.rs:84-108 | The version shown is the parsed version of the reporter the group lists first, or none when that reporter is gone or its version does not parse. |
| LogHtml.FirstLineSpec | src/api/log_html.rs:77-82 | The first line is `split("\n")[0]`, a newline-free prefix ending at the first newline. `split` never yields nothing, so the `empty` fallback is unused. |
| LogHtml.Kept | src/api/log_html.rs:112-118 | Only groups that are not skipped are kept, all of them from the input. |
| LogHtml.KeptComplete | src/api/log_html.rs:112-118 | Every group that is not skipped is kept; with Kept, a group is kept iff it is in the input and not skipped. |
| LogHtml.KeptAppend | src/api/log_html.rs:76-118 | The groups kept from two lists one after the other are those kept from each, in the same order. |
| LogHtml.KeptInOrder | src/api/log_html.rs:76-118 | Of two shown groups, the earlier one in the query comes earlier in the menu. |
| LogHtml.Menu | src/api/log_html.rs:74-135 | The menu of a list of groups, numbered from `start`: a skipped group takes no number. MenuNumbersKeptGroups states its shape. |
| LogHtml.MenuNumbersKeptGroups | src/api/log_html.rs:110-134 | The menu has one item per kept group, in order. Item k is numbered start+k: skipped groups take no number. |
| LogHtml.KeptAllWhenShown | src/api/log_html.rs:61-118 | With `show_proto_err` in the query, no group is skipped. |
| LogHtml.MenuEntry | src/api/log_html.rs:77-131 | One pass of the loop body. A group is skipped iff protocol errors are hidden and its first line starts with one of the two `LUA ERROR` texts. Otherwise it gets the next number, dot, tag, count and first line. |
| LogHtml.BuildMenu | src/api/log_html.rs:74-135 | The loop builds exactly the menu of the groups, numbered from 1. |
| LogHtml.LogContent | src/api/log_html.rs:52-149 | A challenge iff authentication fails. With no group of the type, the empty page. Otherwise the menu of that type's groups, skipping protocol errors unless the query asks for them. The head is empty iff the caller is admin, else the remove-all button for the type. |
| ShowSupport.LeadLengthSpec | show_support.py:7 | The stripped prefix is made of dropped characters, and the next one is kept. |
| ShowSupport.TrailLengthSpec | show_support.py:7 | The stripped suffix is made of dropped characters, and the one before it is kept. |
| ShowSupport.StripSpec | show_support.py:7 | `strip` keeps the slice between the longest dropped prefix and suffix, whose ends are not dropped. |
| ShowSupport.Strip | show_support.py:7 | `str.strip(chars)`: the text without its longest dropped prefix and suffix. StripSpec states this. |
| ShowSupport.StripIdempotent | show_support.py:7 | Stripping twice is stripping once. |
| ShowSupport.StripKeepsOut | show_support.py:7 | Stripping adds no character. |
| ShowSupport.RunLengthSpec | show_support.py:10 | A run covers characters of the class and stops at the first one outside it. |
| ShowSupport.KeyEnd | show_support.py:10 | A key match ends before `\s*:`. |
| ShowSupport.FindAllFrom | show_support.py:10-11 | `re.findall` from a position: at each position, the match there and the matches after its end, or the matches from the next position. FindAllFromShape states the shape of each match. |
| ShowSupport.FindAll | show_support.py:11 | `re.findall` over the whole text. |
| ShowSupport.KeyEndIsName | show_support.py:10 | The key group is word characters with at most one inner dot. |
| ShowSupport.ValueRunShape | show_support.py:10 | A value stops before the first comma or newline. |
| ShowSupport.FindAllFromShape | show_support.py:10-11 | Every match `findall` returns has a name as key and a value without comma or newline. |
| ShowSupport.RawDict | show_support.py:14 | The dict comprehension, entry by entry with stripped keys and values. RawDictKeys and RawDictLastWins state its keys and values. |
| ShowSupport.RawDictKeys | show_support.py:14 | A key is in the dict iff some match's stripped key equals it. |
| ShowSupport.RawDictLastWins | show_support.py:14 | A later duplicate key overwrites an earlier one: the last match of a key gives its value. |
| ShowSupport.StripOfName | show_support.py:14 | `key.strip()` leaves a matched key unchanged. |
| ShowSupport.RawDictShape | show_support.py:14 | Every dict key is a name, and every value holds no comma or newline. |
| ShowSupport.LowerChar | show_support.py:18-20 | `lower` maps A-Z to a-z and leaves other characters. |
| ShowSupport.Lower | show_support.py:18-20 | `lower` keeps the length. |
| ShowSupport.DigitsAreNotWords | show_support.py:18-23 | Digits are unchanged by `lower`, so no digit string reads `true` or `false`. |
| ShowSupport.Coerce | show_support.py:17-23 | Each as an iff: `True` for "true" in any case, `False` for "false" in any case, int exactly for non-empty digit strings (with their value). Anything else stays the same text. |
| ShowSupport.CoerceValue | show_support.py:18-23 | The `if` chain of one loop pass computes the coercion. |
| ShowSupport.CoerceAll | show_support.py:17-23 | The rewriting loop coerces every value and adds or loses no key. |
| ShowSupport.ConvertToDict | show_support.py:5-25 | `convert_to_dict` returns the coerced last-wins dict of the matches in the stripped text. |
| ShowSupport.ToDict | show_support.py:5-25 | The whole function as a value: strip, find, collect, coerce. ConvertToDict computes it and ToDictShape states its shape. |
| ShowSupport.ToDictShape | show_support.py:5-25 | Every key of the result is a name, and a text value holds no comma or newline. |
| ShowSupport.CoercedTrue | show_support.py:37 | `== True` holds for "true" in any case and for any digit string worth 1. |
| ShowSupport.Tick | show_support.py:37-38 | A counter goes up by 1 iff the value equals `True`, and by 0 otherwise. |
| ShowSupport.Reach | show_support.py:36-37 | How many leading keys the configuration holds; `config[key]` fails at the next one. |
| ShowSupport.Counter.constructor | show_support.py:97-98 | `{key: 0 for key in collect_info}`: the given keys, each counted 0. |
| ShowSupport.Counter.Collect | show_support.py:35-38 | Succeeds iff every key is present. Each key reached goes up by its tick, and the keys past a KeyError stay unchanged. |
| ShowSupport.Uploads | show_support.py:110-111 | The tally of configurations looked at is at most the number of rows. |
| ShowSupport.HitsWithinUploads | show_support.py:110-121 | A counter never exceeds the number of configurations it looked at. |
| ShowSupport.PerTypeWithinTotal | show_support.py:116-121 | The 999 and h5 tallies and counters together stay within the overall ones. |
| ShowSupport.OtherTypeCountsOverallOnly | show_support.py:116-121 | A row of another client type counts only overall. |
| ShowSupport.Survey.constructor | show_support.py:77-99 | The start of the script: the 13 `collect_info` keys, three fresh counters at 0 for every key, and every tally and the device count at 0. |
| ShowSupport.Survey.CountConfig | show_support.py:111-121 | A configuration adds 1 to the overall tally and its ticks to the overall counters. It does the same to the 999 or h5 ones iff its type is that. It succeeds iff it holds every key. |
| ShowSupport.Survey.AddRow | show_support.py:107-121 | Every row adds a device. A non-empty configuration is parsed and counted. The row gets through iff it is empty or holds every key. |
| ShowSupport.Survey.Run | show_support.py:102-121 | Over all rows: devices = rows, and tallies and counters are the sums over the rows of each type. It completes iff no row lacks a key. |

## Left out

- HTTP and framework plumbing is not modelled. This covers actix routing, request binding, Basic-auth header parsing, JSON (de)serialisation, the HTML templates and the `<li>` markup. The menu item is a record of the values the markup shows; the `(n)[tag]<count>` text built from them (src/api/log_html.rs:110) is not modelled as a string.
- Storage failures (`map_db_err`) are not modelled. The ORM and SQLite are maps and sequences; `order_by_desc(last_time)` is the precondition `NewestFirst`.
- MD5 is not modelled. It is the `digest` parameter, and key distinctness is proved only under an injectivity assumption stated as a `requires`.
- The clock, time formatting and epoch conversion are not modelled. The same `now` is used for every timestamp of one request.
- The caller's address lookup is not modelled; it is the `ip` parameter.
- The JSON parse of a reporter's version is not modelled; it is the `parseVersion` parameter.
- Concurrent uploads racing on one hash, and async scheduling, are not modelled. Each handler is one atomic method.
- LogList.TotalPages: the `f64` division and `ceil` are modelled as integer ceiling division, which agrees on every i32 count.
- The i32 width of `total`, `pending` and `solved` (`as i32` of a count) is not modelled.
- Reporter ids past the i32 range are not modelled: `nextId` is unbounded.
- The database's id allocation for new rows is modelled as the counter `nextId`, which only grows, so no id is ever handed out twice. How SQLite actually picks ids is not modelled.
- The i32 `total_count + 1` (src/api/log.rs:101) is unbounded `totalCount`; its wrap-around is not modelled.
- LogList.ListLogs: the items are stated at the overflow-free offset `PageOffset`. The i32 wrap of the offset at src/api/log.rs:215 is stated separately by `PageOffsetAsWritten` (see Findings).
- ShowSupport.Survey.CountConfig: when a key is missing (`KeyError`), the script stops. The contract then says only that the result is false, not what the counters hold.
- ShowSupport.Survey.AddRow: on a `KeyError` only the failure is stated, as for `CountConfig`.
- ShowSupport.Survey.Run: on a `KeyError` only the failure is stated; the script ends there.
- The per-day `GROUP BY DATE(time)` queries (show_support.py:46-66) are SQL run by the database and are not modelled.
- `prin_info` (show_support.py:28-33) prints percentages in floating point and is not modelled.
- Only ASCII is modelled: `\w`, `\s`, `str.lower` and `str.isdigit` are their ASCII classes. Python's Unicode digits, for which `isdigit` holds but `int` fails, are not modelled.
- An integer-column comparison with a text token is modelled as "a non-empty digit string names its value".
- src/main.rs, src/api/statistics.rs, src/api/statistics_html.rs and src/api/query_ip.rs are not part of this model. They are server setup, a single insert, a SQL report, and a file that is not compiled.

## Findings

| source | as written | input that shows it | evidently intended | confidence | as-written member | corrected member |
|---|---|---|---|---|---|---|
| src/api/log.rs:215 | `((page - 1) * page_size) as u64` multiplies in i32. The clamped page is unbounded above, so the product wraps in a release build (and panics in a debug build). | page = 67108865, page_size = 64: (page-1)*64 = 2^32 wraps to 0, so the request is answered with the first page. | The offset of page p is (p-1)*page_size, computed without overflow; a page past the end is empty. | not executed | LogList.PageOffsetAsWritten, LogList.OffsetWrapsToFirstPage | LogList.PageOffset, LogList.RowOnItsPage, LogList.PagePastEndIsEmpty |
