# zse-player-database: the refresh cycle's player merge, modelled in Dafny

The repository keeps a JSON database of players of a racing game's
online rooms, keyed by friend code (`fc`). Every few minutes
`fetch-data.js` does four things:
- downloads the database;
- reads the rooms currently open, and flattens their players into one list of
  sightings, dropping those without a rating (`ev`, the "VR");
- sends the players' avatar ("mii") references to a decoding service, and puts
  the decoded avatars back into the players;
- merges the sightings into the database, then uploads it.

The merge is the only code with real decisions in it:
- A re-sighted player replaces its stored record, stamped with `lastupdated`.
  It is banned, with `ban_date`, when its rating jumped by more than 1000.
- An unknown player is admitted only below 10000.
- Records older than seven days and rated below 10000 are deleted.

The model follows the code as written, including two lookups that index the
database with the wrong value:
- The freeze guard reads `oldData[player.banned]`. That indexes the database by
  the sighting's own `banned` value, not by the stored record's flag. A fresh
  sighting has no `banned`, so the key read is `"undefined"`. The guard
  therefore passes for every re-sighted player, banned or not, unless some
  player's friend code is literally "undefined".
- The `first_max_vr` test reads `oldData[player.first_max_vr]` the same way. So
  `first_max_vr` is reset to the current time on essentially every update.

The model proves these consequences as they stand: `Merge.FreshSightingOverwrites`
and `Merge.PreviousBanIrrelevant`.

Files:
- `players.dfy` (module `Players`): the player record, JavaScript's
  undefined-or-value properties as `Option`, and the conversion of a value to
  the property key used for indexing.
- `rooms.dfy` (module `Rooms`): `fetchRooms`, a loop proved equal to
  flatten-then-filter, and the lemmas that characterise the filter.
- `miis.dfy` (module `Miis`): `fetchMiis`, two loops proved equal to the request
  list and the substitution, and the lemmas about them.
- `merge.dfy` (module `Merge`): the merge rules as functions (`Visit` for one
  sighting, `Merged` for the list, `Pruned`, and `Reconciled` for the whole call),
  and the lemmas stating the ban, update, admission, pruning, frame and ordering
  properties.
- `database.dfy` (module `Database`): the database object that the source
  mutates in place. It is a class holding the record map and `last_refresh`.
  Its method `InsertCurrentPlayerData` runs the two loops of the source. It is
  proved to leave exactly `Merge.Reconciled` of the old records. The module also
  holds one refresh cycle.

External inputs, given as parameters:
- the downloaded database (the constructor's arguments);
- the rooms the live feed returns;
- the decoding service's reply (whether it was ok, and its dictionary);
- one `now` that stands for every `Date.now()`.

## Model

| member | source | states |
|---|---|---|
| `Rooms.FetchRooms` | fetch-data.js:80-90 | the result is all rooms' players concatenated room by room, then filtered to those whose `ev` is defined |
| `Rooms.RatedMembers` | fetch-data.js:86-88 | a player is in the filtered list iff it is in the input and its `ev` is neither undefined nor null |
| `Rooms.RatedAppend` | fetch-data.js:86-88 | filtering keeps order: the filter of a concatenation is the concatenation of the filters |
| `Rooms.RatedSingle` | fetch-data.js:86-88 | a single player survives the filter iff its `ev` is defined |
| `Rooms.RatedPartition` | fetch-data.js:86-88 | every kept player is rated, every dropped one unrated, and kept plus dropped is the input as a multiset |
| `Rooms.AllPlayersAppend` | fetch-data.js:82-84 | flattening keeps all players of all rooms in room order |
| `Miis.FetchMiis` | fetch-data.js:93-117 | an empty mii array makes the call fail before anything is posted. Otherwise the posted list is `mii[0].data` of each player with a mii, in order. A non-ok reply returns nothing. An ok reply returns each player with its first mii data replaced by the dictionary's value under the old data |
| `Miis.RequestAppend` | fetch-data.js:94-97 | the request for a concatenation of players is the two requests one after the other |
| `Miis.RequestMembers` | fetch-data.js:94-97 | every player with a mii contributes its first mii data to the request, and every request entry comes from such a player |
| `Miis.DecodedChangesOnlyFirstData` | fetch-data.js:113-115 | substitution changes only the first mii entry's data, which becomes `mii_dict[old data]` (undefined when absent); players without a mii are unchanged |
| `Merge.UpdateRule` | fetch-data.js:122-139 | a re-sighted player whose guard passes replaces its record wholesale. It is stamped `lastupdated = now`. It is banned with `ban_date = now` iff `abs(old ev - new ev) > 1000`, and otherwise unbanned. `first_max_vr = now` when the line-128 lookup misses or `ev` is 30000. Every other key is unchanged |
| `Merge.BanBoundary` | fetch-data.js:135-138 | a rating move of exactly 1000 either way does not ban; a move of 1001 bans with `ban_date = now` |
| `Merge.PreviousBanIrrelevant` | fetch-data.js:122-139 | once the guard passes, the stored record influences the outcome only through its `ev`, so its previous ban state has no influence |
| `Merge.FrozenSkipped` | fetch-data.js:122-123 | when the key named by the sighting's own `banned` value is present, the sighting is skipped and the database is unchanged |
| `Merge.FreshSightingOverwrites` | fetch-data.js:122-139 | a sighting without `banned` and `first_max_vr` (friend code "undefined" not present) overwrites even a banned record. A move of at most 1000 unbans it, and its `first_max_vr` is reset to `now` |
| `Merge.AdmissionRule` | fetch-data.js:141-147 | an unknown `fc` is added iff `ev < 10000`, as the sighting with `banned = false`, `first_max_vr = ""`, `lastupdated = now`; otherwise the database is unchanged |
| `Merge.MergedAppend` | fetch-data.js:121-149 | sightings are processed in list order: merging `a + b` is merging `a` and then `b` |
| `Merge.RepeatedSighting` | fetch-data.js:121-140 | when one `fc` is sighted twice anywhere in the list, with other sightings before and between, and the first sighting is written, the second is compared against the record the first wrote (ban iff the jump between the two sightings exceeds 1000) and ends up stored |
| `Merge.MergedKeepsOthers` | fetch-data.js:120-149 | the merge deletes no key, adds only sighted friend codes, and leaves every key that was not sighted unchanged |
| `Merge.WrittenStamped` | fetch-data.js:133-146 | every record the merge adds or changes carries `lastupdated = now` and a sighted friend code |
| `Merge.LastUpdatedMonotone` | fetch-data.js:120-149 | if no stored `lastupdated` lies after `now`, none does afterwards either, and no record's `lastupdated` decreases |
| `Merge.BanDatesKept` | fetch-data.js:120-163 | if every banned record has a ban date before the call, the same holds after the merge and after pruning |
| `Merge.PruneRule` | fetch-data.js:151-160 | a record is deleted iff `now - lastupdated > 604800000` and `ev < 10000`, where an undefined property makes the test false; kept records are unchanged |
| `Merge.PruneBoundary` | fetch-data.js:154-157 | exactly 604800000 ms old is retained, 604800001 ms old with `ev < 10000` is deleted, and `ev >= 10000` is retained at any age |
| `Merge.WrittenSurvive` | fetch-data.js:120-163 | no record written in this call is pruned |
| `Merge.ReconciledKeepsOthers` | fetch-data.js:120-163 | after the whole call, a key that was not sighted is present iff it is not stale, and it is unchanged; the only keys ever added are sighted friend codes |
| `Merge.JumpExample` | fetch-data.js:124-139 | a record at 100 re-sighted at 2000 ends up stored at 2000, banned, with `ban_date = now`, whatever its previous ban state and age |
| `Database.PlayerDatabase.constructor` | fetch-data.js:17 | the database object holds the records and `last_refresh` as downloaded |
| `Database.PlayerDatabase.InsertCurrentPlayerData` | fetch-data.js:120-163 | the in-place sighting loop and the deleting `for…in` loop leave exactly `Merge.Reconciled` of the old records; `last_refresh` is untouched |
| `Database.RefreshPlayerDatabase` | fetch-data.js:16-27 | the upload happens iff every mii array can be read and the service answered ok. On upload the records are the merge of the enriched, rated sightings and `last_refresh = now`. Otherwise the database is unchanged |

## Left out

- HTTP and the GitHub contents API are not modelled: `downloadFile`, `uploadFile`,
  the module-level `sha`, the access token and every `fetch` (lines 11-12,
  29-75, 78-79, 99-102). The database, the rooms and the service's reply are
  parameters instead.
- Base64 and JSON encoding (lines 49-52, 61-66) are library calls. The model
  works on the decoded values.
- Scheduling is not modelled: `setInterval`, `clearInterval` and `setTimeout`
  (lines 165-167), and the upload that is never awaited (line 26). Also left
  out is what Node does with the rejected promise of a cycle that throws. These
  are timer and runtime behaviour, not a sequential contract.
- The avatar decoding service is not modelled. Its reply is an input, and a
  decoded avatar is kept opaque as a string. The unused `mii_arr` (line 111)
  has no effect. Properties of a mii entry other than `data` are not modelled.
- The separate `Date.now()` calls (lines 131, 133, 137, 145, 151, 24) differ by
  milliseconds in the source. The model uses one `now`.
- JavaScript's dynamic typing is narrowed:
  - `ev` and `lastupdated` are integers or undefined.
  - `banned` is a boolean or undefined.
  - `first_max_vr` is undefined, `""` or a timestamp.
  - A string-valued or float rating, and a `null` `lastupdated` (which `Number`
    turns into 0), are outside the model.
  - `null` as a rating is represented only where the filter of lines 86-88
    drops it together with `undefined`. A stored record with `ev: null` is
    outside the model. JavaScript compares `null` as 0, so the source would ban
    such a record when re-sighted at a rating above 1000 (line 135), and would
    delete it once stale (line 156). The model's `None` never bans and is never
    pruned. The cycle itself never stores a `null` rating, because only filtered
    sightings reach the merge.
- `last_refresh` is a separate field, although in the source it is one more key
  of the same object as the records. A sighting whose friend code is literally
  `last_refresh` would collide with it there; the model treats that friend code
  like any other.
- The `console.log` calls (lines 74 and 105) are output only and are not modelled.
- A room without a `players` property makes `Object.values` throw (line 83). In
  the model every room has a list of players, so that failure is not modelled.
- Player objects are modelled as values. The source stores the sighting object
  itself and mutates it in place. The two agree, because every sighting is a
  distinct object parsed from JSON, so nothing else refers to it.
- A banned record is not frozen: line 123 reads the wrong key, so a banned
  record is overwritten (`Merge.FreshSightingOverwrites`).
- The decoding service's reply is indexed by the avatar data itself (line 114).
- The file has a single rule set for admission, banning and pruning.
