/** The downloaded player database as the object the source mutates, and one
    refresh cycle (`refreshPlayerDatabase`). */
module Database {
  import opened Players
  import opened Merge
  import Rooms
  import Miis

  /** The JSON object `zse-players.json`: the records keyed by friend code, and
      the `last_refresh` timestamp, which the source keeps in the same object
      under its own key (the pruning loop visits that key too, but reading
      `lastupdated` of a number gives NaN, so it is never deleted). */
  class PlayerDatabase {
    var records: map<string, Player>
    var lastRefresh: Option<int>

    /** The database as downloaded. */
    constructor (records: map<string, Player>, lastRefresh: Option<int>)
      ensures this.records == records && this.lastRefresh == lastRefresh
    {
      this.records := records;
      this.lastRefresh := lastRefresh;
    }

    /** `insertCurrentPlayerData` (lines 120-163): merge the sightings in order,
        then delete the stale records. `now` stands for every `Date.now()` of
        the call. */
    method InsertCurrentPlayerData(sightings: seq<Player>, now: int)
      modifies this
      ensures records == Reconciled(old(records), sightings, now)
      ensures lastRefresh == old(lastRefresh)
    {
      ghost var start := records;
      var i := 0;
      while i < |sightings|
        invariant 0 <= i <= |sightings|
        invariant records == Merged(start, sightings[..i], now)
        invariant lastRefresh == old(lastRefresh)
      {
        assert sightings[..i + 1][..i] == sightings[..i];
        var player := sightings[i];
        if player.fc in records {
          if FlagKey(player.banned) !in records {
            var oldVr := records[player.fc].ev;
            var newVr := player.ev;
            if FirstMaxKey(player.firstMaxVr) !in records || newVr == Some(MAX_VR) {
              player := player.(firstMaxVr := At(now));
            }
            player := player.(lastUpdated := Some(now));
            if Jumped(oldVr, newVr) {
              player := player.(banned := Some(true), banDate := Some(now));
            } else {
              player := player.(banned := Some(false));
            }
            records := records[player.fc := player];
          }
        } else if Below(player.ev, CONTENDER_VR) {
          player := player.(banned := Some(false), firstMaxVr := Blank, lastUpdated := Some(now));
          records := records[player.fc := player];
        }
        i := i + 1;
      }
      assert sightings[..i] == sightings;

      ghost var merged := records;
      var pending := records.Keys;
      while pending != {}
        invariant pending <= merged.Keys
        invariant forall k :: k in pending ==> k in records && records[k] == merged[k]
        invariant forall k :: k in records ==> k in merged && records[k] == merged[k]
        invariant forall k :: k in merged && k !in pending ==> (k in records <==> !Stale(merged[k], now))
        invariant lastRefresh == old(lastRefresh)
        decreases pending
      {
        var key :| key in pending;
        var r := records[key];
        if r.lastUpdated.Some? && now - r.lastUpdated.value > RETENTION_MS && Below(r.ev, CONTENDER_VR) {
          records := records - {key};
        }
        pending := pending - {key};
      }
      assert records.Keys == Pruned(merged, now).Keys;
    }
  }

  /** `refreshPlayerDatabase` (lines 16-27) for one cycle. `db` is what
      `downloadFile` returned, `rooms` the live feed's decoded reply and
      `miiResponse` the decoding service's reply. The result says whether
      `uploadFile` is called; it is called with `db`'s contents. */
  method RefreshPlayerDatabase(db: PlayerDatabase, rooms: seq<Room>, miiResponse: Miis.MiiResponse, now: int)
    returns (uploaded: bool)
    modifies db
    ensures var players := Rooms.Rated(Rooms.AllPlayers(rooms));
      && uploaded == (Miis.AllReadable(players) && miiResponse.ok)
      && (uploaded ==>
            && db.records == Reconciled(old(db.records), Miis.DecodedAll(players, miiResponse.dict), now)
            && db.lastRefresh == Some(now))
      && (!uploaded ==> db.records == old(db.records) && db.lastRefresh == old(db.lastRefresh))
  {
    var current := Rooms.FetchRooms(rooms);
    var _, enrichment := Miis.FetchMiis(current, miiResponse);
    if !enrichment.Enriched? {
      // A TypeError thrown while collecting, or `undefined` handed to the merge,
      // whose `forEach` throws before anything is changed: the cycle ends here.
      return false;
    }
    db.InsertCurrentPlayerData(enrichment.players, now);
    db.lastRefresh := Some(now);
    uploaded := true;
  }
}
