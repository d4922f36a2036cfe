/** The rules of `insertCurrentPlayerData` as functions on the record map: what
    one sighting does to the database, what the sightings do in list order, and
    which records the pruning pass removes. The database object in the source is
    the map from friend code (`fc`) to record; `Database.PlayerDatabase` runs the
    same rules as loops and is proved equal to these functions. */
module Merge {
  import opened Players

  /** A rating jump above this bans the player (line 135). */
  const BAN_JUMP := 1000
  /** New players are admitted, and old ones pruned, only below this rating
      (lines 142 and 156). */
  const CONTENDER_VR := 10000
  /** The maximum rating (line 129). */
  const MAX_VR := 30000
  /** Seven days in milliseconds (line 155). */
  const RETENTION_MS := 604800000

  type Records = map<string, Player>

  function Abs(x: int): int {
    if x < 0 then -x else x
  }

  /** `Math.abs(oldVR - newVR) > 1000`; with an undefined rating the difference
      is NaN and the comparison is false. */
  predicate Jumped(oldVr: Option<int>, newVr: Option<int>) {
    oldVr.Some? && newVr.Some? && Abs(oldVr.value - newVr.value) > BAN_JUMP
  }

  /** Line 123, `!oldData[player.banned]`: the database is indexed by the
      sighting's OWN `banned` value, not the stored record's flag. Every value in
      the database is a record object, so the lookup is truthy exactly when the
      key is present. */
  predicate Unfrozen(records: Records, p: Player) {
    FlagKey(p.banned) !in records
  }

  /** Lines 127-130, again indexing the database by the sighting's own
      `first_max_vr`. When the key is present it names an object, and an object
      is always `!= ""`, so the second disjunct comes down to `newVR == 30000`. */
  predicate ResetsFirstMax(records: Records, p: Player) {
    FirstMaxKey(p.firstMaxVr) !in records || p.ev == Some(MAX_VR)
  }

  /** The sighting as stored on a re-sighting whose guard passes (lines 124-139). */
  function Refreshed(records: Records, p: Player, now: int): Player
    requires p.fc in records
  {
    var jumped := Jumped(records[p.fc].ev, p.ev);
    p.(firstMaxVr := if ResetsFirstMax(records, p) then At(now) else p.firstMaxVr,
       lastUpdated := Some(now),
       banned := Some(jumped),
       banDate := if jumped then Some(now) else p.banDate)
  }

  /** The sighting as stored when a new player is admitted (lines 143-146). */
  function Admitted(p: Player, now: int): Player {
    p.(banned := Some(false), firstMaxVr := Blank, lastUpdated := Some(now))
  }

  /** What one sighting does to the database (lines 122-148). */
  function Visit(records: Records, p: Player, now: int): Records {
    if p.fc in records then
      if Unfrozen(records, p) then records[p.fc := Refreshed(records, p, now)] else records
    else if Below(p.ev, CONTENDER_VR) then records[p.fc := Admitted(p, now)]
    else records
  }

  /** The sightings visited in list order (the `forEach` at line 121). */
  function Merged(records: Records, ps: seq<Player>, now: int): Records
    decreases |ps|
  {
    if ps == [] then records
    else Visit(Merged(records, ps[..|ps| - 1], now), ps[|ps| - 1], now)
  }

  /** The friend codes of the sightings. */
  function Sighted(ps: seq<Player>): set<string>
    decreases |ps|
  {
    if ps == [] then {} else Sighted(ps[..|ps| - 1]) + {ps[|ps| - 1].fc}
  }

  /** Lines 154-157. `Number(undefined)` is NaN and an undefined `ev` is not
      below anything, so a record missing either property is never stale. */
  predicate Stale(r: Player, now: int) {
    r.lastUpdated.Some? && now - r.lastUpdated.value > RETENTION_MS && Below(r.ev, CONTENDER_VR)
  }

  /** The database after the pruning loop (lines 153-160). */
  function Pruned(records: Records, now: int): Records {
    map k | k in records && !Stale(records[k], now) :: records[k]
  }

  /** The database `insertCurrentPlayerData` returns. */
  function Reconciled(records: Records, ps: seq<Player>, now: int): Records {
    Pruned(Merged(records, ps, now), now)
  }

  // ---------------------------------------------------------------------------
  // One sighting

  /** A re-sighted player whose guard passes: the sighting replaces the stored
      record wholesale, stamped with `now`; it is banned, with ban date `now`,
      exactly when the rating moved by more than 1000, and otherwise unbanned with
      whatever ban date the sighting carried; `first_max_vr` becomes `now` when
      the line-128 lookup misses or the rating is 30000. Nothing else changes. */
  lemma UpdateRule(records: Records, p: Player, now: int)
    requires p.fc in records && Unfrozen(records, p)
    ensures var r := Visit(records, p, now);
      var o := records[p.fc].ev;
      && r.Keys == records.Keys
      && (forall k :: k in records && k != p.fc ==> r[k] == records[k])
      && (r[p.fc].banned == Some(true) <==> o.Some? && p.ev.Some? && Abs(o.value - p.ev.value) > 1000)
      && (r[p.fc].banned == Some(false) <==> !(o.Some? && p.ev.Some? && Abs(o.value - p.ev.value) > 1000))
      && (r[p.fc].banned == Some(true) ==> r[p.fc].banDate == Some(now))
      && (r[p.fc].banned == Some(false) ==> r[p.fc].banDate == p.banDate)
      && r[p.fc].lastUpdated == Some(now)
      && (FirstMaxKey(p.firstMaxVr) !in records ==> r[p.fc].firstMaxVr == At(now))
      && (p.ev == Some(30000) ==> r[p.fc].firstMaxVr == At(now))
      && (FirstMaxKey(p.firstMaxVr) in records && p.ev != Some(30000) ==> r[p.fc].firstMaxVr == p.firstMaxVr)
      && r[p.fc].(banned := p.banned, banDate := p.banDate, firstMaxVr := p.firstMaxVr, lastUpdated := p.lastUpdated) == p
  {
  }

  /** The ban threshold is strict: a jump of exactly 1000, either way, does not
      ban; 1001 does. */
  lemma BanBoundary(records: Records, p: Player, now: int, v: int)
    requires p.fc in records && Unfrozen(records, p) && records[p.fc].ev == Some(v)
    ensures p.ev == Some(v + 1000) || p.ev == Some(v - 1000) ==> Visit(records, p, now)[p.fc].banned == Some(false)
    ensures p.ev == Some(v + 1001) || p.ev == Some(v - 1001) ==>
              Visit(records, p, now)[p.fc].banned == Some(true) && Visit(records, p, now)[p.fc].banDate == Some(now)
  {
  }

  /** The stored record influences a re-sighting only through its rating: with
      the same `ev`, a banned and an unbanned record (or any two records) lead to
      the same database. */
  lemma PreviousBanIrrelevant(records: Records, p: Player, now: int, r1: Player, r2: Player)
    requires r1.ev == r2.ev && Unfrozen(records[p.fc := r1], p)
    ensures Visit(records[p.fc := r1], p, now) == Visit(records[p.fc := r2], p, now)
  {
  }

  /** When the key that line 123 reads is present, the sighting is skipped. */
  lemma FrozenSkipped(records: Records, p: Player, now: int)
    requires p.fc in records && FlagKey(p.banned) in records
    ensures Visit(records, p, now) == records
  {
  }

  /** What the two misdirected lookups come to for a fresh sighting, which has
      neither `banned` nor `first_max_vr`: unless some player's friend code is
      literally "undefined", the guard passes even for a banned record, so the
      record is overwritten (and unbanned when the rating moved by at most 1000),
      and `first_max_vr` is reset to `now` on every update. */
  lemma FreshSightingOverwrites(records: Records, p: Player, now: int)
    requires p.fc in records && p.banned == None && p.firstMaxVr == Unset
    requires "undefined" !in records
    ensures var r := Visit(records, p, now)[p.fc];
      && r.firstMaxVr == At(now)
      && r.lastUpdated == Some(now)
      && r.ev == p.ev
      && (records[p.fc].banned == Some(true) && !Jumped(records[p.fc].ev, p.ev) ==> r.banned == Some(false))
  {
  }

  /** An unknown friend code is admitted iff its rating is below 10000, unbanned,
      with an empty `first_max_vr` and stamped with `now`; otherwise the database
      is unchanged and the key stays absent. */
  lemma AdmissionRule(records: Records, p: Player, now: int)
    requires p.fc !in records
    ensures var r := Visit(records, p, now);
      && (p.fc in r <==> p.ev.Some? && p.ev.value < 10000)
      && (p.fc in r ==> r == records[p.fc := r[p.fc]]
                        && r[p.fc] == p.(banned := Some(false), firstMaxVr := Blank, lastUpdated := Some(now)))
      && (p.fc !in r ==> r == records)
  {
  }

  // ---------------------------------------------------------------------------
  // A list of sightings

  /** Sightings are processed in list order: merging a list is merging its first
      part and then the rest. */
  lemma {:induction false} MergedAppend(records: Records, a: seq<Player>, b: seq<Player>, now: int)
    ensures Merged(records, a + b, now) == Merged(Merged(records, a, now), b, now)
    decreases |b|
  {
    if b == [] {
      assert a + b == a;
    } else {
      var n := |b| - 1;
      assert (a + b)[..|a + b| - 1] == a + b[..n];
      assert (a + b)[|a + b| - 1] == b[n];
      MergedAppend(records, a, b[..n], now);
    }
  }

  /** The merge never removes a key, adds only friend codes of sightings, and
      leaves every key that was not sighted exactly as it was. */
  lemma {:induction false} MergedKeepsOthers(records: Records, ps: seq<Player>, now: int)
    ensures records.Keys <= Merged(records, ps, now).Keys <= records.Keys + Sighted(ps)
    ensures forall k :: k in records && k !in Sighted(ps) ==> Merged(records, ps, now)[k] == records[k]
    decreases |ps|
  {
    if ps != [] {
      MergedKeepsOthers(records, ps[..|ps| - 1], now);
    }
  }

  /** Every record the merge writes, new or replaced, is stamped with `now` and
      belongs to a sighted friend code. */
  lemma {:induction false} WrittenStamped(records: Records, ps: seq<Player>, now: int)
    ensures forall k :: k in Merged(records, ps, now) && (k !in records || Merged(records, ps, now)[k] != records[k]) ==>
              Merged(records, ps, now)[k].lastUpdated == Some(now) && k in Sighted(ps)
    decreases |ps|
  {
    if ps != [] {
      WrittenStamped(records, ps[..|ps| - 1], now);
    }
  }

  /** With a clock that has not gone backwards, `lastupdated` never decreases. */
  lemma {:induction false} LastUpdatedMonotone(records: Records, ps: seq<Player>, now: int)
    requires forall k :: k in records && records[k].lastUpdated.Some? ==> records[k].lastUpdated.value <= now
    ensures var m := Merged(records, ps, now);
      && (forall k :: k in m && m[k].lastUpdated.Some? ==> m[k].lastUpdated.value <= now)
      && (forall k :: k in records && records[k].lastUpdated.Some? ==>
            k in m && m[k].lastUpdated.Some? && records[k].lastUpdated.value <= m[k].lastUpdated.value)
    decreases |ps|
  {
    if ps != [] {
      var front, p := ps[..|ps| - 1], ps[|ps| - 1];
      LastUpdatedMonotone(records, front, now);
      var m0 := Merged(records, front, now);
      assert var mm := Merged(records, front, now); forall k :: k in mm && mm[k].lastUpdated.Some? ==> mm[k].lastUpdated.value <= now;
      var m := Visit(m0, p, now);
      assert Merged(records, ps, now) == m;
      forall k | k in m && m[k].lastUpdated.Some?
        ensures m[k].lastUpdated.value <= now
      {
        if k != p.fc {
          assert m[k] == m0[k];
          assert m0[k].lastUpdated.value <= now;
        } else if p.fc in m0 && Unfrozen(m0, p) {
          assert m[k] == Refreshed(m0, p, now);
          assert m[k].lastUpdated == Some(now);
        } else if p.fc in m0 {
          assert m[k] == m0[k];
          assert m0[k].lastUpdated.value <= now;
        } else {
          assert m[k] == Admitted(p, now);
          assert m[k].lastUpdated == Some(now);
        }
      }
    }
  }

  /** Every banned record carries a ban date. */
  ghost predicate BannedDated(records: Records) {
    forall k :: k in records && records[k].banned == Some(true) ==> records[k].banDate.Some?
  }

  /** Merging and pruning keep "banned implies a ban date". */
  lemma {:induction false} BanDatesKept(records: Records, ps: seq<Player>, now: int)
    requires BannedDated(records)
    ensures BannedDated(Merged(records, ps, now))
    ensures BannedDated(Reconciled(records, ps, now))
    decreases |ps|
  {
    if ps != [] {
      BanDatesKept(records, ps[..|ps| - 1], now);
    }
    var m := Merged(records, ps, now);
    assert forall k :: k in Pruned(m, now) ==> Pruned(m, now)[k] == m[k];
  }

  /** A friend code sighted twice, with any sightings before, between (none of
      them for that code) and after the first: when the first sighting is
      written, the second is compared against the record the first one wrote,
      and ends up stored. */
  lemma RepeatedSighting(records: Records, pre: seq<Player>, a: Player, mid: seq<Player>, b: Player, now: int)
    requires a.fc == b.fc && a.fc !in Sighted(mid)
    requires var before := Merged(records, pre, now);
      if a.fc in before then Unfrozen(before, a) else Below(a.ev, CONTENDER_VR)
    requires Unfrozen(Merged(records, pre + [a] + mid, now), b)
    ensures var m := Merged(records, pre + [a] + mid, now);
      var r := Merged(records, pre + [a] + mid + [b], now);
      && b.fc in m && b.fc in r
      && r[b.fc] == Refreshed(m, b, now)
      && r[b.fc].banned == Some(Jumped(a.ev, b.ev))
      && r[b.fc].ev == b.ev && r[b.fc].lastUpdated == Some(now)
  {
    var before := Merged(records, pre, now);
    MergedAppend(records, pre, [a], now);
    assert [a][..0] == [];
    var m1 := Merged(records, pre + [a], now);
    assert m1 == Visit(before, a, now);
    assert a.fc in m1 && m1[a.fc].ev == a.ev;
    MergedAppend(records, pre + [a], mid, now);
    MergedKeepsOthers(m1, mid, now);
    var m := Merged(records, pre + [a] + mid, now);
    assert m[a.fc] == m1[a.fc];
    var all := pre + [a] + mid + [b];
    assert all[..|all| - 1] == pre + [a] + mid;
    assert Merged(records, all, now) == Visit(m, b, now);
  }

  // ---------------------------------------------------------------------------
  // Pruning

  /** A record is deleted iff it was last updated more than 604800000 ms ago and
      its rating is below 10000; kept records are unchanged. */
  lemma PruneRule(records: Records, now: int)
    ensures forall k :: k in Pruned(records, now) <==>
              k in records
              && !(records[k].lastUpdated.Some? && now - records[k].lastUpdated.value > 604800000
                   && records[k].ev.Some? && records[k].ev.value < 10000)
    ensures forall k :: k in Pruned(records, now) ==> Pruned(records, now)[k] == records[k]
  {
  }

  /** Exactly seven days old is retained, one millisecond more is not; a rating
      of 10000 or more is retained at any age. */
  lemma PruneBoundary(records: Records, k: string, now: int)
    requires k in records
    ensures records[k].lastUpdated == Some(now - 604800000) ==> k in Pruned(records, now)
    ensures records[k].ev.Some? && records[k].ev.value >= 10000 ==> k in Pruned(records, now)
    ensures records[k].lastUpdated == Some(now - 604800001) && Below(records[k].ev, 10000) ==> k !in Pruned(records, now)
  {
  }

  /** No record written in this call is pruned. */
  lemma WrittenSurvive(records: Records, ps: seq<Player>, now: int)
    ensures var m := Merged(records, ps, now);
      forall k :: k in m && (k !in records || m[k] != records[k]) ==>
        k in Reconciled(records, ps, now) && Reconciled(records, ps, now)[k] == m[k]
  {
    WrittenStamped(records, ps, now);
  }

  /** The whole call: keys not sighted are kept unchanged unless pruned, and the
      only keys ever added are friend codes of sightings. */
  lemma ReconciledKeepsOthers(records: Records, ps: seq<Player>, now: int)
    ensures Reconciled(records, ps, now).Keys <= records.Keys + Sighted(ps)
    ensures forall k :: k in records && k !in Sighted(ps) ==>
              (k in Reconciled(records, ps, now) <==> !Stale(records[k], now))
              && (k in Reconciled(records, ps, now) ==> Reconciled(records, ps, now)[k] == records[k])
  {
    MergedKeepsOthers(records, ps, now);
  }

  /** A player stored at 100 and sighted at 2000: banned, with ban date `now`,
      and the new rating stored, whatever the stored record's ban state and age. */
  lemma JumpExample(records: Records, p: Player, now: int)
    requires p.fc in records && records[p.fc].ev == Some(100)
    requires p.ev == Some(2000) && Unfrozen(records, p)
    ensures var r := Reconciled(records, [p], now);
      p.fc in r && r[p.fc].ev == Some(2000) && r[p.fc].banned == Some(true) && r[p.fc].banDate == Some(now)
  {
    assert [p][..0] == [];
    assert Merged(records, [p], now) == Visit(records, p, now);
  }
}
