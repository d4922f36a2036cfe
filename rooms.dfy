/** `fetchRooms`: the players of every room of the live feed, flattened into one
    list, without those whose `ev` is undefined or null. The HTTP request and
    JSON decoding are outside the model; the decoded rooms are the input. */
module Rooms {
  import opened Players

  /** The players of all rooms, room after room, each room's players in order. */
  function AllPlayers(rooms: seq<Room>): seq<Player>
    decreases |rooms|
  {
    if rooms == [] then [] else AllPlayers(rooms[..|rooms| - 1]) + rooms[|rooms| - 1].players
  }

  /** The players whose `ev` is neither undefined nor null, in order. */
  function Rated(ps: seq<Player>): seq<Player>
    decreases |ps|
  {
    if ps == [] then []
    else if ps[0].ev.Some? then [ps[0]] + Rated(ps[1..])
    else Rated(ps[1..])
  }

  /** The loop at lines 82-84 followed by the filter at lines 86-88. */
  method FetchRooms(rooms: seq<Room>) returns (players: seq<Player>)
    ensures players == Rated(AllPlayers(rooms))
  {
    players := [];
    var i := 0;
    while i < |rooms|
      invariant 0 <= i <= |rooms|
      invariant players == AllPlayers(rooms[..i])
    {
      assert rooms[..i + 1][..i] == rooms[..i];
      players := players + rooms[i].players;
      i := i + 1;
    }
    assert rooms[..i] == rooms;
    players := Rated(players);
  }

  /** The filter keeps exactly the players with a defined `ev`. */
  lemma {:induction false} RatedMembers(ps: seq<Player>, p: Player)
    ensures p in Rated(ps) <==> p in ps && p.ev.Some?
    decreases |ps|
  {
    if ps != [] {
      RatedMembers(ps[1..], p);
      assert ps == [ps[0]] + ps[1..];
    }
  }

  /** The filter keeps the order: filtering a concatenation concatenates the
      filtered parts. Together with `RatedSingle` this pins the filter down. */
  lemma {:induction false} RatedAppend(a: seq<Player>, b: seq<Player>)
    ensures Rated(a + b) == Rated(a) + Rated(b)
    decreases |a|
  {
    if a == [] {
      assert a + b == b;
    } else {
      assert (a + b)[1..] == a[1..] + b;
      RatedAppend(a[1..], b);
    }
  }

  /** A single player is kept iff its `ev` is defined. */
  lemma RatedSingle(p: Player)
    ensures Rated([p]) == if p.ev.Some? then [p] else []
  {
    assert [p][1..] == [];
  }

  /** Every player of the result has a defined `ev`, and the result is the input
      minus exactly the unrated players: the two together are the whole input. */
  lemma {:induction false} RatedPartition(ps: seq<Player>)
    ensures forall i :: 0 <= i < |Rated(ps)| ==> Rated(ps)[i].ev.Some?
    ensures forall i :: 0 <= i < |Unrated(ps)| ==> Unrated(ps)[i].ev.None?
    ensures multiset(Rated(ps)) + multiset(Unrated(ps)) == multiset(ps)
    decreases |ps|
  {
    if ps != [] {
      RatedPartition(ps[1..]);
      assert ps == [ps[0]] + ps[1..];
    }
  }

  /** The players the filter drops. */
  function Unrated(ps: seq<Player>): seq<Player>
    decreases |ps|
  {
    if ps == [] then []
    else if ps[0].ev.Some? then Unrated(ps[1..])
    else [ps[0]] + Unrated(ps[1..])
  }

  /** Flattening keeps every room's players, in room order. */
  lemma {:induction false} AllPlayersAppend(a: seq<Room>, b: seq<Room>)
    ensures AllPlayers(a + b) == AllPlayers(a) + AllPlayers(b)
    decreases |b|
  {
    if b == [] {
      assert a + b == a;
    } else {
      var last := |b| - 1;
      assert (a + b)[..|a + b| - 1] == a + b[..last];
      AllPlayersAppend(a, b[..last]);
    }
  }
}
