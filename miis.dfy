/** `fetchMiis`: collect every player's avatar reference, send the list to the
    decoding service, and replace each reference by the service's decoding of it.
    The service is outside the model: its reply (whether it was ok, and the
    dictionary it returned) is an input. */
module Miis {
  import opened Players

  predicate HasMii(p: Player) {
    p.mii.Some?
  }

  /** `player.mii[0].data` can be read: the player has no mii, or a non-empty
      mii array. On an empty array `mii[0]` is undefined and reading its `data`
      throws a TypeError. */
  predicate Readable(p: Player) {
    p.mii.None? || |p.mii.value| > 0
  }

  predicate AllReadable(ps: seq<Player>) {
    forall i :: 0 <= i < |ps| ==> Readable(ps[i])
  }

  /** The list posted to the service: `mii[0].data` of each player that has a
      mii, in order. */
  function Request(ps: seq<Player>): seq<Option<string>>
    requires AllReadable(ps)
    decreases |ps|
  {
    if ps == [] then []
    else
      var last := ps[|ps| - 1];
      Request(ps[..|ps| - 1]) + if HasMii(last) then [last.mii.value[0].data] else []
  }

  /** `mii_dict[key]`: undefined when the dictionary has no such key. */
  function Lookup(dict: map<string, string>, key: string): Option<string> {
    if key in dict then Some(dict[key]) else None
  }

  /** A player after line 114: the first mii entry's data replaced by the
      dictionary's value under the old data. */
  function Decoded(p: Player, dict: map<string, string>): Player
    requires Readable(p)
  {
    if HasMii(p) then
      var entries := p.mii.value;
      p.(mii := Some(entries[0 := entries[0].(data := Lookup(dict, DataKey(entries[0].data)))]))
    else p
  }

  function DecodedAll(ps: seq<Player>, dict: map<string, string>): seq<Player>
    requires AllReadable(ps)
  {
    seq(|ps|, i requires 0 <= i < |ps| => Decoded(ps[i], dict))
  }

  /** The decoding service's reply to the request. */
  datatype MiiResponse = MiiResponse(ok: bool, dict: map<string, string>)

  /** What `fetchMiis` comes to: the enriched players; a TypeError thrown while
      collecting; or, on a non-ok reply, `undefined`, on which the caller's merge
      throws in turn. */
  datatype Enrichment = Enriched(players: seq<Player>) | Unreadable | ServiceError

  /** Lines 93-117. `request` is the list posted (None when the collecting loop
      throws before anything is posted). */
  method FetchMiis(players: seq<Player>, response: MiiResponse)
    returns (request: Option<seq<Option<string>>>, outcome: Enrichment)
    ensures request.Some? <==> AllReadable(players)
    ensures request.Some? ==> request.value == Request(players)
    ensures outcome == if !AllReadable(players) then Unreadable
                       else if !response.ok then ServiceError
                       else Enriched(DecodedAll(players, response.dict))
  {
    var refs := [];
    var i := 0;
    while i < |players|
      invariant 0 <= i <= |players|
      invariant AllReadable(players[..i])
      invariant refs == Request(players[..i])
    {
      var player := players[i];
      assert players[..i + 1][..i] == players[..i];
      if player.mii.Some? {
        if |player.mii.value| == 0 {
          assert !Readable(players[i]);
          return None, Unreadable;
        }
        refs := refs + [player.mii.value[0].data];
      }
      i := i + 1;
    }
    assert players[..i] == players;
    request := Some(refs);
    if !response.ok {
      return request, ServiceError;
    }
    var dict := response.dict;
    var out := players;
    i := 0;
    while i < |out|
      invariant 0 <= i <= |out| == |players|
      invariant forall j :: 0 <= j < i ==> out[j] == Decoded(players[j], dict)
      invariant forall j :: i <= j < |out| ==> out[j] == players[j]
    {
      if out[i].mii.Some? {
        var entries := out[i].mii.value;
        out := out[i := out[i].(mii := Some(entries[0 := entries[0].(data := Lookup(dict, DataKey(entries[0].data)))]))];
      }
      i := i + 1;
    }
    outcome := Enriched(out);
  }

  /** Collecting keeps order: the request for a concatenation is the two requests
      one after the other. */
  lemma {:induction false} RequestAppend(a: seq<Player>, b: seq<Player>)
    requires AllReadable(a) && AllReadable(b)
    ensures AllReadable(a + b)
    ensures Request(a + b) == Request(a) + Request(b)
    decreases |b|
  {
    if b == [] {
      assert a + b == a;
    } else {
      var n := |b| - 1;
      assert (a + b)[..|a + b| - 1] == a + b[..n];
      assert (a + b)[|a + b| - 1] == b[n];
      RequestAppend(a, b[..n]);
    }
  }

  /** The request holds one entry per player with a mii, and it is that player's
      first mii data. */
  lemma {:induction false} RequestMembers(ps: seq<Player>)
    requires AllReadable(ps)
    ensures forall i :: 0 <= i < |ps| && HasMii(ps[i]) ==> ps[i].mii.value[0].data in Request(ps)
    ensures forall d :: d in Request(ps) ==>
              exists i :: 0 <= i < |ps| && HasMii(ps[i]) && ps[i].mii.value[0].data == d
    ensures |Request(ps)| <= |ps|
    decreases |ps|
  {
    if ps != [] {
      var n := |ps| - 1;
      var front := ps[..n];
      RequestMembers(front);
      forall d | d in Request(ps)
        ensures exists i :: 0 <= i < |ps| && HasMii(ps[i]) && ps[i].mii.value[0].data == d
      {
        if d in Request(front) {
          var i :| 0 <= i < |front| && HasMii(front[i]) && front[i].mii.value[0].data == d;
          assert ps[i] == front[i];
        } else {
          assert HasMii(ps[n]) && ps[n].mii.value[0].data == d;
        }
      }
      forall i | 0 <= i < |ps| && HasMii(ps[i])
        ensures ps[i].mii.value[0].data in Request(ps)
      {
        if i < n {
          assert ps[i] == front[i];
        }
      }
    }
  }

  /** Substitution touches only the first mii entry's data: it becomes the
      dictionary's value under the old data, and everything else is kept. */
  lemma DecodedChangesOnlyFirstData(p: Player, dict: map<string, string>)
    requires Readable(p)
    ensures var q := Decoded(p, dict);
      && q.(mii := p.mii) == p
      && (p.mii.None? ==> q == p)
      && (p.mii.Some? ==>
            && q.mii.Some?
            && |q.mii.value| == |p.mii.value|
            && q.mii.value[1..] == p.mii.value[1..]
            && q.mii.value[0].data == Lookup(dict, DataKey(p.mii.value[0].data)))
  {
  }
}
