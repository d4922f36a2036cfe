/** JavaScript values as far as the player database needs them, and the player
    record that the live feed delivers and the database stores. */
module Players {

  datatype Option<T> = None | Some(value: T)

  /** The `first_max_vr` property: absent (`undefined`), the empty string that
      admission writes, or a millisecond timestamp. */
  datatype FirstMax = Unset | Blank | At(ms: int)

  /** One element of a player's `mii` array; `data` is `undefined` when absent.
      Before enrichment it is an encoded avatar reference, afterwards whatever the
      decoding service returned for it (kept opaque as a string). */
  datatype MiiEntry = MiiEntry(data: Option<string>)

  /** A player sighting, and equally a stored record: the source stores the
      sighting object itself. `None` stands for a property that is `undefined`;
      `other` holds every further property, carried along untouched. Only the
      filter of `fetchRooms` (`Rooms.Rated`) treats `null` like `undefined`, as it
      drops both; a stored `ev` of `null`, which JavaScript compares as 0, is not
      represented. */
  datatype Player = Player(
    fc: string,
    ev: Option<int>,
    banned: Option<bool>,
    banDate: Option<int>,
    firstMaxVr: FirstMax,
    lastUpdated: Option<int>,
    mii: Option<seq<MiiEntry>>,
    other: map<string, string>)

  /** A room of the live feed; `players` lists the values of the room's
      `players` object in property order. */
  datatype Room = Room(players: seq<Player>)

  // ---------------------------------------------------------------------------
  // Property keys. Indexing a JavaScript object with a value converts the value
  // to a string first; these are those conversions.

  function DigitChar(d: nat): char
    requires d < 10
  {
    "0123456789"[d]
  }

  function NatString(n: nat): string
    decreases n
  {
    if n < 10 then [DigitChar(n)] else NatString(n / 10) + [DigitChar(n % 10)]
  }

  /** `String(n)` for an integral number. */
  function NumberString(n: int): string {
    if n < 0 then "-" + NatString(-n) else NatString(n)
  }

  /** The key that `obj[flag]` reads for a boolean property. */
  function FlagKey(flag: Option<bool>): string {
    match flag
    case None => "undefined"
    case Some(b) => if b then "true" else "false"
  }

  /** The key that `obj[player.first_max_vr]` reads. */
  function FirstMaxKey(f: FirstMax): string {
    match f
    case Unset => "undefined"
    case Blank => ""
    case At(ms) => NumberString(ms)
  }

  /** The key that `obj[mii.data]` reads. */
  function DataKey(d: Option<string>): string {
    match d
    case None => "undefined"
    case Some(s) => s
  }

  /** `v < bound` where `v` may be `undefined`: a comparison with NaN is false. */
  predicate Below(v: Option<int>, bound: int) {
    v.Some? && v.value < bound
  }
}
