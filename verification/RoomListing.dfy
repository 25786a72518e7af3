/**
  The room listing of a channel, kept in memory as it is and in Redis as one text per room.
*/
module RoomListing {
  import opened Strings

  datatype Info = Info(name: string, sortOrder: int, ephemeral: bool, admin: bool, users: int)

  /** `str(b).lower()` */
  function BoolText(b: bool): string { if b then "true" else "false" }

  /** The stored text: sort order, two flags, user count, and the name last. */
  function Encode(info: Info): string {
    Join(Fields(info), '|')
  }

  /** `s.split(sep, maxsplit=limit)` */
  function SplitAtMost(s: string, sep: char, limit: nat): (parts: seq<string>)
    ensures 1 <= |parts| <= limit + 1
    decreases limit
  {
    if limit == 0 || sep !in s then [s]
    else
      var i := IndexOf(s, sep);
      [s[..i]] + SplitAtMost(s[i + 1..], sep, limit - 1)
  }

  /** The record in the five fields of a stored text; None stands for a ValueError. */
  function DecodeFields(parts: seq<string>): Option<Info>
    requires |parts| == 5
  {
    var sort := ParseInt(if parts[0] == "" then "999" else parts[0]);
    var users := ParseInt(if parts[3] == "" then "0" else parts[3]);
    if sort.None? || users.None? then None
    else Some(Info(parts[4], sort.value, LowerAll(parts[1]) in ["", "true"],
                   LowerAll(parts[2]) !in ["", "false"], users.value))
  }

  function Decode(s: string): Option<Info> {
    var parts := SplitAtMost(s, '|', 4);
    if |parts| != 5 then None else DecodeFields(parts)
  }

  lemma {:induction false} SplitAtMostJoined(parts: seq<string>, sep: char)
    requires |parts| >= 1
    requires forall i :: 0 <= i < |parts| - 1 ==> sep !in parts[i]
    ensures SplitAtMost(Join(parts, sep), sep, |parts| - 1) == parts
  {
    if |parts| > 1 {
      var first, rest := parts[0], parts[1..];
      CutAtFirst(first, sep, Join(rest, sep));
      SplitAtMostJoined(rest, sep);
      assert [first] + rest == parts;
    }
  }

  lemma NumberField(n: int)
    ensures DecInt(n) != "" && ParseInt(DecInt(n)) == Some(n) && '|' !in DecInt(n)
  {
    IntRoundTrip(n);
  }

  lemma FlagField(b: bool)
    ensures LowerAll(BoolText(b)) == BoolText(b) && '|' !in BoolText(b)
  {
  }

  function Fields(info: Info): seq<string> {
    [DecInt(info.sortOrder), BoolText(info.ephemeral), BoolText(info.admin), DecInt(info.users), info.name]
  }

  lemma FieldsHaveNoBar(info: Info)
    ensures forall i :: 0 <= i < 4 ==> '|' !in Fields(info)[i]
  {
    NumberField(info.sortOrder);
    NumberField(info.users);
    FlagField(info.ephemeral);
    FlagField(info.admin);
  }

  lemma FieldsDecode(info: Info)
    ensures DecodeFields(Fields(info)) == Some(info)
  {
    NumberField(info.sortOrder);
    NumberField(info.users);
    FlagField(info.ephemeral);
    FlagField(info.admin);
  }

  /** Every record comes back as it was, whatever its name holds. */
  lemma DecodeEncode(info: Info)
    ensures Decode(Encode(info)) == Some(info)
  {
    FieldsHaveNoBar(info);
    SplitAtMostJoined(Fields(info), '|');
    FieldsDecode(info);
  }

  /** Five fields on a line. */
  function Line(a: string, b: string, c: string, d: string, e: string): string {
    a + ['|'] + (b + ['|'] + (c + ['|'] + (d + ['|'] + e)))
  }

  lemma JoinMore(first: string, rest: seq<string>)
    requires rest != []
    ensures Join([first] + rest, '|') == first + ['|'] + Join(rest, '|')
  {
    assert ([first] + rest)[1..] == rest;
  }

  lemma JoinFive(a: string, b: string, c: string, d: string, e: string)
    ensures Join([a, b, c, d, e], '|') == Line(a, b, c, d, e)
  {
    JoinMore(d, [e]);
    JoinMore(c, [d, e]);
    JoinMore(b, [c, d, e]);
    JoinMore(a, [b, c, d, e]);
    assert [a] + [b, c, d, e] == [a, b, c, d, e] && [b] + [c, d, e] == [b, c, d, e] && [c] + [d, e] == [c, d, e];
  }

  lemma LineDecodes(a: string, b: string, c: string, d: string, e: string)
    requires '|' !in a && '|' !in b && '|' !in c && '|' !in d
    ensures Decode(Line(a, b, c, d, e)) == DecodeFields([a, b, c, d, e])
  {
    JoinFive(a, b, c, d, e);
    SplitAtMostJoined([a, b, c, d, e], '|');
  }

  /** The stored text of a record. */
  lemma StoredText(info: Info)
    ensures Encode(info) == Line(DecInt(info.sortOrder), if info.ephemeral then "true" else "false",
                                 if info.admin then "true" else "false", DecInt(info.users), info.name)
  {
    JoinFive(DecInt(info.sortOrder), BoolText(info.ephemeral), BoolText(info.admin), DecInt(info.users), info.name);
  }

  /**
    What the fields of a stored text are read as: no sort order is 999, no count is 0, only a flag that
    says something other than `true` denies ephemeral, and only one that says something other than
    `false` grants admin.
  */
  ghost predicate ReadsAs(a: string, b: string, c: string, d: string, name: string, r: Option<Info>) {
    match r
    case None => (a != "" && ParseInt(a).None?) || (d != "" && ParseInt(d).None?)
    case Some(info) =>
      && info.name == name
      && (if a == "" then info.sortOrder == 999 else ParseInt(a) == Some(info.sortOrder))
      && (if d == "" then info.users == 0 else ParseInt(d) == Some(info.users))
      && (info.ephemeral <==> b == "" || LowerAll(b) == "true")
      && (info.admin <==> c != "" && LowerAll(c) != "false")
  }

  lemma FieldsRead(a: string, b: string, c: string, d: string, name: string)
    requires '|' !in a && '|' !in b && '|' !in c && '|' !in d
    ensures ReadsAs(a, b, c, d, name, Decode(Line(a, b, c, d, name)))
  {
    LineDecodes(a, b, c, d, name);
    DecodesAs(a, b, c, d, name);
  }

  lemma DecodesAs(a: string, b: string, c: string, d: string, name: string)
    ensures ReadsAs(a, b, c, d, name, DecodeFields([a, b, c, d, name]))
  {
    ParseDefaults();
    assert |LowerAll(b)| == |b| && |LowerAll(c)| == |c|;
  }

  lemma ParseDefaults()
    ensures ParseInt("999") == Some(999) && ParseInt("0") == Some(0)
  {
    assert Dec(9) == "9" && Dec(99) == "99" && Dec(999) == "999" && Dec(0) == "0";
    IntRoundTrip(999);
    IntRoundTrip(0);
  }

  // ----- Tables -----

  /** A table with a function applied to each value. */
  function MapValues<A, B>(m: map<string, A>, f: A -> B): map<string, B> { map k | k in m :: f(m[k]) }

  /** The loops that fill a dictionary from another one. */
  method Convert<A, B>(m: map<string, A>, f: A -> B) returns (r: map<string, B>)
    ensures r == MapValues(m, f)
  {
    r := map[];
    var todo := m.Keys;
    while todo != {}
      invariant todo <= m.Keys && r.Keys == m.Keys - todo
      invariant forall k :: k in r ==> r[k] == f(m[k])
      decreases |todo|
    {
      var k :| k in todo;
      r := r[k := f(m[k])];
      todo := todo - {k};
    }
  }

  const ENCODER: Info -> string := info => Encode(info)
  const DECODER: string -> Option<Info> := s => Decode(s)

  /** The listing read from a Redis hash: nothing when the hash is empty. */
  function FromRedis(hash: map<string, string>): Option<map<string, Option<Info>>> {
    if hash == map[] then None else Some(MapValues(hash, DECODER))
  }

  /** The listing as memory gives it. */
  function AsRead<A>(rooms: map<string, A>): map<string, Option<A>> { MapValues(rooms, a => Some(a)) }

  /** What storing makes of the hash: its entries are added, rooms that are gone stay in it. */
  function Merged(hash: map<string, string>, rooms: map<string, Info>): map<string, string> {
    hash + MapValues(rooms, ENCODER)
  }

  /** The same for any way of writing values that can be read back. */
  lemma MergedIff<A, B>(hash: map<string, B>, rooms: map<string, A>, write: A -> B, read: B -> Option<A>)
    requires forall room :: room in rooms ==> read(write(rooms[room])) == Some(rooms[room])
    ensures var merged := hash + MapValues(rooms, write);
            (merged != map[] && MapValues(merged, read) == AsRead(rooms))
            <==> (rooms != map[] && hash.Keys <= rooms.Keys)
  {
    var merged := hash + MapValues(rooms, write);
    assert merged == map[] <==> merged.Keys == {};
    assert rooms == map[] <==> rooms.Keys == {};
    var found, asked := MapValues(merged, read), AsRead(rooms);
    assert found.Keys == hash.Keys + rooms.Keys && asked.Keys == rooms.Keys;
    assert forall room :: room in rooms ==> found[room] == asked[room];
    if hash.Keys <= rooms.Keys {
      assert found.Keys == asked.Keys;
    }
  }

  /**
    After storing a listing the two tiers answer alike exactly when the listing is not empty and the
    old hash held no room that has gone since: storing adds to the hash and never clears it.
  */
  lemma TiersAgreeIff(hash: map<string, string>, rooms: map<string, Info>)
    ensures FromRedis(Merged(hash, rooms)) == Some(AsRead(rooms)) <==> rooms != map[] && hash.Keys <= rooms.Keys
  {
    assert (Merged(hash, rooms) != map[] && MapValues(Merged(hash, rooms), DECODER) == AsRead(rooms))
           <==> (rooms != map[] && hash.Keys <= rooms.Keys) by {
      CodecRoundTrip();
      MergedIff(hash, rooms, ENCODER, DECODER);
    }
  }

  lemma CodecRoundTrip()
    ensures forall info :: DECODER(ENCODER(info)) == Some(info)
  {
    forall info
      ensures DECODER(ENCODER(info)) == Some(info)
    {
      DecodeEncode(info);
    }
  }

  // ----- Lifetimes -----

  const TEN_SECONDS := 10.0
  const ONE_MINUTE := 60.0

  datatype Kept = Kept(until: real, rooms: map<string, Info>)

  /** The entry in memory, and the hash in Redis with the time it expires. */
  datatype Tiers = Tiers(memory: Option<Kept>, hash: map<string, string>, hashUntil: real)

  function InMemory(t: Tiers, now: real): Option<map<string, Info>> {
    if t.memory.None? || now > t.memory.value.until then None else Some(t.memory.value.rooms)
  }

  function InRedis(t: Tiers, now: real): map<string, string> { if now > t.hashUntil then map[] else t.hash }

  /** Storing an empty listing leaves the hash and its lifetime alone. */
  function Stored(t: Tiers, rooms: map<string, Info>, now: real): Tiers {
    var memory := Some(Kept(now + TEN_SECONDS, rooms));
    if rooms == map[] then t.(memory := memory)
    else Tiers(memory, Merged(InRedis(t, now), rooms), now + ONE_MINUTE)
  }

  /** Memory first, then Redis. */
  function Answer(t: Tiers, now: real): Option<map<string, Option<Info>>> {
    var hit := InMemory(t, now);
    if hit.Some? then Some(AsRead(hit.value)) else FromRedis(InRedis(t, now))
  }

  /**
    A stored listing is what every look-up of the next minute gives if and only if it is not empty and
    holds every room of the hash that was alive when it was stored.
  */
  lemma AnswersForAMinuteIff(t: Tiers, rooms: map<string, Info>, at: real)
    ensures (forall now :: at <= now <= at + ONE_MINUTE ==> Answer(Stored(t, rooms, at), now) == Some(AsRead(rooms)))
            <==> rooms != map[] && InRedis(t, at).Keys <= rooms.Keys
  {
    TiersAgreeIff(InRedis(t, at), rooms);
    var end := at + ONE_MINUTE;
    AnswerWithin(t, rooms, at, end);
    if rooms == map[] {
      NothingIsNotEmpty(InRedis(t, end));
      assert AsRead(rooms) == map[];
    } else {
      forall now | at <= now <= end
        ensures Answer(Stored(t, rooms, at), now)
                == if now <= at + TEN_SECONDS then Some(AsRead(rooms)) else FromRedis(Merged(InRedis(t, at), rooms))
      {
        AnswerWithin(t, rooms, at, now);
      }
    }
  }

  /** Ten seconds from memory, then from what storing made of the hash. */
  lemma AnswerWithin(t: Tiers, rooms: map<string, Info>, at: real, now: real)
    requires at <= now <= at + ONE_MINUTE
    ensures Answer(Stored(t, rooms, at), now)
            == if now <= at + TEN_SECONDS then Some(AsRead(rooms))
               else FromRedis(if rooms == map[] then InRedis(t, now) else Merged(InRedis(t, at), rooms))
  {
  }

  /** For ten seconds memory gives exactly what was stored, whatever the hash holds; then its rooms come along. */
  lemma AnswersFromMemory(t: Tiers, rooms: map<string, Info>, at: real, now: real)
    requires at <= now <= at + 60.0
    ensures now <= at + 10.0 ==> Answer(Stored(t, rooms, at), now) == Some(AsRead(rooms))
    ensures now > at + 10.0 && rooms != map[] ==>
              && Answer(Stored(t, rooms, at), now).Some?
              && Answer(Stored(t, rooms, at), now).value.Keys == rooms.Keys + InRedis(t, at).Keys
  {
    AnswerWithin(t, rooms, at, now);
    if rooms != map[] {
      assert Merged(InRedis(t, at), rooms).Keys == rooms.Keys + InRedis(t, at).Keys;
      var room :| room in rooms;
      assert room in Merged(InRedis(t, at), rooms);
    }
  }

  lemma NothingIsNotEmpty(hash: map<string, string>)
    ensures FromRedis(hash) != Some(map[])
  {
    if hash != map[] {
      var room :| room in hash;
      assert room in MapValues(hash, DECODER);
    }
  }

  /** Later a stored listing is forgotten, but after an empty one the old hash comes back while it is alive. */
  lemma AnswersLater(t: Tiers, rooms: map<string, Info>, at: real, now: real)
    ensures rooms != map[] && now > at + ONE_MINUTE ==> Answer(Stored(t, rooms, at), now) == None
    ensures rooms == map[] && now > at + TEN_SECONDS ==> Answer(Stored(t, rooms, at), now) == FromRedis(InRedis(t, now))
  {
  }

  class RoomListings {
    var memory: Option<Kept>
    var hash: map<string, string>
    var hashUntil: real

    function View(): Tiers
      reads this
    {
      Tiers(memory, hash, hashUntil)
    }

    constructor ()
      ensures View() == Tiers(None, map[], 0.0)
    {
      memory, hash, hashUntil := None, map[], 0.0;
    }

    method SetRoomsForChannel(rooms: map<string, Info>, now: real)
      modifies this
      ensures View() == Stored(old(View()), rooms, now)
    {
      memory := Some(Kept(now + TEN_SECONDS, rooms));
      var redisRooms := Convert(rooms, ENCODER);
      if redisRooms.Keys != {} {
        hash := InRedis(View(), now) + redisRooms;
        hashUntil := now + ONE_MINUTE;
      } else {
        assert rooms.Keys == {};
      }
    }

    /**
      Memory first, where an expired entry is dropped, then Redis; a room whose text cannot be read is a
      ValueError in the program.
    */
    method GetRoomsForChannel(now: real) returns (rooms: Option<map<string, Option<Info>>>)
      modifies this`memory
      ensures rooms == Answer(old(View()), now)
      ensures memory == if InMemory(old(View()), now).None? then None else old(memory)
    {
      if memory.Some? && now <= memory.value.until {
        return Some(AsRead(memory.value.rooms));
      }
      memory := None;
      var raw := InRedis(View(), now);
      if raw == map[] {
        return None;
      }
      var clean := Convert(raw, DECODER);
      rooms := Some(clean);
    }
  }
}
