/** Matchmaking tickets: players wait for a partner in the same game, mode and region. */
module Matchmaking {
  import opened Wrappers
  import opened Text

  const TICKET_SECONDS: int := 120
  const DAY: int := 86400

  datatype Status = Waiting | Matched | Cancelled | Expired

  /** Times are in seconds. */
  datatype Ticket = Ticket(game: string, user: string, mode: string, region: string, status: Status, matchId: string,
                           created: int, expires: int, updated: int)

  /** Tickets by identity. */
  type Table = map<string, Ticket>

  datatype Error = Disabled | LoginRequired | Invalid | TicketExists | NotFound | NotActive

  // --- The statements of a transaction -------------------------------------------------

  function Expire(t: Ticket, now: int): Ticket {
    if t.status == Waiting && t.expires <= now then t.(status := Expired, updated := now) else t
  }

  function ExpireDue(table: Table, now: int): Table {
    map id | id in table :: Expire(table[id], now)
  }

  /** Tickets that ended more than a day ago go, and so do the player's own ended tickets for the game. */
  predicate Stays(t: Ticket, game: string, user: string, now: int) {
    t.status == Waiting || (t.updated >= now - DAY && !(t.game == game && t.user == user))
  }

  function Prune(table: Table, game: string, user: string, now: int): Table {
    map id | id in table && Stays(table[id], game, user, now) :: table[id]
  }

  /** The unique index: one waiting ticket for each player and game. */
  predicate HasWaiting(table: Table, game: string, user: string) {
    exists id | id in table :: table[id].status == Waiting && table[id].game == game && table[id].user == user
  }

  predicate Candidate(table: Table, id: string, t: Ticket) {
    id in table && table[id].status == Waiting && table[id].game == t.game && table[id].user != t.user
    && table[id].mode == t.mode && table[id].region == t.region
  }

  function Join(table: Table, a: string, b: string, room: string, now: int): Table
    requires a in table && b in table
  {
    table[a := table[a].(status := Matched, matchId := room, updated := now)]
         [b := table[b].(status := Matched, matchId := room, updated := now)]
  }

  // --- The transactions ----------------------------------------------------------------

  predicate Separates(c: char) {
    c in "\0\r\n\t/\\"
  }

  /** A trimmed field, or the fallback for a blank one; too long or with separators it is not accepted. */
  function Normalize(value: string, fallback: string): Option<string> {
    var trimmed := Trim(value);
    var chosen := if trimmed == "" then fallback else trimmed;
    if ByteLength(chosen) > 64 || exists c | c in chosen :: Separates(c) then None else Some(chosen)
  }

  datatype Request = Request(enabled: bool, game: string, user: string, mode: string, region: string)

  /** The ticket a request asks for, or why there is none. */
  function Wanted(req: Request, now: int): Result<Ticket, Error> {
    if !req.enabled then Failure(Disabled)
    else if Trim(req.user) == "" then Failure(LoginRequired)
    else
      var mode, region := Normalize(req.mode, "default"), Normalize(req.region, "global");
      if mode.None? || region.None? then Failure(Invalid)
      else Success(Ticket(req.game, req.user, mode.value, region.value, Waiting, "", now, now + TICKET_SECONDS, now))
  }

  /** The table before the new ticket goes in. */
  function Cleared(table: Table, t: Ticket, now: int): Table {
    Prune(ExpireDue(table, now), t.game, t.user, now)
  }

  /** Some candidate to play with. */
  ghost predicate Paired(table: Table, t: Ticket, id: string, room: string, now: int, after: Table)
    requires id !in table
  {
    var inserted := table[id := t];
    if exists other :: Candidate(table, other, t)
    then exists other | Candidate(table, other, t) :: after == Join(inserted, id, other, room, now)
    else after == inserted
  }

  // --- What a request asks for ---------------------------------------------------------

  /** The value of a field without the white space around it, or the fallback if there is nothing else. */
  ghost predicate Chosen(value: string, fallback: string, x: string) {
    if AllBlank(value) then x == fallback else Stripped(value, x)
  }

  /** At most 64 bytes, without separators or control characters that would break a line. */
  predicate Accepted(x: string) {
    ByteLength(x) <= 64 && forall c | c in x :: c as int !in {0, 9, 10, 13, 47, 92}
  }

  lemma SeparatesExactly(c: char)
    ensures Separates(c) <==> c as int in {0, 9, 10, 13, 47, 92}
  {
    var separators := "\0\r\n\t/\\";
    assert |separators| == 6;
    assert c in separators <==>
      c == separators[0] || c == separators[1] || c == separators[2] || c == separators[3] || c == separators[4] || c == separators[5];
    assert c as int in {0, 9, 10, 13, 47, 92} <==> c == '\0' || c == '\r' || c == '\n' || c == '\t' || c == '/' || c == '\\';
  }

  lemma NormalizeExactly(value: string, fallback: string, x: string)
    ensures Normalize(value, fallback) == Some(x) <==> Chosen(value, fallback, x) && Accepted(x)
  {
    hide Trim, ByteLength, Blank, AllBlank, Stripped, Separates;
    TrimBlank(value);
    TrimExactly(value, x);
    forall c: char
      ensures Separates(c) <==> c as int in {0, 9, 10, 13, 47, 92}
    {
      SeparatesExactly(c);
    }
    var chosen := if Trim(value) == "" then fallback else Trim(value);
    assert chosen == x <==> Chosen(value, fallback, x);
    assert Accepted(chosen) <==> ByteLength(chosen) <= 64 && !exists c | c in chosen :: Separates(c);
  }

  /** A request gets a ticket exactly if tickets are enabled, somebody asks and both fields are accepted: a waiting ticket of this player for this game, with the mode and the region asked for, which ends after 120 seconds. */
  lemma TicketExactly(req: Request, now: int, t: Ticket)
    ensures Wanted(req, now) == Success(t) <==>
      && req.enabled && !AllBlank(req.user)
      && t == Ticket(req.game, req.user, t.mode, t.region, Waiting, "", now, now + 120, now)
      && Chosen(req.mode, "default", t.mode) && Accepted(t.mode) && Chosen(req.region, "global", t.region) && Accepted(t.region)
    ensures Wanted(req, now) == Failure(Disabled) <==> !req.enabled
    ensures Wanted(req, now) == Failure(LoginRequired) <==> req.enabled && AllBlank(req.user)
  {
    hide Trim, Normalize, Chosen, Accepted, AllBlank, Stripped;
    TrimBlank(req.user);
    NormalizeExactly(req.mode, "default", t.mode);
    NormalizeExactly(req.region, "global", t.region);
  }

  /** A ticket is waiting before its time is over. */
  predicate Active(t: Ticket, now: int) {
    t.status == Waiting && now < t.expires
  }

  /** Reading a ticket ends it if it waits and its time is over, and changes nothing else. */
  lemma ExpireExactly(t: Ticket, now: int)
    ensures Active(t, now) || t.status != Waiting ==> Expire(t, now) == t
    ensures t.status == Waiting && t.expires <= now ==>
      Expire(t, now) == Ticket(t.game, t.user, t.mode, t.region, Expired, t.matchId, t.created, t.expires, now)
  {
  }

  /** Of another player or for another game, and not over for more than a day. */
  predicate KeptForADay(other: Ticket, t: Ticket, now: int) {
    !(other.game == t.game && other.user == t.user) && (other.status == Waiting || now - other.updated <= 86400)
  }

  /** What a new ticket finds: active tickets stay as they are; others stay for a day, expired if they were waiting, but not the player's own for the game. */
  lemma ClearedExactly(table: Table, t: Ticket, now: int, id: string)
    ensures var after := Cleared(table, t, now);
      && (id in after ==> after[id] == Expire(table[id], now))
      && (id in after <==> id in table && (Active(table[id], now) || KeptForADay(table[id], t, now)))
  {
    if id in table {
      ExpireExactly(table[id], now);
    }
  }

  /** A second ticket is refused exactly while the player has an active one for the game. */
  lemma SecondTicketExactly(table: Table, t: Ticket, now: int)
    ensures HasWaiting(Cleared(table, t, now), t.game, t.user)
      <==> exists id | id in table :: Active(table[id], now) && table[id].game == t.game && table[id].user == t.user
  {
    hide Cleared;
    var after := Cleared(table, t, now);
    forall id
      ensures (id in after && after[id].status == Waiting && after[id].game == t.game && after[id].user == t.user)
        <==> (id in table && Active(table[id], now) && table[id].game == t.game && table[id].user == t.user)
    {
      ClearedExactly(table, t, now, id);
    }
  }

  // --- The invariant -------------------------------------------------------------------

  predicate SameRoom(a: Ticket, b: Ticket) {
    a.game == b.game && a.mode == b.mode && a.region == b.region
  }

  /** A player has at most one ticket for a game. */
  ghost predicate OneEach(table: Table) {
    forall i, k | i in table && k in table && i != k :: !(table[i].game == table[k].game && table[i].user == table[k].user)
  }

  /** At most one player waits for a game, mode and region. */
  ghost predicate OneWaiting(table: Table) {
    forall i, k | i in table && k in table && i != k ::
      !(table[i].status == Waiting && table[k].status == Waiting && SameRoom(table[i], table[k]))
  }

  /** Exactly the matched tickets have a match. */
  ghost predicate MatchedHaveMatch(table: Table) {
    forall i | i in table :: table[i].matchId != "" <==> table[i].status == Matched
  }

  /** Two tickets of one match are for the same room and for different players. */
  ghost predicate PairsAgree(table: Table) {
    forall i, k | i in table && k in table && i != k ::
      table[i].matchId != "" && table[i].matchId == table[k].matchId ==> SameRoom(table[i], table[k]) && table[i].user != table[k].user
  }

  /** No three tickets share a match. */
  ghost predicate AtMostTwo(table: Table) {
    forall i, k, l | i in table && k in table && l in table && i != k && k != l && i != l ::
      !(table[i].matchId != "" && table[i].matchId == table[k].matchId && table[k].matchId == table[l].matchId)
  }

  ghost predicate Valid(table: Table) {
    OneEach(table) && OneWaiting(table) && MatchedHaveMatch(table) && PairsAgree(table) && AtMostTwo(table)
  }

  /** Tickets may be dropped, and waiting ones may end without a match. */
  ghost predicate Shrinks(table: Table, after: Table) {
    forall id | id in after ::
      && id in table
      && (after[id] == table[id]
          || (table[id].status == Waiting && after[id].status in {Cancelled, Expired}
              && after[id] == table[id].(status := after[id].status, updated := after[id].updated)))
  }

  /** What a shrinking step keeps of each ticket. */
  ghost predicate Keeps(table: Table, after: Table) {
    forall id | id in after ::
      && id in table && SameRoom(after[id], table[id]) && after[id].user == table[id].user && after[id].matchId == table[id].matchId
      && (after[id].status == Waiting ==> table[id].status == Waiting) && (after[id].status == Matched <==> table[id].status == Matched)
  }

  lemma ShrinkKeeps(table: Table, after: Table)
    requires Valid(table) && Shrinks(table, after)
    ensures Valid(after)
  {
    assert Keeps(table, after);
    hide Shrinks, OneEach, OneWaiting, MatchedHaveMatch, PairsAgree, AtMostTwo;
    KeepsOnes(table, after);
    KeepsPairs(table, after);
    KeepsAtMostTwo(table, after);
  }

  lemma KeepsOnes(table: Table, after: Table)
    requires Keeps(table, after) && OneEach(table) && OneWaiting(table) && MatchedHaveMatch(table)
    ensures OneEach(after) && OneWaiting(after) && MatchedHaveMatch(after)
  {
    forall i, k | i in after && k in after && i != k
      ensures !(after[i].game == after[k].game && after[i].user == after[k].user)
      ensures !(after[i].status == Waiting && after[k].status == Waiting && SameRoom(after[i], after[k]))
    {
      assert i in table && k in table;
    }
  }

  lemma KeepsPairs(table: Table, after: Table)
    requires Keeps(table, after) && PairsAgree(table)
    ensures PairsAgree(after)
  {
    forall i, k | i in after && k in after && i != k && after[i].matchId != "" && after[i].matchId == after[k].matchId
      ensures SameRoom(after[i], after[k]) && after[i].user != after[k].user
    {
      assert i in table && k in table;
    }
  }

  lemma KeepsAtMostTwo(table: Table, after: Table)
    requires Keeps(table, after) && AtMostTwo(table)
    ensures AtMostTwo(after)
  {
    forall i, k, l | i in after && k in after && l in after && i != k && k != l && i != l
      ensures !(after[i].matchId != "" && after[i].matchId == after[k].matchId && after[k].matchId == after[l].matchId)
    {
      assert i in table && k in table && l in table;
    }
  }

  /** The new ticket alone: nobody else waits for the same room. */
  lemma InsertKeeps(table: Table, t: Ticket, id: string)
    requires Valid(table) && id !in table && t.status == Waiting && t.matchId == ""
    requires forall i | i in table :: !(table[i].game == t.game && table[i].user == t.user)
    requires forall other :: !Candidate(table, other, t)
    ensures Valid(table[id := t])
  {
    var after := table[id := t];
    forall i | i in table
      ensures !(table[i].status == Waiting && SameRoom(table[i], t))
    {
      assert !Candidate(table, i, t);
    }
    hide Candidate;
    assert OneEach(after) && OneWaiting(after);
    assert MatchedHaveMatch(after);
    InsertAgrees(table, t, id);
  }

  lemma InsertAgrees(table: Table, t: Ticket, id: string)
    requires PairsAgree(table) && AtMostTwo(table) && id !in table && t.matchId == ""
    ensures PairsAgree(table[id := t]) && AtMostTwo(table[id := t])
  {
    var after := table[id := t];
    forall i, k, l | i in after && k in after && l in after && i != k && k != l && i != l
      ensures !(after[i].matchId != "" && after[i].matchId == after[k].matchId && after[k].matchId == after[l].matchId)
    {
      if i != id && k != id && l != id {
        assert i in table && k in table && l in table;
      }
    }
  }

  /** The new ticket and its partner get a match that no other ticket has. */
  lemma JoinKeeps(table: Table, t: Ticket, id: string, other: string, room: string, now: int)
    requires Valid(table) && id !in table && Candidate(table, other, t)
    requires forall i | i in table :: !(table[i].game == t.game && table[i].user == t.user)
    requires room != "" && forall i | i in table :: table[i].matchId != room
    ensures Valid(Join(table[id := t], id, other, room, now))
  {
    var after := Join(table[id := t], id, other, room, now);
    JoinedTickets(table, t, id, other, room, now);
    hide Join;
    JoinedOnes(table, id, other, room, after);
    JoinedPairs(table, id, other, room, after);
    JoinedAtMostTwo(table, id, other, room, after);
  }

  /** The tickets after a match, one by one. */
  ghost predicate Joined(table: Table, id: string, other: string, room: string, after: Table) {
    && other in table && id !in table && after.Keys == table.Keys + {id}
    && after[id].status == Matched && after[id].matchId == room
    && after[other].status == Matched && after[other].matchId == room
    && SameRoom(after[id], after[other]) && after[id].user != after[other].user
    && SameRoom(after[other], table[other]) && after[other].user == table[other].user
    && (forall i | i in table :: !(table[i].game == after[id].game && table[i].user == after[id].user))
    && (forall i | i in table && i != other :: after[i] == table[i])
    && room != "" && (forall i | i in table :: table[i].matchId != room)
  }

  lemma JoinedTickets(table: Table, t: Ticket, id: string, other: string, room: string, now: int)
    requires id !in table && Candidate(table, other, t)
    requires forall i | i in table :: !(table[i].game == t.game && table[i].user == t.user)
    requires room != "" && forall i | i in table :: table[i].matchId != room
    ensures Joined(table, id, other, room, Join(table[id := t], id, other, room, now))
  {
  }

  /** One ticket after a match. */
  lemma JoinedTicket(table: Table, id: string, other: string, room: string, after: Table, i: string)
    requires Joined(table, id, other, room, after) && i in after
    ensures id in after && other in after && other in table && after[id].status == Matched
    ensures after[i].matchId == room <==> i == id || i == other
    ensures i != id ==> i in table && SameRoom(after[i], table[i]) && after[i].user == table[i].user
                        && !(after[i].game == after[id].game && after[i].user == after[id].user)
    ensures i == other ==> after[i].status == Matched && i != id && SameRoom(after[id], after[i]) && after[id].user != after[i].user
    ensures i != id && i != other ==> after[i] == table[i]
    ensures room != ""
  {
  }

  lemma JoinedTwo(table: Table, id: string, other: string, room: string, after: Table, i: string, k: string)
    requires Joined(table, id, other, room, after) && i in after && k in after && i != k
    requires OneEach(table) && OneWaiting(table)
    ensures !(after[i].game == after[k].game && after[i].user == after[k].user)
    ensures !(after[i].status == Waiting && after[k].status == Waiting && SameRoom(after[i], after[k]))
  {
    hide Joined;
    JoinedTicket(table, id, other, room, after, i);
    JoinedTicket(table, id, other, room, after, k);
  }

  lemma JoinedOnes(table: Table, id: string, other: string, room: string, after: Table)
    requires Joined(table, id, other, room, after) && OneEach(table) && OneWaiting(table) && MatchedHaveMatch(table)
    ensures OneEach(after) && OneWaiting(after) && MatchedHaveMatch(after)
  {
    hide Joined;
    forall i, k | i in after && k in after && i != k
      ensures !(after[i].game == after[k].game && after[i].user == after[k].user)
      ensures !(after[i].status == Waiting && after[k].status == Waiting && SameRoom(after[i], after[k]))
    {
      JoinedTwo(table, id, other, room, after, i, k);
    }
    forall i | i in after
      ensures after[i].matchId != "" <==> after[i].status == Matched
    {
      JoinedTicket(table, id, other, room, after, i);
    }
  }

  lemma JoinedPairs(table: Table, id: string, other: string, room: string, after: Table)
    requires Joined(table, id, other, room, after) && PairsAgree(table)
    ensures PairsAgree(after)
  {
    hide Joined;
    forall i, k | i in after && k in after && i != k && after[i].matchId != "" && after[i].matchId == after[k].matchId
      ensures SameRoom(after[i], after[k]) && after[i].user != after[k].user
    {
      JoinedTicket(table, id, other, room, after, i);
      JoinedTicket(table, id, other, room, after, k);
    }
  }

  lemma JoinedAtMostTwo(table: Table, id: string, other: string, room: string, after: Table)
    requires Joined(table, id, other, room, after) && AtMostTwo(table)
    ensures AtMostTwo(after)
  {
    hide Joined, SameRoom;
    forall i, k, l | i in after && k in after && l in after && i != k && k != l && i != l
      ensures !(after[i].matchId != "" && after[i].matchId == after[k].matchId && after[k].matchId == after[l].matchId)
    {
      JoinedTicket(table, id, other, room, after, i);
      JoinedTicket(table, id, other, room, after, k);
      JoinedTicket(table, id, other, room, after, l);
    }
  }

  // --- The transactions keep the invariant ---------------------------------------------

  lemma ClearingShrinks(table: Table, t: Ticket, now: int)
    ensures Shrinks(table, Cleared(table, t, now))
  {
  }

  /** When the index admits the new ticket, the player has no other ticket for the game. */
  lemma NoTicketLeft(table: Table, t: Ticket, now: int)
    requires !HasWaiting(Cleared(table, t, now), t.game, t.user)
    ensures var cleared := Cleared(table, t, now); forall i | i in cleared :: !(cleared[i].game == t.game && cleared[i].user == t.user)
  {
    var cleared := Cleared(table, t, now);
    forall i | i in cleared
      ensures !(cleared[i].game == t.game && cleared[i].user == t.user)
    {
      assert Stays(cleared[i], t.game, t.user, now);
    }
  }

  /** Creating a ticket, with or without a partner, keeps the invariant. */
  lemma CreateKeeps(table: Table, t: Ticket, id: string, room: string, now: int, after: Table)
    requires Valid(table) && id !in table && room != "" && forall i | i in table :: table[i].matchId != room
    requires t.status == Waiting && t.matchId == "" && !HasWaiting(Cleared(table, t, now), t.game, t.user)
    requires Paired(Cleared(table, t, now), t, id, room, now, after)
    ensures Valid(after)
  {
    hide Valid, Cleared, HasWaiting, Join, Shrinks;
    var cleared := Cleared(table, t, now);
    ClearingShrinks(table, t, now);
    ShrinkKeeps(table, cleared);
    NoTicketLeft(table, t, now);
    ClearedIds(table, t, id, room, now);
    if exists other :: Candidate(cleared, other, t) {
      var other :| Candidate(cleared, other, t) && after == Join(cleared[id := t], id, other, room, now);
      JoinKeeps(cleared, t, id, other, room, now);
    } else {
      InsertKeeps(cleared, t, id);
    }
  }

  lemma ClearedIds(table: Table, t: Ticket, id: string, room: string, now: int)
    requires id !in table && forall i | i in table :: table[i].matchId != room
    ensures var cleared := Cleared(table, t, now); id !in cleared && forall i | i in cleared :: cleared[i].matchId != room
  {
  }

  /** There is never a choice of partners. */
  lemma OneCandidate(table: Table, t: Ticket, a: string, b: string)
    requires Valid(table) && Candidate(table, a, t) && Candidate(table, b, t)
    ensures a == b
  {
    hide OneEach, MatchedHaveMatch, PairsAgree, AtMostTwo;
  }

  /** The place in the queue: the waiting tickets for the same room that are not younger. */
  function Position(table: Table, id: string): nat
    requires id in table
  {
    |set i | i in table && table[i].status == Waiting && SameRoom(table[i], table[id]) && table[i].created <= table[id].created|
  }

  /** Whoever waits is first in the queue. */
  lemma WaitingIsFirst(table: Table, id: string)
    requires Valid(table) && id in table && table[id].status == Waiting
    ensures Position(table, id) == 1
  {
    hide OneEach, MatchedHaveMatch, PairsAgree, AtMostTwo;
    var queue := set i | i in table && table[i].status == Waiting && SameRoom(table[i], table[id]) && table[i].created <= table[id].created;
    assert queue == {id};
  }

  // --- The table -----------------------------------------------------------------------

  /** A ticket as it is returned, with its place in the queue while it waits. */
  datatype Shown = Shown(ticket: Ticket, position: nat)

  class TicketTable {
    var tickets: Table

    constructor ()
      ensures tickets == map[] && Valid(tickets)
    {
      tickets := map[];
    }

    /** Enters a new ticket, and matches it with the one that waits for the same room, if there is one; a failure changes nothing. */
    method CreateMatchTicket(req: Request, now: int, id: string, room: string) returns (r: Result<Shown, Error>)
      requires Valid(tickets)
      requires id !in tickets && room != "" && forall i | i in tickets :: tickets[i].matchId != room
      modifies this
      ensures Valid(tickets)
      ensures var wanted := Wanted(req, now);
        match wanted
        case Failure(error) => r == Failure(error) && tickets == old(tickets)
        case Success(t) =>
          var cleared := Cleared(old(tickets), t, now);
          if HasWaiting(cleared, t.game, t.user) then r == Failure(TicketExists) && tickets == old(tickets)
          else id !in cleared && Paired(cleared, t, id, room, now, tickets) && id in tickets
               && r == Success(Shown(tickets[id], if tickets[id].status == Waiting then 1 else 0))
    {
      hide Valid, Cleared, Candidate, HasWaiting, Normalize, Trim;
      var wanted := Wanted(req, now);
      if wanted.Failure? {
        return Failure(wanted.error);
      }
      var t := wanted.value;
      var cleared := Cleared(tickets, t, now);
      ClearedIds(tickets, t, id, room, now);
      if HasWaiting(cleared, t.game, t.user) {
        return Failure(TicketExists);
      }
      var after := cleared[id := t];
      CandidatesAreTickets(cleared, t);
      if exists other | other in cleared :: Candidate(cleared, other, t) {
        var other :| other in cleared && Candidate(cleared, other, t);
        after := Join(after, id, other, room, now);
      }
      CreateKeeps(tickets, t, id, room, now, after);
      NewTicket(cleared, t, id, room, now, after);
      tickets := after;
      r := MatchTicketById(t.game, t.user, id, now);
    }

    /** Shows a ticket of a player, after ending it if its time is over; what is shown of one that ends now is when it was changed before. */
    method MatchTicketById(game: string, user: string, id: string, now: int) returns (r: Result<Shown, Error>)
      requires Valid(tickets)
      modifies this
      ensures Valid(tickets)
      ensures if id in old(tickets) && old(tickets)[id].game == game && old(tickets)[id].user == user
              then tickets == old(tickets)[id := Expire(old(tickets)[id], now)]
                   && r == Success(Shown(tickets[id].(updated := old(tickets)[id].updated), if tickets[id].status == Waiting then 1 else 0))
              else tickets == old(tickets) && r == Failure(NotFound)
    {
      if id !in tickets || tickets[id].game != game || tickets[id].user != user {
        return Failure(NotFound);
      }
      var position, item := 0, tickets[id];
      ghost var before := tickets;
      if item.status == Waiting && item.expires <= now {
        tickets := tickets[id := Expire(item, now)];
        item := item.(status := Expired);
      }
      assert tickets == before[id := Expire(before[id], now)];
      ShrinkKeeps(before, tickets);
      if item.status == Waiting {
        WaitingIsFirst(tickets, id);
        position := Position(tickets, id);
      }
      r := Success(Shown(item, position));
    }

    /** Ends a waiting ticket; ending it again is no error, ending a matched one is. */
    method CancelMatchTicket(game: string, user: string, id: string, now: int) returns (r: Result<(), Error>)
      requires Valid(tickets)
      modifies this
      ensures Valid(tickets)
      ensures var mine := id in old(tickets) && old(tickets)[id].game == game && old(tickets)[id].user == user;
              && tickets == (if mine && old(tickets)[id].status == Waiting
                             then old(tickets)[id := old(tickets)[id].(status := Cancelled, updated := now)] else old(tickets))
              && r == (if !mine then Failure(NotFound) else if old(tickets)[id].status == Matched then Failure(NotActive) else Success(()))
    {
      if id !in tickets || tickets[id].game != game || tickets[id].user != user {
        return Failure(NotFound);
      }
      if tickets[id].status == Waiting {
        ghost var before := tickets;
        tickets := tickets[id := tickets[id].(status := Cancelled, updated := now)];
        ShrinkKeeps(before, tickets);
        return Success(());
      }
      r := if tickets[id].status == Matched then Failure(NotActive) else Success(());
    }
  }

  lemma CandidatesAreTickets(table: Table, t: Ticket)
    ensures (exists other :: Candidate(table, other, t)) <==> exists other | other in table :: Candidate(table, other, t)
  {
  }

  /** The new ticket is not due yet. */
  lemma NewTicket(table: Table, t: Ticket, id: string, room: string, now: int, after: Table)
    requires id !in table && t.expires > now && Paired(table, t, id, room, now, after)
    ensures id in after && after[id].game == t.game && after[id].user == t.user && Expire(after[id], now) == after[id]
    ensures after[id := Expire(after[id], now)] == after
  {
  }

  // --- Every run -----------------------------------------------------------------------

  /** One transaction of any kind, or the removal of tickets with their player or game. */
  ghost predicate Step(table: Table, after: Table) {
    || Shrinks(table, after)
    || exists t: Ticket, id: string, room: string, now: int :: Created(table, t, id, room, now, after)
  }

  ghost predicate Created(table: Table, t: Ticket, id: string, room: string, now: int, after: Table) {
    && id !in table && room != "" && (forall i | i in table :: table[i].matchId != room)
    && t.status == Waiting && t.matchId == "" && !HasWaiting(Cleared(table, t, now), t.game, t.user)
    && id !in Cleared(table, t, now) && Paired(Cleared(table, t, now), t, id, room, now, after)
  }

  /** In every run from a valid table, however the transactions interleave, every table is valid. */
  lemma {:induction false} EveryRunIsValid(tables: seq<Table>)
    requires |tables| > 0 && Valid(tables[0]) && forall i | 0 <= i < |tables| - 1 :: Step(tables[i], tables[i + 1])
    ensures forall i | 0 <= i < |tables| :: Valid(tables[i])
    decreases |tables|
  {
    hide Valid, Shrinks, Created;
    var last := |tables| - 1;
    if last > 0 {
      EveryRunIsValid(tables[..last]);
      var before, after := tables[last - 1], tables[last];
      assert tables[..last][last - 1] == before;
      assert Step(before, tables[last - 1 + 1]);
      if Shrinks(before, after) {
        ShrinkKeeps(before, after);
      } else {
        var t: Ticket, id: string, room: string, now: int :| Created(before, t, id, room, now, after);
        CreatedKeeps(before, t, id, room, now, after);
      }
      assert forall i | 0 <= i < last :: tables[..last][i] == tables[i];
    }
  }

  lemma CreatedKeeps(table: Table, t: Ticket, id: string, room: string, now: int, after: Table)
    requires Valid(table) && Created(table, t, id, room, now, after)
    ensures Valid(after)
  {
    hide Valid, Cleared, Candidate, HasWaiting;
    CreateKeeps(table, t, id, room, now, after);
  }
}
