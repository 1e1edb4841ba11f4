/** The registry the bot keeps in `monitor_list` (main.py:40): a map from a
    lower-cased username to its tracking record. Timestamps are whole seconds
    since the epoch, UTC. */
module Tracking {
  import opened Base

  /** Telegram's chat identifier. */
  type ChatId = int

  type Username = string

  /** The `"status"` field: `"monitoring"` until the account is seen again, then `"unbanned"`. */
  datatype Status = Monitoring | Unbanned

  /** One value of `monitor_list`: `start_time`, `status`, `chat_id` and the optional `unban_time`. */
  datatype Record = Record(start: int, status: Status, chat: ChatId, unban: Option<int>)

  type Registry = map<Username, Record>

  /** What one call of the existence check (main.py:44-48) does: the profile page answers
      200, answers anything else, or the request raises. */
  datatype Probe = Found | NotFound | Raised

  /** The existence check, an outside collaborator, as a function of the username. */
  type Checker = Username -> Probe

  /** The record `handle_usernames` stores for a new name (main.py:166-170). */
  function Fresh(now: int, chat: ChatId): Record
  {
    Record(now, Monitoring, chat, None)
  }

  /** The record after the monitor loop saw the account again (main.py:93-94). */
  function Unban(r: Record, now: int): (u: Record)
    ensures u.status == Unbanned && u.unban == Some(now)
    ensures u.start == r.start && u.chat == r.chat
  {
    r.(status := Unbanned, unban := Some(now))
  }

  /** An unban time is present exactly when the status is `unbanned`. */
  predicate WellFormedRecord(r: Record)
  {
    r.status == Monitoring <==> r.unban == None
  }

  predicate WellFormed(reg: Registry)
  {
    forall k :: k in reg ==> WellFormedRecord(reg[k])
  }

  /** No record lies in the future of `now`, and every unban time is at or after its start time. */
  predicate Chronological(reg: Registry, now: int)
  {
    forall k :: k in reg ==>
      && reg[k].start <= now
      && (reg[k].unban.Some? ==> reg[k].start <= reg[k].unban.value <= now)
  }

  /** The chat owns `name` when the registry holds it with that chat's id. */
  predicate Owns(reg: Registry, name: Username, chat: ChatId)
  {
    name in reg && reg[name].chat == chat
  }

  /** `get_user_monitored` (main.py:61-65): the entries of one chat that are still monitored. */
  function Monitored(reg: Registry, chat: ChatId): (m: Registry)
    ensures forall k :: k in m <==> Owns(reg, k, chat) && reg[k].status == Monitoring
    ensures forall k :: k in m ==> k in reg && m[k] == reg[k]
  {
    map k | k in reg && reg[k].chat == chat && reg[k].status == Monitoring :: reg[k]
  }

  /** A line of a listing reply: fixed text, or one monitored name with the seconds since its
      start time, which the reply shows through `format_duration`. */
  datatype Line = Plain(text: string) | Entry(name: Username, elapsed: int)

  /** One `Entry` line per name, in order, measured at `now`. */
  function EntryLines(reg: Registry, names: seq<Username>, now: int): (lines: seq<Line>)
    requires forall i :: 0 <= i < |names| ==> names[i] in reg
    ensures |lines| == |names|
    ensures forall i :: 0 <= i < |names| ==> lines[i] == Entry(names[i], now - reg[names[i]].start)
  {
    if |names| == 0 then [] else [Entry(names[0], now - reg[names[0]].start)] + EntryLines(reg, names[1..], now)
  }

  /** The names the `Entry` lines of a reply list, in order. */
  function ListedNames(lines: seq<Line>): seq<Username>
  {
    if |lines| == 0 then []
    else (if lines[0].Entry? then [lines[0].name] else []) + ListedNames(lines[1..])
  }

  /** The entry lines list exactly the names they were made from. */
  lemma {:induction false} ListedEntries(reg: Registry, names: seq<Username>, now: int)
    requires forall i :: 0 <= i < |names| ==> names[i] in reg
    ensures ListedNames(EntryLines(reg, names, now)) == names
  {
    if |names| > 0 {
      var lines := EntryLines(reg, names, now);
      ListedEntries(reg, names[1..], now);
      assert lines[1..] == EntryLines(reg, names[1..], now);
    }
  }

  /** A line of fixed text lists no name. */
  lemma ListedAfterPlain(text: string, lines: seq<Line>)
    ensures ListedNames([Plain(text)] + lines) == ListedNames(lines)
  {
    assert ([Plain(text)] + lines)[1..] == lines;
  }

  /** The names `get_user_monitored` returns, in the registry's iteration order `order`. */
  function MonitoredNames(reg: Registry, chat: ChatId, order: seq<Username>): (names: seq<Username>)
    ensures forall i :: 0 <= i < |names| ==> names[i] in reg && reg[names[i]].chat == chat && reg[names[i]].status == Monitoring
    ensures forall x :: x in names ==> x in order
  {
    if |order| == 0 then []
    else
      var rest := MonitoredNames(reg, chat, order[1..]);
      var k := order[0];
      if k in reg && reg[k].chat == chat && reg[k].status == Monitoring then [k] + rest else rest
  }

  lemma {:induction false} MonitoredNamesMembers(reg: Registry, chat: ChatId, order: seq<Username>)
    ensures forall x :: x in MonitoredNames(reg, chat, order) <==> x in order && x in Monitored(reg, chat)
    ensures Distinct(order) ==> Distinct(MonitoredNames(reg, chat, order))
  {
    if |order| > 0 {
      MonitoredNamesMembers(reg, chat, order[1..]);
      if Distinct(order) {
        DistinctTail(order);
      }
    }
  }

  /** `get_user_monitored` keeps the registry's iteration order: the names of a split order are
      the names of its front followed by those of its back. */
  lemma {:induction false} MonitoredNamesAppend(reg: Registry, chat: ChatId, a: seq<Username>, b: seq<Username>)
    ensures MonitoredNames(reg, chat, a + b) == MonitoredNames(reg, chat, a) + MonitoredNames(reg, chat, b)
    decreases |a|
  {
    if |a| == 0 {
      assert a + b == b;
    } else {
      assert (a + b)[1..] == a[1..] + b;
      MonitoredNamesAppend(reg, chat, a[1..], b);
    }
  }

  /** When `order` enumerates the registry, `get_user_monitored` yields each monitored name of
      the chat exactly once. */
  lemma MonitoredNamesExact(reg: Registry, chat: ChatId, order: seq<Username>)
    requires Enumerates(order, reg.Keys)
    ensures Enumerates(MonitoredNames(reg, chat, order), Monitored(reg, chat).Keys)
    ensures |MonitoredNames(reg, chat, order)| == |Monitored(reg, chat)|
  {
    var names := MonitoredNames(reg, chat, order);
    var m := Monitored(reg, chat);
    MonitoredNamesMembers(reg, chat, order);
    DistinctCardinality(names);
    assert (set x | x in names) == m.Keys;
  }
}
