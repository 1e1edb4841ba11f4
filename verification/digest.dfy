/** The daily summary thread `send_daily_summary` (main.py:104-131): when it wakes, and what it
    sends. Time is whole seconds since the epoch, UTC, so the time of day is the remainder
    modulo one day. */
module Digest {
  import opened Base
  import opened Tracking
  import Duration
  import Text

  /** The summary hour, UTC (main.py:17). */
  const DigestHour: int := 8
  const SecondsPerDay: int := 86400

  /** The time of day the summary is due, in seconds after midnight. */
  const DigestTime: int := DigestHour * 3600

  /** The deadline of main.py:106-108: today at the summary hour, or tomorrow when that is not
      in the future. */
  function NextDigest(now: int): (t: int)
    ensures now < t <= now + SecondsPerDay
    ensures t % SecondsPerDay == DigestTime
  {
    var today := now - now % SecondsPerDay + DigestTime;
    if now >= today then today + SecondsPerDay else today
  }

  /** The sleep of main.py:110-111, in seconds. */
  function WaitSeconds(now: int): (w: int)
    ensures 0 < w <= SecondsPerDay
    ensures (now + w) % SecondsPerDay == DigestTime
    ensures now % SecondsPerDay == DigestTime ==> w == SecondsPerDay
  {
    NextDigest(now) - now
  }

  /** The deadline is the first summary time after `now`: no later time of day at the summary
      hour comes before it. */
  lemma NextDigestIsNext(now: int, t: int)
    requires now < t && t % SecondsPerDay == DigestTime
    ensures NextDigest(now) <= t
  {
    var d := NextDigest(now);
    // both are summary times, so they differ by a whole number of days
    assert (t - d) % SecondsPerDay == 0;
    var n := (t - d) / SecondsPerDay;
    assert t - d == n * SecondsPerDay;
  }

  /** Waking at or after a summary time and before the next one, the thread sleeps until the
      next one, so it sends once per day. */
  lemma OneDigestPerDay(t: int, now: int)
    requires t % SecondsPerDay == DigestTime
    requires t <= now < t + SecondsPerDay
    ensures NextDigest(now) == t + SecondsPerDay
  {
    NextDigestIsNext(now, t + SecondsPerDay);
  }

  /** At 08:30 the summary is due at 08:00 the next day, not the same day. */
  lemma HalfPastEight(day: int)
    ensures NextDigest(day * SecondsPerDay + 8 * 3600 + 30 * 60) == (day + 1) * SecondsPerDay + 8 * 3600
  {
    OneDigestPerDay(day * SecondsPerDay + DigestTime, day * SecondsPerDay + 8 * 3600 + 30 * 60);
  }

  /** Every chat id in the registry, monitored or not (main.py:114). */
  function Subscribers(reg: Registry): (chats: set<ChatId>)
    ensures forall c :: c in chats <==> exists k :: k in reg && reg[k].chat == c
  {
    set k | k in reg :: reg[k].chat
  }

  const SummaryHeader: string := "Daily Monitoring Summary:"

  /** How a summary line reads, such as "@alice — monitoring for 3 days 1 hour" (main.py:124),
      without the emoji and the Markdown emphasis. */
  function RenderSummaryLine(l: Line): string
  {
    match l
    case Plain(text) => text
    case Entry(name, elapsed) => "@" + name + " — monitoring for " + Duration.Format(elapsed)
  }

  /** A summary entry line reads "@", the name, " — monitoring for ", and then the monitored
      time in words that read back as the components of that time. */
  lemma SummaryLineReadsBack(name: Username, elapsed: int)
    ensures var t := RenderSummaryLine(Entry(name, elapsed));
      var n, mid := |name|, " — monitoring for ";
      && |t| >= 1 + n + |mid|
      && t[..1] == "@" && t[1..1 + n] == name && t[1 + n..1 + n + |mid|] == mid
      && Duration.ParseDuration(t[1 + n + |mid|..]) == Some(Duration.Parts(elapsed))
  {
    Text.Pieces("@", name, " — monitoring for ", Duration.Format(elapsed));
    Duration.FormatRoundTrip(elapsed);
  }

  /** The summary for one chat: a header, a blank line, and one line per monitored name. */
  function SummaryLines(reg: Registry, chat: ChatId, order: seq<Username>, now: int): seq<Line>
  {
    [Plain(SummaryHeader), Plain("")] + EntryLines(reg, MonitoredNames(reg, chat, order), now)
  }

  /** A summary has the header, the blank line, then one line per monitored name of the chat,
      in registry order, each with the time since monitoring started. */
  lemma SummaryLayout(reg: Registry, chat: ChatId, order: seq<Username>, now: int)
    ensures var names := MonitoredNames(reg, chat, order);
      var lines := SummaryLines(reg, chat, order, now);
      && |lines| == 2 + |names|
      && lines[0] == Plain(SummaryHeader) && lines[1] == Plain("")
      && forall i :: 0 <= i < |names| ==> lines[i + 2] == Entry(names[i], now - reg[names[i]].start)
  {
  }

  /** A summary lists each monitored name of its chat exactly once and no other name. */
  lemma SummaryListsMonitored(reg: Registry, chat: ChatId, order: seq<Username>, now: int)
    requires Enumerates(order, reg.Keys)
    ensures Enumerates(ListedNames(SummaryLines(reg, chat, order, now)), Monitored(reg, chat).Keys)
  {
    var names := MonitoredNames(reg, chat, order);
    var entries := EntryLines(reg, names, now);
    MonitoredNamesExact(reg, chat, order);
    assert SummaryLines(reg, chat, order, now) == [Plain(SummaryHeader)] + ([Plain("")] + entries);
    ListedAfterPlain(SummaryHeader, [Plain("")] + entries);
    ListedAfterPlain("", entries);
    ListedEntries(reg, names, now);
  }

  /** A summary message and the chat it goes to. */
  datatype Message = Message(chat: ChatId, lines: seq<Line>)

  function Recipients(msgs: seq<Message>): (chats: seq<ChatId>)
    ensures |chats| == |msgs|
    ensures forall i :: 0 <= i < |msgs| ==> chats[i] == msgs[i].chat
  {
    if |msgs| == 0 then [] else [msgs[0].chat] + Recipients(msgs[1..])
  }

  /** The loop of main.py:116-131 over the chats in the order `chats` in which the set yields
      them: a chat without monitored names is skipped. */
  function Summaries(reg: Registry, chats: seq<ChatId>, order: seq<Username>, now: int): (msgs: seq<Message>)
    ensures forall i :: 0 <= i < |msgs| ==>
      && msgs[i].chat in chats
      && MonitoredNames(reg, msgs[i].chat, order) != []
      && msgs[i].lines == SummaryLines(reg, msgs[i].chat, order, now)
    ensures forall c :: c in chats && MonitoredNames(reg, c, order) != [] ==> c in Recipients(msgs)
  {
    if |chats| == 0 then []
    else
      var rest := Summaries(reg, chats[1..], order, now);
      if MonitoredNames(reg, chats[0], order) == [] then rest
      else
        [Message(chats[0], SummaryLines(reg, chats[0], order, now))] + rest
  }

  /** Each chat appears at most once among the recipients when it appears once in `chats`. */
  lemma {:induction false} SummariesDistinct(reg: Registry, chats: seq<ChatId>, order: seq<Username>, now: int)
    requires Distinct(chats)
    ensures Distinct(Recipients(Summaries(reg, chats, order, now)))
  {
    if |chats| > 0 {
      DistinctTail(chats);
      SummariesDistinct(reg, chats[1..], order, now);
      var rest := Summaries(reg, chats[1..], order, now);
      if MonitoredNames(reg, chats[0], order) != [] {
        var msgs := Summaries(reg, chats, order, now);
        assert Recipients(msgs) == [chats[0]] + Recipients(rest);
        assert chats[0] !in Recipients(rest) by {
          forall i | 0 <= i < |rest| ensures Recipients(rest)[i] != chats[0] {
            assert rest[i].chat in chats[1..];
          }
        }
        DistinctCons(chats[0], Recipients(rest));
      }
    }
  }

  /** The summary pass: one message to each chat that monitors something, and to no other chat. */
  function DailySummary(reg: Registry, chats: seq<ChatId>, order: seq<Username>, now: int): (msgs: seq<Message>)
    requires Enumerates(chats, Subscribers(reg))
    requires Enumerates(order, reg.Keys)
    ensures Distinct(Recipients(msgs))
    ensures forall c :: c in Recipients(msgs) <==> exists k :: k in reg && reg[k].chat == c && reg[k].status == Monitoring
    ensures forall i :: 0 <= i < |msgs| ==> msgs[i].lines == SummaryLines(reg, msgs[i].chat, order, now)
  {
    var msgs := Summaries(reg, chats, order, now);
    SummariesDistinct(reg, chats, order, now);
    forall c ensures c in Recipients(msgs) <==> exists k :: k in reg && reg[k].chat == c && reg[k].status == Monitoring {
      MonitoredNamesMembers(reg, c, order);
      if c in Recipients(msgs) {
        var i :| 0 <= i < |msgs| && Recipients(msgs)[i] == c;
        var k := MonitoredNames(reg, c, order)[0];
        assert k in MonitoredNames(reg, c, order);
      }
      if exists k :: k in reg && reg[k].chat == c && reg[k].status == Monitoring {
        var k :| k in reg && reg[k].chat == c && reg[k].status == Monitoring;
        assert c in Subscribers(reg);
        assert k in MonitoredNames(reg, c, order);
      }
    }
    msgs
  }
}
