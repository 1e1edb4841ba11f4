/** `/status` (main.py:176-190): the monitored names of the asking chat, each with the time
    it has been monitored. */
module StatusCommand {
  import opened Base
  import opened Tracking
  import Duration
  import Text

  const StatusHeader: string := "You're currently monitoring:"
  const StatusEmpty: string := "You're not monitoring any usernames."

  /** How a `/status` line reads, such as "• @alice — 2 hours 5 minutes". */
  function RenderStatusLine(l: Line): string
  {
    match l
    case Plain(text) => text
    case Entry(name, elapsed) => "• @" + name + " — " + Duration.Format(elapsed)
  }

  /** A `/status` entry line reads "• @", the name, " — ", and then the monitored time in
      words that read back as the components of that time. */
  lemma StatusLineReadsBack(name: Username, elapsed: int)
    ensures var t := RenderStatusLine(Entry(name, elapsed));
      var n := |name|;
      && |t| >= n + 6
      && t[..3] == "• @" && t[3..3 + n] == name && t[3 + n..6 + n] == " — "
      && Duration.ParseDuration(t[6 + n..]) == Some(Duration.Parts(elapsed))
  {
    Text.Pieces("• @", name, " — ", Duration.Format(elapsed));
    Duration.FormatRoundTrip(elapsed);
  }

  /** The `/status` reply, line by line, with the registry iterated in `order`: a notice when the
      chat monitors nothing, otherwise a header and one line per monitored name of the chat. */
  function StatusReply(reg: Registry, chat: ChatId, now: int, order: seq<Username>): (lines: seq<Line>)
    requires Enumerates(order, reg.Keys)
    ensures var names := MonitoredNames(reg, chat, order);
      && (|names| == 0 ==> lines == [Plain(StatusEmpty)])
      && (|names| > 0 ==> |lines| == 1 + |names| && lines[0] == Plain(StatusHeader))
      && (|names| > 0 ==> forall i :: 0 <= i < |names| ==> lines[i + 1] == Entry(names[i], now - reg[names[i]].start))
  {
    var names := MonitoredNames(reg, chat, order);
    if |names| == 0 then [Plain(StatusEmpty)]
    else [Plain(StatusHeader)] + EntryLines(reg, names, now)
  }

  /** The reply lists each monitored name of the chat exactly once and no other name, and is
      the empty-state notice exactly when the chat monitors nothing. */
  lemma StatusListsMonitored(reg: Registry, chat: ChatId, now: int, order: seq<Username>)
    requires Enumerates(order, reg.Keys)
    ensures Enumerates(ListedNames(StatusReply(reg, chat, now, order)), Monitored(reg, chat).Keys)
    ensures StatusReply(reg, chat, now, order) == [Plain(StatusEmpty)] <==> Monitored(reg, chat).Keys == {}
  {
    var names := MonitoredNames(reg, chat, order);
    MonitoredNamesExact(reg, chat, order);
    if |names| == 0 {
      assert ListedNames([Plain(StatusEmpty)]) == [];
    } else {
      assert names[0] in Monitored(reg, chat).Keys;
      ListedAfterPlain(StatusHeader, EntryLines(reg, names, now));
      ListedEntries(reg, names, now);
    }
  }
}
