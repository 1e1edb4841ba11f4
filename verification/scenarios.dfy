/** Worked examples of the handlers and the monitor loop together, on concrete names. */
module Scenarios {
  import opened Base
  import opened Tracking
  import opened Usernames
  import opened AddCommand
  import opened Scanner

  const Alice: Username := "alice_123"

  /** `alice_123` is valid; with its account missing, it starts out monitored for the caller. */
  lemma AliceAdded(chat: ChatId, t0: int, c0: Checker)
    requires c0(Alice) == NotFound
    ensures AddName(map[], Alice, chat, t0, c0) == Handled(map[Alice := Fresh(t0, chat)], Started(Alice))
  {
    ValidIff(Alice);
  }

  /** The next pass finds the account: one check, the entry unbanned at `t1`, one notification
      with the time since `t0`, and a save. */
  lemma AliceFound(chat: ChatId, t0: int, t1: int, c1: Checker)
    requires c1(Alice) == Found
    ensures var p := ScanPass(map[Alice := Fresh(t0, chat)], [Alice], t1, c1);
      && p.probed == [Alice]
      && p.reg == map[Alice := Record(t0, Unbanned, chat, Some(t1))]
      && p.notices == [Notice(chat, Alice, t1 - t0)]
      && p.saved
  {
    var reg := map[Alice := Fresh(t0, chat)];
    assert [Alice][1..] == [];
    assert Probed(reg, [Alice], c1) == [Alice];
    assert FoundNames([Alice], c1) == [Alice];
    ScanUpdates(reg, [Alice], t1, c1);
  }

  /** A later pass leaves the unbanned entry alone: no check, no notification, no save. */
  lemma AliceNotRechecked(chat: ChatId, t0: int, t1: int, t2: int, c2: Checker)
    ensures var p := ScanPass(map[Alice := Record(t0, Unbanned, chat, Some(t1))], [Alice], t2, c2);
      p.probed == [] && p.notices == [] && !p.saved
  {
    assert [Alice][1..] == [];
  }

  /** `alice_123` is registered while its account is missing; the next pass finds it, unbans it,
      notifies its chat once and saves; the pass after that no longer checks it. */
  lemma AliceScenario(chat: ChatId, t0: int, t1: int, t2: int, c0: Checker, c1: Checker, c2: Checker)
    requires c0(Alice) == NotFound && c1(Alice) == Found
    ensures var added := AddName(map[], Alice, chat, t0, c0);
      && added.Handled? && added.reply == Started(Alice)
      && var first := ScanPass(added.reg, [Alice], t1, c1);
      && first.probed == [Alice] && first.notices == [Notice(chat, Alice, t1 - t0)] && first.saved
      && var second := ScanPass(first.reg, [Alice], t2, c2);
      && second.probed == [] && second.notices == [] && !second.saved
  {
    AliceAdded(chat, t0, c0);
    AliceFound(chat, t0, t1, c1);
    AliceNotRechecked(chat, t0, t1, t2, c2);
  }

  /** `bad!name` is answered as invalid and leaves the registry alone. */
  lemma BadNameScenario(reg: Registry, chat: ChatId, now: int, check: Checker)
    ensures AddName(reg, "bad!name", chat, now, check) == Handled(reg, Invalid("bad!name"))
  {
    ValidIff("bad!name");
    assert !IsAlnum("bad!name"[3]);
  }
}
