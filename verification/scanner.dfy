/** One pass of the background loop `monitor_accounts` (main.py:69-100): every entry still
    being monitored is run past the existence check; an account that is found again becomes
    `unbanned` and its chat is notified. The existence check raising is not caught anywhere,
    so it ends the pass, without a save, and ends the loop's thread with it. */
module Scanner {
  import opened Base
  import opened Tracking
  import Duration
  import Text

  /** A notification sent to the owning chat when its account is found again. */
  datatype Notice = Notice(chat: ChatId, name: Username, elapsed: int)

  /** The notification for `name`: its chat and the time since monitoring started. */
  function NoticeFor(reg: Registry, name: Username, now: int): Notice
    requires name in reg
  {
    Notice(reg[name].chat, name, now - reg[name].start)
  }

  /** The two lines of the notification text (main.py:85-86), without its emoji. */
  function NoticeText(n: Notice): seq<string>
  {
    ["Instagram account @" + n.name + " has been UNBANNED!", "Time taken: " + Duration.Format(n.elapsed)]
  }

  /** The notice names the account on its first line and reports the elapsed time on its
      second, in words that read back as the components of that time. */
  lemma NoticeReadsBack(n: Notice)
    ensures var t := NoticeText(n);
      var head, tail := "Instagram account @", " has been UNBANNED!";
      && |t| == 2
      && |t[0]| == |head| + |n.name| + |tail|
      && t[0][..|head|] == head && t[0][|head|..|head| + |n.name|] == n.name && t[0][|head| + |n.name|..] == tail
      && t[1][..12] == "Time taken: " && Duration.ParseDuration(t[1][12..]) == Some(Duration.Parts(n.elapsed))
  {
    var head, tail := "Instagram account @", " has been UNBANNED!";
    var t := NoticeText(n);
    Text.Pieces(head, n.name, tail, "");
    assert t[0] == head + n.name + tail + "";
    Text.Pieces("Time taken: ", "", "", Duration.Format(n.elapsed));
    assert t[1] == "Time taken: " + "" + "" + Duration.Format(n.elapsed);
    Duration.FormatRoundTrip(n.elapsed);
  }

  /** The entries of the snapshot `keys` still being monitored, in snapshot order: the names a
      pass would check if no check raised. */
  function StillMonitored(reg: Registry, keys: seq<Username>): (ms: seq<Username>)
    requires forall i :: 0 <= i < |keys| ==> keys[i] in reg
    ensures forall k :: k in ms <==> k in keys && reg[k].status == Monitoring
  {
    if |keys| == 0 then []
    else
      var rest := StillMonitored(reg, keys[1..]);
      assert keys == [keys[0]] + keys[1..];
      if reg[keys[0]].status == Monitoring then [keys[0]] + rest else rest
  }

  /** The names of a pass that reach the existence check, in call order: the monitored entries
      of the snapshot `keys`, in order, up to and including the first one whose check raises.
      Each record is changed only in its own iteration, so the status the loop reads for an
      entry is the one it had when the pass began. */
  function Probed(reg: Registry, keys: seq<Username>, check: Checker): (ks: seq<Username>)
    requires forall i :: 0 <= i < |keys| ==> keys[i] in reg
    ensures forall k :: k in ks ==> k in keys && reg[k].status == Monitoring
    ensures Distinct(keys) ==> Distinct(ks)
    ensures forall i :: 0 <= i < |ks| - 1 ==> check(ks[i]) != Raised
  {
    if |keys| == 0 then []
    else
      var k := keys[0];
      var rest := Probed(reg, keys[1..], check);
      DistinctTail(keys);
      assert keys == [k] + keys[1..];
      if reg[k].status == Unbanned then rest
      else
        assert reg[k].status == Monitoring;
        if check(k) == Raised then [k] else [k] + rest
  }

  /** The checked names are a prefix of the monitored entries in snapshot order, cut short only
      by a raising check. */
  lemma {:induction false} ProbedPrefix(reg: Registry, keys: seq<Username>, check: Checker)
    requires forall i :: 0 <= i < |keys| ==> keys[i] in reg
    ensures Probed(reg, keys, check) <= StillMonitored(reg, keys)
    ensures var ks := Probed(reg, keys, check);
      ks == StillMonitored(reg, keys) || (|ks| > 0 && check(ks[|ks| - 1]) == Raised)
  {
    if |keys| > 0 {
      var k := keys[0];
      ProbedPrefix(reg, keys[1..], check);
      var rest, ms := Probed(reg, keys[1..], check), StillMonitored(reg, keys[1..]);
      if reg[k].status == Monitoring && check(k) != Raised {
        assert Probed(reg, keys, check) == [k] + rest;
        assert StillMonitored(reg, keys) == [k] + ms;
      }
    }
  }

  /** A pass whose checks all return checks every entry still being monitored. */
  lemma {:induction false} ProbedComplete(reg: Registry, keys: seq<Username>, check: Checker)
    requires forall i :: 0 <= i < |keys| ==> keys[i] in reg
    ensures (forall i :: 0 <= i < |Probed(reg, keys, check)| ==> check(Probed(reg, keys, check)[i]) != Raised) ==>
      forall k :: k in keys && reg[k].status == Monitoring ==> k in Probed(reg, keys, check)
  {
    if |keys| > 0 && forall i :: 0 <= i < |Probed(reg, keys, check)| ==> check(Probed(reg, keys, check)[i]) != Raised {
      var ks := Probed(reg, keys, check);
      var rest := Probed(reg, keys[1..], check);
      if reg[keys[0]].status == Monitoring {
        assert ks[0] == keys[0];
        assert ks == [keys[0]] + rest;
        assert forall i :: 0 <= i < |rest| ==> rest[i] == ks[i + 1];
      }
      ProbedComplete(reg, keys[1..], check);
      assert forall k :: k in keys ==> k == keys[0] || k in keys[1..];
    }
  }

  /** The checked names whose account was found, in call order. */
  function FoundNames(ks: seq<Username>, check: Checker): (found: seq<Username>)
    ensures forall k :: k in found <==> k in ks && check(k) == Found
    ensures Distinct(ks) ==> Distinct(found)
  {
    if |ks| == 0 then []
    else
      var rest := FoundNames(ks[1..], check);
      DistinctTail(ks);
      if check(ks[0]) == Found then [ks[0]] + rest else rest
  }

  /** The notifications for `names`, in order. */
  function NoticesFor(reg: Registry, names: seq<Username>, now: int): (notices: seq<Notice>)
    requires forall i :: 0 <= i < |names| ==> names[i] in reg
    ensures Names(notices) == names
    ensures forall i :: 0 <= i < |names| ==> notices[i] == NoticeFor(reg, names[i], now)
  {
    if |names| == 0 then [] else [NoticeFor(reg, names[0], now)] + NoticesFor(reg, names[1..], now)
  }

  /** The names the notifications are for, in sending order. */
  function Names(notices: seq<Notice>): (names: seq<Username>)
    ensures |names| == |notices|
    ensures forall i :: 0 <= i < |notices| ==> names[i] == notices[i].name
  {
    if |notices| == 0 then [] else [notices[0].name] + Names(notices[1..])
  }

  /** The registry with every entry of `found` marked unbanned at `now`. */
  function UnbanAll(reg: Registry, found: seq<Username>, now: int): (next: Registry)
    requires forall k :: k in found ==> k in reg
    ensures next.Keys == reg.Keys
    ensures forall k :: k in found ==> next[k] == Unban(reg[k], now)
    ensures forall k :: k in reg && k !in found ==> next[k] == reg[k]
  {
    map k | k in reg :: if k in found then Unban(reg[k], now) else reg[k]
  }

  /** Unbanning entries still being monitored changes the registry exactly when there is one. */
  lemma UnbanAllChanges(reg: Registry, found: seq<Username>, now: int)
    requires forall k :: k in found ==> k in reg && reg[k].status == Monitoring
    ensures UnbanAll(reg, found, now) != reg <==> |found| > 0
  {
    if |found| > 0 {
      assert found[0] in found;
    } else {
      assert UnbanAll(reg, found, now) == reg;
    }
  }

  /** What a pass did: the registry in memory afterwards, the names passed to the existence
      check in call order, the notifications sent, whether the check raised, and whether the
      registry was saved. */
  datatype Pass = Pass(reg: Registry, probed: seq<Username>, notices: seq<Notice>, raised: bool, saved: bool)

  /** One pass of main.py:71-98 over `order`, the order in which `list(monitor_list.items())`
      lists the registry. */
  function ScanPass(reg: Registry, order: seq<Username>, now: int, check: Checker): (p: Pass)
    requires Enumerates(order, reg.Keys)
    // the key set never changes
    ensures p.reg.Keys == reg.Keys
    // only entries still being monitored reach the check, each at most once
    ensures forall k :: k in p.probed ==> k in reg && reg[k].status == Monitoring
    ensures Distinct(p.probed)
    // the pass ends at a raising check, and otherwise checks every monitored entry
    ensures p.raised <==> |p.probed| > 0 && check(p.probed[|p.probed| - 1]) == Raised
    ensures forall i :: 0 <= i < |p.probed| - 1 ==> check(p.probed[i]) != Raised
    ensures !p.raised ==> forall k :: k in reg && reg[k].status == Monitoring ==> k in p.probed
    // a save happens exactly when the pass finished and something changed
    ensures p.saved <==> !p.raised && p.reg != reg
  {
    var probed := Probed(reg, order, check);
    var found := FoundNames(probed, check);
    var next := UnbanAll(reg, found, now);
    var raised := |probed| > 0 && check(probed[|probed| - 1]) == Raised;
    ProbedComplete(reg, order, check);
    UnbanAllChanges(reg, found, now);
    Pass(next, probed, NoticesFor(reg, found, now), raised, !raised && |found| > 0)
  }

  /** An entry the check found becomes unbanned at `now`, keeping its start time and chat;
      every other entry is untouched. */
  lemma ScanUpdates(reg: Registry, order: seq<Username>, now: int, check: Checker)
    requires Enumerates(order, reg.Keys)
    ensures var p := ScanPass(reg, order, now, check);
      && (forall k :: k in p.probed && check(k) == Found ==> p.reg[k] == Unban(reg[k], now))
      && (forall k :: k in reg && !(k in p.probed && check(k) == Found) ==> p.reg[k] == reg[k])
  {
    var probed := Probed(reg, order, check);
    var found := FoundNames(probed, check);
    assert ScanPass(reg, order, now, check).reg == UnbanAll(reg, found, now);
  }

  /** The checks follow the snapshot order: every monitored entry up to the raising one, or all
      of them when nothing raised. (A raise on the last monitored entry also checks all of them.) */
  lemma ScanOrder(reg: Registry, order: seq<Username>, now: int, check: Checker)
    requires Enumerates(order, reg.Keys)
    ensures var p := ScanPass(reg, order, now, check);
      && p.probed <= StillMonitored(reg, order)
      && (!p.raised ==> p.probed == StillMonitored(reg, order))
  {
    var p, ks := ScanPass(reg, order, now, check), Probed(reg, order, check);
    assert p.probed == ks && (p.raised <==> |ks| > 0 && check(ks[|ks| - 1]) == Raised);
    ProbedPrefix(reg, order, check);
  }

  /** Exactly one notification per transition: one for each entry the check found, none twice,
      each to the entry's chat with the time since monitoring started. */
  lemma ScanNotices(reg: Registry, order: seq<Username>, now: int, check: Checker)
    requires Enumerates(order, reg.Keys)
    ensures var p := ScanPass(reg, order, now, check);
      && Distinct(Names(p.notices))
      && (forall k :: k in Names(p.notices) <==> k in p.probed && check(k) == Found)
      && (forall i :: 0 <= i < |p.notices| ==> p.notices[i].name in reg && p.notices[i] == NoticeFor(reg, p.notices[i].name, now))
  {
    var probed := Probed(reg, order, check);
    var found := FoundNames(probed, check);
    assert ScanPass(reg, order, now, check).notices == NoticesFor(reg, found, now);
  }

  /** A pass keeps the record invariants, and at `now` keeps every record out of the future. */
  lemma ScanPreserves(reg: Registry, order: seq<Username>, now: int, check: Checker)
    requires Enumerates(order, reg.Keys)
    ensures WellFormed(reg) ==> WellFormed(ScanPass(reg, order, now, check).reg)
    ensures Chronological(reg, now) ==> Chronological(ScanPass(reg, order, now, check).reg, now)
  {
    ScanUpdates(reg, order, now, check);
  }

  /** `unbanned` is absorbing: such an entry is neither checked nor changed, and no entry goes
      back to `monitoring`. */
  lemma UnbannedAbsorbing(reg: Registry, order: seq<Username>, now: int, check: Checker)
    requires Enumerates(order, reg.Keys)
    ensures var p := ScanPass(reg, order, now, check);
      forall k :: k in reg && reg[k].status == Unbanned ==> k !in p.probed && p.reg[k] == reg[k]
    ensures var p := ScanPass(reg, order, now, check);
      forall k :: k in p.reg && p.reg[k].status == Monitoring ==> k in reg && reg[k] == p.reg[k]
  {
    ScanUpdates(reg, order, now, check);
  }

  /** Over two passes, an account is announced at most once: the entry the first pass unbanned
      does not reach the check in the second, and gets no second notification. */
  lemma NotifiedOnce(reg: Registry, order: seq<Username>, now: int, check: Checker,
                     order': seq<Username>, later: int, check': Checker)
    requires Enumerates(order, reg.Keys) && Enumerates(order', reg.Keys)
    ensures var p := ScanPass(reg, order, now, check);
      var q := ScanPass(p.reg, order', later, check');
      forall k :: k in Names(p.notices) ==> k !in q.probed && k !in Names(q.notices)
  {
    var p := ScanPass(reg, order, now, check);
    ScanNotices(reg, order, now, check);
    ScanUpdates(reg, order, now, check);
    UnbannedAbsorbing(p.reg, order', later, check');
    ScanNotices(p.reg, order', later, check');
  }
}
