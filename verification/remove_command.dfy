/** `/remove` (main.py:192-207): stop monitoring a name the asking chat owns. */
module RemoveCommand {
  import opened Text
  import opened Tracking
  import opened Usernames
  import opened AddCommand

  datatype RemoveReply = Usage | Stopped(name: Username) | NotMonitoring(name: Username)

  /** The registry after `/remove`, the reply, and whether the registry was saved. */
  datatype Removal = Removal(reg: Registry, reply: RemoveReply, saved: bool)

  /** `/remove` (main.py:192-207): only the first argument counts, lower-cased; it is removed
      when the caller owns it. Another chat's name is answered exactly like a missing one. */
  function Remove(reg: Registry, args: seq<string>, chat: ChatId): (r: Removal)
    ensures |args| == 0 ==> r == Removal(reg, Usage, false)
    ensures |args| > 0 ==>
      && (r.reply == Stopped(Lower(args[0])) <==> Owns(reg, Lower(args[0]), chat))
      && (r.reply == NotMonitoring(Lower(args[0])) <==> !Owns(reg, Lower(args[0]), chat))
      && (r.saved <==> Owns(reg, Lower(args[0]), chat))
      && r.reg - {Lower(args[0])} == reg - {Lower(args[0])}
      && (Owns(reg, Lower(args[0]), chat) ==> Lower(args[0]) !in r.reg)
      && (!Owns(reg, Lower(args[0]), chat) ==> r.reg == reg)
  {
    if |args| == 0 then Removal(reg, Usage, false)
    else
      var u := Lower(args[0]);
      if u in reg && reg[u].chat == chat then Removal(reg - {u}, Stopped(u), true)
      else Removal(reg, NotMonitoring(u), false)
  }

  /** Removing a name that an add just started monitoring, from the same chat, restores the registry. */
  lemma RemoveUndoesAdd(reg: Registry, token: string, chat: ChatId, now: int, check: Checker)
    requires Normalize(token) !in reg
    requires AddName(reg, Normalize(token), chat, now, check).Handled?
    requires AddName(reg, Normalize(token), chat, now, check).reply.Started?
    ensures Remove(AddName(reg, Normalize(token), chat, now, check).reg, [Normalize(token)], chat)
      == Removal(reg, Stopped(Normalize(token)), true)
  {
    NormalizedIsLower(token);
    var u := Normalize(token);
    assert reg[u := Fresh(now, chat)] - {u} == reg;
  }

  /** A chat cannot remove another chat's name: the owner keeps it and still sees it listed. */
  lemma RemoveByOtherChat(reg: Registry, name: Username, owner: ChatId, other: ChatId)
    requires Owns(reg, Lower(name), owner) && other != owner
    ensures Remove(reg, [name], other) == Removal(reg, NotMonitoring(Lower(name)), false)
    ensures reg[Lower(name)].status == Monitoring ==> Lower(name) in Monitored(Remove(reg, [name], other).reg, owner)
  {
  }
}
