/** The registry side of the free-text handler `handle_usernames` (main.py:143-174): each
    whitespace-separated token is normalised, validated and, when the existence check does
    not find the account, registered for the sending chat. Replies are kept as values;
    sending them is the chat transport's business. */
module AddCommand {
  import opened Base
  import opened Text
  import opened Tracking
  import opened Usernames

  /** The per-name line of the add reply. */
  datatype AddReply =
    | Invalid(name: Username)
    | AlreadyMonitoring(name: Username)
    | AlreadyActive(name: Username)
    | Started(name: Username)

  /** One pass of the add loop: handled with a reply, or the existence check raised, which
      nothing in the handler catches. */
  datatype AddOutcome = Handled(reg: Registry, reply: AddReply) | CheckRaised

  /** One iteration of the loop in `handle_usernames` (main.py:153-171), for the name the token
      normalises to. */
  function AddName(reg: Registry, name: Username, chat: ChatId, now: int, check: Checker): (r: AddOutcome)
    // the reply names the name, and says "invalid" exactly when the test of main.py:153 fails
    ensures r.Handled? ==> r.reply.name == name
    ensures r.Handled? ==> (r.reply.Invalid? <==> !IsValid(name))
    // only the submitted name's entry can change, and only when monitoring starts
    ensures r.Handled? ==> forall k :: k != name ==> (k in r.reg <==> k in reg) && (k in reg ==> r.reg[k] == reg[k])
    ensures r.Handled? && !r.reply.Started? ==> r.reg == reg
    ensures r.Handled? && r.reply.Started? ==> name in r.reg && r.reg[name] == Fresh(now, chat)
    // a valid name this chat already owns is left alone whatever its status, without consulting the check
    ensures IsValid(name) && Owns(reg, name, chat) ==> r == Handled(reg, AlreadyMonitoring(name))
    // otherwise the check decides
    ensures (r.Handled? && r.reply.Started?) <==> IsValid(name) && !Owns(reg, name, chat) && check(name) == NotFound
    ensures (r.Handled? && r.reply.AlreadyActive?) <==> IsValid(name) && !Owns(reg, name, chat) && check(name) == Found
    ensures r.CheckRaised? <==> IsValid(name) && !Owns(reg, name, chat) && check(name) == Raised
  {
    if !IsValid(name) then Handled(reg, Invalid(name))
    else if name in reg && reg[name].chat == chat then Handled(reg, AlreadyMonitoring(name))
    else
      match check(name)
      case Raised => CheckRaised
      case Found => Handled(reg, AlreadyActive(name))
      case NotFound => Handled(reg[name := Fresh(now, chat)], Started(name))
  }

  /** Adding never breaks the record invariants, nor puts a record in the future of `now`. */
  lemma AddPreserves(reg: Registry, name: Username, chat: ChatId, now: int, check: Checker)
    requires AddName(reg, name, chat, now, check).Handled?
    ensures WellFormed(reg) ==> WellFormed(AddName(reg, name, chat, now, check).reg)
    ensures Chronological(reg, now) ==> Chronological(AddName(reg, name, chat, now, check).reg, now)
  {
  }

  /** A second identical submission, answered by a fresh existence check `check'`: a name that
      was started, or already monitored, is now "already monitoring" with its first start time
      and without a check; an invalid name is invalid again; only a name found active the first
      time is decided afresh by the second check, as in a first submission. */
  lemma AddIdempotent(reg: Registry, name: Username, chat: ChatId, now: int, later: int, check: Checker, check': Checker)
    requires AddName(reg, name, chat, now, check).Handled?
    ensures var first := AddName(reg, name, chat, now, check);
      var second := AddName(first.reg, name, chat, later, check');
      && (first.reply.Started? || first.reply.AlreadyMonitoring? ==> second == Handled(first.reg, AlreadyMonitoring(name)))
      && (first.reply.Invalid? ==> second == first)
      && (first.reply.AlreadyActive? ==> first.reg == reg && second == AddName(reg, name, chat, later, check'))
  {
  }

  /** A valid name that is neither registered nor found starts out monitored for the caller,
      with start time `now`, so `/status` lists it with a non-negative elapsed time. */
  lemma AddThenListed(reg: Registry, name: Username, chat: ChatId, now: int, later: int, check: Checker)
    requires IsValid(name) && name !in reg && check(name) == NotFound
    requires now <= later
    ensures var r := AddName(reg, name, chat, now, check);
      && r == Handled(r.reg, Started(name))
      && name in Monitored(r.reg, chat)
      && later - r.reg[name].start >= 0
  {
  }

  /** Nothing makes one owner per name stick: a different chat's submission of a name that the
      check does not find replaces the owner's record, and the owner stops seeing it. */
  lemma AddTakesOverOtherChat(reg: Registry, name: Username, owner: ChatId, other: ChatId, now: int, check: Checker)
    requires IsValid(name) && Owns(reg, name, owner)
    requires other != owner && check(name) == NotFound
    ensures var r := AddName(reg, name, other, now, check);
      && r == Handled(reg[name := Fresh(now, other)], Started(name))
      && Owns(r.reg, name, other)
      && name !in Monitored(r.reg, owner)
  {
  }

  /** Whether submitting `name` starts monitoring it: valid, not the caller's already, and its
      account missing. */
  predicate Starts(reg: Registry, name: Username, chat: ChatId, check: Checker)
  {
    IsValid(name) && !Owns(reg, name, chat) && check(name) == NotFound
  }

  /** Whether submitting `name` reaches the existence check and the check raises. */
  predicate Raises(reg: Registry, name: Username, chat: ChatId, check: Checker)
  {
    IsValid(name) && !Owns(reg, name, chat) && check(name) == Raised
  }

  /** An add that did not raise leaves every name's raising as it was: it only changes its own
      entry, and only when that name's check returned. */
  lemma RaisesUnchanged(reg: Registry, name: Username, chat: ChatId, now: int, check: Checker)
    requires AddName(reg, name, chat, now, check).Handled?
    ensures forall k :: Raises(AddName(reg, name, chat, now, check).reg, k, chat, check) == Raises(reg, k, chat, check)
  {
  }

  /** An add leaves whether any other name would start as it was: it only changes its own entry. */
  lemma StartsUnchanged(reg: Registry, name: Username, chat: ChatId, now: int, check: Checker)
    requires AddName(reg, name, chat, now, check).Handled?
    ensures forall k :: k != name ==> Starts(AddName(reg, name, chat, now, check).reg, k, chat, check) == Starts(reg, k, chat, check)
  {
  }

  /** A submission that does not raise starts monitoring or leaves the registry as it was. */
  lemma AddNameRegistry(reg: Registry, name: Username, chat: ChatId, now: int, check: Checker)
    requires check(name) != Raised
    ensures var r := AddName(reg, name, chat, now, check);
      && r.Handled?
      && r.reg == if Starts(reg, name, chat, check) then reg[name := Fresh(now, chat)] else reg
  {
  }

  /** Conditional updates of two different keys can be applied in either order. */
  lemma UpdatesCommute(m: Registry, k1: Username, k2: Username, v: Record, s1: bool, s2: bool)
    requires k1 != k2
    ensures var m1, m2 := (if s1 then m[k1 := v] else m), (if s2 then m[k2 := v] else m);
      (if s2 then m1[k2 := v] else m1) == (if s1 then m2[k1 := v] else m2)
  {
    if s1 && s2 {
      assert m[k1 := v][k2 := v] == m[k2 := v][k1 := v];
    }
  }

  /** Two submissions that do not raise have the same effect on the registry in either order,
      so the unspecified iteration order of the token set does not matter. */
  lemma AddCommutes(reg: Registry, n1: Username, n2: Username, chat: ChatId, now: int, check: Checker)
    requires check(n1) != Raised && check(n2) != Raised
    ensures AddName(AddName(reg, n1, chat, now, check).reg, n2, chat, now, check).Handled?
    ensures AddName(AddName(reg, n2, chat, now, check).reg, n1, chat, now, check).Handled?
    ensures AddName(AddName(reg, n1, chat, now, check).reg, n2, chat, now, check).reg
         == AddName(AddName(reg, n2, chat, now, check).reg, n1, chat, now, check).reg
  {
    var a, b := AddName(reg, n1, chat, now, check), AddName(reg, n2, chat, now, check);
    AddNameRegistry(reg, n1, chat, now, check);
    AddNameRegistry(reg, n2, chat, now, check);
    AddNameRegistry(a.reg, n2, chat, now, check);
    AddNameRegistry(b.reg, n1, chat, now, check);
    if n1 != n2 {
      var s1, s2 := Starts(reg, n1, chat, check), Starts(reg, n2, chat, check);
      assert Starts(a.reg, n2, chat, check) == s2;
      assert Starts(b.reg, n1, chat, check) == s1;
      UpdatesCommute(reg, n1, n2, Fresh(now, chat), s1, s2);
    }
  }

  /** The normalised form of each token, in order. */
  function NormalizeAll(tokens: seq<string>): (names: seq<Username>)
    ensures |names| == |tokens|
    ensures forall i :: 0 <= i < |tokens| ==> names[i] == Normalize(tokens[i])
  {
    if |tokens| == 0 then [] else [Normalize(tokens[0])] + NormalizeAll(tokens[1..])
  }

  /** The add loop over the normalised tokens, in the order the token set yields them. */
  datatype Batch = Batch(reg: Registry, replies: seq<AddReply>, raised: bool)

  function AddAll(reg: Registry, names: seq<Username>, chat: ChatId, now: int, check: Checker): (b: Batch)
    // one reply per name, in order, unless a check raised part-way
    ensures !b.raised ==> |b.replies| == |names|
    ensures b.raised ==> |b.replies| < |names|
    // names that were not submitted keep their entries
    ensures forall k :: k !in names ==> (k in b.reg <==> k in reg) && (k in reg ==> b.reg[k] == reg[k])
    ensures (forall i :: 0 <= i < |names| ==> check(names[i]) != Raised) ==> !b.raised
    ensures WellFormed(reg) ==> WellFormed(b.reg)
    decreases |names|
  {
    if |names| == 0 then Batch(reg, [], false)
    else
      var step := AddName(reg, names[0], chat, now, check);
      if step.CheckRaised? then Batch(reg, [], true)
      else
        AddPreserves(reg, names[0], chat, now, check);
        var rest := AddAll(step.reg, names[1..], chat, now, check);
        assert names == [names[0]] + names[1..];
        Batch(rest.reg, [step.reply] + rest.replies, rest.raised)
  }

  /** The replies answer the names in the order they were submitted, and say "invalid" exactly
      for the names that fail validation. */
  lemma {:induction false} AddAllReplies(reg: Registry, names: seq<Username>, chat: ChatId, now: int, check: Checker)
    ensures var b := AddAll(reg, names, chat, now, check);
      forall i :: 0 <= i < |b.replies| ==> b.replies[i].name == names[i] && (b.replies[i].Invalid? <==> !IsValid(names[i]))
    decreases |names|
  {
    if |names| > 0 {
      var step := AddName(reg, names[0], chat, now, check);
      if step.Handled? {
        AddAllReplies(step.reg, names[1..], chat, now, check);
      }
    }
  }

  /** How the batch answers `name` when the names in `earlier` came before it: "invalid" when
      it fails validation; "already active" when the check finds an account not the caller's;
      "started" when it starts and was not submitted before; and otherwise "already monitoring",
      either because the caller owns it or because an earlier copy of it started. */
  predicate AnsweredAs(reg: Registry, earlier: seq<Username>, name: Username, chat: ChatId, check: Checker, reply: AddReply)
  {
    && (reply.Invalid? <==> !IsValid(name))
    && (reply.AlreadyMonitoring? <==> IsValid(name) && (Owns(reg, name, chat) || (Starts(reg, name, chat, check) && name in earlier)))
    && (reply.AlreadyActive? <==> IsValid(name) && !Owns(reg, name, chat) && check(name) == Found)
    && (reply.Started? <==> Starts(reg, name, chat, check) && name !in earlier)
  }

  /** An answer judged against the registry after one add stays right when judged against the
      registry before it, with the added name counted among the earlier ones. */
  lemma AnsweredBeforeStep(reg: Registry, n: Username, chat: ChatId, now: int, check: Checker,
                           earlier: seq<Username>, name: Username, reply: AddReply)
    requires AddName(reg, n, chat, now, check).Handled?
    requires AnsweredAs(AddName(reg, n, chat, now, check).reg, earlier, name, chat, check, reply)
    ensures AnsweredAs(reg, [n] + earlier, name, chat, check, reply)
  {
    var step := AddName(reg, n, chat, now, check);
    StartsUnchanged(reg, n, chat, now, check);
    assert name in [n] + earlier <==> name == n || name in earlier;
    if name == n && step.reply.Started? {
      assert Owns(step.reg, n, chat) && !Starts(step.reg, n, chat, check);
    }
  }

  /** Every answered name gets the reply `handle_usernames` gives it (main.py:153-171), judged
      against the registry before the message and the names submitted before it. */
  lemma {:induction false} AddAllReplyKinds(reg: Registry, names: seq<Username>, chat: ChatId, now: int, check: Checker)
    ensures var b := AddAll(reg, names, chat, now, check);
      forall i :: 0 <= i < |b.replies| ==> AnsweredAs(reg, names[..i], names[i], chat, check, b.replies[i])
    decreases |names|
  {
    if |names| > 0 {
      var n := names[0];
      var step := AddName(reg, n, chat, now, check);
      if step.Handled? {
        var b := AddAll(reg, names, chat, now, check);
        var rest := AddAll(step.reg, names[1..], chat, now, check);
        assert b == Batch(rest.reg, [step.reply] + rest.replies, rest.raised);
        AddAllReplyKinds(step.reg, names[1..], chat, now, check);
        assert AnsweredAs(reg, names[..0], n, chat, check, b.replies[0]);
        forall i | 1 <= i < |b.replies|
          ensures AnsweredAs(reg, names[..i], names[i], chat, check, b.replies[i])
        {
          assert names[..i] == [n] + names[1..][..i - 1];
          assert names[i] == names[1..][i - 1] && b.replies[i] == rest.replies[i - 1];
          AnsweredBeforeStep(reg, n, chat, now, check, names[1..][..i - 1], names[i], b.replies[i]);
        }
      }
    }
  }

  /** Two frames compose: if the first step changes only `n` and the second only names in
      `later`, together they change only names in `[n] + later`. */
  lemma FrameCompose(reg: Registry, mid: Registry, last: Registry, n: Username, later: seq<Username>)
    requires forall k :: k != n ==> (k in mid <==> k in reg) && (k in reg ==> mid[k] == reg[k])
    requires forall k :: k !in later ==> (k in last <==> k in mid) && (k in mid ==> last[k] == mid[k])
    ensures forall k :: k !in [n] + later ==> (k in last <==> k in reg) && (k in reg ==> last[k] == reg[k])
  {
    forall k | k !in [n] + later
      ensures (k in last <==> k in reg) && (k in reg ==> last[k] == reg[k])
    {
      assert k != n && k !in later;
    }
  }

  /** Only answered names can change: a raising check ends the loop (main.py:161), so the names
      after it keep their entries too. */
  lemma {:induction false} AddAllFrame(reg: Registry, names: seq<Username>, chat: ChatId, now: int, check: Checker)
    ensures var b := AddAll(reg, names, chat, now, check);
      forall k :: k !in names[..|b.replies|] ==> (k in b.reg <==> k in reg) && (k in reg ==> b.reg[k] == reg[k])
    decreases |names|
  {
    if |names| > 0 {
      var n := names[0];
      var step := AddName(reg, n, chat, now, check);
      if step.Handled? {
        var b := AddAll(reg, names, chat, now, check);
        var rest := AddAll(step.reg, names[1..], chat, now, check);
        assert b == Batch(rest.reg, [step.reply] + rest.replies, rest.raised);
        AddAllFrame(step.reg, names[1..], chat, now, check);
        var answered := names[1..][..|rest.replies|];
        assert names[..|b.replies|] == [n] + answered;
        FrameCompose(reg, step.reg, rest.reg, n, answered);
      }
    }
  }

  /** What the batch does to each submitted name: one that starts before any check raises is
      the caller's with a fresh record, kept in memory even when a later check raises; any
      other (invalid, the caller's already, or found active) keeps its entry. */
  lemma {:induction false} AddAllOutcome(reg: Registry, names: seq<Username>, chat: ChatId, now: int, check: Checker)
    ensures var b := AddAll(reg, names, chat, now, check);
      forall k :: k in names && !Starts(reg, k, chat, check) ==> (k in b.reg <==> k in reg) && (k in reg ==> b.reg[k] == reg[k])
    ensures var b := AddAll(reg, names, chat, now, check);
      forall i :: 0 <= i < |b.replies| && Starts(reg, names[i], chat, check) ==> names[i] in b.reg && b.reg[names[i]] == Fresh(now, chat)
    decreases |names|
  {
    if |names| > 0 {
      var n := names[0];
      var step := AddName(reg, n, chat, now, check);
      if step.Handled? {
        var b := AddAll(reg, names, chat, now, check);
        var rest := AddAll(step.reg, names[1..], chat, now, check);
        assert b == Batch(rest.reg, [step.reply] + rest.replies, rest.raised);
        AddAllOutcome(step.reg, names[1..], chat, now, check);
        assert forall k :: k in names ==> k == n || k in names[1..];
        assert forall i :: 1 <= i < |names| ==> names[i] == names[1..][i - 1];
        StartsUnchanged(reg, n, chat, now, check);
        if step.reply.Started? {
          assert !Starts(step.reg, n, chat, check);
        }
      }
    }
  }

  /** The batch stops at the first name whose check raises: every name answered before it
      passed without a raise, and a raised batch stopped at a raising name. */
  lemma {:induction false} AddAllStops(reg: Registry, names: seq<Username>, chat: ChatId, now: int, check: Checker)
    ensures var b := AddAll(reg, names, chat, now, check);
      && (forall i :: 0 <= i < |b.replies| ==> !Raises(reg, names[i], chat, check))
      && (b.raised ==> Raises(reg, names[|b.replies|], chat, check))
    decreases |names|
  {
    if |names| > 0 {
      var n := names[0];
      var step := AddName(reg, n, chat, now, check);
      if step.Handled? {
        var b := AddAll(reg, names, chat, now, check);
        var rest := AddAll(step.reg, names[1..], chat, now, check);
        assert b == Batch(rest.reg, [step.reply] + rest.replies, rest.raised);
        AddAllStops(step.reg, names[1..], chat, now, check);
        RaisesUnchanged(reg, n, chat, now, check);
        assert !Raises(reg, n, chat, check);
        if rest.raised {
          assert names[|b.replies|] == names[1..][|rest.replies|];
        }
        assert forall i :: 1 <= i < |b.replies| ==> names[i] == names[1..][i - 1];
      }
    }
  }

  /** A batch is cut short exactly when some submitted name reaches a raising check. */
  lemma AddAllRaises(reg: Registry, names: seq<Username>, chat: ChatId, now: int, check: Checker)
    ensures AddAll(reg, names, chat, now, check).raised <==>
      exists i :: 0 <= i < |names| && Raises(reg, names[i], chat, check)
  {
    var b := AddAll(reg, names, chat, now, check);
    AddAllStops(reg, names, chat, now, check);
    if b.raised {
      assert Raises(reg, names[|b.replies|], chat, check);
    }
  }

  /** Every token `split()` cuts out normalises to its lower-cased form. */
  lemma NormalizedTokens(text: string, tokens: seq<string>)
    requires Enumerates(tokens, set w | w in SplitWhitespace(text))
    ensures forall i :: 0 <= i < |tokens| ==> NormalizeAll(tokens)[i] == Lower(tokens[i])
  {
    forall i | 0 <= i < |tokens| ensures Normalize(tokens[i]) == Lower(tokens[i]) {
      assert tokens[i] in tokens;
      assert tokens[i] in SplitWhitespace(text);
      NormalizeToken(tokens[i]);
    }
  }

  /** What one free-text message does: the new registry, the reply lines, and whether the
      handler got as far as saving and replying (main.py:173-174). */
  datatype Handling = Handling(reg: Registry, replies: seq<AddReply>, completed: bool)

  /** `handle_usernames`: the distinct whitespace-separated tokens of `text`, taken in the order
      `tokens` in which the set yields them. A raising check leaves the in-memory changes made
      so far, with no save and no reply. */
  function HandleUsernames(reg: Registry, text: string, tokens: seq<string>, chat: ChatId, now: int, check: Checker)
    : (h: Handling)
    requires Enumerates(tokens, set w | w in SplitWhitespace(text))
    ensures |h.replies| <= |tokens|
    ensures h.completed ==> |h.replies| == |tokens|
    ensures forall i :: 0 <= i < |h.replies| ==> h.replies[i].name == Lower(tokens[i])
    ensures (forall i :: 0 <= i < |tokens| ==> check(Lower(tokens[i])) != Raised) ==> h.completed
    // it stops short of the save and the reply exactly when some token reaches a raising check
    ensures !h.completed <==> exists i :: 0 <= i < |tokens| && Raises(reg, Lower(tokens[i]), chat, check)
    ensures forall k :: k !in NormalizeAll(tokens) ==> (k in h.reg <==> k in reg) && (k in reg ==> h.reg[k] == reg[k])
    ensures WellFormed(reg) ==> WellFormed(h.reg)
  {
    NormalizedTokens(text, tokens);
    var b := AddAll(reg, NormalizeAll(tokens), chat, now, check);
    AddAllReplies(reg, NormalizeAll(tokens), chat, now, check);
    AddAllRaises(reg, NormalizeAll(tokens), chat, now, check);
    Handling(b.reg, b.replies, !b.raised)
  }

  /** Each token of a message meets the fate of its lower-cased name: "invalid" exactly when it
      fails validation; unchanged unless it starts; the caller's with a fresh record when it
      starts before any check raises, which stays in memory even when a later check raises; and
      a handler cut short stopped at a token whose check raised, all earlier ones having passed. */
  lemma HandleOutcome(reg: Registry, text: string, tokens: seq<string>, chat: ChatId, now: int, check: Checker)
    requires Enumerates(tokens, set w | w in SplitWhitespace(text))
    ensures var h := HandleUsernames(reg, text, tokens, chat, now, check);
      forall i :: 0 <= i < |h.replies| ==> (h.replies[i].Invalid? <==> !IsValid(Lower(tokens[i])))
    ensures var h := HandleUsernames(reg, text, tokens, chat, now, check);
      forall i :: 0 <= i < |tokens| && !Starts(reg, Lower(tokens[i]), chat, check) ==>
        var u := Lower(tokens[i]); (u in h.reg <==> u in reg) && (u in reg ==> h.reg[u] == reg[u])
    ensures var h := HandleUsernames(reg, text, tokens, chat, now, check);
      forall i :: 0 <= i < |h.replies| && Starts(reg, Lower(tokens[i]), chat, check) ==>
        Lower(tokens[i]) in h.reg && h.reg[Lower(tokens[i])] == Fresh(now, chat)
    ensures var h := HandleUsernames(reg, text, tokens, chat, now, check);
      && (forall i :: 0 <= i < |h.replies| ==> !Raises(reg, Lower(tokens[i]), chat, check))
      && (!h.completed ==> |h.replies| < |tokens| && Raises(reg, Lower(tokens[|h.replies|]), chat, check))
  {
    var names := NormalizeAll(tokens);
    NormalizedTokens(text, tokens);
    assert forall i :: 0 <= i < |tokens| ==> names[i] in names;
    AddAllReplies(reg, names, chat, now, check);
    AddAllOutcome(reg, names, chat, now, check);
    AddAllStops(reg, names, chat, now, check);
  }

  /** Each answered token gets the reply its lower-cased name earns against the registry before
      the message and the tokens answered before it, and only answered tokens can change the
      registry: a token after the one whose check raised is never reached (main.py:161). */
  lemma HandleAnswers(reg: Registry, text: string, tokens: seq<string>, chat: ChatId, now: int, check: Checker)
    requires Enumerates(tokens, set w | w in SplitWhitespace(text))
    ensures var h, names := HandleUsernames(reg, text, tokens, chat, now, check), NormalizeAll(tokens);
      forall i :: 0 <= i < |h.replies| ==> AnsweredAs(reg, names[..i], Lower(tokens[i]), chat, check, h.replies[i])
    ensures var h, names := HandleUsernames(reg, text, tokens, chat, now, check), NormalizeAll(tokens);
      forall k :: k !in names[..|h.replies|] ==> (k in h.reg <==> k in reg) && (k in reg ==> h.reg[k] == reg[k])
  {
    NormalizedTokens(text, tokens);
    AddAllReplyKinds(reg, NormalizeAll(tokens), chat, now, check);
    AddAllFrame(reg, NormalizeAll(tokens), chat, now, check);
  }

  /** A message holding only invalid names changes nothing and answers "invalid" for each. */
  lemma InvalidOnlyChangesNothing(reg: Registry, names: seq<Username>, chat: ChatId, now: int, check: Checker)
    requires forall i :: 0 <= i < |names| ==> !IsValid(names[i])
    ensures AddAll(reg, names, chat, now, check) ==
      Batch(reg, seq(|names|, i requires 0 <= i < |names| => Invalid(names[i])), false)
    decreases |names|
  {
    if |names| > 0 {
      InvalidOnlyChangesNothing(reg, names[1..], chat, now, check);
    }
  }
}
