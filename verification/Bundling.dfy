/** Which packets the send loop puts in a response: as many as fit, and never fewer. */
module Bundling {
  import opened Bytes
  import opened Framing
  import opened Server
  import opened SendLoop

  /** The loop's steps by itself. */
  function LoopRun(cfg: Config, s: State, choices: seq<Choice>): State
    decreases |choices|
  {
    if choices == [] then s else LoopRun(cfg, Step(cfg, s, LoopStep(choices[0])), choices[1..])
  }

  /** n is how many of these packets fit in limit octets with their prefixes; the first one always does. */
  predicate Fills(limit: int, all: seq<bytes>, n: nat) {
    && n <= |all| && (all != [] ==> n >= 1)
    && (n <= 1 || FrameLen(all[..n]) <= limit)
    && (n < |all| ==> FrameLen(all[..n + 1]) > limit)
  }

  lemma {:induction false} FrameLenSplit(a: seq<bytes>, b: seq<bytes>)
    ensures FrameLen(a + b) == FrameLen(a) + FrameLen(b)
  {
    if a == [] {
      assert a + b == b;
    } else {
      assert (a + b)[1..] == a[1..] + b;
      FrameLenSplit(a[1..], b);
    }
  }

  /** If all packets fit, all are taken. */
  lemma AllFill(limit: int, all: seq<bytes>, n: nat)
    requires FrameLen(all) <= limit && Fills(limit, all, n)
    ensures n == |all|
  {
    hide FrameLen;
    if n < |all| {
      var taken, left := all[..n + 1], all[n + 1..];
      assert all == taken + left;
      FrameLenSplit(taken, left);
    }
  }

  /** Packets that the loop neither takes for the end of the queue nor panics on. */
  predicate Proper(all: seq<bytes>) {
    forall i :: 0 <= i < |all| ==> 0 < |all[i]| < 0x1_0000
  }

  /** The response to rec has been sent with the first n of the packets, and one more has left the queue. */
  predicate Bundled(s: State, rec: Record, all: seq<bytes>, n: nat, t: State) {
    && n <= |all| && t.loop.Top? && |t.log| == |s.log| + 1 && t.log[..|s.log|] == s.log
    && t.log[|s.log|].rec == rec && t.log[|s.log|].packets == all[..n]
    && Of(t.stashes, rec.client) == (if n < |all| then [all[n]] else [])
    && Of(t.queues, rec.client) == (if n < |all| then all[n + 1..] else [])
  }

  /** The loop is still making the bundle, and has not passed over any packet. */
  predicate Filling(cfg: Config, s: State, rec: Record, all: seq<bytes>, t: State) {
    && t.loop.Selecting? && t.log == s.log && t.ch == s.ch
    && var level, b := t.loop.level, t.loop.bundle;
       && b.rec == rec && b.source == LIVE
       && b.packets + Of(t.stashes, rec.client) + Of(t.queues, rec.client) == all
       && b.limit == cfg.maxEncodedPayload - FrameLen(b.packets) && (|b.packets| <= 1 || b.limit >= 0)
       && |Of(t.stashes, rec.client)| <= 1
       && (level == Poll || level == Wait || b.packets != [] ==> Of(t.stashes, rec.client) == [])
       && (level == Wait ==> Of(t.queues, rec.client) == [])
  }

  /** The first n packets are in the bundle, and the next one has just been received. */
  predicate Received(cfg: Config, s: State, rec: Record, all: seq<bytes>, u: State, b: Bundle) {
    var n, c := |b.packets|, rec.client;
    && b.rec == rec && b.source == LIVE && u.log == s.log && u.ch == s.ch
    && n < |all| && b.packets == all[..n] && Of(u.stashes, c) == [] && Of(u.queues, c) == all[n + 1..]
    && b.limit == cfg.maxEncodedPayload - FrameLen(b.packets) && (n <= 1 || b.limit >= 0)
  }

  lemma PacketTaken(cfg: Config, s: State, rec: Record, all: seq<bytes>, u: State, b: Bundle)
    requires Proper(all) && Received(cfg, s, rec, all, u, b)
    requires b.packets == [] || b.limit - (2 + |all[|b.packets|]|) >= 0
    ensures Filling(cfg, s, rec, all, TakePacket(u, b, all[|b.packets|]))
  {
    hide FrameLen;
    var n, p := |b.packets|, all[|b.packets|];
    FrameAppend(b.packets, p);
    assert (b.packets + [p]) + [] + all[n + 1..] == all;
  }

  lemma PacketPassed(cfg: Config, s: State, rec: Record, all: seq<bytes>, u: State, b: Bundle)
    requires Proper(all) && Received(cfg, s, rec, all, u, b)
    requires b.packets != [] && b.limit - (2 + |all[|b.packets|]|) < 0
    ensures Fills(cfg.maxEncodedPayload, all, |b.packets|)
    ensures Bundled(s, rec, all, |b.packets|, TakePacket(u, b, all[|b.packets|]))
  {
    hide FrameLen;
    var n, p := |b.packets|, all[|b.packets|];
    FrameAppend(b.packets, p);
    assert all[..n + 1] == all[..n] + [p] && [] + [p] == [p];
  }

  /** The next packet goes into the bundle if there is room for it, and ends the bundle otherwise. */
  lemma NextPacket(cfg: Config, s: State, rec: Record, all: seq<bytes>, u: State, b: Bundle)
    requires Proper(all) && Received(cfg, s, rec, all, u, b)
    ensures var n, t := |b.packets|, TakePacket(u, b, all[|b.packets|]);
      Filling(cfg, s, rec, all, t) || (Fills(cfg.maxEncodedPayload, all, n) && Bundled(s, rec, all, n, t))
  {
    hide Filling, Fills, Bundled, Proper, TakePacket, FrameLen;
    if b.packets != [] && b.limit - (2 + |all[|b.packets|]|) < 0 {
      PacketPassed(cfg, s, rec, all, u, b);
    } else {
      PacketTaken(cfg, s, rec, all, u, b);
    }
  }

  lemma SelectFills(cfg: Config, s: State, rec: Record, all: seq<bytes>, t: State, choice: Choice)
    requires Proper(all) && Filling(cfg, s, rec, all, t)
    ensures var u := DoSelect(t, t.loop.level, t.loop.bundle, choice);
      Filling(cfg, s, rec, all, u)
      || exists n :: Fills(cfg.maxEncodedPayload, all, n) && Bundled(s, rec, all, n, u)
  {
    hide TakePacket;
    var level, b, c := t.loop.level, t.loop.bundle, rec.client;
    var n := |b.packets|;
    SelectOutcomes(t, level, b, choice);
    var u := DoSelect(t, level, b, choice);
    if StashSeen(t, b) != [] && u == TakeFromStash(t, b) {
      assert Of(t.stashes, c) == [all[0]] && Of(t.stashes, c)[1..] == [] && all[1..] == Of(t.queues, c);
      NextPacket(cfg, s, rec, all, t.(stashes := t.stashes[c := []]), b);
    } else if (level == Poll || level == Wait) && QueueReady(t, b) && u == TakeFromQueue(t, b) {
      assert Of(t.queues, c)[0] == all[n] && Of(t.queues, c)[1..] == all[n + 1..];
      NextPacket(cfg, s, rec, all, t.(queues := t.queues[c := all[n + 1..]]), b);
    } else if level == Wait && u.log != t.log {
      WaitEnds(cfg, s, rec, all, t, choice);
    } else {
      StillFilling(cfg, s, rec, all, t, choice);
    }
  }

  /** Waiting ends with the timer or with the next query, and all packets are in the bundle then. */
  lemma WaitEnds(cfg: Config, s: State, rec: Record, all: seq<bytes>, t: State, choice: Choice)
    requires Filling(cfg, s, rec, all, t) && t.loop.level == Wait
    ensures var u := DoSelect(t, Wait, t.loop.bundle, choice);
      if choice == TimerExpired
      then Fills(cfg.maxEncodedPayload, all, |all|) && Bundled(s, rec, all, |all|, u)
        && u.loop == Top(None) && u.ch == s.ch
      else if choice == FromRecords && s.ch != []
      then Fills(cfg.maxEncodedPayload, all, |all|) && Bundled(s, rec, all, |all|, u)
        && u.loop == Top(Some(s.ch[0])) && u.ch == s.ch[1..]
      else u == t
  {
    assert all[..|all|] == all && t.loop.bundle.packets + [] + [] == all;
  }

  lemma StillFilling(cfg: Config, s: State, rec: Record, all: seq<bytes>, t: State, choice: Choice)
    requires Filling(cfg, s, rec, all, t)
    requires var u := DoSelect(t, t.loop.level, t.loop.bundle, choice);
      u == t
      || (t.loop.level == Open && u == t.(loop := Selecting(Probe, t.loop.bundle)))
      || (t.loop.level == Probe && StashSeen(t, t.loop.bundle) == [] && u == t.(loop := Selecting(Poll, t.loop.bundle)))
      || (t.loop.level == Poll && StashSeen(t, t.loop.bundle) == [] && !QueueReady(t, t.loop.bundle)
          && u == t.(loop := Selecting(Wait, t.loop.bundle)))
    ensures Filling(cfg, s, rec, all, DoSelect(t, t.loop.level, t.loop.bundle, choice))
  {
  }

  lemma StartsFilling(cfg: Config, s: State, rec: Record, choice: Choice)
    requires s.loop == Top(Some(rec)) && rec.CarriesData() && |Of(s.stashes, rec.client)| <= 1
    ensures Filling(cfg, s, rec, Of(s.stashes, rec.client) + Of(s.queues, rec.client), Step(cfg, s, LoopStep(choice)))
  {
  }

  lemma {:induction false} FillingRun(cfg: Config, s: State, rec: Record, all: seq<bytes>, t: State,
                                      choices: seq<Choice>)
    requires Proper(all) && Filling(cfg, s, rec, all, t)
    ensures Filling(cfg, s, rec, all, LoopRun(cfg, t, choices))
      || exists k, n ::
           && 0 <= k <= |choices| && Fills(cfg.maxEncodedPayload, all, n)
           && Bundled(s, rec, all, n, LoopRun(cfg, t, choices[..k]))
    decreases |choices|
  {
    hide Filling, Fills, Bundled, DoSelect;
    if choices != [] {
      var u := Step(cfg, t, LoopStep(choices[0]));
      FillingParts(cfg, s, rec, all, t);
      SelectFills(cfg, s, rec, all, t, choices[0]);
      if Filling(cfg, s, rec, all, u) {
        FillingRun(cfg, s, rec, all, u, choices[1..]);
        if !Filling(cfg, s, rec, all, LoopRun(cfg, t, choices)) {
          var k, n :| && 0 <= k <= |choices[1..]| && Fills(cfg.maxEncodedPayload, all, n)
                      && Bundled(s, rec, all, n, LoopRun(cfg, u, choices[1..][..k]));
          assert choices[..k + 1][1..] == choices[1..][..k];
          assert LoopRun(cfg, t, choices[..k + 1]) == LoopRun(cfg, u, choices[1..][..k]);
        }
      } else {
        var n :| Fills(cfg.maxEncodedPayload, all, n) && Bundled(s, rec, all, n, u);
        assert choices[..1][1..] == [];
        assert LoopRun(cfg, t, choices[..1]) == u;
      }
    }
  }

  /**
   * A record that can carry data, a stash and a queue, and nothing else happening: whatever the select
   * statements choose, the loop either is still making the bundle without having passed over a packet, or
   * it has sent as many packets as fit, stashed exactly the first that does not fit, and left the rest.
   */
  lemma {:induction false} BundleExactly(cfg: Config, s: State, rec: Record, choices: seq<Choice>)
    requires s.loop == Top(Some(rec)) && rec.CarriesData() && choices != []
    requires |Of(s.stashes, rec.client)| <= 1
    requires Proper(Of(s.stashes, rec.client) + Of(s.queues, rec.client))
    ensures var all := Of(s.stashes, rec.client) + Of(s.queues, rec.client);
      || Filling(cfg, s, rec, all, LoopRun(cfg, s, choices))
      || exists k, n ::
           && 0 < k <= |choices| && Fills(cfg.maxEncodedPayload, all, n)
           && Bundled(s, rec, all, n, LoopRun(cfg, s, choices[..k]))
  {
    hide Filling, Fills, Bundled, Step;
    var all := Of(s.stashes, rec.client) + Of(s.queues, rec.client);
    var t := Step(cfg, s, LoopStep(choices[0]));
    StartsFilling(cfg, s, rec, choices[0]);
    FillingRun(cfg, s, rec, all, t, choices[1..]);
    if !Filling(cfg, s, rec, all, LoopRun(cfg, s, choices)) {
      var k, n :| && 0 <= k <= |choices[1..]| && Fills(cfg.maxEncodedPayload, all, n)
                  && Bundled(s, rec, all, n, LoopRun(cfg, t, choices[1..][..k]));
      assert choices[..k + 1][1..] == choices[1..][..k];
      assert LoopRun(cfg, s, choices[..k + 1]) == LoopRun(cfg, t, choices[1..][..k]);
    }
  }

  // ---------- Progress ----------

  function StepsLeft(level: Level): nat {
    match level
    case Open => 3
    case Probe => 2
    case Poll => 1
    case Wait => 0
  }

  lemma FillingParts(cfg: Config, s: State, rec: Record, all: seq<bytes>, t: State)
    requires Filling(cfg, s, rec, all, t)
    ensures t.loop.Selecting? && t.loop.bundle.source == LIVE && |t.loop.bundle.packets| <= |all|
    ensures t.loop.level == Poll ==> StashSeen(t, t.loop.bundle) == []
  {
  }

  lemma TakenAdds(s: State, b: Bundle, p: bytes)
    ensures var t := TakePacket(s, b, p);
      t.loop.Selecting? ==> |t.loop.bundle.packets| == |b.packets| + 1
  {
  }

  lemma ReceivedAdds(t: State, b: Bundle)
    requires b.source == LIVE
    ensures StashSeen(t, b) != [] && TakeFromStash(t, b).loop.Selecting? ==>
              |TakeFromStash(t, b).loop.bundle.packets| == |b.packets| + 1
    ensures QueueReady(t, b) && TakeFromQueue(t, b).loop.Selecting? ==>
              |TakeFromQueue(t, b).loop.bundle.packets| == |b.packets| + 1
  {
    hide TakePacket;
    var c, x, y := b.rec.client, StashSeen(t, b), QueueSeen(t, b);
    if x != [] { TakenAdds(t.(stashes := t.stashes[c := x[1..]]), b, x[0]); }
    if y != [] { TakenAdds(t.(queues := t.queues[c := y[1..]]), b, y[0]); }
  }

  /** The bundle has grown, or the select statement at its end has come nearer. */
  predicate Nearer(all: seq<bytes>, t: State, u: State)
    requires t.loop.Selecting? && u.loop.Selecting?
  {
    |t.loop.bundle.packets| < |u.loop.bundle.packets| <= |all|
    || (u.loop.bundle == t.loop.bundle && StepsLeft(u.loop.level) < StepsLeft(t.loop.level))
  }

  /** A choice that brings the loop on, from any point of making a bundle. */
  lemma Progress(cfg: Config, s: State, rec: Record, all: seq<bytes>, t: State)
    requires Proper(all) && Filling(cfg, s, rec, all, t)
    ensures t.loop.Selecting?
    ensures exists choice ::
      var u := Step(cfg, t, LoopStep(choice));
      Filling(cfg, s, rec, all, u) ==> u.loop.Selecting? && Nearer(all, t, u)
  {
    hide Filling, TakeFromStash, TakeFromQueue, StashSeen, QueueReady;
    FillingParts(cfg, s, rec, all, t);
    ReceivedAdds(t, t.loop.bundle);
    var choice := if t.loop.level == Poll then FromQueue else TimerExpired;
    var u := Step(cfg, t, LoopStep(choice));
    if t.loop.level == Wait { WaitEnds(cfg, s, rec, all, t, choice); }
    if Filling(cfg, s, rec, all, u) { FillingParts(cfg, s, rec, all, u); }
  }

  /** The loop, on its own, can go on to send as many packets as fit. */
  ghost predicate Ends(cfg: Config, s: State, rec: Record, all: seq<bytes>, t: State) {
    exists choices, n :: Fills(cfg.maxEncodedPayload, all, n) && Bundled(s, rec, all, n, LoopRun(cfg, t, choices))
  }

  lemma EndsLater(cfg: Config, s: State, rec: Record, all: seq<bytes>, t: State, choice: Choice)
    requires Ends(cfg, s, rec, all, Step(cfg, t, LoopStep(choice)))
    ensures Ends(cfg, s, rec, all, t)
  {
    hide Fills, Bundled, Step;
    var u := Step(cfg, t, LoopStep(choice));
    var choices, n :| Fills(cfg.maxEncodedPayload, all, n) && Bundled(s, rec, all, n, LoopRun(cfg, u, choices));
    assert ([choice] + choices)[1..] == choices;
    assert LoopRun(cfg, t, [choice] + choices) == LoopRun(cfg, u, choices);
  }

  lemma EndsNow(cfg: Config, s: State, rec: Record, all: seq<bytes>, n: nat, t: State)
    requires Fills(cfg.maxEncodedPayload, all, n) && Bundled(s, rec, all, n, t)
    ensures Ends(cfg, s, rec, all, t)
  {
    hide Fills, Bundled;
    assert LoopRun(cfg, t, []) == t;
  }

  lemma {:induction false} BundleEnds(cfg: Config, s: State, rec: Record, all: seq<bytes>, t: State)
    requires Proper(all) && Filling(cfg, s, rec, all, t)
    ensures Ends(cfg, s, rec, all, t)
    decreases |all| - |t.loop.bundle.packets|, StepsLeft(t.loop.level)
  {
    hide Filling, Fills, Bundled, DoSelect, Ends;
    FillingParts(cfg, s, rec, all, t);
    Progress(cfg, s, rec, all, t);
    var choice :|
      var u := Step(cfg, t, LoopStep(choice));
      Filling(cfg, s, rec, all, u) ==> u.loop.Selecting? && Nearer(all, t, u);
    var u := Step(cfg, t, LoopStep(choice));
    SelectFills(cfg, s, rec, all, t, choice);
    if Filling(cfg, s, rec, all, u) {
      BundleEnds(cfg, s, rec, all, u);
    } else {
      var n :| Fills(cfg.maxEncodedPayload, all, n) && Bundled(s, rec, all, n, u);
      EndsNow(cfg, s, rec, all, n, u);
    }
    EndsLater(cfg, s, rec, all, t, choice);
  }

  /** The loop can always bring the bundle to its end by itself. */
  lemma {:induction false} BundleCompletes(cfg: Config, s: State, rec: Record)
    requires s.loop == Top(Some(rec)) && rec.CarriesData() && |Of(s.stashes, rec.client)| <= 1
    requires Proper(Of(s.stashes, rec.client) + Of(s.queues, rec.client))
    ensures Ends(cfg, s, rec, Of(s.stashes, rec.client) + Of(s.queues, rec.client), s)
  {
    hide Filling, Ends, Step, Proper;
    var all := Of(s.stashes, rec.client) + Of(s.queues, rec.client);
    StartsFilling(cfg, s, rec, TimerExpired);
    BundleEnds(cfg, s, rec, all, Step(cfg, s, LoopStep(TimerExpired)));
    EndsLater(cfg, s, rec, all, s, TimerExpired);
  }

  /** All packets have gone out in one response, and none is left. */
  predicate AllSent(s: State, rec: Record, all: seq<bytes>, t: State)
    requires Proper(all)
  {
    t.log == s.log + [Sent(rec, all)] && Of(t.stashes, rec.client) == [] && Of(t.queues, rec.client) == []
  }

  lemma BundledAll(cfg: Config, s: State, rec: Record, all: seq<bytes>, n: nat, t: State)
    requires FrameLen(all) <= cfg.maxEncodedPayload && Fills(cfg.maxEncodedPayload, all, n)
    requires Proper(all) && Bundled(s, rec, all, n, t)
    ensures AllSent(s, rec, all, t)
  {
    AllFill(cfg.maxEncodedPayload, all, n);
    assert all[..n] == all && t.log == t.log[..|s.log|] + [t.log[|s.log|]];
  }

  /** If all packets fit, they go out in one response, and nothing else can come of making it. */
  lemma {:induction false} AllBundled(cfg: Config, s: State, rec: Record, choices: seq<Choice>)
    requires s.loop == Top(Some(rec)) && rec.CarriesData() && choices != [] && |Of(s.stashes, rec.client)| <= 1
    requires Proper(Of(s.stashes, rec.client) + Of(s.queues, rec.client))
    requires FrameLen(Of(s.stashes, rec.client) + Of(s.queues, rec.client)) <= cfg.maxEncodedPayload
    ensures var all := Of(s.stashes, rec.client) + Of(s.queues, rec.client);
      || Filling(cfg, s, rec, all, LoopRun(cfg, s, choices))
      || exists k :: 0 < k <= |choices| && AllSent(s, rec, all, LoopRun(cfg, s, choices[..k]))
    ensures exists more :: AllSent(s, rec, Of(s.stashes, rec.client) + Of(s.queues, rec.client), LoopRun(cfg, s, more))
  {
    hide Filling, Fills, Bundled, Step, AllSent, Proper, FrameLen;
    var all := Of(s.stashes, rec.client) + Of(s.queues, rec.client);
    BundleExactly(cfg, s, rec, choices);
    if !Filling(cfg, s, rec, all, LoopRun(cfg, s, choices)) {
      var k, n :| && 0 < k <= |choices| && Fills(cfg.maxEncodedPayload, all, n)
                  && Bundled(s, rec, all, n, LoopRun(cfg, s, choices[..k]));
      BundledAll(cfg, s, rec, all, n, LoopRun(cfg, s, choices[..k]));
    }
    BundleCompletes(cfg, s, rec);
    var more, n :| Fills(cfg.maxEncodedPayload, all, n) && Bundled(s, rec, all, n, LoopRun(cfg, s, more));
    BundledAll(cfg, s, rec, all, n, LoopRun(cfg, s, more));
  }

  // ---------- Why a packet is stashed ----------

  /** Some response to the client was too full for this packet. */
  predicate NoRoom(cfg: Config, log: seq<Sent>, c: bytes, p: bytes) {
    exists i :: 0 <= i < |log| && log[i].rec.client == c && log[i].packets != []
      && FrameLen(log[i].packets) + 2 + |p| > cfg.maxEncodedPayload
  }

  predicate Explained(cfg: Config, s: State) {
    && (s.loop.Selecting? ==> s.loop.bundle.limit == cfg.maxEncodedPayload - FrameLen(s.loop.bundle.packets))
    && forall c, i :: c in s.stashes && 0 <= i < |s.stashes[c]| ==> NoRoom(cfg, s.log, c, s.stashes[c][i])
  }

  lemma LogGrows(cfg: Config, log: seq<Sent>, e: Sent, c: bytes, p: bytes)
    requires NoRoom(cfg, log, c, p)
    ensures NoRoom(cfg, log + [e], c, p)
  {
    var i :| 0 <= i < |log| && log[i].rec.client == c && log[i].packets != []
      && FrameLen(log[i].packets) + 2 + |p| > cfg.maxEncodedPayload;
    assert (log + [e])[i] == log[i];
  }

  lemma FinishExplained(cfg: Config, s: State, b: Bundle, next: Option<Record>)
    requires Explained(cfg, s)
    ensures Explained(cfg, Finish(s, b, next))
  {
    hide NoRoom;
    forall c, i | c in s.stashes && 0 <= i < |s.stashes[c]|
      ensures NoRoom(cfg, s.log + [Sent(b.rec, b.packets)], c, s.stashes[c][i])
    {
      LogGrows(cfg, s.log, Sent(b.rec, b.packets), c, s.stashes[c][i]);
    }
  }

  lemma TakePacketExplained(cfg: Config, s: State, b: Bundle, p: bytes)
    requires Explained(cfg, s) && b.limit == cfg.maxEncodedPayload - FrameLen(b.packets)
    ensures Explained(cfg, TakePacket(s, b, p))
  {
    hide NoRoom;
    var limit := b.limit - (2 + |p|);
    if |p| == 0 {
      FinishExplained(cfg, s, b, None);
    } else if b.packets != [] && limit < 0 {
      FinishExplained(cfg, s, b, None);
      var e := Sent(b.rec, b.packets);
      assert NoRoom(cfg, s.log + [e], b.rec.client, p) by { FullExplains(cfg, s.log, e, p); }
    } else if |p| < 0x1_0000 {
      FrameAppend(b.packets, p);
    }
  }

  lemma FullExplains(cfg: Config, log: seq<Sent>, e: Sent, p: bytes)
    requires e.packets != [] && FrameLen(e.packets) + 2 + |p| > cfg.maxEncodedPayload
    ensures NoRoom(cfg, log + [e], e.rec.client, p)
  {
    assert (log + [e])[|log|] == e;
  }

  lemma SelectExplained(cfg: Config, s: State, choice: Choice)
    requires Explained(cfg, s) && s.loop.Selecting?
    ensures Explained(cfg, DoSelect(s, s.loop.level, s.loop.bundle, choice))
  {
    hide TakePacket, NoRoom;
    var level, b, c := s.loop.level, s.loop.bundle, s.loop.bundle.rec.client;
    SelectOutcomes(s, level, b, choice);
    var t := DoSelect(s, level, b, choice);
    if StashSeen(s, b) != [] && t == TakeFromStash(s, b) {
      var p, rest := StashSeen(s, b)[0], StashSeen(s, b)[1..];
      if b.source.stash.None? {
        TakePacketExplained(cfg, s.(stashes := s.stashes[c := rest]), b, p);
      } else {
        TakePacketExplained(cfg, s, b.(source := b.source.(stash := Some(rest))), p);
      }
    } else if QueueReady(s, b) && QueueSeen(s, b) != [] && t == TakeFromQueue(s, b) {
      var p, rest := QueueSeen(s, b)[0], QueueSeen(s, b)[1..];
      if b.source.queue.None? {
        TakePacketExplained(cfg, s.(queues := s.queues[c := rest]), b, p);
      } else {
        TakePacketExplained(cfg, s, b.(source := b.source.(queue := Some(rest))), p);
      }
    } else if t == Finish(s, b, None) {
      FinishExplained(cfg, s, b, None);
    } else if s.ch != [] && t == Finish(s.(ch := s.ch[1..]), b, Some(s.ch[0])) {
      FinishExplained(cfg, s.(ch := s.ch[1..]), b, Some(s.ch[0]));
    }
  }

  lemma BeginExplained(cfg: Config, s: State, rec: Record)
    requires Explained(cfg, s)
    ensures Explained(cfg, Begin(cfg, s, rec))
  {
    hide NoRoom;
    forall c, i | c in s.stashes && 0 <= i < |s.stashes[c]|
      ensures NoRoom(cfg, s.log + [Sent(rec, [])], c, s.stashes[c][i])
    {
      LogGrows(cfg, s.log, Sent(rec, []), c, s.stashes[c][i]);
    }
  }

  lemma OthersExplained(cfg: Config, s: State, e: Event)
    requires Explained(cfg, s) && !e.LoopStep?
    ensures Explained(cfg, Step(cfg, s, e))
  {
    hide NoRoom, Receive, FrameLen;
  }

  lemma {:induction false} StepExplained(cfg: Config, s: State, e: Event)
    requires Explained(cfg, s)
    ensures Explained(cfg, Step(cfg, s, e))
  {
    hide Explained, DoSelect, Begin;
    if !e.LoopStep? {
      OthersExplained(cfg, s, e);
      return;
    }
    match s.loop
    case Crashed =>
    case Top(Some(rec)) => BeginExplained(cfg, s, rec);
    case Top(None) =>
      if s.ch != [] {
        ChannelExplained(cfg, s);
        BeginExplained(cfg, s.(ch := s.ch[1..]), s.ch[0]);
      }
    case Selecting(_, _) => SelectExplained(cfg, s, e.choice);
  }

  lemma ChannelExplained(cfg: Config, s: State)
    requires Explained(cfg, s) && s.ch != []
    ensures Explained(cfg, s.(ch := s.ch[1..]))
  {
  }

  /** In every run, a packet is in a stash only because a response to its client had no room for it. */
  lemma {:induction false} StashedOnlyWhenFull(cfg: Config, events: seq<Event>, c: bytes, i: nat)
    requires i < |Of(Run(cfg, events).stashes, c)|
    ensures var s := Run(cfg, events);
      exists k :: 0 <= k < |s.log| && s.log[k].rec.client == c && s.log[k].packets != []
        && FrameLen(s.log[k].packets) + 2 + |Of(s.stashes, c)[i]| > cfg.maxEncodedPayload
  {
    RunExplained(cfg, events);
    var s := Run(cfg, events);
    assert NoRoom(cfg, s.log, c, s.stashes[c][i]);
  }

  lemma {:induction false} RunExplained(cfg: Config, events: seq<Event>)
    ensures Explained(cfg, Run(cfg, events))
  {
    if events != [] {
      var before := events[..|events| - 1];
      RunExplained(cfg, before);
      StepExplained(cfg, Run(cfg, before), events[|events| - 1]);
    }
  }
}
