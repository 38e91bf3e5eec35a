/** Whole runs of the gateway: sequence numbers, what may be sent and answered when, when a transaction
    ends, and what a reply in segments leads to. */
module GatewayRuns {
  import opened Bytes
  import opened Hdlc
  import opened GatewayMachine
  import F = GatewayFrames
  import R = MeterReply

  /** A round that finds nothing. */
  const QUIET := Input([], [], false)

  /** The state and the events after one round for each input. */
  function Run(m: Machine, inputs: seq<Input>): (r: (Machine, seq<Event>))
    ensures |r.1| == |inputs|
  {
    if inputs == [] then (m, [])
    else
      var n := |inputs| - 1;
      var before := Run(m, inputs[..n]);
      var next := Next(before.0, inputs[n]);
      (next.0, before.1 + [next.1])
  }

  /** The loop of GW_Run over as many rounds as there are inputs. */
  method RunGateway(g: Gateway, inputs: seq<Input>) returns (log: seq<Event>)
    requires g.Valid() && forall k :: 0 <= k < |inputs| ==> Fits(Run(g.View(), inputs[..k]).0, inputs[k])
    modifies g, g.hdlcRx, g.collection
    ensures g.Valid() && (g.View(), log) == Run(old(g.View()), inputs)
  {
    hide Next;
    log := [];
    ghost var m := g.View();
    var n := 0;
    assert inputs[..0] == [];
    while n < |inputs|
      invariant n <= |inputs| && g.Valid() && (g.View(), log) == Run(m, inputs[..n])
    {
      var e := g.Step(inputs[n]);
      assert inputs[..n + 1][..n] == inputs[..n];
      log := log + [e];
      n := n + 1;
    }
    assert inputs[..n] == inputs;
  }

  /** The events so far, and the state from which the next one came. */
  lemma {:induction false} RunPrefix(m: Machine, inputs: seq<Input>, i: nat)
    requires i < |inputs|
    ensures Run(m, inputs).1[..i] == Run(m, inputs[..i]).1
    ensures Run(m, inputs).1[i] == Next(Run(m, inputs[..i]).0, inputs[i]).1
  {
    hide Next;
    var n := |inputs| - 1;
    if i < n {
      RunPrefix(m, inputs[..n], i);
      assert inputs[..n][..i] == inputs[..i];
    }
  }

  lemma {:induction false} RunAppend(m: Machine, xs: seq<Input>, ys: seq<Input>)
    ensures Run(m, xs + ys).0 == Run(Run(m, xs).0, ys).0
    ensures Run(m, xs + ys).1 == Run(m, xs).1 + Run(Run(m, xs).0, ys).1
    decreases |ys|
  {
    hide Next;
    if ys == [] {
      assert xs + ys == xs;
    } else {
      var n := |ys| - 1;
      assert (xs + ys)[..|xs| + n] == xs + ys[..n];
      RunAppend(m, xs, ys[..n]);
    }
  }

  lemma OneRound(m: Machine, input: Input)
    ensures Run(m, [input]) == (Next(m, input).0, [Next(m, input).1])
  {
    hide Next;
    var e: Event := Next(m, input).1;
    assert [input][..0] == [] && [] + [e] == [e];
    assert Run(m, []) == (m, []);
  }

  // ---------- sequence numbers ----------

  predicate SnrmSent(log: seq<Event>) {
    log != [] && var e := log[|log| - 1]; (e.Sent? && e.kind == Snrm) || SnrmSent(log[..|log| - 1])
  }

  /** The information frames sent since the last SNRM frame. */
  function SentSince(log: seq<Event>): nat {
    if log == [] then 0
    else
      var e, before := log[|log| - 1], log[..|log| - 1];
      if e.Sent? && e.kind == Snrm then 0
      else SentSince(before) + if e.Sent? && e.kind == Information then 1 else 0
  }

  /** The frames of the meter whose header check was good since the last SNRM frame. */
  function AcceptedSince(log: seq<Event>): nat {
    if log == [] then 0
    else
      var e, before := log[|log| - 1], log[..|log| - 1];
      if e.Sent? && e.kind == Snrm then 0
      else AcceptedSince(before) + if e.Translated? && e.accepted then 1 else 0
  }

  /** N(S) and N(R) agree with the events. */
  predicate Counts(m: Machine, log: seq<Event>) {
    SnrmSent(log) ==> m.sss as int == SentSince(log) % 8 && m.rrr as int == AcceptedSince(log) % 8
  }

  lemma BumpedCounts(n: Byte, k: nat)
    requires n as int == k % 8
    ensures Bumped(n) as int == (k + 1) % 8
  {
  }

  predicate IsSnrm(e: Event) { e.Sent? && e.kind == Snrm }

  lemma CountedNext(log: seq<Event>, e: Event)
    ensures SnrmSent(log + [e]) == (IsSnrm(e) || SnrmSent(log))
    ensures SentSince(log + [e]) == if IsSnrm(e) then 0 else SentSince(log) + if e.Sent? && e.kind == Information then 1 else 0
    ensures AcceptedSince(log + [e]) == if IsSnrm(e) then 0 else AcceptedSince(log) + if e.Translated? && e.accepted then 1 else 0
  {
    assert (log + [e])[..|log|] == log;
  }

  lemma CountsStep(m: Machine, log: seq<Event>, input: Input)
    requires Counts(m, log)
    ensures var next := Next(m, input); Counts(next.0, log + [next.1])
  {
    hide F.Snrm, F.Information, F.ReceiveReady, F.Disc, R.Translate, Overwritten, SentSince, AcceptedSince, SnrmSent, Bumped;
    var next := Next(m, input);
    CountedNext(log, next.1);
    if SnrmSent(log) {
      BumpedCounts(m.sss, SentSince(log));
      BumpedCounts(m.rrr, AcceptedSince(log));
    }
  }

  lemma {:induction false} CountsHold(m: Machine, inputs: seq<Input>)
    ensures Counts(Run(m, inputs).0, Run(m, inputs).1)
  {
    hide Next, Counts;
    if inputs == [] {
      NothingCounted(m);
    } else {
      var n := |inputs| - 1;
      CountsHold(m, inputs[..n]);
      CountsStep(Run(m, inputs[..n]).0, Run(m, inputs[..n]).1, inputs[n]);
    }
  }

  lemma NothingCounted(m: Machine)
    ensures Counts(m, [])
  {
  }

  /** What a control byte says after the events of `log`: N(S) is in the bits 1 to 3, N(R) in the upper
      three, and the poll bit is set. */
  predicate Numbered(kind: Kind, control: Byte, log: seq<Event>) {
    match kind
    case Snrm => control == 0x93
    case Disc => control == 0x53
    case Information => control == 32 * (AcceptedSince(log) % 8) + 0x10 + 2 * (SentSince(log) % 8)
    case ReceiveReady => control == 32 * (AcceptedSince(log) % 8) + 0x11
  }

  lemma InformationNumbered(rrr: Byte, sss: Byte, sent: nat, accepted: nat)
    requires sss as int == sent % 8 && rrr as int == accepted % 8
    ensures F.InformationControl(rrr, sss) == 32 * (accepted % 8) + 0x10 + 2 * (sent % 8)
    ensures F.ReadyControl(rrr) == 32 * (accepted % 8) + 0x11
  {
  }

  /** The control byte of each kind of frame, by the numbers of the machine that sends it. */
  function ControlOf(m: Machine, kind: Kind): Byte {
    match kind
    case Snrm => F.SNRM
    case Disc => F.DISC
    case Information => F.InformationControl(m.rrr, m.sss)
    case ReceiveReady => F.ReadyControl(m.rrr)
  }

  lemma SentControl(m: Machine, input: Input)
    ensures var e := Next(m, input).1; e.Sent? ==> e.control == ControlOf(m, e.kind)
  {
    hide F.Snrm, F.Information, F.ReceiveReady, F.Disc, R.Translate, Overwritten, F.InformationControl, F.ReadyControl;
  }

  lemma ControlNumbered(m: Machine, log: seq<Event>, kind: Kind)
    requires Counts(m, log) && SnrmSent(log)
    ensures Numbered(kind, ControlOf(m, kind), log)
  {
    hide SentSince, AcceptedSince;
    InformationNumbered(m.rrr, m.sss, SentSince(log), AcceptedSince(log));
  }

  /** In every run, every information and receive-ready frame sent after an SNRM frame carries the numbers
      of frames sent and accepted since then, modulo eight, and the frame on the line has that control
      byte. */
  lemma SequenceNumbers(m: Machine, inputs: seq<Input>, i: nat)
    requires i < |inputs| && Run(m, inputs).1[i].Sent? && SnrmSent(Run(m, inputs).1[..i])
    ensures var e := Run(m, inputs).1[i]; Numbered(e.kind, e.control, Run(m, inputs).1[..i])
  {
    hide Next, Run, Counts, Numbered;
    RunPrefix(m, inputs, i);
    CountsHold(m, inputs[..i]);
    SentControl(Run(m, inputs[..i]).0, inputs[i]);
    ControlNumbered(Run(m, inputs[..i]).0, Run(m, inputs[..i]).1, Run(m, inputs).1[i].kind);
  }

  /** What a frame of the gateway carries for a request: its server, its client, the control byte, and
      the APDU if it is an information frame. */
  function Contents(d: seq<Byte>, kind: Kind, control: Byte): Frame {
    Frame(false, if kind == Disc then F.DiscAddress(d) else F.ServerAddress(d),
          [F.ClientByte(F.Client(d))], control, if kind == Information then F.LLC + F.Apdu(d) else [])
  }

  lemma SentStep(m: Machine, input: Input)
    requires Next(m, input).1.Sent? && |Next(m, input).1.frame| <= 2049
    ensures var e := Next(m, input).1; Carries(e.frame, Contents(m.request, e.kind, e.control))
  {
    hide Carries, CarriesHeader, F.InformationFrame, F.ShortFrame, F.AddressBytes, F.UpperOf, F.LowerOf, F.Apdu;
    var d := m.request;
    if m.state == InformationFrame { F.InformationReaches(d, F.InformationControl(m.rrr, m.sss)); }
    else if m.state == DiscRequest { F.DiscReaches(d); }
    else { F.ShortFramesReach(d, F.ReadyControl(m.rrr)); }
  }

  /** In every run, every frame for the meter is one that a receiver reads as addressed to the server of
      the request in work, with the control byte of the event. */
  lemma SentFramesCarry(m: Machine, inputs: seq<Input>, i: nat)
    requires i < |inputs| && Run(m, inputs).1[i].Sent? && |Run(m, inputs).1[i].frame| <= 2049
    ensures var e := Run(m, inputs).1[i]; Carries(e.frame, Contents(Run(m, inputs[..i]).0.request, e.kind, e.control))
  {
    hide Next, Run, Carries, Contents;
    RunPrefix(m, inputs, i);
    SentStep(Run(m, inputs[..i]).0, inputs[i]);
  }

  // ---------- replies and requests ----------

  function TakenIn(log: seq<Event>): nat {
    if log == [] then 0 else TakenIn(log[..|log| - 1]) + if log[|log| - 1].Taken? then 1 else 0
  }

  function RepliesIn(log: seq<Event>): nat {
    if log == [] then 0
    else RepliesIn(log[..|log| - 1]) + if log[|log| - 1].Translated? && log[|log| - 1].reply.Reply? then 1 else 0
  }

  /** One transaction is open, or none. */
  function Open(m: Machine): nat { if m.state == WaitForFrame then 0 else 1 }

  lemma OpenStep(m: Machine, input: Input)
    ensures var (next, e) := Next(m, input);
            Open(next) + (if e.Translated? && e.reply.Reply? then 1 else 0) <= Open(m) + if e.Taken? then 1 else 0
  {
    hide F.Snrm, F.Information, F.ReceiveReady, F.Disc, R.Translate, Overwritten;
    R.TranslateKeeps(m.rx, m.segment, m.collected);
  }

  /** Replies never outnumber the requests taken, with one to spare while a transaction is open. */
  lemma {:induction false} RepliesNeverAhead(m: Machine, inputs: seq<Input>)
    ensures var (last, log) := Run(m, inputs); RepliesIn(log) + Open(last) <= TakenIn(log) + Open(m)
  {
    hide Next, Open;
    if inputs != [] {
      var n := |inputs| - 1;
      RepliesNeverAhead(m, inputs[..n]);
      OpenStep(Run(m, inputs[..n]).0, inputs[n]);
      var before, next := Run(m, inputs[..n]).1, Next(Run(m, inputs[..n]).0, inputs[n]);
      assert (before + [next.1])[..n] == before;
    }
  }

  // ---------- one frame at a time ----------

  /** The states that wait for the meter. */
  predicate Awaiting(s: State) { s == SnrmResponse || s == Response || s == DiscResponse }

  /** Since the last frame for the meter, a frame of the meter came or the time was up. */
  predicate Settled(log: seq<Event>) {
    log == [] || (var e := log[|log| - 1]; !e.Sent? && (e.Heard? || e.TimedOut? || Settled(log[..|log| - 1])))
  }

  lemma SettledStep(m: Machine, log: seq<Event>, input: Input)
    requires Awaiting(m.state) || Settled(log)
    ensures var (next, e) := Next(m, input);
            (Awaiting(next.state) || Settled(log + [e])) && (e.Sent? ==> Settled(log))
  {
    hide F.Snrm, F.Information, F.ReceiveReady, F.Disc, R.Translate, Overwritten;
    var (next, e) := Next(m, input);
    assert (log + [e])[..|log|] == log;
    R.TranslateKeeps(m.rx, m.segment, m.collected);
  }

  lemma {:induction false} SettledHolds(m: Machine, inputs: seq<Input>)
    requires !Awaiting(m.state)
    ensures Awaiting(Run(m, inputs).0.state) || Settled(Run(m, inputs).1)
  {
    hide Next, Awaiting;
    if inputs != [] {
      var n := |inputs| - 1;
      SettledHolds(m, inputs[..n]);
      SettledStep(Run(m, inputs[..n]).0, Run(m, inputs[..n]).1, inputs[n]);
    }
  }

  lemma {:induction false} SettledBetween(log: seq<Event>, i: nat) returns (k: nat)
    requires i < |log| && log[i].Sent? && Settled(log)
    ensures i < k < |log| && (log[k].Heard? || log[k].TimedOut?)
    decreases |log|
  {
    k := |log| - 1;
    if !log[k].Heard? && !log[k].TimedOut? { k := SettledBetween(log[..k], i); }
  }

  /** In every run, between two frames for the meter a frame of the meter came or the time was up. */
  lemma OneFrameAtATime(m: Machine, inputs: seq<Input>, i: nat, j: nat)
    requires !Awaiting(m.state) && i < j < |inputs| && Run(m, inputs).1[i].Sent? && Run(m, inputs).1[j].Sent?
    ensures exists k :: i < k < j && (Run(m, inputs).1[k].Heard? || Run(m, inputs).1[k].TimedOut?)
  {
    hide Next, Run, Awaiting;
    RunPrefix(m, inputs, j);
    SettledHolds(m, inputs[..j]);
    var before := Run(m, inputs[..j]);
    SettledStep(before.0, before.1, inputs[j]);
    assert before.1[i] == Run(m, inputs).1[i];
    var k := SettledBetween(before.1, i);
    assert before.1[k] == Run(m, inputs).1[k];
  }

  // ---------- releasing an association ----------

  /** How far the disconnection of the transaction in work has come: not asked for, sent, answered. */
  function Phase(log: seq<Event>): nat {
    if log == [] then 0
    else
      var e, p := log[|log| - 1], Phase(log[..|log| - 1]);
      if e.Taken? then 0
      else if e.Sent? && e.kind == Disc && p == 0 then 1
      else if e.Heard? && p == 1 then 2
      else p
  }

  lemma PhaseNext(log: seq<Event>, e: Event)
    ensures var p := Phase(log);
            Phase(log + [e]) == if e.Taken? then 0 else if e.Sent? && e.kind == Disc && p == 0 then 1 else if e.Heard? && p == 1 then 2 else p
  {
    assert (log + [e])[..|log|] == log;
  }

  /** After the last request was taken, a DISC frame was sent at `a` and the meter was heard at `b`. */
  predicate Released(log: seq<Event>, a: nat, b: nat) {
    a < b < |log| && log[a].Sent? && log[a].kind == Disc && log[b].Heard? && forall k :: a <= k < |log| ==> !log[k].Taken?
  }

  lemma {:induction false} PhaseOne(log: seq<Event>) returns (a: nat)
    requires Phase(log) == 1
    ensures a < |log| && log[a].Sent? && log[a].kind == Disc && forall k :: a <= k < |log| ==> !log[k].Taken?
    decreases |log|
  {
    var n := |log| - 1;
    if log[n].Sent? && log[n].kind == Disc && Phase(log[..n]) == 0 {
      a := n;
    } else {
      a := PhaseOne(log[..n]);
    }
  }

  lemma {:induction false} PhaseTwo(log: seq<Event>) returns (a: nat, b: nat)
    requires Phase(log) == 2
    ensures Released(log, a, b)
    decreases |log|
  {
    var n := |log| - 1;
    if log[n].Heard? && Phase(log[..n]) == 1 {
      a := PhaseOne(log[..n]);
      b := n;
    } else {
      a, b := PhaseTwo(log[..n]);
    }
  }

  predicate Contacted(s: State) { s == Response || s == Segment || s == ResponseForHeadEnd || s == DiscRequest || s == DiscResponse }

  /** The invariant: a request that was sent has an address that a DISC frame can be built for; the flag
      says whether the request in work is an RLRQ, which gets to the reply only over the disconnection. */
  predicate Releasing(m: Machine, log: seq<Event>) {
    && (Contacted(m.state) ==> F.HasAddress(m.request))
    && (m.state != WaitForFrame ==> m.rlrq == F.Begins(m.request, 0x62))
    && (m.state == DiscResponse ==> Phase(log) >= 1)
    && (m.rlrq && m.state == ResponseForHeadEnd ==> Phase(log) == 2)
    && Phase(log) <= 2
  }

  lemma ReleasingStep(m: Machine, log: seq<Event>, input: Input)
    requires Releasing(m, log)
    ensures var (next, e) := Next(m, input); Releasing(next, log + [e])
  {
    hide F.HasAddress, F.FrameType, F.ServerAddress, F.Logical, F.InformationFrame, F.ShortFrame, R.Translate, Overwritten;
    hide F.AddressBytes, F.InformationControl, F.ReadyControl, Phase, F.Begins;
    F.FrameTypeBegins(input.headEnd);
    var (next, e) := Next(m, input);
    PhaseNext(log, e);
    R.TranslateKeeps(m.rx, m.segment, m.collected);
  }

  lemma {:induction false} ReleasingHolds(m: Machine, inputs: seq<Input>)
    requires Releasing(m, [])
    ensures Releasing(Run(m, inputs).0, Run(m, inputs).1)
  {
    hide Next, Releasing;
    if inputs != [] {
      var n := |inputs| - 1;
      ReleasingHolds(m, inputs[..n]);
      ReleasingStep(Run(m, inputs[..n]).0, Run(m, inputs[..n]).1, inputs[n]);
    }
  }

  lemma ReplyState(m: Machine, input: Input)
    requires Next(m, input).1.Translated?
    ensures m.state == ResponseForHeadEnd
  {
    hide F.Snrm, F.Information, F.ReceiveReady, F.Disc, R.Translate, Overwritten;
  }

  /** In every run from the start, the reply to an RLRQ follows, within its own transaction, a DISC frame
      that was sent and a frame of the meter that came after it. */
  lemma ReleaseIsAnswered(m: Machine, inputs: seq<Input>, j: nat)
    requires m.state == WaitForFrame && j < |inputs| && Run(m, inputs).1[j].Translated?
    requires F.Begins(Run(m, inputs[..j]).0.request, 0x62)
    ensures exists a, b :: Released(Run(m, inputs).1[..j], a, b)
  {
    hide Next, Run, F.Begins;
    RunPrefix(m, inputs, j);
    assert Releasing(m, []);
    ReleasingHolds(m, inputs[..j]);
    ReplyState(Run(m, inputs[..j]).0, inputs[j]);
    var a, b := PhaseTwo(Run(m, inputs[..j]).1);
  }

  // ---------- the end of a transaction ----------

  /** How far a state is from the end of the transaction if the meter says nothing more. */
  function Rank(s: State): nat {
    match s
    case WaitForFrame => 0
    case SnrmResponse | Response | DiscResponse => 1
    case SnrmRequest | InformationFrame | Segment => 2
    case ResponseForHeadEnd => 3
    case DiscRequest => 4
  }

  /** The frames of the meter have a start flag and a frame type. */
  predicate StartsWell(input: Input) { input.meter != [] ==> |input.meter| >= 2 && R.StartsFrame(input.meter) }

  predicate AllStartWell(inputs: seq<Input>) { inputs == [] || (StartsWell(inputs[0]) && AllStartWell(inputs[1..])) }

  /** So has the buffer, in the states that will look at it. */
  predicate BufferStartsWell(m: Machine) {
    m.state == ResponseForHeadEnd || m.state == DiscRequest || m.state == DiscResponse ==> R.StartsFrame(m.rx)
  }

  /** A state that waits for the meter finds neither a frame nor the end of its time. */
  predicate IdleRound(s: State, input: Input) { Awaiting(s) && input.meter == [] && !input.timeout }

  function MeterFrames(inputs: seq<Input>): nat {
    if inputs == [] then 0 else (if inputs[0].meter != [] then 1 else 0) + MeterFrames(inputs[1..])
  }

  /** The rounds of a run that are not idle. */
  function BusyRounds(m: Machine, inputs: seq<Input>): nat
    decreases |inputs|
  {
    if inputs == [] then 0
    else (if IdleRound(m.state, inputs[0]) then 0 else 1) + BusyRounds(Next(m, inputs[0]).0, inputs[1..])
  }

  lemma OverwrittenStarts(rx: seq<Byte>, frame: seq<Byte>)
    requires |frame| >= 2
    ensures R.StartsFrame(Overwritten(rx, frame)) == R.StartsFrame(frame)
  {
  }

  /** A busy round of an open transaction uses up a frame of the meter or comes closer to the end. */
  lemma BusyStep(m: Machine, input: Input)
    requires m.state != WaitForFrame && BufferStartsWell(m) && StartsWell(input)
    ensures var next := Next(m, input).0;
            && BufferStartsWell(next)
            && (if IdleRound(m.state, input) then Rank(next.state) == Rank(m.state)
                else Rank(next.state) + 1 <= Rank(m.state) + if input.meter != [] then 4 else 0)
  {
    hide F.Snrm, F.Information, F.ReceiveReady, F.Disc, R.Translate, Overwritten, R.StartsFrame;
    R.TranslateKeeps(m.rx, m.segment, m.collected);
    if |input.meter| >= 2 { OverwrittenStarts(m.rx, input.meter); }
  }

  /** Whatever the timing, a transaction is over after at most four busy rounds for each frame of the
      meter and as many as the rank of the state it is in, if the frames start as frames do. */
  lemma {:induction false} TransactionEnds(m: Machine, inputs: seq<Input>) returns (k: nat)
    requires BufferStartsWell(m) && AllStartWell(inputs)
    requires BusyRounds(m, inputs) >= 4 * MeterFrames(inputs) + Rank(m.state)
    ensures k <= |inputs| && Run(m, inputs[..k]).0.state == WaitForFrame
    decreases |inputs|
  {
    hide Next, BufferStartsWell, StartsWell, IdleRound;
    if m.state == WaitForFrame {
      k := 0;
    } else {
      assert inputs != [];
      BusyStep(m, inputs[0]);
      var next := Next(m, inputs[0]).0;
      k := TransactionEnds(next, inputs[1..]);
      assert inputs[..k + 1] == [inputs[0]] + inputs[1..][..k];
      RunAppend(m, [inputs[0]], inputs[1..][..k]);
      assert [inputs[0]][..0] == [];
      k := k + 1;
    }
  }

  /** The state that translates a reply is kept exactly if the buffer lacks a start flag or a frame type;
      then nothing ever changes again. */
  lemma {:induction false} StuckForever(m: Machine, inputs: seq<Input>)
    requires m.state == ResponseForHeadEnd
    ensures forall input :: Next(m, input).0.state == ResponseForHeadEnd <==> !R.StartsFrame(m.rx)
    ensures !R.StartsFrame(m.rx) ==> Run(m, inputs).0 == m
    decreases |inputs|
  {
    hide R.Translate;
    R.TranslateKeeps(m.rx, m.segment, m.collected);
    if !R.StartsFrame(m.rx) { NotTranslated(m.rx, m.segment, m.collected); }
    if inputs != [] { StuckForever(m, inputs[..|inputs| - 1]); }
  }

  lemma NotTranslated(rx: seq<Byte>, segment: R.Segment, collected: seq<Byte>)
    requires !R.StartsFrame(rx)
    ensures var t := R.Translate(rx, segment, collected);
            t.segment == segment && t.collected == collected && !t.accepted && t.ret < 0 && t.after == R.Stay
  {
    hide R.TranslateBody;
  }

  /** A frame heard in answer to anything but an RLRQ stops the gateway for good, whatever comes later,
      exactly if the buffer does not start as a frame does with it in front; of two bytes or more that is
      a matter of the frame alone. */
  lemma HeardFrameBlocks(m: Machine, input: Input)
    requires m.state == Response && !m.rlrq && input.meter != []
    ensures (forall later :: Run(m, [input] + later).0 == Next(m, input).0 && Next(m, input).0.state == ResponseForHeadEnd)
            <==> !R.StartsFrame(Overwritten(m.rx, input.meter))
    ensures (exists later :: Run(m, [input] + later).0.state == WaitForFrame || Run(m, [input] + later).0.state == Segment)
            <==> R.StartsFrame(Overwritten(m.rx, input.meter))
    ensures |input.meter| >= 2 ==> R.StartsFrame(Overwritten(m.rx, input.meter)) == R.StartsFrame(input.meter)
  {
    hide R.StartsFrame, R.Translate, Overwritten, Run, AfterTranslation;
    var heard := Next(m, input).0;
    assert heard == m.(rx := Overwritten(m.rx, input.meter), state := ResponseForHeadEnd);
    if |input.meter| >= 2 { OverwrittenStarts(m.rx, input.meter); }
    forall later
      ensures Run(m, [input] + later).0 == Run(heard, later).0
    {
      OneRound(m, input);
      RunAppend(m, [input], later);
    }
    if R.StartsFrame(heard.rx) {
      Unblocked(heard);
      OneRound(heard, QUIET);
      assert Run(m, [input] + [QUIET]).0 == Next(heard, QUIET).0;
    } else {
      forall later
        ensures Run(heard, later).0 == heard
      {
        StuckForever(heard, later);
      }
    }
  }

  lemma Unblocked(m: Machine)
    requires m.state == ResponseForHeadEnd && R.StartsFrame(m.rx)
    ensures Next(m, QUIET).0.state == WaitForFrame || Next(m, QUIET).0.state == Segment
  {
    hide R.StartsFrame, R.Translate;
    R.TranslateKeeps(m.rx, m.segment, m.collected);
  }

  // ---------- what is left collected ----------

  /** The next reply will not be taken for a continuation, and nothing is in its way. */
  predicate Clean(m: Machine) { m.segment != R.Middle && m.collected == [] }

  /** The invariant: only a reply in work has something collected. */
  predicate Tidy(m: Machine) {
    && (m.segment != R.Middle ==> m.collected == [])
    && (m.state == WaitForFrame || m.state == SnrmRequest || m.state == SnrmResponse || m.state == InformationFrame ==> Clean(m))
  }

  /** This round breaks a reply in segments off: the time is up, or its last segment is refused with
      something collected already. */
  predicate BreaksOff(m: Machine, input: Input) {
    m.segment == R.Middle
    && ((Awaiting(m.state) && input.meter == [] && input.timeout)
        || (m.state == ResponseForHeadEnd && R.StartsFrame(m.rx) && !R.IsSegmented(m.rx) && !R.Accepts(m.rx) && m.collected != []))
  }

  lemma TidyStep(m: Machine, input: Input)
    requires Tidy(m)
    ensures BreaksOff(m, input) ==> Next(m, input).0.state == WaitForFrame && !Clean(Next(m, input).0)
    ensures !BreaksOff(m, input) ==> Tidy(Next(m, input).0)
  {
    hide F.Snrm, F.Information, F.ReceiveReady, F.Disc, R.Translate, Overwritten, R.StartsFrame, R.IsSegmented, R.Accepts;
    R.TranslateKeeps(m.rx, m.segment, m.collected);
    R.AcceptedAnyway(m.rx, m.segment, m.collected);
    if R.StartsFrame(m.rx) { AcceptedClears(m.rx, m.segment, m.collected); } else { NotTranslated(m.rx, m.segment, m.collected); }
  }

  lemma AcceptedClears(rx: seq<Byte>, segment: R.Segment, collected: seq<Byte>)
    requires R.StartsFrame(rx)
    ensures var t := R.Translate(rx, segment, collected);
            (t.accepted && !R.IsSegmented(rx) ==> t.collected == [])
            && (!R.IsSegmented(rx) ==> t.segment == if segment == R.Middle then R.Last else R.Single)
  {
    hide R.DestinationEnd, R.SourceEnd, R.LogicalAt, R.PhysicalAt, R.ReplyHeader, R.HeaderFits, R.Slice, R.DeclaredSize;
  }

  /** A run in which nothing is broken off keeps the invariant. */
  lemma {:induction false} TidyHolds(m: Machine, inputs: seq<Input>)
    requires Tidy(m) && forall i :: 0 <= i < |inputs| ==> !BreaksOff(Run(m, inputs[..i]).0, inputs[i])
    ensures Tidy(Run(m, inputs).0)
  {
    hide Next, Tidy, BreaksOff;
    if inputs != [] {
      var n := |inputs| - 1;
      forall i | 0 <= i < n
        ensures !BreaksOff(Run(m, inputs[..n][..i]).0, inputs[..n][i])
      {
        assert inputs[..n][..i] == inputs[..i];
      }
      TidyHolds(m, inputs[..n]);
      TidyStep(Run(m, inputs[..n]).0, inputs[n]);
    }
  }

  lemma BreakLeavesRest(m: Machine, inputs: seq<Input>, i: nat)
    requires i < |inputs| && Tidy(Run(m, inputs[..i]).0) && BreaksOff(Run(m, inputs[..i]).0, inputs[i])
    ensures Run(m, inputs[..i + 1]).0.state == WaitForFrame && !Clean(Run(m, inputs[..i + 1]).0)
  {
    hide Next, Tidy, BreaksOff, Clean;
    assert inputs[..i + 1][..i] == inputs[..i];
    TidyStep(Run(m, inputs[..i]).0, inputs[i]);
  }

  lemma {:induction false} FirstBreak(m: Machine, inputs: seq<Input>, n: nat) returns (i: nat)
    requires n <= |inputs| && exists k :: 0 <= k < n && BreaksOff(Run(m, inputs[..k]).0, inputs[k])
    ensures i < n && BreaksOff(Run(m, inputs[..i]).0, inputs[i])
    ensures forall k :: 0 <= k < i ==> !BreaksOff(Run(m, inputs[..k]).0, inputs[k])
  {
    hide Run, BreaksOff;
    if k :| 0 <= k < n - 1 && BreaksOff(Run(m, inputs[..k]).0, inputs[k]) {
      i := FirstBreak(m, inputs, n - 1);
    } else {
      i := n - 1;
    }
  }

  lemma TidyUpTo(m: Machine, inputs: seq<Input>, i: nat)
    requires i <= |inputs| && Tidy(m) && forall k :: 0 <= k < i ==> !BreaksOff(Run(m, inputs[..k]).0, inputs[k])
    ensures Tidy(Run(m, inputs[..i]).0)
  {
    hide Run, Tidy, BreaksOff;
    forall k | 0 <= k < i
      ensures !BreaksOff(Run(m, inputs[..i][..k]).0, inputs[..i][k])
    {
      assert inputs[..i][..k] == inputs[..k];
    }
    TidyHolds(m, inputs[..i]);
  }

  /** A run from a clean wait is clean whenever it waits for the head-end, exactly if none of its rounds
      breaks a reply in segments off. */
  lemma WaitsClean(m: Machine, inputs: seq<Input>)
    requires m.state == WaitForFrame && Clean(m)
    ensures (forall i :: 0 <= i <= |inputs| && Run(m, inputs[..i]).0.state == WaitForFrame ==> Clean(Run(m, inputs[..i]).0))
            <==> forall i :: 0 <= i < |inputs| ==> !BreaksOff(Run(m, inputs[..i]).0, inputs[i])
  {
    hide Run, BreaksOff;
    assert Tidy(m);
    if k :| 0 <= k < |inputs| && BreaksOff(Run(m, inputs[..k]).0, inputs[k]) {
      var i := FirstBreak(m, inputs, |inputs|);
      TidyUpTo(m, inputs, i);
      BreakLeavesRest(m, inputs, i);
    } else {
      forall i | 0 <= i <= |inputs| && Run(m, inputs[..i]).0.state == WaitForFrame
        ensures Clean(Run(m, inputs[..i]).0)
      {
        TidyUpTo(m, inputs, i);
      }
    }
  }

  /** What the events say of it: without a time-out and without a refused frame nothing is broken off. */
  lemma UndisturbedWaitsClean(m: Machine, inputs: seq<Input>)
    requires m.state == WaitForFrame && Clean(m)
    requires forall e :: e in Run(m, inputs).1 ==> !e.TimedOut? && (e.Translated? ==> e.accepted)
    ensures Run(m, inputs).0.state == WaitForFrame ==> Clean(Run(m, inputs).0)
  {
    hide Run, BreaksOff, Clean;
    forall i | 0 <= i < |inputs|
      ensures !BreaksOff(Run(m, inputs[..i]).0, inputs[i])
    {
      RunPrefix(m, inputs, i);
      assert Run(m, inputs).1[i] in Run(m, inputs).1;
      BreakIsSeen(Run(m, inputs[..i]).0, inputs[i]);
    }
    WaitsClean(m, inputs);
    assert inputs[..|inputs|] == inputs;
  }

  lemma BreakIsSeen(m: Machine, input: Input)
    ensures BreaksOff(m, input) ==> Next(m, input).1.TimedOut? || (Next(m, input).1.Translated? && !Next(m, input).1.accepted)
  {
    hide F.Snrm, F.Information, F.ReceiveReady, F.Disc, R.Translate, Overwritten, R.StartsFrame, R.IsSegmented, R.Accepts;
    R.AcceptedAnyway(m.rx, m.segment, m.collected);
  }

  // ---------- rounds in which something happens ----------

  /** The state waits, and finds nothing. */
  predicate Waits(s: State, input: Input) { IdleRound(s, input) || (s == WaitForFrame && input.headEnd == []) }

  /** What a state looks at. */
  function Looked(s: State, input: Input): Input {
    if s == WaitForFrame then Input(input.headEnd, [], false)
    else if Awaiting(s) then Input([], input.meter, input.meter == [] && input.timeout)
    else QUIET
  }

  /** The rounds of a run in which something happens, each with what its state looks at. */
  function Heeded(m: Machine, inputs: seq<Input>): seq<Input> {
    if inputs == [] then []
    else
      var n := |inputs| - 1;
      var s := Run(m, inputs[..n]).0.state;
      Heeded(m, inputs[..n]) + if Waits(s, inputs[n]) then [] else [Looked(s, inputs[n])]
  }

  /** The events of a log without the rounds that had none. */
  function Said(log: seq<Event>): seq<Event> {
    if log == [] then []
    else
      var n := |log| - 1;
      Said(log[..n]) + if log[n].Idle? then [] else [log[n]]
  }

  lemma LookedSuffices(m: Machine, input: Input)
    ensures Next(m, Looked(m.state, input)) == Next(m, input)
    ensures Waits(m.state, input) ==> Next(m, input) == (m, Idle)
  {
    hide F.FrameType, F.Snrm, F.Information, F.ReceiveReady, F.Disc, R.Translate, Overwritten;
  }

  lemma SaidNext(log: seq<Event>, e: Event)
    ensures Said(log + [e]) == Said(log) + if e.Idle? then [] else [e]
  {
    assert (log + [e])[..|log|] == log;
  }

  lemma RunNext(m: Machine, inputs: seq<Input>, input: Input)
    ensures var before := Run(m, inputs);
            Run(m, inputs + [input]) == (Next(before.0, input).0, before.1 + [Next(before.0, input).1])
  {
    hide Next;
    assert (inputs + [input])[..|inputs|] == inputs;
  }

  /** Idle rounds anywhere, frames that come while no state looks for them, and time-outs that come with
      a frame change neither the state nor the events. */
  lemma {:induction false} HeededSuffices(m: Machine, inputs: seq<Input>)
    ensures Run(m, Heeded(m, inputs)).0 == Run(m, inputs).0
    ensures Said(Run(m, Heeded(m, inputs)).1) == Said(Run(m, inputs).1)
  {
    hide Next, Run, Said, Waits, Looked;
    if inputs == [] {
    } else {
      var n := |inputs| - 1;
      var before, heeded := Run(m, inputs[..n]), Heeded(m, inputs[..n]);
      HeededSuffices(m, inputs[..n]);
      LookedSuffices(before.0, inputs[n]);
      assert inputs == inputs[..n] + [inputs[n]];
      RunNext(m, inputs[..n], inputs[n]);
      SaidNext(before.1, Next(before.0, inputs[n]).1);
      if Waits(before.0.state, inputs[n]) {
        assert Heeded(m, inputs) == heeded + [] == heeded;
      } else {
        RunNext(m, heeded, Looked(before.0.state, inputs[n]));
        SaidNext(Run(m, heeded).1, Next(before.0, inputs[n]).1);
      }
    }
  }
}
