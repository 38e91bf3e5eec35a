/** Whole transactions of the gateway, whatever the timing: a request, what the meter sends, and the answer
    that the head-end gets. */
module GatewayTransactions {
  import opened Bytes
  import opened Hdlc
  import opened GatewayMachine
  import opened GatewayRuns
  import F = GatewayFrames
  import R = MeterReply

  // ---------- what the meter sends ----------

  /** A frame of the meter and what it carries, or one that the converter refuses; and the meter's answer
      to the DISC frame that follows if the association is being released. */
  datatype Sending = Good(f: seq<Byte>, x: Frame, ua: seq<Byte>) | Bad(f: seq<Byte>, ua: seq<Byte>)

  /** The rounds from hearing a frame to translating it, over the disconnection for an RLRQ. */
  function FrameRounds(rlrq: bool, s: Sending): seq<Input> {
    if rlrq then [Input([], s.f, false), QUIET, Input([], s.ua, false), QUIET] else [Input([], s.f, false), QUIET]
  }

  /** The rounds in which the frames come one after the other, each translated, all but the last followed
      by a receive-ready frame. */
  function Conversation(rlrq: bool, fs: seq<Sending>): seq<Input> {
    if fs == [] then []
    else FrameRounds(rlrq, fs[0]) + (if |fs| == 1 then [] else [QUIET] + Conversation(rlrq, fs[1..]))
  }

  function PartOf(rx: seq<Byte>, s: Sending): R.Part {
    match s case Good(f, x, _) => R.Read(rx, f, x) case Bad(_, _) => R.Refused(rx)
  }

  /** The frames as the buffer holds them when each is translated. */
  function Parts(rx: seq<Byte>, fs: seq<Sending>): (parts: seq<R.Part>)
    ensures |parts| == |fs|
    ensures forall i :: 0 <= i < |fs| ==> parts[i] == PartOf(parts[i].rx, fs[i]) && fs[i].f <= parts[i].rx
    decreases |fs|
  {
    if fs == [] then []
    else
      var rx1 := Overwritten(rx, fs[0].f);
      [PartOf(rx1, fs[0])] + Parts(rx1, fs[1..])
  }

  predicate NoneEmpty(fs: seq<Sending>) { forall i :: 0 <= i < |fs| ==> fs[i].f != [] && fs[i].ua != [] }

  /** Replies of which all but the last announce another; any of them may be refused but the last. */
  ghost predicate AreReplies(rx: seq<Byte>, fs: seq<Sending>) {
    fs != [] && fs[|fs| - 1].Good? && NoneEmpty(fs) && R.AreSegments(Parts(rx, fs))
  }

  // ---------- one frame ----------

  /** The frame is heard, then translated. */
  lemma HearAndTranslate(m: Machine, f: seq<Byte>) returns (r: (Machine, seq<Event>))
    requires m.state == Response && !m.rlrq && f != []
    ensures r == Run(m, [Input([], f, false), QUIET]) && |r.1| == 2
    ensures var t := R.Translate(Overwritten(m.rx, f), m.segment, m.collected);
            r.0 == AfterTranslation(m.(rx := Overwritten(m.rx, f), state := ResponseForHeadEnd), t)
            && r.1[1] == Translated(t.accepted, t.reply)
  {
    hide R.Translate, Overwritten, AfterTranslation;
    var heard := Input([], f, false);
    OneRound(m, heard);
    var m1 := m.(rx := Overwritten(m.rx, f), state := ResponseForHeadEnd);
    assert Next(m, heard) == (m1, Heard(f));
    OneRound(m1, QUIET);
    RunAppend(m, [heard], [QUIET]);
    assert [heard] + [QUIET] == [heard, QUIET];
    r := Run(m, [heard, QUIET]);
  }

  /** The frame is heard, the meter disconnected, its answer heard, and only then the frame translated. */
  lemma ReleaseAndTranslate(m: Machine, f: seq<Byte>, ua: seq<Byte>) returns (r: (Machine, seq<Event>))
    requires m.state == Response && m.rlrq && F.HasAddress(m.request) && f != [] && ua != []
    ensures r == Run(m, [Input([], f, false), QUIET, Input([], ua, false), QUIET]) && |r.1| == 4
    ensures var t := R.Translate(Overwritten(m.rx, f), m.segment, m.collected);
            r.0 == AfterTranslation(m.(rx := Overwritten(m.rx, f), state := ResponseForHeadEnd), t)
            && r.1[3] == Translated(t.accepted, t.reply)
  {
    hide R.Translate, Overwritten, AfterTranslation, F.HasAddress, F.ShortFrame, F.Logical, F.Physical, F.AddressBytes;
    var first, third := Input([], f, false), Input([], ua, false);
    var m1 := m.(rx := Overwritten(m.rx, f), state := DiscRequest);
    var m2 := m1.(state := DiscResponse);
    var m3 := m2.(state := ResponseForHeadEnd);
    assert Next(m, first).0 == m1 && Next(m1, QUIET).0 == m2 && Next(m2, third).0 == m3;
    FourRounds(m, m1, m2, m3, [first, QUIET, third, QUIET]);
    r := Run(m, [first, QUIET, third, QUIET]);
  }

  lemma FrameRead(m: Machine, s: Sending) returns (r: (Machine, seq<Event>))
    requires m.state == Response && F.HasAddress(m.request) && s.f != [] && s.ua != []
    ensures r == Run(m, FrameRounds(m.rlrq, s)) && r.1 != []
    ensures var t := R.Translate(Overwritten(m.rx, s.f), m.segment, m.collected);
            r.0 == AfterTranslation(m.(rx := Overwritten(m.rx, s.f), state := ResponseForHeadEnd), t)
            && r.1[|r.1| - 1] == Translated(t.accepted, t.reply)
  {
    hide Run, R.Translate, Overwritten, AfterTranslation, F.HasAddress;
    if m.rlrq { r := ReleaseAndTranslate(m, s.f, s.ua); } else { r := HearAndTranslate(m, s.f); }
  }

  /** A frame that announces another is read and answered by a poll. */
  lemma SegmentRounds(m: Machine, s: Sending) returns (m3: Machine)
    requires m.state == Response && F.HasAddress(m.request) && s.f != [] && s.ua != []
    requires R.StartsFrame(Overwritten(m.rx, s.f)) && R.IsSegmented(Overwritten(m.rx, s.f))
    ensures m3 == Run(m, FrameRounds(m.rlrq, s) + [QUIET]).0
    ensures var t := R.Translate(Overwritten(m.rx, s.f), m.segment, m.collected);
            && m3.state == Response && m3.rlrq == m.rlrq && m3.request == m.request && m3.rx == Overwritten(m.rx, s.f)
            && m3.segment == t.segment && m3.collected == t.collected
  {
    hide Next, Run, R.Translate, Overwritten, F.HasAddress, AfterTranslation, R.StartsFrame, R.IsSegmented, FrameRounds;
    var r := FrameRead(m, s);
    PartTranslated(m, Overwritten(m.rx, s.f));
    ReadySent(r.0);
    OneRound(r.0, QUIET);
    RunAppend(m, FrameRounds(m.rlrq, s), [QUIET]);
    m3 := Next(r.0, QUIET).0;
  }

  // ---------- a whole reply ----------

  /** A reply in any number of frames whose rounds follow each other: the last event is the last call of
      the converter. */
  lemma {:induction false} ConversationRuns(m: Machine, fs: seq<Sending>)
    requires m.state == Response && F.HasAddress(m.request) && NoneEmpty(fs) && R.Follow(Parts(m.rx, fs))
    ensures var (last, log) := Run(m, Conversation(m.rlrq, fs));
            var t := R.Assemble(Parts(m.rx, fs), m.segment, m.collected);
            && log != [] && log[|log| - 1] == Translated(t.accepted, t.reply)
            && last.state == WaitForFrame && last.segment == t.segment && last.collected == t.collected
    decreases |fs|
  {
    hide Next, Run, R.Translate, Overwritten, F.HasAddress, AfterTranslation, R.StartsFrame, R.IsSegmented, FrameRounds;
    var rx1 := Overwritten(m.rx, fs[0].f);
    assert Parts(m.rx, fs)[0].rx == rx1;
    if |fs| == 1 {
      var r := FrameRead(m, fs[0]);
      PartTranslated(m, rx1);
      assert Conversation(m.rlrq, fs) == FrameRounds(m.rlrq, fs[0]) + [] == FrameRounds(m.rlrq, fs[0]);
    } else {
      var head, tail := FrameRounds(m.rlrq, fs[0]) + [QUIET], fs[1..];
      var m3 := SegmentRounds(m, fs[0]);
      ConversationStep(m.rlrq, fs);
      RunAppend(m, head, Conversation(m.rlrq, tail));
      TailFollows(Parts(m.rx, fs));
      assert Parts(m.rx, fs)[1..] == Parts(rx1, tail);
      ConversationRuns(m3, tail);
    }
  }

  lemma ConversationStep(rlrq: bool, fs: seq<Sending>)
    requires |fs| >= 2
    ensures Conversation(rlrq, fs) == FrameRounds(rlrq, fs[0]) + [QUIET] + Conversation(rlrq, fs[1..])
  {
    hide FrameRounds;
  }

  lemma TailFollows(parts: seq<R.Part>)
    requires R.Follow(parts) && |parts| >= 2
    ensures R.Follow(parts[1..])
  {
    hide R.StartsFrame, R.IsSegmented;
    assert forall i :: 0 <= i < |parts| - 1 ==> parts[1..][i] == parts[i + 1];
  }

  /** What translating a frame makes of the machine. */
  lemma PartTranslated(m: Machine, rx: seq<Byte>)
    requires R.StartsFrame(rx)
    ensures var t := R.Translate(rx, m.segment, m.collected);
            var next := AfterTranslation(m.(rx := rx, state := ResponseForHeadEnd), t);
            && next.segment == t.segment && next.collected == t.collected && next.rx == rx && next.request == m.request
            && next.rlrq == m.rlrq && next.state == if R.IsSegmented(rx) then Segment else WaitForFrame
  {
    hide R.Translate, R.StartsFrame, R.IsSegmented;
    R.TranslateKeeps(rx, m.segment, m.collected);
  }

  /** The last event that is one. */
  predicate EndsWith(log: seq<Event>, e: Event) { Said(log) != [] && Said(log)[|Said(log)| - 1] == e }

  lemma LastIsSaid(log: seq<Event>, e: Event)
    requires log != [] && log[|log| - 1] == e && !e.Idle?
    ensures EndsWith(log, e)
  {
  }

  /** A reply in any number of frames, from the state in which the first is awaited, whatever the timing:
      the last event is the last call of the converter. */
  lemma ReplyPhase(m: Machine, fs: seq<Sending>, inputs: seq<Input>)
    requires m.state == Response && F.HasAddress(m.request) && NoneEmpty(fs) && R.Follow(Parts(m.rx, fs))
    requires Heeded(m, inputs) == Conversation(m.rlrq, fs)
    ensures var (last, log) := Run(m, inputs);
            var t := R.Assemble(Parts(m.rx, fs), m.segment, m.collected);
            && EndsWith(log, Translated(t.accepted, t.reply))
            && last.state == WaitForFrame && last.segment == t.segment && last.collected == t.collected
  {
    hide Run, R.Assemble, Parts, Conversation, Heeded, R.Follow, NoneEmpty;
    HeededSuffices(m, inputs);
    ConversationRuns(m, fs);
    var log := Run(m, Conversation(m.rlrq, fs)).1;
    LastIsSaid(log, log[|log| - 1]);
  }

  lemma ReadySent(m: Machine)
    requires m.state == Segment && F.HasAddress(m.request)
    ensures Next(m, QUIET).0 == m.(state := Response)
    ensures Next(m, QUIET).1 == Sent(ReceiveReady, F.ReadyControl(m.rrr), F.ReceiveReady(m.request, F.ReadyControl(m.rrr)).frame)
  {
  }

  /** The information of the accepted frames in order, each without its first three bytes. */
  function Payload(fs: seq<Sending>): seq<Byte> { R.Bodies(Parts([], fs)) }

  lemma {:induction false} PayloadOfParts(rx: seq<Byte>, other: seq<Byte>, fs: seq<Sending>)
    ensures R.Bodies(Parts(rx, fs)) == R.Bodies(Parts(other, fs))
    decreases |fs|
  {
    hide Overwritten, R.Body;
    if fs != [] {
      var rx1, other1 := Overwritten(rx, fs[0].f), Overwritten(other, fs[0].f);
      PayloadOfParts(rx1, other1, fs[1..]);
      assert Parts(rx, fs)[1..] == Parts(rx1, fs[1..]) && Parts(other, fs)[1..] == Parts(other1, fs[1..]);
    }
  }

  // ---------- a whole transaction ----------

  predicate IsRlrq(d: seq<Byte>) { F.Begins(d, 0x62) }

  /** The rounds from taking a request to sending its information frame, over the SNRM exchange for an AARQ. */
  function Opening(d: seq<Byte>, ua: seq<Byte>): seq<Input> {
    if F.Begins(d, 0x60) then [Input(d, [], false), QUIET, Input([], ua, false), QUIET] else [Input(d, [], false), QUIET]
  }

  /** The rounds of a request and of the conversation that follows. */
  function Transaction(d: seq<Byte>, ua: seq<Byte>, fs: seq<Sending>): seq<Input> { Opening(d, ua) + Conversation(IsRlrq(d), fs) }

  /** The machine after the information frame was sent. */
  lemma TransactionStarts(m: Machine, d: seq<Byte>, ua: seq<Byte>) returns (m4: Machine)
    requires m.state == WaitForFrame && d != [] && ua != [] && F.HasAddress(d) && F.Logical(d) <= 16383
    ensures m4 == Run(m, Opening(d, ua)).0
    ensures m4 == m.(request := d, rlrq := IsRlrq(d), rrr := m4.rrr, sss := m4.sss, state := Response)
  {
    hide F.FrameType, F.HasAddress, F.Logical, F.ServerAddress, F.InformationFrame, F.ShortFrame, F.InformationControl, F.AddressBytes;
    hide F.Apdu;
    F.FrameTypeBegins(d);
    if F.Begins(d, 0x60) {
      m4 := AssociationStarts(m, d, ua);
    } else {
      var first := Input(d, [], false);
      var m1 := m.(request := d, rlrq := IsRlrq(d), state := InformationFrame);
      m4 := m1.(state := Response, sss := Bumped(m.sss));
      assert Next(m, first).0 == m1 && Next(m1, QUIET).0 == m4;
      OneRound(m, first);
      OneRound(m1, QUIET);
      RunAppend(m, [first], [QUIET]);
      assert [first] + [QUIET] == [first, QUIET];
    }
  }

  lemma AssociationStarts(m: Machine, d: seq<Byte>, ua: seq<Byte>) returns (m4: Machine)
    requires m.state == WaitForFrame && d != [] && ua != [] && F.Begins(d, 0x60) && F.HasAddress(d) && F.Logical(d) <= 16383
    ensures m4 == Run(m, Opening(d, ua)).0
    ensures m4 == m.(request := d, rlrq := false, rrr := 0, sss := 1, state := Response)
  {
    hide F.FrameType, F.HasAddress, F.Logical, F.ServerAddress, F.InformationFrame, F.ShortFrame, F.InformationControl, F.AddressBytes;
    hide F.Apdu;
    F.FrameTypeBegins(d);
    var first, third := Input(d, [], false), Input([], ua, false);
    var m1 := m.(request := d, rlrq := false, state := SnrmRequest);
    var m2 := m1.(state := SnrmResponse, rrr := 0, sss := 0);
    var m3 := m2.(state := InformationFrame);
    m4 := m3.(state := Response, sss := 1);
    assert Next(m, first).0 == m1 && Next(m1, QUIET).0 == m2 && Next(m2, third).0 == m3 && Next(m3, QUIET).0 == m4;
    FourRounds(m, m1, m2, m3, [first, QUIET, third, QUIET]);
  }

  /** Four rounds by the states between them. */
  lemma FourRounds(m: Machine, m1: Machine, m2: Machine, m3: Machine, inputs: seq<Input>)
    requires |inputs| == 4 && Next(m, inputs[0]).0 == m1 && Next(m1, inputs[1]).0 == m2 && Next(m2, inputs[2]).0 == m3
    ensures Run(m, inputs).0 == Next(m3, inputs[3]).0 && Run(m, inputs).1[3] == Next(m3, inputs[3]).1
  {
    hide Next;
    OneRound(m, inputs[0]);
    RunNext(m, [inputs[0]], inputs[1]);
    RunNext(m, [inputs[0]] + [inputs[1]], inputs[2]);
    RunNext(m, [inputs[0]] + [inputs[1]] + [inputs[2]], inputs[3]);
    assert inputs == [inputs[0]] + [inputs[1]] + [inputs[2]] + [inputs[3]];
  }

  /** A reply that begins and ends in one frame. */
  predicate InOneFrame(segment: R.Segment, fs: seq<Sending>) { |fs| == 1 && segment != R.Middle }

  /** What an answer will hold: the bodies, behind whatever an earlier transaction left behind. */
  function Answered(segment: R.Segment, collected: seq<Byte>, fs: seq<Sending>): seq<Byte> {
    if InOneFrame(segment, fs) then Payload(fs) else collected + Payload(fs)
  }

  /** The last call of the converter on a reply of any number of frames: in one frame it is a complete
      answer, otherwise a complete answer but for its last three bytes. */
  lemma RepliesAssembled(rx: seq<Byte>, fs: seq<Sending>, segment: R.Segment, collected: seq<Byte>) returns (g: seq<Byte>)
    requires AreReplies(rx, fs) && |collected| + |Payload(fs)| < 65000
    requires InOneFrame(segment, fs) ==> |fs[0].x.information| >= 3
    ensures var t, last := R.Assemble(Parts(rx, fs), segment, collected), fs[|fs| - 1].x;
            && last.destination != [] && (|last.source| == 2 || |last.source| == 4)
            && t.accepted && t.segment != R.Middle && t.collected == []
            && R.IsAnswer(g, F.UpperOf(last.source), last.destination[|last.destination| - 1] / 2, F.LowerOf(last.source),
                          Answered(segment, collected, fs))
            && |g| >= 3 && t.reply == R.Reply(if InOneFrame(segment, fs) then g else g[..|g| - 3])
  {
    hide CarriesHeader, R.Translate, R.IsAnswer, F.UpperOf, F.LowerOf, R.WholeAnswer, R.DeclaredLength, R.Bodies, R.IsPart;
    hide R.StartsFrame, R.IsSegmented, Overwritten, AreReplies, R.AreSegments, Parts;
    var parts := Parts(rx, fs);
    PayloadOfParts(rx, [], fs);
    RepliesAreSegments(rx, fs);
    if InOneFrame(segment, fs) {
      OneSegment(parts);
      g := OneFrameAssembled(parts[0], segment, collected);
      BodyOfOne(parts);
    } else {
      R.SegmentsAnswered(parts, segment, collected);
      g := R.WholeAnswer(fs[|fs| - 1].x.source, fs[|fs| - 1].x.destination, collected + Payload(fs));
      AnswerSize(g, segment, parts, collected);
    }
  }

  lemma RepliesAreSegments(rx: seq<Byte>, fs: seq<Sending>)
    requires AreReplies(rx, fs)
    ensures R.AreSegments(Parts(rx, fs)) && fs[|fs| - 1].Good? && Parts(rx, fs)[|fs| - 1].Read? && Parts(rx, fs)[|fs| - 1].x == fs[|fs| - 1].x
  {
    hide R.AreSegments, NoneEmpty;
  }

  lemma OneSegment(parts: seq<R.Part>)
    requires R.AreSegments(parts) && |parts| == 1
    ensures R.IsPart(parts[0]) && R.StartsFrame(parts[0].rx) && !R.IsSegmented(parts[0].rx)
  {
    hide R.IsPart, R.StartsFrame, R.IsSegmented;
  }

  lemma OneFrameAssembled(p: R.Part, segment: R.Segment, collected: seq<Byte>) returns (g: seq<Byte>)
    requires R.IsPart(p) && p.Read? && R.StartsFrame(p.rx) && !R.IsSegmented(p.rx) && segment != R.Middle && |p.x.information| >= 3
    ensures var t := R.Translate(p.rx, segment, collected);
            && p.x.destination != [] && (|p.x.source| == 2 || |p.x.source| == 4)
            && t.accepted && t.segment != R.Middle && t.collected == [] && t.reply == R.Reply(g) && |g| >= 3
            && R.IsAnswer(g, F.UpperOf(p.x.source), p.x.destination[|p.x.destination| - 1] / 2, F.LowerOf(p.x.source), R.Body(p.x))
  {
    hide CarriesHeader, R.Translate;
    R.PlacesFound(p.rx, p.f, p.x);
    R.SingleReplyAnswered(p.rx, p.f, p.x, segment, collected);
    g := R.Translate(p.rx, segment, collected).reply.bytes;
  }

  lemma BodyOfOne(parts: seq<R.Part>)
    requires |parts| == 1 && parts[0].Read?
    ensures R.Bodies(parts) == R.Body(parts[0].x)
  {
    assert parts[1..] == [] && R.Body(parts[0].x) + [] == R.Body(parts[0].x);
  }

  lemma AnswerSize(g: seq<Byte>, segment: R.Segment, parts: seq<R.Part>, collected: seq<Byte>)
    requires R.AreSegments(parts) && (|parts[|parts| - 1].x.source| == 2 || |parts[|parts| - 1].x.source| == 4)
    requires parts[|parts| - 1].x.destination != []
    requires g == R.WholeAnswer(parts[|parts| - 1].x.source, parts[|parts| - 1].x.destination, collected + R.Bodies(parts))
    ensures |g| >= 3
  {
    hide R.Bodies, R.AreSegments, F.UpperOf, F.LowerOf;
  }

  /** A request with addresses that fit. */
  predicate IsAddressed(d: seq<Byte>) {
    && d != [] && F.HasAddress(d) && F.Client(d) < 128
    && F.Logical(d) < F.Capacity(F.AddLen(d) == 2) && F.Physical(d) < F.Capacity(F.AddLen(d) == 2)
  }

  /** The last frame comes from the server of the request and is for its client.  A reply in one frame has
      the three bytes that are cut off. */
  predicate AnswersTo(d: seq<Byte>, segment: R.Segment, fs: seq<Sending>) {
    fs != [] && fs[|fs| - 1].Good?
    && fs[|fs| - 1].x.destination == [F.ClientByte(F.Client(d))] && fs[|fs| - 1].x.source == F.ServerAddress(d)
    && (InOneFrame(segment, fs) ==> |fs[0].x.information| >= 3)
  }

  /** The machine is clean, and its last event is the complete answer `g` to the request, or that without
      its last three bytes. */
  ghost predicate HasAnswered(r: (Machine, seq<Event>), d: seq<Byte>, apdu: seq<Byte>, g: seq<Byte>, whole: bool) {
    && r.0.state == WaitForFrame && Clean(r.0) && R.IsAnswer(g, F.Logical(d), F.Client(d), F.Physical(d), apdu) && |g| >= 3
    && EndsWith(r.1, Translated(true, R.Reply(if whole then g else g[..|g| - 3])))
  }

  lemma {:induction false} TransactionRuns(m: Machine, d: seq<Byte>, ua: seq<Byte>, fs: seq<Sending>) returns (g: seq<Byte>)
    requires m.state == WaitForFrame && |m.collected| + |Payload(fs)| < 65000
    requires IsAddressed(d) && ua != [] && AreReplies(m.rx, fs) && AnswersTo(d, m.segment, fs)
    ensures HasAnswered(Run(m, Transaction(d, ua, fs)), d, Answered(m.segment, m.collected, fs), g, InOneFrame(m.segment, fs))
  {
    hide Next, Run, CarriesHeader, R.AreSegments, R.Assemble, R.IsAnswer, Payload, Conversation, Parts, F.ServerAddress, F.FrameType, F.Begins;
    hide F.HasAddress, F.UpperOf, F.LowerOf, F.ClientByte, F.Logical, F.Physical, F.Client, F.Capacity, Answered, InOneFrame, EndsWith, Opening;
    var head := Opening(d, ua);
    AddressesReturn(d);
    var m4 := TransactionStarts(m, d, ua);
    RepliesFollow(m4.rx, fs);
    ConversationRuns(m4, fs);
    g := RepliesAssembled(m4.rx, fs, m.segment, m.collected);
    RunAppend(m, head, Conversation(m4.rlrq, fs));
    var log := Run(m, head + Conversation(m4.rlrq, fs)).1;
    LastIsSaid(log, log[|log| - 1]);
  }

  lemma RepliesFollow(rx: seq<Byte>, fs: seq<Sending>)
    requires AreReplies(rx, fs)
    ensures R.Follow(Parts(rx, fs)) && NoneEmpty(fs)
  {
    hide R.Follow, R.IsPart, Parts;
  }

  /** A request that the meter answers, in any number of frames and whatever the timing, reaches the
      head-end as one answer with the request's own addresses: an AARQ over the SNRM exchange, an RLRQ
      over the disconnection behind each frame, any other request directly.  From a clean start it holds the
      frames' bodies in order; otherwise they stand behind what a transaction left that was broken off.
      Only a reply in one frame keeps its last three bytes.  The machine is clean afterwards. */
  lemma TransactionAnswered(m: Machine, d: seq<Byte>, ua: seq<Byte>, fs: seq<Sending>, inputs: seq<Input>) returns (g: seq<Byte>)
    requires m.state == WaitForFrame && |m.collected| + |Payload(fs)| < 65000
    requires IsAddressed(d) && ua != [] && AreReplies(m.rx, fs) && AnswersTo(d, m.segment, fs)
    requires Heeded(m, inputs) == Transaction(d, ua, fs)
    ensures HasAnswered(Run(m, inputs), d, Answered(m.segment, m.collected, fs), g, InOneFrame(m.segment, fs))
  {
    hide Run, AreReplies, R.IsAnswer, Payload, Transaction, Answered, InOneFrame, IsAddressed, Heeded;
    HeededSuffices(m, inputs);
    g := TransactionRuns(m, d, ua, fs);
  }

  // ---------- a reply that is broken off ----------

  /** The rounds in which frames come one after the other that each announce another, until the time is up. */
  function BrokenOff(rlrq: bool, fs: seq<Sending>): seq<Input> {
    if fs == [] then [Input([], [], true)] else FrameRounds(rlrq, fs[0]) + [QUIET] + BrokenOff(rlrq, fs[1..])
  }

  /** Frames of which every one announces another. */
  ghost predicate AreHeads(rx: seq<Byte>, fs: seq<Sending>) {
    && NoneEmpty(fs)
    && forall i :: 0 <= i < |fs| ==> var p := Parts(rx, fs)[i]; R.StartsFrame(p.rx) && R.IsSegmented(p.rx) && R.IsPart(p)
  }

  /** The buffer after the frames. */
  function BufferAfter(rx: seq<Byte>, fs: seq<Sending>): seq<Byte>
    decreases |fs|
  {
    if fs == [] then rx else BufferAfter(Overwritten(rx, fs[0].f), fs[1..])
  }

  lemma TailAreHeads(rx: seq<Byte>, fs: seq<Sending>)
    requires fs != [] && AreHeads(rx, fs)
    ensures AreHeads(Overwritten(rx, fs[0].f), fs[1..])
    ensures var p := PartOf(Overwritten(rx, fs[0].f), fs[0]);
            fs[0].f != [] && fs[0].ua != [] && R.StartsFrame(p.rx) && R.IsSegmented(p.rx) && R.IsPart(p)
  {
    hide R.StartsFrame, R.IsSegmented, R.IsPart, Overwritten;
    var rx1 := Overwritten(rx, fs[0].f);
    assert Parts(rx, fs)[0] == PartOf(rx1, fs[0]);
    assert Parts(rx, fs)[1..] == Parts(rx1, fs[1..]);
    assert forall i :: 0 <= i < |fs| - 1 ==> Parts(rx1, fs[1..])[i] == Parts(rx, fs)[i + 1];
  }

  /** A reply that is broken off leaves the bodies of its frames and the segment bit behind. */
  lemma {:induction false} BrokenOffRuns(m: Machine, fs: seq<Sending>)
    requires m.state == Response && F.HasAddress(m.request) && AreHeads(m.rx, fs)
    ensures var last := Run(m, BrokenOff(m.rlrq, fs)).0;
            && last.state == WaitForFrame && last.segment == (if fs == [] then m.segment else R.Middle)
            && last.collected == m.collected + Payload(fs) && last.rx == BufferAfter(m.rx, fs)
    decreases |fs|
  {
    hide Next, Run, R.Translate, Overwritten, F.HasAddress, AreHeads, R.StartsFrame, R.IsSegmented, R.IsPart, R.BodyOf, Payload, FrameRounds;
    if fs == [] {
      TimeOut(m);
      OneRound(m, Input([], [], true));
      NoBodies(m.collected);
    } else {
      TailAreHeads(m.rx, fs);
      var p, rest := PartOf(Overwritten(m.rx, fs[0].f), fs[0]), BrokenOff(m.rlrq, fs[1..]);
      var m3 := SegmentRounds(m, fs[0]);
      R.MiddleCollects(p, m.segment, m.collected);
      BrokenOffRuns(m3, fs[1..]);
      RunAppend(m, FrameRounds(m.rlrq, fs[0]) + [QUIET], rest);
      BodiesStep(m.collected, p.rx, fs);
    }
  }

  lemma BodiesStep(collected: seq<Byte>, rx: seq<Byte>, fs: seq<Sending>)
    requires fs != []
    ensures collected + Payload(fs) == collected + R.BodyOf(PartOf(rx, fs[0])) + Payload(fs[1..])
  {
    hide R.Body, Overwritten;
    var rx1 := Overwritten([], fs[0].f);
    PayloadOfParts(rx1, [], fs[1..]);
    assert Parts([], fs)[1..] == Parts(rx1, fs[1..]);
  }

  lemma NoBodies(collected: seq<Byte>)
    ensures collected + Payload([]) == collected
  {
  }

  lemma TimeOut(m: Machine)
    requires m.state == Response
    ensures Next(m, Input([], [], true)).0 == m.(state := WaitForFrame)
  {
  }

  /** Segments of a reply, a time-out, and then a request that the meter answers, whatever the timing:
      the answer to that request begins with the bodies of the segments heard before, even if it came
      in one frame, and lacks its own last three bytes. */
  lemma OldBodiesComeFirst(m: Machine, olds: seq<Sending>, d: seq<Byte>, ua: seq<Byte>, fs: seq<Sending>, inputs: seq<Input>)
    returns (g: seq<Byte>)
    requires m.state == Response && F.HasAddress(m.request) && olds != [] && AreHeads(m.rx, olds)
    requires IsAddressed(d) && ua != [] && AreReplies(BufferAfter(m.rx, olds), fs) && AnswersTo(d, R.Middle, fs)
    requires |m.collected| + |Payload(olds)| + |Payload(fs)| < 65000
    requires Heeded(m, inputs) == BrokenOff(m.rlrq, olds) + Transaction(d, ua, fs)
    ensures HasAnswered(Run(m, inputs), d, m.collected + Payload(olds) + Payload(fs), g, false)
  {
    hide Run, AreReplies, AreHeads, R.IsAnswer, Payload, Transaction, BrokenOff, IsAddressed, Heeded, BufferAfter, F.HasAddress, Said, Clean;
    HeededSuffices(m, inputs);
    BrokenOffRuns(m, olds);
    RunAppend(m, BrokenOff(m.rlrq, olds), Transaction(d, ua, fs));
    var waiting := Run(m, BrokenOff(m.rlrq, olds));
    g := TransactionRuns(waiting.0, d, ua, fs);
    EndsWithAppend(waiting.1, Run(waiting.0, Transaction(d, ua, fs)).1, Translated(true, R.Reply(g[..|g| - 3])));
  }

  lemma {:induction false} SaidAppend(a: seq<Event>, b: seq<Event>)
    ensures Said(a + b) == Said(a) + Said(b)
  {
    if b == [] {
      assert a + b == a && Said(a) + [] == Said(a);
    } else {
      var n := |b| - 1;
      SaidAppend(a, b[..n]);
      assert a + b == a + b[..n] + [b[n]] && b == b[..n] + [b[n]];
      SaidNext(a + b[..n], b[n]);
      SaidNext(b[..n], b[n]);
    }
  }

  lemma EndsWithAppend(a: seq<Event>, b: seq<Event>, e: Event)
    requires EndsWith(b, e)
    ensures EndsWith(a + b, e)
  {
    hide Said;
    SaidAppend(a, b);
  }

  lemma ClientReturns(client: Byte)
    requires client < 128
    ensures F.ClientByte(client) / 2 == client
  {
  }

  /** What fits in an address comes back from it. */
  lemma AddressesReturn(d: seq<Byte>)
    requires F.Client(d) < 128
    requires F.Logical(d) < F.Capacity(F.AddLen(d) == 2) && F.Physical(d) < F.Capacity(F.AddLen(d) == 2)
    ensures F.UpperOf(F.ServerAddress(d)) == F.Logical(d) && F.LowerOf(F.ServerAddress(d)) == F.Physical(d)
    ensures F.ClientByte(F.Client(d)) / 2 == F.Client(d) && F.Logical(d) <= 16383
  {
    hide F.UpperOf, F.LowerOf, F.AddressBytes, F.Client, F.Logical, F.Physical, F.ClientByte;
    var capacity := F.Capacity(F.AddLen(d) == 2);
    F.AddressDecodes(F.AddLen(d) == 2, F.Logical(d), F.Physical(d));
    F.Fits(F.Logical(d), capacity);
    F.Fits(F.Physical(d), capacity);
    ClientReturns(F.Client(d));
  }
}
