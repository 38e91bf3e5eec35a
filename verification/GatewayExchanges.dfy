/** Which exchanges with the meter a request leads to, in every run: an AARQ is sent behind an SNRM, an RLRQ
    is answered behind a DISC, and no other request leads to either. */
module GatewayExchanges {
  import opened Bytes
  import opened GatewayMachine
  import opened GatewayRuns
  import F = GatewayFrames
  import R = MeterReply

  /** The request taken last; empty if none was. */
  function InWork(log: seq<Event>): seq<Byte> {
    if log == [] then []
    else
      var e := log[|log| - 1];
      if e.Taken? then e.request else InWork(log[..|log| - 1])
  }

  /** A frame of a kind was sent since a request was taken. */
  predicate SentSinceTaken(log: seq<Event>, kind: Kind) {
    log != [] && var e := log[|log| - 1]; !e.Taken? && ((e.Sent? && e.kind == kind) || SentSinceTaken(log[..|log| - 1], kind))
  }

  lemma WorkNext(log: seq<Event>, e: Event)
    ensures InWork(log + [e]) == if e.Taken? then e.request else InWork(log)
    ensures forall kind :: SentSinceTaken(log + [e], kind) <==> !e.Taken? && ((e.Sent? && e.kind == kind) || SentSinceTaken(log, kind))
  {
    assert (log + [e])[..|log|] == log;
  }

  /** The states before the information frame of an AARQ, and those of the disconnection. */
  predicate Connecting(s: State) { s == SnrmRequest || s == SnrmResponse }
  predicate Disconnecting(s: State) { s == DiscRequest || s == DiscResponse }

  /** The invariant: what was exchanged for the request in work, by the first byte of its APDU. */
  predicate Serving(m: Machine, log: seq<Event>) {
    var d := InWork(log);
    m.state != WaitForFrame && d != [] ==>
      && m.request == d && m.rlrq == F.Begins(d, 0x62)
      && (Contacted(m.state) ==> F.HasAddress(d))
      && (SentSinceTaken(log, Snrm) <==> F.Begins(d, 0x60) && m.state != SnrmRequest)
      && (Connecting(m.state) ==> F.Begins(d, 0x60))
      && (SentSinceTaken(log, Disc) || Disconnecting(m.state) ==> F.Begins(d, 0x62))
      && (F.Begins(d, 0x62) && (m.state == DiscResponse || m.state == ResponseForHeadEnd) ==> SentSinceTaken(log, Disc))
  }

  /** What an event says of the exchanges before it. */
  predicate Follows(e: Event, log: seq<Event>) {
    var d := InWork(log);
    && (e.Sent? && e.kind == Snrm ==> F.Begins(d, 0x60))
    && (e.Sent? && e.kind == Disc ==> F.Begins(d, 0x62))
    && (e.Sent? && e.kind == Information ==> (SentSinceTaken(log, Snrm) <==> F.Begins(d, 0x60)))
    && (e.Translated? ==> (SentSinceTaken(log, Snrm) <==> F.Begins(d, 0x60)) && (SentSinceTaken(log, Disc) <==> F.Begins(d, 0x62)))
  }

  lemma ServingStep(m: Machine, log: seq<Event>, input: Input)
    requires Serving(m, log)
    ensures var (next, e) := Next(m, input); Serving(next, log + [e]) && (InWork(log) != [] ==> Follows(e, log))
  {
    hide F.HasAddress, F.FrameType, F.ServerAddress, F.Logical, F.InformationFrame, F.ShortFrame, R.Translate, Overwritten;
    hide F.AddressBytes, F.InformationControl, F.ReadyControl, F.Apdu, InWork, SentSinceTaken;
    F.FrameTypeBegins(input.headEnd);
    var (next, e) := Next(m, input);
    WorkNext(log, e);
    R.TranslateKeeps(m.rx, m.segment, m.collected);
  }

  lemma {:induction false} ServingHolds(m: Machine, inputs: seq<Input>)
    ensures Serving(Run(m, inputs).0, Run(m, inputs).1)
  {
    hide Next, Serving, Follows;
    if inputs == [] {
      NothingServed(m);
    } else {
      var n := |inputs| - 1;
      ServingHolds(m, inputs[..n]);
      ServingStep(Run(m, inputs[..n]).0, Run(m, inputs[..n]).1, inputs[n]);
    }
  }

  lemma NothingServed(m: Machine)
    ensures Serving(m, [])
  {
  }

  /** The request taken at `t` is the last one. */
  predicate TakenLast(log: seq<Event>, t: nat) { t < |log| && log[t].Taken? && forall k :: t < k < |log| ==> !log[k].Taken? }

  /** A frame of a kind was sent after `t`. */
  predicate SentAfter(log: seq<Event>, t: nat, kind: Kind) { exists k :: t < k < |log| && log[k].Sent? && log[k].kind == kind }

  lemma {:induction false} SinceIsAfter(log: seq<Event>, t: nat, kind: Kind)
    requires TakenLast(log, t)
    ensures InWork(log) == log[t].request && (SentSinceTaken(log, kind) <==> SentAfter(log, t, kind))
    decreases |log|
  {
    var n := |log| - 1;
    if t < n {
      SinceIsAfter(log[..n], t, kind);
      assert SentAfter(log, t, kind) <==> (log[n].Sent? && log[n].kind == kind) || SentAfter(log[..n], t, kind);
    }
  }

  lemma TakenIsSomething(m: Machine, input: Input)
    ensures Next(m, input).1.Taken? ==> Next(m, input).1.request != []
  {
    hide F.Snrm, F.Information, F.ReceiveReady, F.Disc, R.Translate, Overwritten, F.FrameType;
  }

  /** In every run, of what is sent and translated between a request and the next: an SNRM is sent only for
      a request whose APDU begins with 0x60, a DISC only for one that begins with 0x62; before its
      information frame an SNRM was sent if and only if it begins with 0x60, and before its reply is
      translated a DISC was sent if and only if it begins with 0x62. */
  lemma Exchanges(m: Machine, inputs: seq<Input>, t: nat, i: nat)
    requires i < |inputs| && TakenLast(Run(m, inputs).1[..i], t)
    ensures var e, before := Run(m, inputs).1[i], Run(m, inputs).1[..i];
            var d := before[t].request;
            && (e.Sent? && e.kind == Snrm ==> F.Begins(d, 0x60))
            && (e.Sent? && e.kind == Disc ==> F.Begins(d, 0x62))
            && (e.Sent? && e.kind == Information ==> (SentAfter(before, t, Snrm) <==> F.Begins(d, 0x60)))
            && (e.Translated? ==> (SentAfter(before, t, Snrm) <==> F.Begins(d, 0x60)) && (SentAfter(before, t, Disc) <==> F.Begins(d, 0x62)))
  {
    hide Next, Run, Serving, F.Begins, SentAfter, InWork, SentSinceTaken;
    RunPrefix(m, inputs, i);
    RunPrefix(m, inputs, t);
    TakenIsSomething(Run(m, inputs[..t]).0, inputs[t]);
    ServingHolds(m, inputs[..i]);
    var before := Run(m, inputs[..i]);
    ServingStep(before.0, before.1, inputs[i]);
    SinceIsAfter(before.1, t, Snrm);
    SinceIsAfter(before.1, t, Disc);
  }
}
