/** The loop of GW_Run: one round of the state machine as a function of its state and its input, and the
    gateway with its buffers that carries it out. */
module GatewayMachine {
  import opened Bytes
  import F = GatewayFrames
  import R = MeterReply
  import Fcs16

  datatype State =
    | WaitForFrame | SnrmRequest | SnrmResponse | InformationFrame | Response | Segment
    | ResponseForHeadEnd | DiscRequest | DiscResponse

  /** The state of the loop: the request in work, whether it is an RLRQ, N(R) and N(S), the buffer of the
      last meter reply, the segment bit and the collected bytes. */
  datatype Machine = Machine(state: State, request: seq<Byte>, rlrq: bool, rrr: Byte, sss: Byte,
                             rx: seq<Byte>, segment: R.Segment, collected: seq<Byte>)

  /** What one round finds: a frame of the head-end and one of the meter (empty if there is none), and
      whether the time is up. */
  datatype Input = Input(headEnd: seq<Byte>, meter: seq<Byte>, timeout: bool)

  datatype Kind = Snrm | Information | ReceiveReady | Disc

  datatype Event =
    | Idle
    | Taken(request: seq<Byte>)
    | Sent(kind: Kind, control: Byte, frame: seq<Byte>)
    | Heard(frame: seq<Byte>)
    | TimedOut
    | Translated(accepted: bool, reply: R.Reply)

  const AARQ_TAG: Byte := 0x60
  const RLRQ_TAG: Byte := 0x62

  /** N(S) and N(R) count from zero to seven. */
  function Bumped(n: Byte): Byte { if n >= 7 then 0 else n + 1 }

  /** A frame copied to the front of a buffer that keeps its size. */
  function Overwritten(rx: seq<Byte>, frame: seq<Byte>): seq<Byte> {
    frame + if |frame| <= |rx| then rx[|frame|..] else []
  }

  function AfterFrame(m: Machine, input: Input, heard: Machine): (Machine, Event) {
    if input.meter != [] then (heard, Heard(input.meter))
    else if input.timeout then (m.(state := WaitForFrame), TimedOut)
    else (m, Idle)
  }

  function TakeRequest(m: Machine, d: seq<Byte>): (Machine, Event) {
    (m.(request := d, rlrq := F.FrameType(d) == RLRQ_TAG,
        state := if F.FrameType(d) == AARQ_TAG then SnrmRequest else InformationFrame), Taken(d))
  }

  function SendSnrm(m: Machine): (Machine, Event) {
    match F.Snrm(m.request)
    case Refused(_) => (m.(state := WaitForFrame), Idle)
    case Built(f) => (m.(state := SnrmResponse, rrr := 0, sss := 0), Sent(Snrm, F.SNRM, f))
  }

  function SendInformation(m: Machine): (Machine, Event) {
    var control := F.InformationControl(m.rrr, m.sss);
    match F.Information(m.request, control)
    case Refused(_) => (m.(state := WaitForFrame), Idle)
    case Built(f) => (m.(state := Response, sss := Bumped(m.sss)), Sent(Information, control, f))
  }

  function SendReady(m: Machine): (Machine, Event) {
    var control := F.ReadyControl(m.rrr);
    match F.ReceiveReady(m.request, control)
    case Refused(_) => (m.(state := Response), Idle)
    case Built(f) => (m.(state := Response), Sent(ReceiveReady, control, f))
  }

  function SendDisc(m: Machine): (Machine, Event) {
    match F.Disc(m.request)
    case Refused(_) => (m.(state := ResponseForHeadEnd), Idle)
    case Built(f) => (m.(state := DiscResponse), Sent(Disc, F.DISC, f))
  }

  function AfterTranslation(m: Machine, t: R.Translation): Machine {
    m.(segment := t.segment, collected := t.collected, rrr := if t.accepted then Bumped(m.rrr) else m.rrr,
       state := if t.ret > 0 then WaitForFrame
                else match t.after case Stay => ResponseForHeadEnd case Poll => Segment case Wait => WaitForFrame)
  }

  function TranslateReply(m: Machine): (Machine, Event) {
    var t := R.Translate(m.rx, m.segment, m.collected);
    (AfterTranslation(m, t), Translated(t.accepted, t.reply))
  }

  /** One round of GW_Run. */
  function Next(m: Machine, input: Input): (Machine, Event) {
    match m.state
    case WaitForFrame => if input.headEnd != [] then TakeRequest(m, input.headEnd) else (m, Idle)
    case SnrmRequest => SendSnrm(m)
    case SnrmResponse => AfterFrame(m, input, m.(state := InformationFrame))
    case InformationFrame => SendInformation(m)
    case Response =>
      AfterFrame(m, input, m.(rx := Overwritten(m.rx, input.meter), state := if m.rlrq then DiscRequest else ResponseForHeadEnd))
    case Segment => SendReady(m)
    case ResponseForHeadEnd => TranslateReply(m)
    case DiscRequest => SendDisc(m)
    case DiscResponse => AfterFrame(m, input, m.(state := ResponseForHeadEnd))
  }

  const RX_SIZE := 2048
  const REPLY_SIZE := 5000
  const COLLECTED_SIZE := 8152

  /** How far the converter reads in the buffer of the meter's reply. */
  function BytesRead(rx: seq<Byte>): nat {
    var size, last, end := R.DeclaredSize(rx), R.DestinationEnd(rx), R.SourceEnd(rx);
    if !R.StartsFrame(rx) then 2
    else if At(rx, size - 1) == 0x7E && end < size < end + 4 && (end - last == 4 || end - last == 2) then end + 4
    else size
  }

  /** How far the generators of short frames read in the buffer of the request: they copy as many bytes
      from behind its address as it says its APDU has. */
  function BytesCopied(d: seq<Byte>): nat { (11 + F.AddLen(d)) % 256 + Word(At(d, 6), At(d, 7)) }

  /** The buffers of the C code are large enough for what this round takes from them and puts into them:
      2048 bytes for a frame either way, 5000 for an answer and 8152 for what is collected. */
  predicate Fits(m: Machine, input: Input) {
    && (m.state == WaitForFrame ==> |input.headEnd| <= RX_SIZE)
    && (m.state == SnrmRequest || m.state == Segment || m.state == DiscRequest ==> BytesCopied(m.request) <= RX_SIZE)
    && (m.state == InformationFrame ==>
          var b := F.Information(m.request, F.InformationControl(m.rrr, m.sss)); b.Built? ==> |b.frame| <= RX_SIZE)
    && (m.state == Response ==> |input.meter| <= RX_SIZE)
    && (m.state == ResponseForHeadEnd ==>
          && BytesRead(m.rx) <= RX_SIZE
          && var t := R.Translate(m.rx, m.segment, m.collected); t.ret <= REPLY_SIZE && |t.collected| <= COLLECTED_SIZE)
  }

  // ---------- the loops of the converter ----------

  /** The first odd byte from `i` on, as the loops over the addresses look for it. */
  method FindOdd(rx: array<Byte>, i: nat, end: nat) returns (k: nat)
    requires end <= rx.Length
    ensures k == R.FirstOdd(rx[..], i, end)
  {
    k := i;
    while k < end
      invariant i <= k && R.FirstOdd(rx[..], i, end) == R.FirstOdd(rx[..], k, end)
      decreases end - k
    {
      if rx[k] % 2 == 1 { return; }
      k := k + 1;
    }
    k := end;
  }

  /** One byte behind the first `n` of a buffer. */
  method Append(a: array<Byte>, n: nat, b: Byte)
    requires n < a.Length
    modifies a
    ensures a[..n + 1] == old(a[..n]) + [b]
  {
    a[n] := b;
  }

  lemma Longer(head: seq<Byte>, rx: seq<Byte>, i: nat, j: nat)
    requires i <= j < |rx|
    ensures (head + rx[i..j]) + [rx[j]] == head + rx[i..j + 1]
  {
  }

  /** Information bytes on their way to the collection and to the frame for the head-end at once. */
  method CopyInformation(rx: array<Byte>, i: nat, end: nat, collection: array<Byte>, count: nat, hes: array<Byte>, start: nat)
    returns (last: nat)
    requires i <= rx.Length && end <= rx.Length && count <= collection.Length && start <= hes.Length
    requires i <= end ==> count + (end - i) <= collection.Length && start + (end - i) <= hes.Length
    requires collection != hes && rx != collection && rx != hes
    modifies collection, hes
    ensures last == count + |R.Slice(rx[..], i, end)|
    ensures collection[..last] == old(collection[..count]) + R.Slice(rx[..], i, end)
    ensures hes[..start + (last - count)] == old(hes[..start]) + R.Slice(rx[..], i, end) && hes[..start] == old(hes[..start])
  {
    ghost var head, front, bytes := collection[..count], hes[..start], rx[..];
    var j := i;
    last := count;
    while j < end
      invariant i <= j && (i <= end ==> j <= end) && (i > end ==> j == i) && last == count + (j - i)
      invariant rx[..] == bytes && collection[..last] == head + bytes[i..j] && hes[..start + (j - i)] == front + bytes[i..j]
    {
      Longer(head, bytes, i, j);
      Longer(front, bytes, i, j);
      Append(collection, last, rx[j]);
      Append(hes, start + (j - i), rx[j]);
      last := last + 1;
      j := j + 1;
    }
    assert hes[..start] == hes[..start + (j - i)][..start];
  }

  /** The collection on its way to the frame for the head-end. */
  method CopyCollection(collection: array<Byte>, count: nat, hes: array<Byte>, start: nat)
    requires count <= collection.Length && start + count <= hes.Length && collection != hes
    modifies hes
    ensures hes[..start + count] == old(hes[..start]) + collection[..count]
  {
    var n := 0;
    while n < count
      invariant n <= count
      invariant hes[..start + n] == old(hes[..start]) + collection[..n]
    {
      Append(hes, start + n, collection[n]);
      assert collection[..n + 1] == collection[..n] + [collection[n]];
      n := n + 1;
    }
  }

  /** The answer in the first `size` of the bytes filled in. */
  method FirstBytes(hes: array<Byte>, size: nat, ghost filled: nat) returns (reply: R.Reply)
    requires size <= filled <= hes.Length
    ensures reply == R.Reply(hes[..filled][..size])
  {
    reply := R.Reply(hes[..size]);
    assert hes[..size] == hes[..filled][..size];
  }

  /** The bytes in front of the APDU, except the length. */
  method FillHeader(hes: array<Byte>, logical: nat, client: Byte, physical: nat) returns (start: nat)
    requires hes.Length == REPLY_SIZE && logical < 65536 && physical < 65536
    modifies hes
    ensures start == 11 + R.PhysicalSize(physical)
    ensures hes[..start] == R.ReplyHeader(logical, client, physical, 0)
  {
    hes[0], hes[1], hes[2], hes[3] := 0, 1, logical / 256, logical % 256;
    hes[4], hes[5], hes[6], hes[7] := 0, client, 0, 0;
    hes[8], hes[9] := 0xE7, 0;
    assert hes[..10] == [0, 1, Hi(logical), Lo(logical), 0, Lo(client), Hi(0), Lo(0), 0xE7, 0];
    start := SetPhysical(hes, physical);
    assert hes[..start] == hes[..10] + hes[10..start];
  }

  /** The physical address behind its length. */
  method SetPhysical(hes: array<Byte>, physical: nat) returns (end: nat)
    requires hes.Length == REPLY_SIZE && physical < 65536
    modifies hes
    ensures end == 11 + R.PhysicalSize(physical) && hes[..10] == old(hes[..10])
    ensures hes[10..end] == if physical < 256 then [1, physical] else [2, Hi(physical), Lo(physical)]
  {
    if physical < 256 {
      hes[10], hes[11] := 1, physical;
      end := 12;
    } else {
      hes[10], hes[11], hes[12] := 2, physical / 256, physical % 256;
      end := 13;
    }
  }

  method SetLength(hes: array<Byte>, ghost start: nat, ghost logical: nat, ghost client: Byte, ghost physical: nat, ghost before: nat, length: nat)
    requires hes.Length == REPLY_SIZE && start == 11 + R.PhysicalSize(physical)
    requires hes[..start] == R.ReplyHeader(logical, client, physical, before)
    modifies hes
    ensures hes[..start] == R.ReplyHeader(logical, client, physical, length)
    ensures forall i :: start <= i < hes.Length ==> hes[i] == old(hes[i])
  {
    hes[6] := length / 256 % 256;
    hes[7] := length % 256;
  }

  // ---------- the gateway ----------

  class Gateway {
    var state: State
    var request: seq<Byte>
    var rlrqFlag: bool
    var rrr: Byte
    var sss: Byte
    const hdlcRx: array<Byte>
    var segmentBit: R.Segment
    const collection: array<Byte>
    var lastByte: nat

    /** A gateway that waits for its first frame; the other fields are what memory holds at the start. */
    constructor (request0: seq<Byte>, rrr0: Byte, sss0: Byte)
      ensures Valid() && fresh(hdlcRx) && fresh(collection)
      ensures state == WaitForFrame && segmentBit == R.Single && lastByte == 0
    {
      state, segmentBit, lastByte := WaitForFrame, R.Single, 0;
      request, rlrqFlag, rrr, sss := request0, false, rrr0, sss0;
      hdlcRx := new Byte[RX_SIZE](_ => 0);
      collection := new Byte[COLLECTED_SIZE](_ => 0);
    }

    ghost predicate Valid()
      reads this
    {
      hdlcRx.Length == RX_SIZE && collection.Length == COLLECTED_SIZE && hdlcRx != collection && lastByte <= COLLECTED_SIZE
    }

    ghost function Collected(): seq<Byte>
      requires Valid()
      reads this, collection
    {
      collection[..lastByte]
    }

    /** The state of the loop as a value. */
    ghost function View(): Machine
      requires Valid()
      reads this, hdlcRx, collection
    {
      Machine(state, request, rlrqFlag, rrr, sss, hdlcRx[..], segmentBit, Collected())
    }

    /** The answer over all that was collected. */
    method DeliverCollected(hes: array<Byte>, start: nat, logical: nat, client: Byte, physical: nat, n: nat, last: nat, ghost before: nat)
      returns (reply: R.Reply)
      requires Valid() && hes != collection && hes != hdlcRx && hes.Length == REPLY_SIZE && start + last <= REPLY_SIZE && last <= COLLECTED_SIZE
      requires n == R.PhysicalSize(physical) && start == 11 + n && hes[..start] == R.ReplyHeader(logical, client, physical, before)
      modifies hes
      ensures reply == R.Reply((R.ReplyHeader(logical, client, physical, 3 + n + last) + collection[..last])[..8 + n + last])
    {
      hide R.ReplyHeader;
      CopyCollection(collection, last, hes, start);
      assert hes[..start] == hes[..start + last][..start];
      ghost var body := hes[..start + last][start..];
      SetLength(hes, start, logical, client, physical, before, 3 + n + last);
      assert hes[..start + last] == hes[..start] + body;
      reply := FirstBytes(hes, 8 + n + last, start + last);
    }

    /** An answer and the collection have room for the outcome of a call. */
    static ghost predicate DeliveryFits(t: R.Translation) { t.ret <= REPLY_SIZE && |t.collected| <= COLLECTED_SIZE }

    static lemma DeliveryRoom(data: seq<Byte>, count: nat, logical: nat, client: Byte, physical: nat, segment: R.Segment, collected: seq<Byte>)
      requires |data| == (if count >= 3 then count - 3 else 0) && count <= RX_SIZE && (segment == R.Single ==> collected == [])
      requires DeliveryFits(R.Deliver(data, count, logical, client, physical, segment, collected, R.Wait))
      ensures |collected| + |data| <= COLLECTED_SIZE
      ensures segment == R.Last ==> 11 + R.PhysicalSize(physical) + |collected| + |data| <= REPLY_SIZE
    {
      hide R.ReplyHeader;
    }

    /** Header and information of an answer, and the information collected. */
    method PrepareAnswer(i: nat, size: nat, count: nat, logical: nat, client: Byte, physical: nat) returns (hes: array<Byte>, start: nat, last: nat)
      requires Valid() && 7 <= i && i + count == size && size <= RX_SIZE && logical < 65536 && physical < 65536
      requires lastByte + |R.Slice(hdlcRx[..], i, size - 3)| <= COLLECTED_SIZE
      modifies collection
      ensures fresh(hes) && hes.Length == REPLY_SIZE && start == 11 + R.PhysicalSize(physical)
      ensures var header, data := R.ReplyHeader(logical, client, physical, R.PhysicalSize(physical) + count), R.Slice(hdlcRx[..], i, size - 3);
              && hes[..start] == header && hes[..start + |data|] == header + data
              && last == lastByte + |data| && collection[..last] == old(Collected()) + data
    {
      hide R.ReplyHeader, R.Slice;
      hes := new Byte[REPLY_SIZE](_ => 0);
      start := FillHeader(hes, logical, client, physical);
      SetLength(hes, start, logical, client, physical, 0, R.PhysicalSize(physical) + count);
      last := CopyInformation(hdlcRx, i, size - 3, collection, lastByte, hes, start);
    }

    /** The accepted information: collected, and sent to the head-end if the reply is complete. */
    method DeliverInformation(i: nat, size: nat, count: nat, logical: nat, client: Byte, physical: nat) returns (ret: int, reply: R.Reply)
      requires Valid() && 7 <= i && i + count == size && size <= RX_SIZE && logical < 65536 && physical < 65536
      requires segmentBit == R.Single ==> lastByte == 0
      requires DeliveryFits(R.Deliver(R.Slice(hdlcRx[..], i, size - 3), count, logical, client, physical, segmentBit, Collected(), R.Wait))
      modifies this`lastByte, collection
      ensures Valid()
      ensures var t := R.Deliver(R.Slice(hdlcRx[..], i, size - 3), count, logical, client, physical, segmentBit, old(Collected()), R.Wait);
              ret == t.ret && reply == t.reply && Collected() == t.collected
    {
      hide R.ReplyHeader, R.Slice, DeliveryFits;
      ghost var data := R.Slice(hdlcRx[..], i, size - 3);
      DeliveryRoom(data, count, logical, client, physical, segmentBit, Collected());
      var n := R.PhysicalSize(physical);
      var hes, start, last := PrepareAnswer(i, size, count, logical, client, physical);
      if segmentBit == R.Last {
        reply := DeliverCollected(hes, start, logical, client, physical, n, last, n + count);
        ret := 11 + n + last;
        lastByte := 0;
      } else if segmentBit == R.Single {
        reply := FirstBytes(hes, 8 + n + count, start + |data|);
        ret := 11 + n + count;
        lastByte := 0;
      } else {
        reply, ret, lastByte := R.Nothing, 0, last;
      }
    }

    /** Fourteen address bits from two bytes, as the code shifts them together: the upper byte is even. */
    method JoinAddress(high: Byte, low: Byte) returns (x: nat)
      requires high % 2 == 0
      ensures x == F.Joined(high, low) && x < 65536
    {
      x := low / 2 + high % 4 * 64 + high / 4 * 4 * 64;
      JoinParts(high);
    }

    static lemma JoinParts(high: nat)
      requires high % 2 == 0
      ensures high % 4 * 64 + high / 4 * 4 * 64 == high / 2 * 128
    {
    }

    /** The addresses of the sender, which end at `end`. */
    method ReadAddresses(last: nat, end: nat) returns (logical: nat, physical: nat)
      requires Valid() && end < RX_SIZE && (end - last == 4 || end - last == 2)
      requires forall j :: last + 1 <= j < end ==> At(hdlcRx[..], j) % 2 == 0
      ensures logical == R.LogicalAt(hdlcRx[..], last, end) && physical == R.PhysicalAt(hdlcRx[..], last, end)
      ensures logical < 65536 && physical < 65536
    {
      hide F.Joined;
      assert hdlcRx[..][end - 1] % 2 == 0 by { assert At(hdlcRx[..], end - 1) % 2 == 0; }
      if end - last == 4 {
        assert At(hdlcRx[..], end - 3) % 2 == 0;
        logical := JoinAddress(hdlcRx[end - 3], hdlcRx[end - 2]);
        physical := JoinAddress(hdlcRx[end - 1], hdlcRx[end]);
      } else {
        logical := hdlcRx[end - 1] / 2;
        physical := hdlcRx[end] / 2;
      }
    }

    /** The ends of both addresses, and the client that the frame is for. */
    method FindAddresses(size: nat) returns (last: nat, end: nat, client: Byte)
      requires Valid() && size == R.DeclaredSize(hdlcRx[..]) <= RX_SIZE
      ensures last == R.DestinationEnd(hdlcRx[..]) && end == R.SourceEnd(hdlcRx[..]) && end <= size && (end < size ==> last < end)
      ensures client == if last == 0 then 0 else At(hdlcRx[..], last) / 2
      ensures forall j :: last + 1 <= j < end ==> At(hdlcRx[..], j) % 2 == 0
    {
      hide R.FirstOdd, R.DeclaredSize;
      client := 0;
      last := FindOdd(hdlcRx, 3, size);
      if last < size {
        client := hdlcRx[last] / 2;
      } else {
        last := 0;
      }
      end := FindOdd(hdlcRx, last + 1, size);
    }

    /** The frame behind its format field. */
    method ConvertBody() returns (ret: int, accepted: bool, reply: R.Reply)
      requires Valid() && R.StartsFrame(hdlcRx[..]) && BytesRead(hdlcRx[..]) <= RX_SIZE && (segmentBit == R.Single ==> lastByte == 0)
      requires DeliveryFits(R.TranslateBody(hdlcRx[..], segmentBit, Collected(), R.Wait))
      modifies this`lastByte, collection
      ensures Valid()
      ensures var t := R.TranslateBody(hdlcRx[..], segmentBit, old(Collected()), R.Wait);
              ret == t.ret && accepted == t.accepted && reply == t.reply && Collected() == t.collected
    {
      hide R.Deliver, R.DestinationEnd, R.SourceEnd, R.LogicalAt, R.PhysicalAt, R.Slice, Fcs16.Fcs;
      accepted, reply := false, R.Nothing;
      ghost var rx := hdlcRx[..];
      var size := (256 * (hdlcRx[1] as nat) + hdlcRx[2] as nat) % 2048 + 2;
      assert size == R.DeclaredSize(rx);
      if hdlcRx[size - 1] != 0x7E { return -7, accepted, reply; }
      var last, end, client := FindAddresses(size);
      if end == size { return 0, accepted, reply; }
      if end - last != 4 && end - last != 2 { return -3, accepted, reply; }
      var logical, physical := ReadAddresses(last, end);
      var hcsFrame := Word(hdlcRx[end + 2], hdlcRx[end + 3]);
      var hcs := Fcs16.CountCrc(hdlcRx, 1, end + 1);
      assert hdlcRx[1..1 + (end + 1)] == R.Slice(rx, 1, end + 2);
      var count: int := size - (end + 3) - 4;
      if count < 0 { return -4, accepted, reply; }
      if hcsFrame != hcs { return -6, accepted, reply; }
      ret, reply := DeliverInformation(end + 7, size, count, logical, client, physical);
      accepted := true;
      DeliverAccepts(R.Slice(rx, end + 7, size - 3), count, logical, client, physical, segmentBit, old(Collected()));
    }

    static lemma DeliverAccepts(data: seq<Byte>, count: nat, logical: nat, client: Byte, physical: nat, segment: R.Segment, collected: seq<Byte>)
      requires |data| == if count >= 3 then count - 3 else 0
      ensures R.Deliver(data, count, logical, client, physical, segment, collected, R.Wait).accepted
    {
      hide R.ReplyHeader;
    }

    /** The segment bit and the next state, from the format field. */
    method NoteSegment()
      requires Valid()
      modifies this`state, this`segmentBit, this`lastByte
      ensures Valid()
      ensures var segmented, inReply := R.IsSegmented(hdlcRx[..]), old(segmentBit) == R.Middle;
              && segmentBit == (if segmented then R.Middle else if inReply then R.Last else R.Single)
              && state == (if segmented then Segment else WaitForFrame)
              && lastByte == if !segmented && !inReply then 0 else old(lastByte)
    {
      if hdlcRx[1] / 8 % 2 == 1 {
        segmentBit, state := R.Middle, Segment;
      } else if segmentBit == R.Middle {
        segmentBit, state := R.Last, WaitForFrame;
      } else {
        segmentBit, state, lastByte := R.Single, WaitForFrame, 0;
      }
    }

    /** Meter2GW_Frame_Convertor */
    method ConvertReply() returns (ret: int, accepted: bool, reply: R.Reply)
      requires Valid() && BytesRead(hdlcRx[..]) <= RX_SIZE
      requires DeliveryFits(R.Translate(hdlcRx[..], segmentBit, Collected()))
      modifies this`state, this`segmentBit, this`lastByte, this`rrr, collection
      ensures Valid()
      ensures var m := old(View());
              var t := R.Translate(m.rx, m.segment, m.collected);
              ret == t.ret && accepted == t.accepted && reply == t.reply
              && View() == m.(segment := t.segment, collected := t.collected, rrr := if t.accepted then Bumped(m.rrr) else m.rrr,
                              state := match t.after case Stay => m.state case Poll => Segment case Wait => WaitForFrame)
    {
      hide R.DeclaredSize, R.TranslateBody, BytesRead, DeliveryFits, R.IsSegmented;
      accepted, reply := false, R.Nothing;
      ghost var rx, before := hdlcRx[..], Collected();
      if hdlcRx[0] != 0x7E { return -9, accepted, reply; }
      if hdlcRx[1] / 16 != 0xA { return -8, accepted, reply; }
      NoteSegment();
      assert Collected() == if segmentBit == R.Single then [] else before;
      BodyKeeps(rx, segmentBit, Collected(), if segmentBit == R.Middle then R.Poll else R.Wait);
      ret, accepted, reply := ConvertBody();
      if accepted { rrr := if rrr >= 7 then 0 else rrr + 1; }
    }

    /** What becomes of the state and of the segment bit does not depend on the rest of the frame. */
    static lemma BodyKeeps(rx: seq<Byte>, segment: R.Segment, collected: seq<Byte>, after: R.After)
      ensures var t, u := R.TranslateBody(rx, segment, collected, after), R.TranslateBody(rx, segment, collected, R.Wait);
              t.after == after && t.segment == segment
              && t.ret == u.ret && t.accepted == u.accepted && t.reply == u.reply && t.collected == u.collected
              && DeliveryFits(t) == DeliveryFits(u)
    {
      hide R.DestinationEnd, R.SourceEnd, R.LogicalAt, R.PhysicalAt, R.ReplyHeader, R.HeaderFits, R.Slice, R.DeclaredSize;
    }

    /** A meter frame copied to the front of the buffer; what lay behind it stays. */
    method CopyFrame(frame: seq<Byte>)
      requires Valid() && |frame| <= RX_SIZE
      modifies hdlcRx
      ensures hdlcRx[..] == Overwritten(old(hdlcRx[..]), frame)
    {
      var i := 0;
      while i < |frame|
        invariant i <= |frame|
        invariant forall k :: 0 <= k < RX_SIZE ==> hdlcRx[k] == if k < i then frame[k] else old(hdlcRx[k])
      {
        hdlcRx[i] := frame[i];
        i := i + 1;
      }
    }

    /** What a state that waits for the meter does with no frame. */
    method Await(input: Input) returns (e: Event)
      requires Valid() && input.meter == []
      modifies this`state
      ensures Valid() && (View(), e) == AfterFrame(old(View()), input, old(View()))
    {
      if input.timeout {
        state := WaitForFrame;
        return TimedOut;
      }
      return Idle;
    }

    method StepWaitForFrame(input: Input) returns (e: Event)
      requires Valid() && state == WaitForFrame
      modifies this
      ensures Valid() && (View(), e) == Next(old(View()), input)
    {
      hide F.FrameType;
      if input.headEnd == [] { return Idle; }
      request := input.headEnd;
      var frameType := F.FrameType(request);
      rlrqFlag := false;
      if frameType == AARQ_TAG {
        state := SnrmRequest;
      } else if frameType == RLRQ_TAG {
        rlrqFlag, state := true, InformationFrame;
      } else {
        state := InformationFrame;
      }
      return Taken(request);
    }

    method StepSnrmRequest(input: Input) returns (e: Event)
      requires Valid() && state == SnrmRequest
      modifies this
      ensures Valid() && (View(), e) == Next(old(View()), input)
    {
      hide F.Snrm;
      var ret, frame := F.GenerateSnrm(request);
      SnrmCode(request);
      if ret == 1 {
        rrr, sss, state := 0, 0, SnrmResponse;
        return Sent(Snrm, F.SNRM, frame);
      }
      state := WaitForFrame;
      return Idle;
    }

    static lemma SnrmCode(d: seq<Byte>)
      ensures F.Snrm(d).Refused? ==> F.Snrm(d).code != 1
      ensures F.Disc(d).Refused? ==> F.Disc(d).code != 1
    {
    }

    method StepSnrmResponse(input: Input) returns (e: Event)
      requires Valid() && state == SnrmResponse
      modifies this
      ensures Valid() && (View(), e) == Next(old(View()), input)
    {
      if input.meter != [] {
        state := InformationFrame;
        return Heard(input.meter);
      }
      e := Await(input);
    }

    method StepInformationFrame(input: Input) returns (e: Event)
      requires Valid() && state == InformationFrame && Fits(View(), input)
      modifies this
      ensures Valid() && (View(), e) == Next(old(View()), input)
    {
      hide F.Information, F.InformationControl;
      var control := F.InformationControl(rrr, sss);
      var ret, frame := F.ConvertInformation(request, control);
      InformationCode(request, control);
      if ret > 0 {
        sss := if sss >= 7 then 0 else sss + 1;
        state := Response;
        return Sent(Information, control, frame);
      }
      state := WaitForFrame;
      return Idle;
    }

    static lemma InformationCode(d: seq<Byte>, control: Byte)
      ensures F.Information(d, control).Refused? ==> F.Information(d, control).code < 0
    {
    }

    method StepResponse(input: Input) returns (e: Event)
      requires Valid() && state == Response && Fits(View(), input)
      modifies this, hdlcRx
      ensures Valid() && (View(), e) == Next(old(View()), input)
    {
      hide Overwritten;
      if input.meter != [] {
        CopyFrame(input.meter);
        state := if rlrqFlag then DiscRequest else ResponseForHeadEnd;
        return Heard(input.meter);
      }
      e := Await(input);
    }

    method StepSegment(input: Input) returns (e: Event)
      requires Valid() && state == Segment
      modifies this
      ensures Valid() && (View(), e) == Next(old(View()), input)
    {
      hide F.ReceiveReady, F.ReadyControl;
      var control := F.ReadyControl(rrr);
      var ret, frame := F.PollForRemainedData(request, control);
      ReadyCode(request, control);
      state := Response;
      return if ret == 1 then Sent(ReceiveReady, control, frame) else Idle;
    }

    static lemma ReadyCode(d: seq<Byte>, control: Byte)
      ensures F.ReceiveReady(d, control).Refused? ==> F.ReceiveReady(d, control).code != 1
    {
    }

    method StepResponseForHeadEnd(input: Input) returns (e: Event)
      requires Valid() && state == ResponseForHeadEnd && Fits(View(), input)
      modifies this, collection
      ensures Valid() && (View(), e) == Next(old(View()), input)
    {
      hide R.Translate;
      var ret, accepted, reply := ConvertReply();
      if ret > 0 { state := WaitForFrame; }
      return Translated(accepted, reply);
    }

    method StepDiscRequest(input: Input) returns (e: Event)
      requires Valid() && state == DiscRequest
      modifies this
      ensures Valid() && (View(), e) == Next(old(View()), input)
    {
      hide F.Disc;
      var ret, frame := F.GenerateDisc(request);
      SnrmCode(request);
      if ret == 1 {
        state := DiscResponse;
        return Sent(Disc, F.DISC, frame);
      }
      state := ResponseForHeadEnd;
      return Idle;
    }

    method StepDiscResponse(input: Input) returns (e: Event)
      requires Valid() && state == DiscResponse
      modifies this
      ensures Valid() && (View(), e) == Next(old(View()), input)
    {
      if input.meter != [] {
        state := ResponseForHeadEnd;
        return Heard(input.meter);
      }
      e := Await(input);
    }

    /** One round of GW_Run. */
    method Step(input: Input) returns (e: Event)
      requires Valid() && Fits(View(), input)
      modifies this, hdlcRx, collection
      ensures Valid() && (View(), e) == Next(old(View()), input)
    {
      hide Next;
      match state {
        case WaitForFrame => e := StepWaitForFrame(input);
        case SnrmRequest => e := StepSnrmRequest(input);
        case SnrmResponse => e := StepSnrmResponse(input);
        case InformationFrame => e := StepInformationFrame(input);
        case Response => e := StepResponse(input);
        case Segment => e := StepSegment(input);
        case ResponseForHeadEnd => e := StepResponseForHeadEnd(input);
        case DiscRequest => e := StepDiscRequest(input);
        case DiscResponse => e := StepDiscResponse(input);
      }
    }
  }
}
