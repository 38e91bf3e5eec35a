/** A meter's reply on its way to the head-end: what Meter2GW_Frame_Convertor makes of one frame, and of
    a reply that came in several segments. */
module MeterReply {
  import opened Bytes
  import opened Hdlc
  import opened GatewayFrames
  import Fcs16

  datatype Segment = Single | Middle | Last

  /** What the converter asks the state machine to do next. */
  datatype After = Stay | Poll | Wait

  datatype Reply = Nothing | Reply(bytes: seq<Byte>)

  /** The return code, the segment bit, the collected bytes, the next state, whether N(R) moves on, and
      the frame for the head-end. */
  datatype Translation = Translation(ret: int, segment: Segment, collected: seq<Byte>, after: After, accepted: bool, reply: Reply)

  // ---------- one frame ----------

  /** The bytes from `i` up to `j` of a zero-filled buffer. */
  function Slice(rx: seq<Byte>, i: nat, j: nat): (s: seq<Byte>)
    ensures |s| == if i <= j then j - i else 0
    ensures i <= j <= |rx| ==> s == rx[i..j]
    ensures forall k :: 0 <= k < |s| ==> s[k] == At(rx, i + k)
  {
    if i > j then [] else if j <= |rx| then rx[i..j] else (rx + Zeros(j - |rx|))[i..j]
  }

  /** The first odd byte from `i` on, or `end` if there is none before it. */
  function FirstOdd(rx: seq<Byte>, i: nat, end: nat): (k: nat)
    ensures k <= end && (k < end ==> i <= k && At(rx, k) % 2 == 1 && forall j :: i <= j < k ==> At(rx, j) % 2 == 0)
    ensures k == end ==> forall j :: i <= j < end ==> At(rx, j) % 2 == 0
    decreases end - i
  {
    if i >= end then end else if At(rx, i) % 2 == 1 then i else FirstOdd(rx, i + 1, end)
  }

  function DeclaredSize(rx: seq<Byte>): nat { Word(At(rx, 1), At(rx, 2)) % 2048 + 2 }

  /** The index of the last byte of the destination address; zero if there is none. */
  function DestinationEnd(rx: seq<Byte>): nat {
    var k := FirstOdd(rx, 3, DeclaredSize(rx));
    if k < DeclaredSize(rx) then k else 0
  }

  function SourceEnd(rx: seq<Byte>): nat { FirstOdd(rx, DestinationEnd(rx) + 1, DeclaredSize(rx)) }

  function LogicalAt(rx: seq<Byte>, last: nat, end: nat): nat
    requires end - last == 4 || end - last == 2
  {
    if end - last == 4 then Joined(At(rx, end - 3), At(rx, end - 2)) else At(rx, end - 1) / 2
  }

  function PhysicalAt(rx: seq<Byte>, last: nat, end: nat): nat
    requires end - last == 4 || end - last == 2
  {
    if end - last == 4 then Joined(At(rx, end - 1), At(rx, end)) else At(rx, end) / 2
  }

  /** The bytes in front of the APDU in a frame for the head-end. */
  function ReplyHeader(logical: nat, client: nat, physical: nat, length: nat): (h: seq<Byte>)
    ensures |h| == if physical < 256 then 12 else 13
  {
    [0, 1, Hi(logical), Lo(logical), 0, Lo(client), Hi(length), Lo(length), 0xE7, 0]
    + (if physical < 256 then [1, physical] else [2, Hi(physical), Lo(physical)])
  }

  /** How many bytes of a physical address are sent. */
  function PhysicalSize(physical: nat): nat { if physical < 256 then 1 else 2 }

  /** The header check of the code: the FCS of the bytes through the control byte. */
  predicate HeaderFits(rx: seq<Byte>, end: nat) {
    Word(At(rx, end + 2), At(rx, end + 3)) == Fcs16.Fcs(Slice(rx, 1, end + 2))
  }

  function FailedReply(code: int, segment: Segment, collected: seq<Byte>, after: After): Translation {
    Translation(code, segment, collected, after, false, Nothing)
  }

  /** The information of an accepted frame: collected, or sent on when the reply is complete. */
  function Deliver(data: seq<Byte>, count: nat, logical: nat, client: nat, physical: nat, segment: Segment,
                   collected: seq<Byte>, after: After): Translation
    requires |data| == if count >= 3 then count - 3 else 0
  {
    var all := collected + data;
    var n := PhysicalSize(physical);
    match segment
    case Last => Translation(11 + n + |all|, Last, [], after, true,
                             Reply((ReplyHeader(logical, client, physical, 3 + n + |all|) + all)[..8 + n + |all|]))
    case Single => Translation(11 + n + count, Single, [], after, true,
                               Reply((ReplyHeader(logical, client, physical, n + count) + data)[..8 + n + count]))
    case Middle => Translation(0, Middle, all, after, true, Nothing)
  }

  /** From the end flag on, once the segment bit is known. */
  function TranslateBody(rx: seq<Byte>, segment: Segment, collected: seq<Byte>, after: After): Translation {
    var size, last, end := DeclaredSize(rx), DestinationEnd(rx), SourceEnd(rx);
    if At(rx, size - 1) != 0x7E then FailedReply(-7, segment, collected, after)
    else if end == size then FailedReply(0, segment, collected, after)
    else if end - last != 4 && end - last != 2 then FailedReply(-3, segment, collected, after)
    else if size < end + 7 then FailedReply(-4, segment, collected, after)
    else if !HeaderFits(rx, end) then FailedReply(-6, segment, collected, after)
    else Deliver(Slice(rx, end + 7, size - 3), size - end - 7, LogicalAt(rx, last, end),
                 if last == 0 then 0 else At(rx, last) / 2, PhysicalAt(rx, last, end), segment, collected, after)
  }

  predicate StartsFrame(rx: seq<Byte>) { At(rx, 0) == 0x7E && At(rx, 1) / 16 == 0xA }

  predicate IsSegmented(rx: seq<Byte>) { At(rx, 1) / 8 % 2 == 1 }

  /** Meter2GW_Frame_Convertor */
  function Translate(rx: seq<Byte>, segment: Segment, collected: seq<Byte>): Translation {
    if At(rx, 0) != 0x7E then FailedReply(-9, segment, collected, Stay)
    else if At(rx, 1) / 16 != 0xA then FailedReply(-8, segment, collected, Stay)
    else if IsSegmented(rx) then TranslateBody(rx, Middle, collected, Poll)
    else if segment == Middle then TranslateBody(rx, Last, collected, Wait)
    else TranslateBody(rx, Single, [], Wait)
  }

  // ---------- a frame for the head-end, as the head-end reads it ----------

  /** Version, addresses, header byte and network; the declared length is not part of this. */
  predicate IsAnswer(g: seq<Byte>, logical: nat, client: nat, physical: nat, apdu: seq<Byte>) {
    && |g| >= 12 && g[0] == 0 && g[1] == 1 && Word(g[2], g[3]) == logical && Word(g[4], g[5]) == client
    && g[8] == 0xE7 && g[9] == 0 && (g[10] == 1 || g[10] == 2)
    && |g| == 11 + g[10] + |apdu| && g[11 + g[10]..] == apdu
    && physical == if g[10] == 1 then g[11] else Word(g[11], g[12])
  }

  function DeclaredLength(g: seq<Byte>): nat
    requires |g| >= 8
  {
    Word(g[6], g[7])
  }

  lemma NarrowAnswer(lh: Byte, ll: Byte, c: Byte, nh: Byte, nl: Byte, p: Byte, apdu: seq<Byte>)
    ensures var g := [0, 1, lh, ll, 0, c, nh, nl, 0xE7, 0] + [1, p] + apdu;
            IsAnswer(g, Word(lh, ll), c, p, apdu) && DeclaredLength(g) == Word(nh, nl) && g[10] == 1
  {
    var g := [0, 1, lh, ll, 0, c, nh, nl, 0xE7, 0] + [1, p] + apdu;
    assert g[12..] == apdu;
  }

  lemma WideAnswer(lh: Byte, ll: Byte, c: Byte, nh: Byte, nl: Byte, ph: Byte, pl: Byte, apdu: seq<Byte>)
    ensures var g := [0, 1, lh, ll, 0, c, nh, nl, 0xE7, 0] + [2, ph, pl] + apdu;
            IsAnswer(g, Word(lh, ll), c, Word(ph, pl), apdu) && DeclaredLength(g) == Word(nh, nl) && g[10] == 2
  {
    var g := [0, 1, lh, ll, 0, c, nh, nl, 0xE7, 0] + [2, ph, pl] + apdu;
    assert g[13..] == apdu;
  }

  lemma HeaderIsRead(logical: nat, client: nat, physical: nat, length: nat, apdu: seq<Byte>)
    requires logical < 65536 && client < 256 && physical < 65536 && length < 65536
    ensures var g := ReplyHeader(logical, client, physical, length) + apdu;
            IsAnswer(g, logical, client, physical, apdu) && DeclaredLength(g) == length && g[10] == PhysicalSize(physical)
  {
    hide IsAnswer, DeclaredLength, Word, Hi, Lo;
    WordOfHalves(logical);
    WordOfHalves(physical);
    WordOfHalves(length);
    LoIs(client);
    if physical < 256 {
      NarrowAnswer(Hi(logical), Lo(logical), Lo(client), Hi(length), Lo(length), physical, apdu);
    } else {
      WideAnswer(Hi(logical), Lo(logical), Lo(client), Hi(length), Lo(length), Hi(physical), Lo(physical), apdu);
    }
  }

  lemma LoIs(n: nat)
    requires n < 256
    ensures Lo(n) == n
  {
  }

  // ---------- where the code finds the parts of a frame ----------

  lemma {:induction false} FirstOddIs(rx: seq<Byte>, i: nat, end: nat, k: nat)
    requires i <= k < end && At(rx, k) % 2 == 1 && forall j :: i <= j < k ==> At(rx, j) % 2 == 0
    ensures FirstOdd(rx, i, end) == k
    decreases end - i
  {
    if i < k { FirstOddIs(rx, i + 1, end, k); }
  }

  lemma AddressFound(rx: seq<Byte>, i: nat, a: seq<Byte>, end: nat)
    requires IsAddress(a) && i + |a| <= end <= |rx| && rx[i..i + |a|] == a
    ensures FirstOdd(rx, i, end) == i + |a| - 1
  {
    AddressEnds(rx, i, a);
    FirstOddIs(rx, i, end, i + |a| - 1);
  }

  lemma FormatOf(f: seq<Byte>, rx: seq<Byte>)
    requires |f| >= 3 && f <= rx && f[1] / 16 == 0xA && Word(f[1] % 8, f[2]) == |f| - 2
    ensures DeclaredSize(rx) == |f| && At(rx, 0) == f[0] && At(rx, 1) == f[1] && At(rx, |f| - 1) == f[|f| - 1]
  {
    LengthBits(f[1], f[2]);
  }

  lemma LengthBits(high: Byte, low: Byte)
    ensures Word(high, low) % 2048 == Word(high % 8, low)
  {
    var x, r := high / 8, 256 * (high % 8) + low;
    assert (high as int) == 8 * x + high % 8;
    assert 256 * (high as int) + low == 2048 * x + r;
    Remainder2048(256 * (high as int) + low, x, r);
  }

  lemma Remainder2048(n: nat, x: nat, r: nat)
    requires n == 2048 * x + r && r < 2048
    ensures n % 2048 == r
  {
  }

  lemma PlacesFound(rx: seq<Byte>, f: seq<Byte>, x: Frame)
    requires CarriesHeader(f, x) && f <= rx
    ensures DeclaredSize(rx) == |f| && StartsFrame(rx) && IsSegmented(rx) == x.segmented && At(rx, |f| - 1) == 0x7E
    ensures DestinationEnd(rx) == 2 + |x.destination| && SourceEnd(rx) == ControlIndex(x) - 1
  {
    hide Checked, IsAddress;
    FormatOf(f, rx);
    var n, h := |x.destination|, ControlIndex(x);
    assert rx[3..3 + n] == f[3..3 + n] && rx[3 + n..h] == f[3 + n..h];
    AddressFound(rx, 3, x.destination, |f|);
    AddressFound(rx, 3 + n, x.source, |f|);
  }

  lemma AddressesRead(rx: seq<Byte>, f: seq<Byte>, x: Frame)
    requires CarriesHeader(f, x) && f <= rx && (|x.source| == 2 || |x.source| == 4)
    ensures var last, end := 2 + |x.destination|, ControlIndex(x) - 1;
            && LogicalAt(rx, last, end) == UpperOf(x.source) && PhysicalAt(rx, last, end) == LowerOf(x.source)
            && At(rx, last) == x.destination[|x.destination| - 1]
  {
    hide Checked;
    var n, h, m := |x.destination|, ControlIndex(x), |x.source|;
    assert x.destination[n - 1] == f[3..3 + n][n - 1];
    assert forall k :: 0 <= k < m ==> x.source[k] == f[3 + n..h][k] == f[3 + n + k] == rx[3 + n + k];
    if m == 2 {
      assert x.source[0] == rx[3 + n] && x.source[1] == rx[4 + n];
    } else {
      assert x.source[0] == rx[3 + n] && x.source[1] == rx[4 + n] && x.source[2] == rx[5 + n] && x.source[3] == rx[6 + n];
    }
  }

  lemma CheckFits(rx: seq<Byte>, f: seq<Byte>, x: Frame)
    requires CarriesHeader(f, x) && f <= rx
    ensures HeaderFits(rx, ControlIndex(x) - 1)
  {
    hide Checked, IsAddress, Fcs16.Fcs;
    var h := ControlIndex(x);
    var data := f[1..h + 1];
    assert f[1..h + 3] == data + [f[h + 1], f[h + 2]];
    CheckedPair(data, f[h + 1], f[h + 2]);
    assert Slice(rx, 1, h + 1) == data;
  }

  /** The frame has an information field, if only an empty one, and with it a check of its own. */
  predicate HasField(f: seq<Byte>, x: Frame) { |f| > ControlIndex(x) + 4 }

  /** The information without its first three bytes. */
  function Body(x: Frame): seq<Byte> { if |x.information| >= 3 then x.information[3..] else [] }

  /** A frame with a good header is taken apart as what it carries, whatever else is in the buffer behind
      it, and whatever its own FCS is; without an information field it is refused. */
  lemma FrameTranslated(rx: seq<Byte>, f: seq<Byte>, x: Frame, segment: Segment, collected: seq<Byte>, after: After)
    requires CarriesHeader(f, x) && f <= rx && (|x.source| == 2 || |x.source| == 4)
    ensures x.destination != []
    ensures TranslateBody(rx, segment, collected, after)
         == if HasField(f, x) then Deliver(Body(x), |x.information|, UpperOf(x.source), x.destination[|x.destination| - 1] / 2,
                                           LowerOf(x.source), segment, collected, after)
            else FailedReply(-4, segment, collected, after)
  {
    hide Checked, IsAddress, Fcs16.Fcs, HeaderFits, Deliver, LogicalAt, PhysicalAt, UpperOf, LowerOf, Slice, DeclaredSize, DestinationEnd, SourceEnd;
    FrameSize(f, x);
    PlacesFound(rx, f, x);
    AddressesRead(rx, f, x);
    CheckFits(rx, f, x);
    var h := ControlIndex(x);
    if |x.information| >= 3 { assert Slice(rx, h + 6, |f| - 3) == f[h + 6..|f| - 3] == x.information[3..]; }
    else if HasField(f, x) { assert Slice(rx, h + 6, |f| - 3) == []; }
  }

  // ---------- replies in one frame ----------

  lemma HalvesFit(a: seq<Byte>)
    requires |a| == 2 || |a| == 4
    ensures UpperOf(a) < 16384 && LowerOf(a) < 16384
  {
  }

  /** A reply in one frame becomes one complete answer: the addresses of its sender, its information
      behind the LLC bytes, and a length that counts what follows the length's own header.  With fewer
      than three information bytes the header itself is cut by as many as are missing; without an
      information field there is no answer. */
  lemma SingleReplyAnswered(rx: seq<Byte>, f: seq<Byte>, x: Frame, segment: Segment, collected: seq<Byte>)
    requires CarriesHeader(f, x) && f <= rx && (|x.source| == 2 || |x.source| == 4) && !x.segmented && segment != Middle
    ensures x.destination != []
    ensures var t := Translate(rx, segment, collected);
            var client, n, count := x.destination[|x.destination| - 1] / 2, PhysicalSize(LowerOf(x.source)), |x.information|;
            && t.segment == Single && t.collected == [] && t.after == Wait
            && (t.accepted <==> HasField(f, x)) && (t.accepted <==> t.ret > 0) && (t.accepted <==> t.reply.Reply?)
            && (!t.accepted ==> t.ret == -4)
            && (count >= 3 ==> t.accepted && IsAnswer(t.reply.bytes, UpperOf(x.source), client, LowerOf(x.source), Body(x))
                               && DeclaredLength(t.reply.bytes) == |t.reply.bytes| - 8
                               && (t.reply.bytes[10] == 1 <==> LowerOf(x.source) < 256))
            && (t.accepted && count < 3 ==>
                  t.reply.bytes == ReplyHeader(UpperOf(x.source), client, LowerOf(x.source), n + count)[..8 + n + count])
  {
    hide CarriesHeader, TranslateBody, UpperOf, LowerOf, IsAnswer, ReplyHeader, DeclaredLength, HasField;
    FrameSize(f, x);
    PlacesFound(rx, f, x);
    FrameTranslated(rx, f, x, Single, [], Wait);
    HalvesFit(x.source);
    var client, logical, physical := x.destination[|x.destination| - 1] / 2, UpperOf(x.source), LowerOf(x.source);
    var n, count := PhysicalSize(physical), |x.information|;
    var h := ReplyHeader(logical, client, physical, n + count);
    if count >= 3 {
      FieldOf(f, x);
      HeaderIsRead(logical, client, physical, n + count, Body(x));
      assert (h + Body(x))[..8 + n + count] == h + Body(x);
    } else {
      assert h + [] == h;
    }
  }

  lemma FieldOf(f: seq<Byte>, x: Frame)
    requires CarriesHeader(f, x) && x.information != []
    ensures HasField(f, x)
  {
    hide Checked, IsAddress;
  }

  lemma FrameSize(f: seq<Byte>, x: Frame)
    requires CarriesHeader(f, x)
    ensures x.destination != [] && |x.information| <= |f| <= 2049
  {
    hide Checked;
  }

  lemma SameAnswer(g: seq<Byte>, logical: nat, client: nat, physical: nat, apdu: seq<Byte>, l: nat, c: nat, p: nat)
    requires IsAnswer(g, logical, client, physical, apdu)
    ensures IsAnswer(g, l, c, p, apdu) <==> l == logical && c == client && p == physical
  {
  }

  /** The answer to a request carries the very addresses of the request exactly if they fit: the reply
      comes from the server that the request was sent to, and goes to its client. */
  lemma RequestAnswered(d: seq<Byte>, rx: seq<Byte>, f: seq<Byte>, x: Frame, segment: Segment, collected: seq<Byte>)
    requires CarriesHeader(f, x) && f <= rx && |x.information| >= 3 && !x.segmented && segment != Middle
    requires x.destination == [ClientByte(Client(d))] && x.source == ServerAddress(d)
    ensures Translate(rx, segment, collected).reply.Reply?
    ensures var wide := AddLen(d) == 2;
            IsAnswer(Translate(rx, segment, collected).reply.bytes, Logical(d), Client(d), Physical(d), x.information[3..])
            <==> Logical(d) < Capacity(wide) && Physical(d) < Capacity(wide) && Client(d) < 128
  {
    hide CarriesHeader, Translate, UpperOf, LowerOf, IsAnswer, AddressBytes, DeclaredLength;
    SingleReplyAnswered(rx, f, x, segment, collected);
    AddressDecodes(AddLen(d) == 2, Logical(d), Physical(d));
    Fits(Logical(d), Capacity(AddLen(d) == 2));
    Fits(Physical(d), Capacity(AddLen(d) == 2));
    Fits(Client(d), 128);
    SameAnswer(Translate(rx, segment, collected).reply.bytes, UpperOf(x.source), ClientByte(Client(d)) / 2, LowerOf(x.source),
               x.information[3..], Logical(d), Client(d), Physical(d));
  }

  // ---------- any frame at all ----------

  /** What holds of every call: an answer is sent exactly on a positive return code, only of an accepted
      frame, and ends the transaction; without a start flag and a frame type nothing changes; what was
      collected is lost only to an answer or to a frame that is a reply of its own. */
  lemma TranslateKeeps(rx: seq<Byte>, segment: Segment, collected: seq<Byte>)
    ensures var t := Translate(rx, segment, collected);
            && (t.reply.Reply? <==> t.ret > 0) && (t.ret > 0 ==> t.after == Wait && t.accepted)
            && (t.after == Stay <==> !StartsFrame(rx)) && (t.after == Poll <==> StartsFrame(rx) && IsSegmented(rx))
            && (t.segment == Middle <==> if StartsFrame(rx) then IsSegmented(rx) else segment == Middle)
            && (!t.accepted ==> t.collected == if t.segment == Single && StartsFrame(rx) then [] else collected)
  {
    hide DestinationEnd, SourceEnd, LogicalAt, PhysicalAt, ReplyHeader, HeaderFits, Slice, DeclaredSize;
  }

  // ---------- exactly which frames are accepted ----------

  /** The converter accepts the frame in the buffer, whatever it has collected. */
  predicate Accepts(rx: seq<Byte>) { Translate(rx, Single, []).accepted }

  lemma AcceptedAnyway(rx: seq<Byte>, segment: Segment, collected: seq<Byte>)
    ensures Translate(rx, segment, collected).accepted == Accepts(rx)
  {
    hide DestinationEnd, SourceEnd, LogicalAt, PhysicalAt, ReplyHeader, HeaderFits, Slice, DeclaredSize;
  }

  /** What the converter looks at, in its order. */
  lemma AcceptsIf(rx: seq<Byte>)
    ensures var size, last, end := DeclaredSize(rx), DestinationEnd(rx), SourceEnd(rx);
            Accepts(rx) <==> StartsFrame(rx) && At(rx, size - 1) == 0x7E && (end - last == 4 || end - last == 2)
                             && size >= end + 7 && HeaderFits(rx, end)
  {
    hide DestinationEnd, SourceEnd, LogicalAt, PhysicalAt, ReplyHeader, HeaderFits, Slice, DeclaredSize;
  }

  /** The frame at the front of a buffer. */
  function FrameIn(rx: seq<Byte>): seq<Byte> { if DeclaredSize(rx) <= |rx| then rx[..DeclaredSize(rx)] else rx }

  lemma AddressFoundIs(rx: seq<Byte>, i: nat, k: nat, end: nat)
    requires k == FirstOdd(rx, i, end) && i <= k < end <= |rx|
    ensures IsAddress(rx[i..k + 1])
  {
    var a := rx[i..k + 1];
    assert forall j :: 0 <= j < |a| ==> a[j] == At(rx, i + j);
  }

  lemma FormatFound(rx: seq<Byte>)
    requires 3 <= DeclaredSize(rx) <= |rx| && StartsFrame(rx)
    ensures var f := FrameIn(rx); f[0] == 0x7E && f[1] / 16 == 0xA && Word(f[1] % 8, f[2]) == |f| - 2
  {
    LengthBits(rx[1], rx[2]);
  }

  /** What the two bytes behind the control byte say: the bytes through them are checked. */
  lemma HeaderFitsIsChecked(rx: seq<Byte>, end: nat)
    requires end + 4 <= |rx|
    ensures HeaderFits(rx, end) <==> Checked(rx[1..end + 4])
  {
    hide Fcs16.Fcs, Checked;
    var data := rx[1..end + 2];
    assert rx[1..end + 4] == data + [rx[end + 2], rx[end + 3]];
    CheckedPair(data, rx[end + 2], rx[end + 3]);
    assert Slice(rx, 1, end + 2) == data;
  }

  lemma AcceptedCarries(rx: seq<Byte>) returns (x: Frame)
    requires DestinationEnd(rx) != 0 && Accepts(rx)
    ensures CarriesHeader(FrameIn(rx), x) && (|x.source| == 2 || |x.source| == 4) && HasField(FrameIn(rx), x)
  {
    hide Accepts, Checked, HeaderFits, IsAddress, Slice, DeclaredSize;
    var f, size, last, end := FrameIn(rx), DeclaredSize(rx), DestinationEnd(rx), SourceEnd(rx);
    AcceptsIf(rx);
    x := Frame(IsSegmented(rx), rx[3..last + 1], rx[last + 1..end + 1], rx[end + 1], rx[end + 4..size - 3]);
    AddressFoundIs(rx, 3, last, size);
    AddressFoundIs(rx, last + 1, end, size);
    FormatFound(rx);
    HeaderFitsIsChecked(rx, end);
    assert f[1..end + 4] == rx[1..end + 4] && f[3..last + 1] == rx[3..last + 1] && f[last + 1..end + 1] == rx[last + 1..end + 1];
    assert f[end + 4..size - 3] == rx[end + 4..size - 3];
  }

  /** A buffer in which a destination address is found is accepted if and only if the frame at its front is
      one, up to its own FCS, with a source address of two or four bytes and an information field. */
  lemma AcceptsExactly(rx: seq<Byte>)
    requires DestinationEnd(rx) != 0
    ensures Accepts(rx) <==> exists x :: CarriesHeader(FrameIn(rx), x) && (|x.source| == 2 || |x.source| == 4) && HasField(FrameIn(rx), x)
  {
    hide CarriesHeader, HasField, Accepts;
    if Accepts(rx) { var x := AcceptedCarries(rx); }
    if x :| CarriesHeader(FrameIn(rx), x) && (|x.source| == 2 || |x.source| == 4) && HasField(FrameIn(rx), x) {
      CarriedAccepted(rx, FrameIn(rx), x);
    }
  }

  lemma CarriedAccepted(rx: seq<Byte>, f: seq<Byte>, x: Frame)
    requires CarriesHeader(f, x) && f <= rx && (|x.source| == 2 || |x.source| == 4) && HasField(f, x)
    ensures Accepts(rx)
  {
    hide CarriesHeader, Accepts, HeaderFits, DestinationEnd, SourceEnd, DeclaredSize;
    AcceptsIf(rx);
    PlacesFound(rx, f, x);
    CheckFits(rx, f, x);
    FieldPlace(f, x);
  }

  lemma FieldPlace(f: seq<Byte>, x: Frame)
    requires CarriesHeader(f, x)
    ensures HasField(f, x) <==> |f| >= ControlIndex(x) + 6
  {
    hide Checked, IsAddress;
  }

  /** Without a destination address, that is with even bytes from the fourth on, a buffer is accepted only
      if its length is odd: then the byte of the length is taken for the end of an address. */
  lemma UnaddressedExactly(rx: seq<Byte>)
    requires DestinationEnd(rx) == 0
    ensures Accepts(rx) <==> At(rx, 0) == 0x7E && At(rx, 1) / 16 == 0xA && At(rx, 1) % 2 == 0 && At(rx, 2) % 2 == 1
                             && DeclaredSize(rx) >= 9 && At(rx, DeclaredSize(rx) - 1) == 0x7E
                             && Word(At(rx, 4), At(rx, 5)) == Fcs16.Fcs(Slice(rx, 1, 4))
  {
    hide Accepts, DeclaredSize, Slice, Fcs16.Fcs;
    AcceptsIf(rx);
  }

  /** There is such a buffer: nine bytes without any address. */
  lemma UnaddressedAccepted()
    ensures var rx := [0x7E, 0xA0, 0x07, 0x10, 0x92, 0x94, 0x00, 0x00, 0x7E]; DestinationEnd(rx) == 0 && Accepts(rx)
  {
    hide Accepts, Fcs16.Register, Slice;
    var rx := [0x7E, 0xA0, 0x07, 0x10, 0x92, 0x94, 0x00, 0x00, 0x7E];
    assert DeclaredSize(rx) == 9;
    assert FirstOdd(rx, 7, 9) == 9 && FirstOdd(rx, 5, 9) == 9 && FirstOdd(rx, 3, 9) == 9;
    assert Slice(rx, 1, 4) == rx[1..4] == [0xA0] + [0x07] + [0x10];
    Fcs16.EmptyRegister();
    Fcs16.NextRegister([], 0xA0, 0xFFFF);
    assert [] + [0xA0] == [0xA0];
    Fcs16.NextRegister([0xA0], 0x07, 0xAA8D);
    Fcs16.NextRegister([0xA0] + [0x07], 0x10, 0x2BF8);
    UnaddressedExactly(rx);
  }

  /** A frame in which the two bytes of the header check are replaced by any others is refused with code -6;
      nothing is answered and nothing collected. */
  lemma WrongCheckRefused(rx: seq<Byte>, f: seq<Byte>, x: Frame, high: Byte, low: Byte, segment: Segment, collected: seq<Byte>)
    requires CarriesHeader(f, x) && HasField(f, x) && (|x.source| == 2 || |x.source| == 4)
    requires (high, low) != (f[ControlIndex(x) + 1], f[ControlIndex(x) + 2])
    requires f[ControlIndex(x) + 1 := high][ControlIndex(x) + 2 := low] <= rx
    ensures var t := Translate(rx, segment, collected);
            t.ret == -6 && !t.accepted && t.reply == Nothing && (t.collected == collected || t.collected == [])
  {
    hide CarriesHeader, HeaderFits, DestinationEnd, SourceEnd, LogicalAt, PhysicalAt, DeclaredSize, Deliver;
    var h := ControlIndex(x);
    WrongPlacesFound(rx, f, x, high, low);
    WrongCheck(rx, f, x, high, low);
  }

  /** The codes of the other refusals: no start flag, no frame type, no end flag where the length says, and
      a source address of neither two nor four bytes.  What a frame without an information field is refused
      for is in `FrameTranslated`. */
  lemma RefusalCodes(rx: seq<Byte>, segment: Segment, collected: seq<Byte>)
    ensures var t := Translate(rx, segment, collected);
            && (At(rx, 0) != 0x7E ==> t.ret == -9)
            && (At(rx, 0) == 0x7E && !(0xA0 <= At(rx, 1) < 0xB0) ==> t.ret == -8)
            && (StartsFrame(rx) && At(rx, DeclaredSize(rx) - 1) != 0x7E ==> t.ret == -7)
    ensures forall x :: CarriesHeader(FrameIn(rx), x) && |x.source| != 2 && |x.source| != 4 ==> Translate(rx, segment, collected).ret == -3
  {
    hide CarriesHeader, DestinationEnd, SourceEnd, LogicalAt, PhysicalAt, DeclaredSize, Deliver, HeaderFits;
    forall x | CarriesHeader(FrameIn(rx), x) && |x.source| != 2 && |x.source| != 4
      ensures Translate(rx, segment, collected).ret == -3
    {
      PlacesFound(rx, FrameIn(rx), x);
      SourceInside(FrameIn(rx), x);
    }
  }

  lemma SourceInside(f: seq<Byte>, x: Frame)
    requires CarriesHeader(f, x)
    ensures |f| >= ControlIndex(x) + 4
  {
    hide Checked, IsAddress;
  }

  lemma WrongPlacesFound(rx: seq<Byte>, f: seq<Byte>, x: Frame, high: Byte, low: Byte)
    requires CarriesHeader(f, x) && HasField(f, x) && f[ControlIndex(x) + 1 := high][ControlIndex(x) + 2 := low] <= rx
    ensures DeclaredSize(rx) == |f| && StartsFrame(rx) && At(rx, |f| - 1) == 0x7E
    ensures DestinationEnd(rx) == 2 + |x.destination| && SourceEnd(rx) == ControlIndex(x) - 1 && |f| >= ControlIndex(x) + 6
  {
    hide Checked, IsAddress;
    var n, h := |x.destination|, ControlIndex(x);
    var wrong := f[h + 1 := high][h + 2 := low];
    FormatOf(wrong, rx);
    assert rx[3..3 + n] == f[3..3 + n] && rx[3 + n..h] == f[3 + n..h];
    AddressFound(rx, 3, x.destination, |f|);
    AddressFound(rx, 3 + n, x.source, |f|);
  }

  lemma WrongCheck(rx: seq<Byte>, f: seq<Byte>, x: Frame, high: Byte, low: Byte)
    requires CarriesHeader(f, x) && f[ControlIndex(x) + 1 := high][ControlIndex(x) + 2 := low] <= rx
    requires (high, low) != (f[ControlIndex(x) + 1], f[ControlIndex(x) + 2])
    ensures !HeaderFits(rx, ControlIndex(x) - 1)
  {
    hide Checked, IsAddress, Fcs16.Fcs;
    var h := ControlIndex(x);
    var data := f[1..h + 1];
    assert f[1..h + 3] == data + [f[h + 1], f[h + 2]];
    CheckedPair(data, f[h + 1], f[h + 2]);
    assert Slice(rx, 1, h + 1) == data;
    DifferentWords(f[h + 1], f[h + 2], high, low);
  }

  lemma DifferentWords(a: Byte, b: Byte, c: Byte, d: Byte)
    requires (a, b) != (c, d)
    ensures Word(a, b) != Word(c, d)
  {
  }

  // ---------- replies in several segments ----------

  /** One segment: the buffer it is read from, its own bytes, and what they carry; or one that is refused. */
  datatype Part = Read(rx: seq<Byte>, f: seq<Byte>, x: Frame) | Refused(rx: seq<Byte>)

  ghost predicate IsPart(p: Part) {
    match p
    case Read(rx, f, x) => CarriesHeader(f, x) && f <= rx && (|x.source| == 2 || |x.source| == 4) && HasField(f, x)
    case Refused(rx) => StartsFrame(rx) && !Accepts(rx)
  }

  /** Frames of which all but the last announce another. */
  predicate Follow(parts: seq<Part>) {
    parts != [] && forall i :: 0 <= i < |parts| ==> StartsFrame(parts[i].rx) && IsSegmented(parts[i].rx) == (i < |parts| - 1)
  }

  /** A reply in segments: any of them may be refused but the last. */
  ghost predicate AreSegments(parts: seq<Part>) {
    Follow(parts) && (forall i :: 0 <= i < |parts| ==> IsPart(parts[i])) && parts[|parts| - 1].Read?
  }

  function BodyOf(p: Part): seq<Byte> { if p.Read? then Body(p.x) else [] }

  /** The information of the parts in order, each without its first three bytes. */
  function Bodies(parts: seq<Part>): seq<Byte> {
    if parts == [] then [] else BodyOf(parts[0]) + Bodies(parts[1..])
  }

  /** The converter called once for each part; the last call counts. */
  function Assemble(parts: seq<Part>, segment: Segment, collected: seq<Byte>): Translation
    requires parts != []
  {
    var t := Translate(parts[0].rx, segment, collected);
    if |parts| == 1 then t else Assemble(parts[1..], t.segment, t.collected)
  }

  /** A complete answer over all that was collected. */
  function WholeAnswer(source: seq<Byte>, destination: seq<Byte>, all: seq<Byte>): seq<Byte>
    requires (|source| == 2 || |source| == 4) && destination != []
  {
    ReplyHeader(UpperOf(source), destination[|destination| - 1] / 2, LowerOf(source), 3 + PhysicalSize(LowerOf(source)) + |all|) + all
  }

  lemma MiddleCollects(p: Part, segment: Segment, collected: seq<Byte>)
    requires IsPart(p) && IsSegmented(p.rx)
    ensures var t := Translate(p.rx, segment, collected);
            && t.ret <= 0 && t.segment == Middle && t.collected == collected + BodyOf(p) && t.after == Poll
            && t.accepted == p.Read? && t.reply == Nothing
  {
    hide CarriesHeader, Translate, UpperOf, LowerOf, HasField;
    match p {
      case Read(rx, f, x) =>
        PlacesFound(rx, f, x);
        FrameTranslated(rx, f, x, Middle, collected, Poll);
        SegmentTranslated(rx, segment, collected);
      case Refused(rx) =>
        AcceptedAnyway(rx, segment, collected);
        TranslateKeeps(rx, segment, collected);
        assert collected + [] == collected;
    }
  }

  lemma SegmentTranslated(rx: seq<Byte>, segment: Segment, collected: seq<Byte>)
    requires StartsFrame(rx)
    ensures IsSegmented(rx) ==> Translate(rx, segment, collected) == TranslateBody(rx, Middle, collected, Poll)
    ensures !IsSegmented(rx) && segment == Middle ==> Translate(rx, segment, collected) == TranslateBody(rx, Last, collected, Wait)
  {
    hide TranslateBody;
  }

  lemma LastDelivers(p: Part, collected: seq<Byte>)
    requires IsPart(p) && p.Read? && !IsSegmented(p.rx)
    ensures p.x.destination != []
    ensures var g := WholeAnswer(p.x.source, p.x.destination, collected + Body(p.x));
            |g| >= 3 && Translate(p.rx, Middle, collected) == Translation(|g|, Last, [], Wait, true, Reply(g[..|g| - 3]))
  {
    hide CarriesHeader, Translate, UpperOf, LowerOf, ReplyHeader, HasField;
    FrameSize(p.f, p.x);
    PlacesFound(p.rx, p.f, p.x);
    FrameTranslated(p.rx, p.f, p.x, Last, collected, Wait);
    SegmentTranslated(p.rx, Middle, collected);
  }

  lemma {:induction false} SegmentsFollow(parts: seq<Part>, collected: seq<Byte>)
    requires AreSegments(parts)
    ensures var last := parts[|parts| - 1].x;
            (|last.source| == 2 || |last.source| == 4) && last.destination != [] &&
            var g := WholeAnswer(last.source, last.destination, collected + Bodies(parts));
            |g| >= 3 && Assemble(parts, Middle, collected) == Translation(|g|, Last, [], Wait, true, Reply(g[..|g| - 3]))
    decreases |parts|
  {
    hide IsPart, Translate, WholeAnswer, StartsFrame, IsSegmented, BodyOf;
    var p := parts[0];
    LastSource(parts);
    if |parts| == 1 {
      assert parts[1..] == [] && BodyOf(p) + [] == BodyOf(p);
      BodyOfRead(p);
      LastDelivers(p, collected);
    } else {
      MiddleCollects(p, Middle, collected);
      TailIsSegments(parts);
      SegmentsFollow(parts[1..], collected + BodyOf(p));
      assert collected + BodyOf(p) + Bodies(parts[1..]) == collected + Bodies(parts);
    }
  }

  lemma BodyOfRead(p: Part)
    requires p.Read?
    ensures BodyOf(p) == Body(p.x)
  {
  }

  lemma LastSource(parts: seq<Part>)
    requires AreSegments(parts)
    ensures var last := parts[|parts| - 1].x; |last.source| == 2 || |last.source| == 4
  {
    hide CarriesHeader, HasField, Accepts, StartsFrame, IsSegmented;
    assert IsPart(parts[|parts| - 1]);
  }

  lemma TailIsSegments(parts: seq<Part>)
    requires AreSegments(parts) && |parts| >= 2
    ensures AreSegments(parts[1..])
  {
    hide IsPart, StartsFrame, IsSegmented;
    var tail := parts[1..];
    assert forall i :: 0 <= i < |tail| ==> tail[i] == parts[i + 1];
  }

  /** Any number of segments, in whatever state of the collection: the converter's last call sends the
      answer over what was already collected and then the segments' bodies in order, without its last
      three bytes, and leaves nothing collected.  Refused segments are missing from it. */
  lemma SegmentsAssembled(parts: seq<Part>, segment: Segment, collected: seq<Byte>)
    requires AreSegments(parts) && |parts| >= 2
    ensures var last := parts[|parts| - 1].x;
            (|last.source| == 2 || |last.source| == 4) && last.destination != [] &&
            var g := WholeAnswer(last.source, last.destination, collected + Bodies(parts));
            |g| >= 3 && Assemble(parts, segment, collected) == Translation(|g|, Last, [], Wait, true, Reply(g[..|g| - 3]))
  {
    hide IsPart, Translate, WholeAnswer, StartsFrame, IsSegmented, BodyOf;
    var p := parts[0];
    MiddleCollects(p, segment, collected);
    TailIsSegments(parts);
    SegmentsFollow(parts[1..], collected + BodyOf(p));
    assert collected + BodyOf(p) + Bodies(parts[1..]) == collected + Bodies(parts);
  }

  /** Called in the middle of a reply or on more than one segment, the converter ends with an answer over
      what was collected before and the bodies.  Its length field counts three bytes more than are sent
      behind the first eight. */
  lemma SegmentsAnswered(parts: seq<Part>, segment: Segment, collected: seq<Byte>)
    requires AreSegments(parts) && (|parts| >= 2 || segment == Middle) && |collected| + |Bodies(parts)| < 65000
    ensures var t, last, all := Assemble(parts, segment, collected), parts[|parts| - 1].x, collected + Bodies(parts);
            && t.accepted && t.reply.Reply? && last.destination != [] && (|last.source| == 2 || |last.source| == 4)
            && t.segment != Middle && t.collected == [] && t.after == Wait
            && var g := WholeAnswer(last.source, last.destination, all);
            && IsAnswer(g, UpperOf(last.source), last.destination[|last.destination| - 1] / 2, LowerOf(last.source), all)
            && DeclaredLength(g) == |g| - 8
            && t.reply.bytes == g[..|g| - 3] && |t.reply.bytes| == 8 + DeclaredLength(t.reply.bytes) - 3
  {
    hide IsPart, StartsFrame, IsSegmented, Translate, Assemble, UpperOf, LowerOf, IsAnswer, Bodies;
    var last, all := parts[|parts| - 1].x, collected + Bodies(parts);
    if |parts| >= 2 { SegmentsAssembled(parts, segment, collected); } else { SegmentsFollow(parts, collected); }
    HalvesFit(last.source);
    HeaderIsRead(UpperOf(last.source), last.destination[|last.destination| - 1] / 2, LowerOf(last.source),
                 3 + PhysicalSize(LowerOf(last.source)) + |all|, all);
  }

  /** A last segment that is refused leaves its predecessors' bytes behind: the next reply in segments
      begins with them. */
  lemma RefusedLastStays(rx: seq<Byte>, collected: seq<Byte>, parts: seq<Part>)
    requires StartsFrame(rx) && !IsSegmented(rx) && !Translate(rx, Middle, collected).accepted
    requires AreSegments(parts) && |parts| >= 2
    ensures var t := Translate(rx, Middle, collected);
            var last := parts[|parts| - 1].x;
            && t.segment == Last && t.collected == collected && t.after == Wait && t.reply == Nothing
            && (|last.source| == 2 || |last.source| == 4) && last.destination != []
            && var g := WholeAnswer(last.source, last.destination, collected + Bodies(parts));
            |g| >= 3 && Assemble(parts, t.segment, t.collected).reply == Reply(g[..|g| - 3])
  {
    hide IsPart, Follow, TranslateBody, WholeAnswer, Assemble;
    TranslateKeeps(rx, Middle, collected);
    RefusedLastSegment(rx, collected);
    SegmentsAssembled(parts, Translate(rx, Middle, collected).segment, collected);
  }

  lemma RefusedLastSegment(rx: seq<Byte>, collected: seq<Byte>)
    requires StartsFrame(rx) && !IsSegmented(rx)
    ensures Translate(rx, Middle, collected).segment == Last
  {
  }
}
