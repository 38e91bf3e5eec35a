/** The frames that the gateway sends to a meter: what they are as bytes, the methods that fill them in,
    and what a receiver reads in them. */
module GatewayFrames {
  import opened Bytes
  import opened Hdlc
  import Fcs16

  // ---------- a request of the head-end ----------
  // Version (2), source (2), destination (2), APDU length (2), header, network, length of the physical
  // address, physical address, APDU.  What was not received reads as zero.

  function AddLen(d: seq<Byte>): Byte { At(d, 10) }

  predicate HasAddress(d: seq<Byte>) { AddLen(d) == 1 || AddLen(d) == 2 }

  function FrameType(d: seq<Byte>): Byte { At(d, 11 + AddLen(d)) }

  function Logical(d: seq<Byte>): nat { Word(At(d, 4), At(d, 5)) }

  function Physical(d: seq<Byte>): nat { if AddLen(d) == 2 then Word(At(d, 11), At(d, 12)) else At(d, 11) }

  function Client(d: seq<Byte>): Byte { At(d, 3) }

  function Apdu(d: seq<Byte>): seq<Byte> { if |d| > 11 + AddLen(d) then d[11 + AddLen(d)..] else [] }

  /** The APDU of a request begins with a tag. */
  predicate Begins(d: seq<Byte>, tag: Byte) { Apdu(d) != [] && Apdu(d)[0] == tag }

  /** The byte that the gateway looks at is the first of the APDU, or zero if there is none. */
  lemma FrameTypeBegins(d: seq<Byte>)
    ensures FrameType(d) == if Apdu(d) == [] then 0 else Apdu(d)[0]
    ensures forall tag: Byte :: tag != 0 ==> (FrameType(d) == tag <==> Begins(d, tag))
  {
  }

  /** A request as it is laid out: `front` is version and the upper source byte, `middle` the APDU length,
      the header and the network; the physical address has two bytes when wide. */
  function RequestBytes(front: seq<Byte>, client: Byte, logical: nat, middle: seq<Byte>, wide: bool, physical: nat, apdu: seq<Byte>): seq<Byte>
    requires |front| == 3 && |middle| == 4 && logical < 65536 && physical < if wide then 65536 else 256
  {
    front + [client, logical / 256, logical % 256] + middle + (if wide then [2, physical / 256, physical % 256] else [1, physical]) + apdu
  }

  /** Its parts are found again. */
  lemma RequestRead(front: seq<Byte>, client: Byte, logical: nat, middle: seq<Byte>, wide: bool, physical: nat, apdu: seq<Byte>)
    requires |front| == 3 && |middle| == 4 && logical < 65536 && physical < if wide then 65536 else 256
    ensures var d := RequestBytes(front, client, logical, middle, wide, physical, apdu);
            && HasAddress(d) && (AddLen(d) == 2 <==> wide) && Client(d) == client
            && Logical(d) == logical && Physical(d) == physical && Apdu(d) == apdu
  {
  }

  // ---------- the frames ----------

  const SNRM: Byte := 0x93
  const DISC: Byte := 0x53

  /** Seven address bits in the upper part of a byte. */
  function AddressByte(x: nat): Byte { x % 128 * 2 }

  /** A server address: each half in one byte or, when wide, in two. */
  function AddressBytes(wide: bool, logical: nat, physical: nat): (a: seq<Byte>)
    ensures |a| == if wide then 4 else 2
    ensures IsAddress(a)
  {
    if wide then [AddressByte(logical / 128), AddressByte(logical), AddressByte(physical / 128), AddressByte(physical) + 1]
    else [AddressByte(logical), AddressByte(physical) + 1]
  }

  function ClientByte(client: Byte): Byte { AddressByte(client) + 1 }

  /** Format type A and eleven bits of length. */
  function FormatBytes(size: nat): (b: seq<Byte>)
    requires size >= 2
    ensures |b| == 2
  {
    [0xA0 + (size - 2) % 2048 / 256, (size - 2) % 256]
  }

  /** Bytes followed by their FCS. */
  function WithFcs(data: seq<Byte>): (b: seq<Byte>)
    ensures |b| == |data| + 2
  {
    data + [Hi(Fcs16.Fcs(data)), Lo(Fcs16.Fcs(data))]
  }

  function HeaderBytes(size: nat, address: seq<Byte>, client: Byte, control: Byte): (b: seq<Byte>)
    requires size >= 2
    ensures |b| == 4 + |address|
  {
    FormatBytes(size) + address + [ClientByte(client), control]
  }

  const LLC: seq<Byte> := [0xE6, 0xE6, 0x00]

  /** A frame without information. */
  function ShortFrame(address: seq<Byte>, client: Byte, control: Byte): (f: seq<Byte>)
    ensures |f| == 8 + |address|
  {
    [0x7E] + WithFcs(HeaderBytes(8 + |address|, address, client, control)) + [0x7E]
  }

  /** A frame with an APDU behind the LLC bytes. */
  function InformationFrame(address: seq<Byte>, client: Byte, control: Byte, apdu: seq<Byte>): (f: seq<Byte>)
    ensures |f| == 13 + |address| + |apdu|
  {
    [0x7E] + WithFcs(WithFcs(HeaderBytes(13 + |address| + |apdu|, address, client, control)) + LLC + apdu) + [0x7E]
  }

  function ServerAddress(d: seq<Byte>): seq<Byte> { AddressBytes(AddLen(d) == 2, Logical(d), Physical(d)) }

  /** A frame, or the code of the converter that refused the request. */
  datatype Built = Refused(code: int) | Built(frame: seq<Byte>)

  /** GW2HDLC_Frame_Convertor */
  function Information(d: seq<Byte>, control: Byte): Built {
    if !HasAddress(d) then Refused(-1)
    else if Logical(d) > 16383 then Refused(-2)
    else Built(InformationFrame(ServerAddress(d), Client(d), control, Apdu(d)))
  }

  /** GW2HDLC_SNRM_Generator; the code is -1 as an unsigned byte. */
  function Snrm(d: seq<Byte>): Built {
    if !HasAddress(d) then Refused(255) else Built(ShortFrame(ServerAddress(d), Client(d), SNRM))
  }

  /** GW2HDLC_Poll_For_Remained_Data */
  function ReceiveReady(d: seq<Byte>, control: Byte): Built {
    if !HasAddress(d) then Refused(255) else Built(ShortFrame(ServerAddress(d), Client(d), control))
  }

  /** The address of a DISC frame: the logical address is kept in one byte. */
  function DiscAddress(d: seq<Byte>): seq<Byte> { AddressBytes(AddLen(d) == 2, Logical(d) % 256, Physical(d)) }

  /** GW2HDLC_DISC_Generator */
  function Disc(d: seq<Byte>): Built {
    if !HasAddress(d) then Refused(-1)
    else Built(ShortFrame(DiscAddress(d), Client(d), DISC))
  }

  // ---------- control bytes ----------

  /** Control_Byte for an information frame and for a receive-ready frame. */
  function InformationControl(rrr: Byte, sss: Byte): Byte { rrr % 8 * 32 + sss % 8 * 2 + 16 }
  function ReadyControl(rrr: Byte): Byte { rrr % 8 * 32 + 0x11 }

  /** N(R) and N(S) of a control byte. */
  function ReceiveNumber(control: Byte): nat { control / 32 }
  function SendNumber(control: Byte): nat { control / 2 % 8 }
  predicate IsInformation(control: Byte) { control % 2 == 0 }
  predicate IsReceiveReady(control: Byte) { control % 16 == 1 }

  lemma ControlDecodes(rrr: Byte, sss: Byte)
    ensures var c := InformationControl(rrr, sss);
            IsInformation(c) && ReceiveNumber(c) == rrr % 8 && SendNumber(c) == sss % 8 && c / 16 % 2 == 1
    ensures var c := ReadyControl(rrr); IsReceiveReady(c) && ReceiveNumber(c) == rrr % 8 && c / 16 % 2 == 1
  {
    Quotients(rrr % 8, sss % 8);
  }

  lemma Quotients(r: nat, s: nat)
    requires r < 8 && s < 8
    ensures (r * 32 + s * 2 + 16) / 32 == r && (r * 32 + s * 2 + 16) / 2 % 8 == s && (r * 32 + s * 2 + 16) / 16 % 2 == 1
    ensures (r * 32 + 0x11) / 32 == r && (r * 32 + 0x11) / 16 % 2 == 1
  {
    assert (r * 32 + s * 2 + 16) / 2 == r * 16 + s + 8;
    assert (r * 16 + s + 8) % 8 == s;
  }

  // ---------- addresses ----------

  /** The seven-bit parts of two address bytes. */
  function Joined(high: nat, low: nat): nat { high / 2 * 128 + low / 2 }

  /** The halves of a server address of two or four bytes. */
  function UpperOf(a: seq<Byte>): nat
    requires |a| == 2 || |a| == 4
  {
    if |a| == 2 then a[0] / 2 else Joined(a[0], a[1])
  }

  function LowerOf(a: seq<Byte>): nat
    requires |a| == 2 || |a| == 4
  {
    if |a| == 2 then a[1] / 2 else Joined(a[2], a[3])
  }

  /** What fits in the seven or fourteen bits of an address half. */
  function Capacity(wide: bool): nat { if wide then 16384 else 128 }

  lemma WideHalf(x: nat)
    ensures x / 128 % 128 * 128 + x % 128 == x % 16384
  {
  }

  lemma AddressDecodes(wide: bool, logical: nat, physical: nat)
    ensures var a := AddressBytes(wide, logical, physical);
            UpperOf(a) == logical % Capacity(wide) && LowerOf(a) == physical % Capacity(wide)
  {
    WideHalf(logical);
    WideHalf(physical);
  }

  // ---------- what a receiver reads ----------

  lemma WithFcsChecked(data: seq<Byte>)
    ensures Checked(WithFcs(data))
  {
    Fcs16.GoodResidue(data);
  }

  lemma FormatRead(size: nat)
    requires 2 <= size <= 2049
    ensures var b := FormatBytes(size); b[0] / 16 == 0xA && b[0] / 8 % 2 == 0 && Word(b[0] % 8, b[1]) == size - 2
  {
  }

  /** Where the parts of a frame are. */
  lemma FrameParts(f: seq<Byte>, format: seq<Byte>, address: seq<Byte>, client: Byte, control: Byte, h: Byte, l: Byte, rest: seq<Byte>)
    requires |format| == 2 && f == [0x7E] + (format + address + [client, control] + [h, l] + rest) + [0x7E]
    ensures var n := |address|;
            && |f| == 8 + n + |rest| && f[0] == 0x7E && f[|f| - 1] == 0x7E && f[1] == format[0] && f[2] == format[1]
            && f[3..3 + n] == address && f[3 + n..4 + n] == [client] && f[4 + n] == control
            && f[1..7 + n] == format + address + [client, control] + [h, l]
            && f[1..|f| - 1] == format + address + [client, control] + [h, l] + rest
            && f[7 + n..|f| - 1] == rest
  {
  }

  lemma ClientIsAddress(client: Byte)
    ensures IsAddress([ClientByte(client)])
  {
  }

  /** A receiver reads the SNRM, receive-ready and DISC frames. */
  lemma ShortFrameCarries(address: seq<Byte>, client: Byte, control: Byte)
    requires IsAddress(address) && |address| <= 4
    ensures Carries(ShortFrame(address, client, control), Frame(false, address, [ClientByte(client)], control, []))
  {
    hide Checked, IsAddress, FormatBytes, ClientByte;
    var size := 8 + |address|;
    var header := HeaderBytes(size, address, client, control);
    var n := Fcs16.Fcs(header);
    var f := ShortFrame(address, client, control);
    assert f == [0x7E] + (FormatBytes(size) + address + [ClientByte(client), control] + [Hi(n), Lo(n)] + []) + [0x7E];
    FrameParts(f, FormatBytes(size), address, ClientByte(client), control, Hi(n), Lo(n), []);
    WithFcsChecked(header);
    FormatRead(size);
    ClientIsAddress(client);
  }

  /** A receiver reads an information frame: its addresses, its control byte and, behind the LLC bytes,
      the APDU, with both checks good. */
  lemma InformationFrameCarries(address: seq<Byte>, client: Byte, control: Byte, apdu: seq<Byte>)
    requires IsAddress(address) && 13 + |address| + |apdu| <= 2049
    ensures Carries(InformationFrame(address, client, control, apdu), Frame(false, address, [ClientByte(client)], control, LLC + apdu))
  {
    hide Checked, IsAddress, FormatBytes, ClientByte;
    var size := 13 + |address| + |apdu|;
    var header := HeaderBytes(size, address, client, control);
    var n := Fcs16.Fcs(header);
    var body := WithFcs(header) + LLC + apdu;
    var m := Fcs16.Fcs(body);
    var f := InformationFrame(address, client, control, apdu);
    var rest := LLC + apdu + [Hi(m), Lo(m)];
    InformationShape(f, FormatBytes(size) + address + [ClientByte(client), control], n, m, apdu);
    FrameParts(f, FormatBytes(size), address, ClientByte(client), control, Hi(n), Lo(n), rest);
    WithFcsChecked(header);
    WithFcsChecked(body);
    FormatRead(size);
    ClientIsAddress(client);
    InformationPlace(f, 7 + |address|, apdu, m);
  }

  lemma InformationShape(f: seq<Byte>, header: seq<Byte>, n: nat, m: nat, apdu: seq<Byte>)
    requires f == [0x7E] + ((header + [Hi(n), Lo(n)] + LLC + apdu) + [Hi(m), Lo(m)]) + [0x7E]
    ensures f == [0x7E] + (header + [Hi(n), Lo(n)] + (LLC + apdu + [Hi(m), Lo(m)])) + [0x7E]
    ensures f[1..|f| - 1] == (header + [Hi(n), Lo(n)] + LLC + apdu) + [Hi(m), Lo(m)]
  {
  }

  lemma InformationPlace(f: seq<Byte>, h: nat, apdu: seq<Byte>, m: nat)
    requires |f| == h + |apdu| + 6 && f[h..|f| - 1] == LLC + apdu + [Hi(m), Lo(m)]
    ensures f[h..|f| - 3] == LLC + apdu
  {
    assert f[h..|f| - 3] == f[h..|f| - 1][..|apdu| + 3];
  }

  lemma Fits(x: nat, capacity: nat)
    requires capacity > 0
    ensures x % capacity == x <==> x < capacity
  {
  }

  /** The information frame of a request, read by a receiver: it is addressed to the server of the
      request as far as its address fits, and carries exactly the APDU. */
  lemma InformationReaches(d: seq<Byte>, control: Byte)
    requires Information(d, control).Built? && |Information(d, control).frame| <= 2049
    ensures var f, a := Information(d, control).frame, ServerAddress(d);
            && Carries(f, Frame(false, a, [ClientByte(Client(d))], control, LLC + Apdu(d)))
            && (UpperOf(a) == Logical(d) <==> Logical(d) < Capacity(AddLen(d) == 2))
            && (LowerOf(a) == Physical(d) <==> Physical(d) < Capacity(AddLen(d) == 2))
            && (ClientByte(Client(d)) / 2 == Client(d) <==> Client(d) < 128)
  {
    hide Carries, CarriesHeader, InformationFrame, AddressBytes, UpperOf, LowerOf;
    InformationFrameCarries(ServerAddress(d), Client(d), control, Apdu(d));
    AddressDecodes(AddLen(d) == 2, Logical(d), Physical(d));
    Fits(Logical(d), Capacity(AddLen(d) == 2));
    Fits(Physical(d), Capacity(AddLen(d) == 2));
    Fits(Client(d), 128);
  }

  /** Server and device number of seven or fourteen bits, seven to a byte above the extension bit, which
      the last byte has set. */
  function LineAddress(wide: bool, logical: nat, physical: nat): seq<Byte>
    requires logical < (if wide then 16384 else 128) && physical < if wide then 16384 else 128
  {
    if wide then [2 * (logical / 128), 2 * (logical % 128), 2 * (physical / 128), 2 * (physical % 128) + 1]
    else [2 * logical, 2 * physical + 1]
  }

  /** What a receiver reads when the addresses fit: the server and the client of the request, each part
      of an address shifted past the extension bit, and the APDU behind the LLC bytes. */
  lemma RequestOnTheLine(front: seq<Byte>, client: Byte, logical: nat, middle: seq<Byte>, wide: bool, physical: nat, apdu: seq<Byte>, control: Byte)
    requires |front| == 3 && |middle| == 4 && client < 128 && |apdu| <= 2032
    requires logical < (if wide then 16384 else 128) && physical < if wide then 16384 else 128
    ensures var built := Information(RequestBytes(front, client, logical, middle, wide, physical, apdu), control);
            var server := LineAddress(wide, logical, physical);
            built.Built? && Carries(built.frame, Frame(false, server, [2 * client + 1], control, [0xE6, 0xE6, 0x00] + apdu))
  {
    hide Carries, InformationFrame, Apdu, AddLen, Logical, Physical, Client, RequestBytes;
    RequestRead(front, client, logical, middle, wide, physical, apdu);
    AddressOnTheLine(wide, logical, physical);
    InformationFrameCarries(AddressBytes(wide, logical, physical), client, control, apdu);
  }

  lemma AddressOnTheLine(wide: bool, logical: nat, physical: nat)
    requires logical < (if wide then 16384 else 128) && physical < if wide then 16384 else 128
    ensures AddressBytes(wide, logical, physical) == LineAddress(wide, logical, physical)
  {
  }

  /** The DISC frame is addressed to the logical device of the request only if that fits in a byte. */
  lemma DiscReaches(d: seq<Byte>)
    requires Disc(d).Built?
    ensures Carries(Disc(d).frame, Frame(false, DiscAddress(d), [ClientByte(Client(d))], 0x53, []))
    ensures UpperOf(DiscAddress(d)) == Logical(d) <==> Logical(d) < if AddLen(d) == 2 then 256 else 128
  {
    var wide := AddLen(d) == 2;
    ShortFrameCarries(DiscAddress(d), Client(d), DISC);
    AddressDecodes(wide, Logical(d) % 256, Physical(d));
    DiscCapacity(Logical(d), wide);
  }

  lemma DiscCapacity(logical: nat, wide: bool)
    requires logical < 65536
    ensures logical % 256 % Capacity(wide) == logical <==> logical < if wide then 256 else 128
  {
    assert logical % 256 < 256;
    if wide { assert logical % 256 % 16384 == logical % 256; }
  }

  /** The receive-ready and SNRM frames reach the same server. */
  lemma ShortFramesReach(d: seq<Byte>, control: Byte)
    requires HasAddress(d)
    ensures Carries(ReceiveReady(d, control).frame, Frame(false, ServerAddress(d), [ClientByte(Client(d))], control, []))
    ensures Carries(Snrm(d).frame, Frame(false, ServerAddress(d), [ClientByte(Client(d))], 0x93, []))
  {
    ShortFrameCarries(ServerAddress(d), Client(d), control);
    ShortFrameCarries(ServerAddress(d), Client(d), SNRM);
  }

  // ---------- the methods that fill in the frames ----------

  /** The destination address, from index 3 on; `last` is its last index. */
  method SetAddress(mac: array<Byte>, wide: bool, logical: nat, physical: nat) returns (last: nat)
    requires mac.Length >= 8
    modifies mac
    ensures last == 2 + |AddressBytes(wide, logical, physical)| && mac[3..last + 1] == AddressBytes(wide, logical, physical)
    ensures forall i :: 0 <= i < mac.Length && !(3 <= i <= last) ==> mac[i] == old(mac[i])
    ensures mac[1..last + 1] == old(mac[1..3]) + AddressBytes(wide, logical, physical)
  {
    if wide {
      mac[3] := logical / 128 % 128 * 2;
      mac[4] := logical % 128 * 2;
      mac[5] := physical / 128 % 128 * 2;
      mac[6] := physical % 128 * 2 + 1;
      last := 6;
    } else {
      mac[3] := logical % 128 * 2;
      mac[4] := physical % 128 * 2 + 1;
      last := 4;
    }
  }

  /** The client and the control byte behind the destination address. */
  method SetControl(mac: array<Byte>, last: nat, d: seq<Byte>, control: Byte)
    requires 2 <= last && last + 2 < mac.Length
    modifies mac
    ensures mac[1..last + 3] == old(mac[1..last + 1]) + [ClientByte(Client(d)), control]
    ensures forall i :: 0 <= i < mac.Length && i != last + 1 && i != last + 2 ==> mac[i] == old(mac[i])
  {
    mac[last + 1] := At(d, 3) % 128 * 2 + 1;
    mac[last + 2] := control;
  }

  method SetFormat(mac: array<Byte>, size: nat)
    requires mac.Length >= 3 && size >= 2
    modifies mac
    ensures mac[1..3] == FormatBytes(size)
    ensures forall i :: 0 <= i < mac.Length && i != 1 && i != 2 ==> mac[i] == old(mac[i])
  {
    mac[1] := 0xA0 + (size - 2) % 2048 / 256;
    mac[2] := (size - 2) % 256;
  }

  /** A check over everything from index 1 through `last`, placed behind it. */
  method SetCheck(mac: array<Byte>, last: nat)
    requires last + 2 < mac.Length && last <= 0xFFFF
    modifies mac
    ensures mac[1..last + 3] == WithFcs(old(mac[1..last + 1]))
    ensures forall i :: 0 <= i < mac.Length && i != last + 1 && i != last + 2 ==> mac[i] == old(mac[i])
  {
    ghost var data := mac[1..last + 1];
    var fcs := Fcs16.CountCrc(mac, 1, last);
    assert mac[1..1 + last] == data;
    mac[last + 1] := fcs / 256 % 256;
    mac[last + 2] := fcs % 256;
    assert mac[1..last + 1] == data;
    assert mac[1..last + 3] == mac[1..last + 1] + [mac[last + 1], mac[last + 2]];
  }

  /** The generators of SNRM, receive-ready and DISC frames share all but the control byte and the code
      of a refusal. */
  method GenerateShort(d: seq<Byte>, logical: nat, control: Byte) returns (frame: seq<Byte>)
    requires HasAddress(d)
    ensures frame == ShortFrame(AddressBytes(AddLen(d) == 2, logical, Physical(d)), Client(d), control)
  {
    hide Fcs16.Fcs, WithFcs, FormatBytes, AddressBytes;
    ghost var address := AddressBytes(AddLen(d) == 2, logical, Physical(d));
    var size := if AddLen(d) == 2 then 8 + 4 else 8 + 2;
    var mac := new Byte[size](_ => 0);
    mac[0] := 0x7E;
    mac[size - 1] := 0x7E;
    SetFormat(mac, size);
    var last := SetAddress(mac, AddLen(d) == 2, logical, Physical(d));
    SetControl(mac, last, d, control);
    assert mac[1..last + 3] == HeaderBytes(size, address, Client(d), control);
    SetCheck(mac, last + 2);
    assert mac[0] == 0x7E && mac[size - 1] == 0x7E && size == last + 6;
    assert mac[..] == [mac[0]] + mac[1..last + 5] + [mac[size - 1]];
    frame := mac[..];
  }

  /** GW2HDLC_SNRM_Generator */
  method GenerateSnrm(d: seq<Byte>) returns (ret: int, frame: seq<Byte>)
    ensures match Snrm(d) case Refused(code) => ret == code && frame == [] case Built(f) => ret == 1 && frame == f
  {
    if AddLen(d) != 1 && AddLen(d) != 2 { return 255, []; }
    frame := GenerateShort(d, Logical(d), SNRM);
    return 1, frame;
  }

  /** GW2HDLC_Poll_For_Remained_Data */
  method PollForRemainedData(d: seq<Byte>, control: Byte) returns (ret: int, frame: seq<Byte>)
    ensures match ReceiveReady(d, control) case Refused(code) => ret == code && frame == [] case Built(f) => ret == 1 && frame == f
  {
    if AddLen(d) != 1 && AddLen(d) != 2 { return 255, []; }
    frame := GenerateShort(d, Logical(d), control);
    return 1, frame;
  }

  /** GW2HDLC_DISC_Generator */
  method GenerateDisc(d: seq<Byte>) returns (ret: int, frame: seq<Byte>)
    ensures match Disc(d) case Refused(code) => ret == code && frame == [] case Built(f) => ret == 1 && frame == f
  {
    if AddLen(d) != 1 && AddLen(d) != 2 { return -1, []; }
    frame := GenerateShort(d, Logical(d) % 256, DISC);
    return 1, frame;
  }

  /** GW2HDLC_Frame_Convertor, for requests whose frame fits in its 2048 bytes. */
  method ConvertInformation(d: seq<Byte>, control: Byte) returns (ret: int, frame: seq<Byte>)
    requires Information(d, control).Built? ==> |Information(d, control).frame| <= 2048
    ensures match Information(d, control) case Refused(code) => ret == code && frame == [] case Built(f) => ret == 1 && frame == f
  {
    hide Fcs16.Fcs, InformationFrame, AddressBytes, FormatBytes, IsAddress, Apdu, Logical, Physical, Client, ClientByte;
    if AddLen(d) != 1 && AddLen(d) != 2 { return -1, []; }
    if Logical(d) > 16383 { return -2, []; }
    ghost var address := ServerAddress(d);
    var mac := new Byte[2048](_ => 0);
    var last := SetHead(mac, d, control);
    var size := SetTail(mac, last, d, address);
    FinishInformation(mac, last + 2, size - 4, size, address, Client(d), control, Apdu(d));
    frame := mac[..size];
    return 1, frame;
  }

  /** APDU, end flag and format field. */
  method SetTail(mac: array<Byte>, last: nat, d: seq<Byte>, ghost address: seq<Byte>) returns (size: nat)
    requires last == 2 + |address| && 0 < |address| && 13 + |address| + |Apdu(d)| <= mac.Length
    requires mac[3..last + 1] == address && mac[last + 5..last + 8] == LLC
    modifies mac
    ensures size == 13 + |address| + |Apdu(d)|
    ensures mac[1..3] == FormatBytes(size) && mac[3..last + 1] == address && mac[size - 1] == 0x7E
    ensures mac[last + 5..last + 8] == LLC && mac[last + 8..size - 3] == Apdu(d)
    ensures mac[0] == old(mac[0]) && mac[last + 1] == old(mac[last + 1]) && mac[last + 2] == old(mac[last + 2])
  {
    hide Apdu, FormatBytes;
    var apduSize := CopyApdu(mac, last + 8, d);
    assert mac[3..last + 1] == address && mac[last + 5..last + 8] == LLC;
    size := 10 + (last - 2) + apduSize + 3;
    mac[size - 1] := 0x7E;
    assert mac[last + 8..size - 3] == Apdu(d);
    SetFormat(mac, size);
    assert mac[last + 8..size - 3] == Apdu(d);
  }

  /** Start flag, addresses, control byte and LLC bytes. */
  method SetHead(mac: array<Byte>, d: seq<Byte>, control: Byte) returns (last: nat)
    requires mac.Length >= 17 && HasAddress(d)
    modifies mac
    ensures last == 2 + |ServerAddress(d)| && mac[0] == 0x7E && mac[3..last + 1] == ServerAddress(d)
    ensures mac[last + 1] == ClientByte(Client(d)) && mac[last + 2] == control && mac[last + 5..last + 8] == LLC
  {
    hide AddressBytes, IsAddress;
    mac[0] := 0x7E;
    last := SetAddress(mac, AddLen(d) == 2, Logical(d), Physical(d));
    mac[last + 1] := At(d, 3) % 128 * 2 + 1;
    mac[last + 2] := control;
    mac[last + 5] := 0xE6;
    mac[last + 6] := 0xE6;
    mac[last + 7] := 0x00;
  }

  /** The APDU of a request, copied byte by byte to `start`. */
  method CopyApdu(mac: array<Byte>, start: nat, d: seq<Byte>) returns (apduSize: nat)
    requires start + |Apdu(d)| <= mac.Length
    modifies mac
    ensures apduSize == |Apdu(d)| && mac[start..start + apduSize] == Apdu(d)
    ensures forall i :: 0 <= i < mac.Length && !(start <= i < start + apduSize) ==> mac[i] == old(mac[i])
  {
    apduSize := 0;
    var k: nat := 11 + AddLen(d);
    while k < |d|
      invariant k == 11 + AddLen(d) + apduSize && apduSize <= |Apdu(d)| && (k <= |d| || apduSize == 0)
      invariant mac[start..start + apduSize] == Apdu(d)[..apduSize]
      invariant forall i :: 0 <= i < mac.Length && !(start <= i < start + apduSize) ==> mac[i] == old(mac[i])
    {
      assert d[k] == Apdu(d)[apduSize];
      mac[start + apduSize] := d[k];
      apduSize := apduSize + 1;
      k := k + 1;
    }
  }

  lemma Pieces(s: seq<Byte>, a: nat, b: nat, c: nat, d: nat)
    requires a <= b <= c <= d <= |s|
    ensures s[a..d] == s[a..b] + s[b..c] + s[c..d]
  {
  }

  /** Both checks of a frame whose other bytes are in place. */
  method FinishInformation(mac: array<Byte>, hcsCount: nat, fcsCount: nat, size: nat,
                           ghost address: seq<Byte>, ghost client: Byte, ghost control: Byte, ghost apdu: seq<Byte>)
    requires 0 < |address| && size == 13 + |address| + |apdu| && size <= mac.Length && size <= 0xFFFF
    requires hcsCount == |address| + 4 && fcsCount == size - 4
    requires mac[0] == 0x7E && mac[size - 1] == 0x7E && mac[1..3] == FormatBytes(size)
    requires mac[3..3 + |address|] == address && mac[3 + |address|] == ClientByte(client) && mac[4 + |address|] == control
    requires mac[7 + |address|..10 + |address|] == LLC && mac[10 + |address|..size - 3] == apdu
    modifies mac
    ensures mac[..size] == InformationFrame(address, client, control, apdu)
  {
    hide Fcs16.Fcs, WithFcs, FormatBytes, ClientByte;
    ghost var n := |address|;
    ghost var header := HeaderBytes(size, address, client, control);
    assert mac[1..hcsCount + 1] == mac[1..3] + mac[3..3 + n] + [mac[3 + n], mac[4 + n]];
    assert mac[1..hcsCount + 1] == header;
    ghost var llc, info := mac[7 + n..10 + n], mac[10 + n..size - 3];
    SetCheck(mac, hcsCount);
    assert mac[7 + n..10 + n] == llc;
    assert mac[10 + n..size - 3] == info;
    Pieces(mac[..], 1, hcsCount + 3, 10 + n, size - 3);
    assert mac[1..fcsCount + 1] == WithFcs(header) + LLC + apdu;
    SetCheck(mac, fcsCount);
    assert mac[1..fcsCount + 3] == WithFcs(WithFcs(header) + LLC + apdu);
    assert mac[..size] == [mac[0]] + mac[1..fcsCount + 3] + [mac[size - 1]];
  }
}
