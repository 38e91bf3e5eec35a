/** PDUs whose one length byte is not in the short form: what the peer makes of them. */
module ApduLongForms {
  import opened Bytes
  import opened ApduTypes
  import opened ApduParsing
  import opened ApduPrinting
  import opened ApduAgreement

  /** A PDU begins with its protocol version, or with its context name. */
  predicate BeginsAsPdu(body: seq<Byte>) {
    |body| >= 4 && (body[..4] == [0x80, 2, 2, body[3]] || body[..4] == [0xA1, 0x09, 0x06, 0x07])
  }

  /** The length that `k` length bytes stand for if they are the first bytes of a PDU's body. */
  function ApparentLength(body: seq<Byte>, k: nat): nat
    requires BeginsAsPdu(body)
  {
    if body[0] == 0x80 then (if k == 1 then 0x80 else if k == 2 then 0x8002 else if k == 3 then 0x0202 else 0x0200 + (body[3] as nat))
    else if k == 1 then 0xA1 else if k == 2 then 0xA109 else if k == 3 then 0x0906 else 0x0607
  }

  lemma LongCount(s: Settings, n: Byte, body: seq<Byte>, l: Locals)
    requires BeginsAsPdu(body) && n > 0x80
    ensures n > 0x84 ==> ObjectCount(s, [n] + body, l) == Return(InvalidParameter, s, l)
    ensures 0x80 < n <= 0x84 ==> ObjectCount(s, [n] + body, l) == Next(s, body[n - 0x80..], l)
    ensures 0x80 < n <= 0x84 ==>
              CountValue([n] + body) == if n == 0x81 then body[0] else Word(body[n - 0x80 - 2], body[n - 0x80 - 1])
  {
    var b := [n] + body;
    assert forall i :: 0 <= i < |body| ==> b[i + 1] == body[i];
    if n <= 0x84 { assert b[1 + (n - 0x80)..] == body[n - 0x80..]; }
  }

  lemma FirstBytes(body: seq<Byte>)
    requires BeginsAsPdu(body)
    ensures (body[0] == 0x80 && body[1] == 2 && body[2] == 2) || (body[0] == 0xA1 && body[1] == 9 && body[2] == 6 && body[3] == 7)
  {
    assert body[..4][0] == body[0] && body[..4][1] == body[1] && body[..4][2] == body[2] && body[..4][3] == body[3];
  }

  lemma ApparentWord(body: seq<Byte>, k: nat)
    requires BeginsAsPdu(body) && 1 <= k <= 4
    ensures ApparentLength(body, k) == if k == 1 then body[0] else Word(body[k - 2], body[k - 1])
  {
    FirstBytes(body);
  }

  /** Read as a long form, the length byte takes the first bytes of the body for a length: above 0x84 that
      is refused, up to there it is too much or passed over without looking at it again. */
  lemma LongFormRead(s: Settings, body: seq<Byte>, command: Byte, decipher: Decipher)
    requires |s.sourceSystemTitle| == 8 && BeginsAsPdu(body) && |body| % 256 > 0x80
    ensures var o, l, k := ParsePdu(s, Framed(if s.server then 0x60 else 0x61, body), command, decipher), START.(command := command), |body| % 256 - 0x80;
            o == if k > 4 then Outcome(InvalidParameter, s, l)
                 else if ApparentLength(body, k) > |body| - k then Outcome(OutOfMemory, s, l)
                 else AfterFields(Fields(s, body[k..], l, decipher))
  {
    hide Fields, Framed, ObjectCount, CountValue, BeginsAsPdu, ApparentLength;
    FramedTail(if s.server then 0x60 else 0x61, body);
    LongCount(s, Lo(|body|), body, START.(command := command));
    if |body| % 256 <= 0x84 { ApparentWord(body, |body| % 256 - 0x80); }
  }

  // ---------- unknown fields ----------

  /** The tags that the parser passes over. */
  predicate IsUnknown(tag: Byte) {
    !(0xA1 <= tag <= 0xAA) && tag != 0x8A && tag != 0x88 && tag != 0x8B && tag != 0x89 && tag != 0xAC && tag != 0xBE && tag != 0x80
  }

  lemma PassedOver(s: Settings, tag: Byte, skipped: seq<Byte>, more: seq<Byte>, l: Locals, decipher: Decipher)
    requires |s.sourceSystemTitle| == 8 && IsUnknown(tag) && |skipped| < 256
    ensures Fields(s, [tag, |skipped|] + skipped + more, l, decipher) == Fields(s, more, l, decipher)
  {
    var x := [tag, |skipped|] + skipped;
    UnknownRead(s, tag, |skipped|, skipped + more, l, decipher);
    assert x + more == [tag, |skipped|] + (skipped + more);
    OneField(s, x, more, l, decipher, s, l);
  }

  lemma UnknownRead(s: Settings, tag: Byte, n: Byte, rest: seq<Byte>, l: Locals, decipher: Decipher)
    requires |s.sourceSystemTitle| == 8 && IsUnknown(tag)
    ensures Field(s, [tag, n] + rest, l, decipher) == Next(s, Skip(rest, n), l)
  {
    var b := [tag, n] + rest;
    assert b[1..] == [n] + rest && ([n] + rest)[1..] == rest;
  }

  lemma PassedToEnd(s: Settings, tag: Byte, n: Byte, rest: seq<Byte>, l: Locals, decipher: Decipher)
    requires |s.sourceSystemTitle| == 8 && IsUnknown(tag) && |rest| <= n
    ensures Fields(s, [tag, n] + rest, l, decipher) == Next(s, [], l)
  {
    hide Field;
    UnknownRead(s, tag, n, rest, l, decipher);
  }

  /** The fields of a PDU from the second byte of its protocol version on: two of them are passed over, and
      then as many bytes behind the context name as its id says. */
  lemma NamePassedOver(s: Settings, version: Byte, id: Byte, rest: seq<Byte>, l: Locals, decipher: Decipher)
    requires |s.sourceSystemTitle| == 8 && (id == 1 || id == 2) && |rest| >= id
    ensures Fields(s, [2, 2, version] + ([0xA1, 0x09, 0x06, 0x07] + CONTEXT_OID + [id]) + rest, l, decipher) == Fields(s, rest[id..], l, decipher)
  {
    hide Fields;
    var skipped, last := [0x07, 0x60, 0x85, 0x74, 0x05, 0x08], [0x01, id] + rest;
    PassedOver(s, 2, [version, 0xA1], [0x09, 0x06] + skipped + last, l, decipher);
    PassedOver(s, 9, skipped, last, l, decipher);
    PassedOver(s, 1, rest[..id], rest[id..], l, decipher);
    assert [0x01, id] + rest == [0x01, |rest[..id]|] + rest[..id] + rest[id..];
    assert [2, 2, version] + ([0xA1, 0x09, 0x06, 0x07] + CONTEXT_OID + [id]) + rest
        == [2, 2] + [version, 0xA1] + ([0x09, 0x06] + skipped + last);
  }

  // ---------- requests ----------

  lemma AarqBegins(c: Settings)
    requires NameBytes(c).Pdu?
    ensures BeginsAsPdu(AarqBody(c)) && (AarqBody(c)[0] == 0x80 <==> c.protocolVersion != 0)
  {
    hide AuthenticationBytes, RequestInformationBytes;
    NameBegins(c);
    var n, b := NameBytes(c).bytes, AarqBody(c);
    assert b[..4] == n[..4] && b[0] == n[0];
  }

  lemma NameBegins(s: Settings)
    requires NameBytes(s).Pdu?
    ensures BeginsAsPdu(NameBytes(s).bytes) && (NameBytes(s).bytes[0] == 0x80 <==> s.protocolVersion != 0)
  {
  }

  lemma RequestSizeBound(c: Settings)
    requires c.authentication != AUTH_NONE ==> |CallingValue(c)| < 256
    ensures RequestSize(c) < 319
  {
  }

  /** The bytes of an AARQ behind its names. */
  function Behind(c: Settings): seq<Byte> { CallingTitleBytes(c) + (AuthenticationBytes(c) + RequestInformationBytes(c)) }

  lemma VersionedBody(c: Settings)
    requires !IsCiphered(c) && NameBytes(c).Pdu? && c.protocolVersion != 0
    ensures AarqBody(c)[1..] == [2, 2, c.protocolVersion] + ([0xA1, 0x09, 0x06, 0x07] + CONTEXT_OID + [ContextId(c)]) + Behind(c)
  {
    hide AuthenticationBytes, RequestInformationBytes, CallingTitleBytes;
    assert CallingInvocationBytes(c) == [];
    VersionedRegroup(ProtocolVersionBytes(c), [2, 2, c.protocolVersion], ContextBytes(c), CallingTitleBytes(c), AuthenticationBytes(c), RequestInformationBytes(c));
  }

  lemma VersionedRegroup(p: seq<Byte>, q: seq<Byte>, x: seq<Byte>, t: seq<Byte>, a: seq<Byte>, u: seq<Byte>)
    requires p == [0x80] + q
    ensures (p + x + t + [] + a + u)[1..] == q + x + (t + (a + u))
  {
  }

  /** Without a title the authentication follows, and is passed over to the end with all behind it. */
  lemma AuthenticationPassedOver(s: Settings, c: Settings, id: Byte, u: seq<Byte>, l: Locals, decipher: Decipher)
    requires |s.sourceSystemTitle| == 8 && c.authentication != AUTH_NONE && (id == 1 || id == 2)
    requires 70 <= |CallingValue(c)| < 110 && |CallingValue(c)| + |u| <= 100
    ensures |AuthenticationBytes(c) + u| >= 2
    ensures Fields(s, (AuthenticationBytes(c) + u)[id..], l, decipher) == Next(s, [], l)
  {
    hide Fields;
    var value := CallingValue(c);
    var rest := [Lo(|value|)] + value + u;
    AuthenticationShape(c, u);
    if id == 1 {
      PassedOver(s, 2, [0x80, 0x8B, 7, 0x60, 0x85, 0x74, 0x05], [0x08, 2, c.authentication, 0xAC] + ([2 + |value|, 0x80] + rest), l, decipher);
      PassedOver(s, 8, [c.authentication, 0xAC], [2 + |value|, 0x80] + rest, l, decipher);
      PassedToEnd(s, 2 + |value|, 0x80, rest, l, decipher);
    } else {
      PassedToEnd(s, 7, 0x80, (AuthenticationBytes(c) + u)[4..], l, decipher);
    }
  }

  lemma AuthenticationShape(c: Settings, u: seq<Byte>)
    requires c.authentication != AUTH_NONE && |CallingValue(c)| < 110
    ensures var value, b := CallingValue(c), AuthenticationBytes(c) + u;
            var rest := [Lo(|value|)] + value + u;
            && |b| >= 4 && |b| == 17 + |value| + |u|
            && b[1..] == [2, 7] + [0x80, 0x8B, 7, 0x60, 0x85, 0x74, 0x05] + ([0x08, 2, c.authentication, 0xAC] + ([2 + |value|, 0x80] + rest))
            && [0x08, 2, c.authentication, 0xAC] + ([2 + |value|, 0x80] + rest) == [0x08, 2] + [c.authentication, 0xAC] + ([2 + |value|, 0x80] + rest)
            && b[2..] == [7, 0x80] + b[4..]
  {
    var value := CallingValue(c);
    var rest := [Lo(|value|)] + value + u;
    AuthenticationRegroup(c, u);
    ShapeOfBytes(AuthenticationBytes(c) + u, c.authentication, 2 + |value|, rest);
  }

  lemma AuthenticationRegroup(c: Settings, u: seq<Byte>)
    requires c.authentication != AUTH_NONE && |CallingValue(c)| < 110
    ensures var value := CallingValue(c);
            AuthenticationBytes(c) + u == [0x8A, 2, 7, 0x80, 0x8B, 7] + MECHANISM_OID + [c.authentication] + ([0xAC, 2 + |value|, 0x80] + ([Lo(|value|)] + value + u))
  {
    var value := CallingValue(c);
    assert CallingValueBytes(c) == [0xAC, 2 + |value|, 0x80] + ([Lo(|value|)] + value);
    FourJoined(MechanismBytes(c), [0xAC, 2 + |value|, 0x80], [Lo(|value|)] + value, u);
  }

  lemma FourJoined(m: seq<Byte>, h: seq<Byte>, x: seq<Byte>, u: seq<Byte>)
    ensures m + (h + x) + u == m + (h + (x + u))
  {
  }

  lemma ShapeOfBytes(b: seq<Byte>, name: Byte, n: Byte, rest: seq<Byte>)
    requires b == [0x8A, 2, 7, 0x80, 0x8B, 7] + MECHANISM_OID + [name] + ([0xAC, n, 0x80] + rest)
    ensures |b| == 16 + |rest|
    ensures b[1..] == [2, 7] + [0x80, 0x8B, 7, 0x60, 0x85, 0x74, 0x05] + ([0x08, 2, name, 0xAC] + ([n, 0x80] + rest))
    ensures [0x08, 2, name, 0xAC] + ([n, 0x80] + rest) == [0x08, 2] + [name, 0xAC] + ([n, 0x80] + rest)
    ensures b[2..] == [7, 0x80] + b[4..]
  {
    var more := [n, 0x80] + rest;
    assert [0xAC, n, 0x80] + rest == [0xAC] + more;
    var head, tail := [0x8A], [2, 7] + [0x80, 0x8B, 7, 0x60, 0x85, 0x74, 0x05] + [0x08, 2, name, 0xAC];
    assert [0x8A, 2, 7, 0x80, 0x8B, 7] + MECHANISM_OID + [name] + [0xAC] == head + tail;
    Reassociated([0x8A, 2, 7, 0x80, 0x8B, 7] + MECHANISM_OID + [name], [0xAC], more);
    Reassociated(head, tail, more);
    Reassociated([2, 7] + [0x80, 0x8B, 7, 0x60, 0x85, 0x74, 0x05], [0x08, 2, name, 0xAC], more);
    assert [0x08, 2, name, 0xAC] == [0x08, 2] + [name, 0xAC];
    Behind2(b, head, tail, more);
  }

  lemma Reassociated(x: seq<Byte>, y: seq<Byte>, z: seq<Byte>)
    ensures x + (y + z) == x + y + z
  {
  }

  lemma Behind2(b: seq<Byte>, head: seq<Byte>, tail: seq<Byte>, more: seq<Byte>)
    requires |head| == 1 && |tail| >= 3 && tail[1] == 7 && tail[2] == 0x80 && b == head + (tail + more)
    ensures b[1..] == tail + more && b[2..] == [7, 0x80] + b[4..]
  {
  }

  /** What a server makes of an AARQ of 129 bytes with a protocol version, of which it takes the first two
      bytes for a length. */
  function Misread(c: Settings, v: Settings, l: Locals, decipher: Decipher): Outcome
    requires |v.sourceSystemTitle| == 8
  {
    if c.authentication != AUTH_HIGH_GMAC then Finish(v, l)
    else if c.useLogicalNames then
      AfterFields(Fields(v, Take(c.systemTitle, 8)[3..] + (AuthenticationBytes(c) + RequestInformationBytes(c)), l, decipher))
    else if v.sourceSystemTitle == Zeros(8) then
      Outcome(Ok, v.(authentication := AUTH_HIGH_GMAC), l.(result := PERMANENT_REJECTED, diagnostic := DIAGNOSTIC_TITLE_NOT_RECOGNIZED))
    else Outcome(InvalidParameter, v.(authentication := AUTH_HIGH_GMAC), l)
  }

  lemma TitlePassedOver(c: Settings, v: Settings, l: Locals, decipher: Decipher)
    requires PlainPair(c, v) && c.authentication == AUTH_HIGH_GMAC && !l.ciphered && 64 < |CallingValue(c)|
    ensures |Behind(c)| >= 2
    ensures AfterFields(Fields(v, Behind(c)[ContextId(c)..], l, decipher)) == Misread(c, v, l, decipher)
  {
    hide Fields, AuthenticationBytes, RequestInformationBytes;
    var t, more := Take(c.systemTitle, 8), AuthenticationBytes(c) + RequestInformationBytes(c);
    if c.useLogicalNames {
      PassedOver(v, 0x0A, [0x08] + t[..3], t[3..] + more, l, decipher);
      assert Behind(c)[1..] == [0x0A, 4] + ([0x08] + t[..3]) + (t[3..] + more);
    } else {
      PassedOver(v, 4, t, more, l, decipher);
      assert Behind(c)[2..] == [4, 8] + t + more;
      AuthenticationStage(v, c, RequestInformationBytes(c), l, decipher);
    }
  }

  lemma VersionMisread(c: Settings, v: Settings, l: Locals, decipher: Decipher)
    requires PlainPair(c, v) && !l.ciphered && RequestSize(c) == 129 && c.protocolVersion != 0 && NameBytes(c).Pdu?
    ensures AfterFields(Fields(v, AarqBody(c)[1..], l, decipher)) == Misread(c, v, l, decipher)
  {
    hide Fields, AuthenticationBytes, RequestInformationBytes, Behind, Misread, Finish;
    VersionedBody(c);
    RequestLengthsAreRight(c);
    BehindSize(c);
    NamePassedOver(v, c.protocolVersion, ContextId(c), Behind(c), l, decipher);
    if c.authentication == AUTH_HIGH_GMAC {
      TitlePassedOver(c, v, l, decipher);
    } else {
      AuthenticationPassedOver(v, c, ContextId(c), RequestInformationBytes(c), l, decipher);
      NoTitle(c, v, l, decipher);
    }
  }

  lemma NoTitle(c: Settings, v: Settings, l: Locals, decipher: Decipher)
    requires !IsCiphered(c) && c.authentication != AUTH_HIGH_GMAC && |v.sourceSystemTitle| == 8
    ensures Behind(c) == AuthenticationBytes(c) + RequestInformationBytes(c) && Misread(c, v, l, decipher) == Finish(v, l)
  {
    hide AuthenticationBytes, RequestInformationBytes;
    var more := AuthenticationBytes(c) + RequestInformationBytes(c);
    assert [] + more == more;
  }

  /** Such a request has an authentication, whose value takes up most of it. */
  lemma BehindSize(c: Settings)
    requires !IsCiphered(c) && !c.server && RequestSize(c) == 129 && c.protocolVersion != 0
    ensures c.authentication != AUTH_NONE && 66 <= |CallingValue(c)| <= 79 && |Behind(c)| >= 2
    ensures c.authentication != AUTH_HIGH_GMAC ==> |CallingValue(c)| + |RequestInformationBytes(c)| <= 100 && |CallingValue(c)| >= 70
    ensures ContextId(c) == if c.useLogicalNames then 1 else 2
  {
    hide InitiateRequestBytes;
    RequestLengthsAreRight(c);
  }

  /** A plain AARQ that is not in the short form: most are refused before any field of it is read, and
      change nothing at the server.  Of 129 bytes with a protocol version it is misread. */
  lemma LongRequestRead(c: Settings, v: Settings, request: seq<Byte>, command: Byte, decipher: Decipher, encipher: Encipher)
    requires PlainPair(c, v) && Aarq(c, encipher) == Pdu(request) && !IsShort(request)
    ensures 129 <= RequestSize(c) <= 255
    ensures var o, l := ParsePdu(v, request, command, decipher), START.(command := command);
            o == if RequestSize(c) > 0x84 then Outcome(InvalidParameter, v, l)
                 else if RequestSize(c) != 129 || c.protocolVersion == 0 then Outcome(OutOfMemory, v, l)
                 else Misread(c, v, l, decipher)
  {
    hide ParsePdu, Aarq, Framed, NameBytes, AuthenticationBytes, RequestInformationBytes, BeginsAsPdu, RequestSize, Misread, Fields;
    RequestIsShort(c, request, encipher);
    RequestSizeBound(c);
    AarqIsFramed(c, encipher);
    FramedSize(0x60, AarqBody(c));
    AarqBegins(c);
    LongFormRead(v, AarqBody(c), command, decipher);
    ApparentLengths(AarqBody(c));
    if RequestSize(c) == 129 && c.protocolVersion != 0 { VersionMisread(c, v, START.(command := command), decipher); }
  }

  lemma ApparentLengths(body: seq<Byte>)
    requires BeginsAsPdu(body)
    ensures forall k :: 1 <= k <= 4 ==> (if k == 1 && body[0] == 0x80 then ApparentLength(body, k) == 128 else ApparentLength(body, k) > 128)
    ensures ApparentLength(body, 1) == if body[0] == 0x80 then 128 else 161
  {
    FirstBytes(body);
  }

  /** A client whose password fills its AARQ up to 129 bytes. */
  const LONG_PASSWORD := Settings(
    server := false, useLogicalNames := true, authentication := AUTH_LOW, password := Zeros(79), ctoSChallenge := [], stoCChallenge := [],
    sourceSystemTitle := Zeros(8), systemTitle := [], security := SECURITY_NONE, suite := 0, dedicatedKey := None, userId := USER_ID_UNUSED,
    protocolVersion := 0x84, qualityOfService := 0, dlmsVersion := 6, maxPduSize := 1024, maxServerPduSize := 1024,
    proposedConformance := 0x1000, negotiatedConformance := 0, expectedPolicy := NO_EXPECTATION, expectedSuite := NO_EXPECTATION,
    expectedCounter := None, expectedClientTitle := None)

  /** Its request is one the server would accept; it is accepted unread, and nothing of it is learned. */
  lemma AcceptedUnread(v: Settings, command: Byte, decipher: Decipher, encipher: Encipher) returns (request: seq<Byte>)
    requires v.server && v.useLogicalNames && |v.sourceSystemTitle| == 8 && v.maxServerPduSize < 65536
    requires v.security == SECURITY_NONE && PolicyFits(v)
    ensures Acceptable(v, LONG_PASSWORD) && Aarq(LONG_PASSWORD, encipher) == Pdu(request) && |request| == 131
    ensures ParsePdu(v, request, command, decipher) == Outcome(Ok, v, START.(command := command))
    ensures v.password != LONG_PASSWORD.password || v.authentication != AUTH_LOW ==> Learned(v, LONG_PASSWORD) != v
  {
    hide ParsePdu, Learned, Aarq, PlainPair, RequestSize, Acceptable, Misread, Finish, IsShort, PolicyFits;
    var c := LONG_PASSWORD;
    LongPassword(v, encipher);
    request := Aarq(c, encipher).bytes;
    ShortSize(request);
    RequestIsShort(c, request, encipher);
    LongRequestRead(c, v, request, command, decipher, encipher);
    UnreadFinish(c, v, START.(command := command), decipher);
  }

  lemma ShortSize(pdu: seq<Byte>)
    ensures |pdu| == 131 ==> !IsShort(pdu)
  {
  }

  lemma LongPassword(v: Settings, encipher: Encipher)
    requires v.server && v.useLogicalNames && |v.sourceSystemTitle| == 8 && v.maxServerPduSize < 65536 && PolicyFits(v)
    ensures PlainPair(LONG_PASSWORD, v) && Acceptable(v, LONG_PASSWORD) && RequestSize(LONG_PASSWORD) == 129
    ensures Aarq(LONG_PASSWORD, encipher).Pdu?
    ensures Learned(v, LONG_PASSWORD).password == LONG_PASSWORD.password && Learned(v, LONG_PASSWORD).authentication == AUTH_LOW
  {
    hide Framed, AuthenticationBytes, RequestInformationBytes;
    LearnedFields(LONG_PASSWORD, v);
  }

  lemma UnreadFinish(c: Settings, v: Settings, l: Locals, decipher: Decipher)
    requires |v.sourceSystemTitle| == 8 && c.authentication != AUTH_HIGH_GMAC && v.security == SECURITY_NONE && PolicyFits(v)
    requires l.missing == NOTHING_MISSING && l.diagnostic == DIAGNOSTIC_NONE
    ensures Misread(c, v, l, decipher) == Outcome(Ok, v, l)
  {
    PlainFinish(v, l);
  }

  /** A server has learned an AARQ exactly if it is short and acceptable; of a client with GMAC and logical
      names that is not said, since its title is read for fields if the AARQ is misread. */
  lemma LearnedExactly(c: Settings, v: Settings, request: seq<Byte>, command: Byte, decipher: Decipher, encipher: Encipher)
    requires PlainPair(c, v) && Aarq(c, encipher) == Pdu(request) && Learned(v, c) != v
    requires c.authentication != AUTH_HIGH_GMAC || !c.useLogicalNames
    ensures ParsePdu(v, request, command, decipher) == Outcome(Ok, Learned(v, c), START.(command := command))
            <==> IsShort(request) && Acceptable(v, c)
  {
    hide ParsePdu, Aarq, Learned, Acceptable, PlainPair, IsShort, RequestSize;
    if IsShort(request) {
      AarqRoundTrip(c, v, request, command, decipher, encipher);
    } else {
      PairTitle(c, v);
      LongRequestRead(c, v, request, command, decipher, encipher);
    }
  }

  lemma PairTitle(c: Settings, v: Settings)
    requires PlainPair(c, v)
    ensures |v.sourceSystemTitle| == 8
  {
  }

  // ---------- answers ----------

  lemma AareBegins(v: Settings, result: Byte, diagnostic: Byte, e: seq<Byte>)
    requires NameBytes(v).Pdu?
    ensures BeginsAsPdu(AareBody(v, result, diagnostic, e)) && (AareBody(v, result, diagnostic, e)[0] == 0x80 <==> v.protocolVersion != 0)
  {
    hide ResponseInformationBytes, ServerChallengeBytes, RespondingTitleBytes, RespondingInvocationBytes, ResultBytes, DiagnosticBytes;
    NameBegins(v);
    var n, b := NameBytes(v).bytes, AareBody(v, result, diagnostic, e);
    assert b[..4] == n[..4] && b[0] == n[0];
  }

  /** The bytes of an AARE behind its diagnostic. */
  function Ending(v: Settings, e: seq<Byte>): seq<Byte> { RespondingTitleBytes(v) + (ServerChallengeBytes(v) + ResponseInformationBytes(v, e)) }

  lemma VersionedAnswer(v: Settings, result: Byte, diagnostic: Byte, e: seq<Byte>)
    requires v.server && !IsCiphered(v) && NameBytes(v).Pdu? && v.protocolVersion != 0
    ensures AareBody(v, result, diagnostic, e)[1..]
         == [2, 2, v.protocolVersion] + ([0xA1, 0x09, 0x06, 0x07] + CONTEXT_OID + [ContextId(v)])
            + (ResultBytes(result) + (DiagnosticBytes(diagnostic) + Ending(v, e)))
  {
    hide ResponseInformationBytes, ServerChallengeBytes, RespondingTitleBytes, ResultBytes, DiagnosticBytes;
    assert CallingTitleBytes(v) == [] && CallingInvocationBytes(v) == [] && RespondingInvocationBytes(v) == [];
    AnswerRegrouped(ProtocolVersionBytes(v), [2, 2, v.protocolVersion], ContextBytes(v), ResultBytes(result), DiagnosticBytes(diagnostic),
                    RespondingTitleBytes(v), ServerChallengeBytes(v), ResponseInformationBytes(v, e));
  }

  lemma AnswerRegrouped(p: seq<Byte>, q: seq<Byte>, x: seq<Byte>, r: seq<Byte>, d: seq<Byte>, t: seq<Byte>, h: seq<Byte>, u: seq<Byte>)
    requires p == [0x80] + q
    ensures (p + x + [] + [] + r + d + t + [] + h + u)[1..] == q + x + (r + (d + (t + (h + u))))
  {
  }

  /** What a client makes of an AARE of 129 bytes with a protocol version: it reads everything but the
      version, the context name and the result, which it takes for an acceptance. */
  function MisreadAnswer(c: Settings, v: Settings, diagnostic: Byte, e: seq<Byte>, l: Locals, decipher: Decipher): Outcome
    requires |c.sourceSystemTitle| == 8
  {
    var l1, c1 := l.(diagnostic := diagnostic % 0x80), TitledByServer(c, v);
    if v.authentication > AUTH_LAST_KNOWN then Outcome(InvalidTag, c1, l1)
    else AfterFields(AfterInformation(Challenged(c1, v), v, e, l1, decipher))
  }

  lemma ResultPassedOver(c: Settings, id: Byte, result: Byte, more: seq<Byte>, l: Locals, decipher: Decipher)
    requires |c.sourceSystemTitle| == 8 && (id == 1 || id == 2)
    ensures |ResultBytes(result) + more| >= 2
    ensures Fields(c, (ResultBytes(result) + more)[id..], l, decipher) == Fields(c, more, l, decipher)
  {
    hide Fields;
    if id == 1 {
      PassedOver(c, 3, [1, result], more, l, decipher);
      assert (ResultBytes(result) + more)[1..] == [3, 2] + [1, result] + more;
    } else {
      PassedOver(c, 2, [result], more, l, decipher);
      assert (ResultBytes(result) + more)[2..] == [2, 1] + [result] + more;
    }
  }

  lemma AnswerMisread(c: Settings, v: Settings, result: Byte, diagnostic: Byte, e: seq<Byte>, l: Locals, decipher: Decipher)
    requires PlainAnswer(c, v) && !l.ciphered && NameBytes(v).Pdu? && v.protocolVersion != 0
    ensures AfterFields(Fields(c, AareBody(v, result, diagnostic, e)[1..], l, decipher)) == MisreadAnswer(c, v, diagnostic, e, l, decipher)
  {
    hide Fields, Field, AfterInformation, ResponseInformationBytes, ServerChallengeBytes, RespondingTitleBytes, ResultBytes, DiagnosticBytes, Finish;
    var l1, c1 := l.(diagnostic := diagnostic % 0x80), TitledByServer(c, v);
    var u := ResponseInformationBytes(v, e);
    var behind := DiagnosticBytes(diagnostic) + Ending(v, e);
    VersionedAnswer(v, result, diagnostic, e);
    ResultPassedOver(c, ContextId(v), result, behind, l, decipher);
    NamePassedOver(c, v.protocolVersion, ContextId(v), ResultBytes(result) + behind, l, decipher);
    DiagnosticStage(c, diagnostic, Ending(v, e), l, decipher);
    AnswerTitleStage(c, v, ServerChallengeBytes(v) + u, l1, decipher);
    ChallengeStage(c1, v, u, l1, decipher);
    if v.authentication <= AUTH_LAST_KNOWN { InformationStage(Challenged(c1, v), v, e, l1, decipher); }
  }

  lemma DiagnosticStage(c: Settings, diagnostic: Byte, more: seq<Byte>, l: Locals, decipher: Decipher)
    requires |c.sourceSystemTitle| == 8 && !c.server
    ensures Fields(c, DiagnosticBytes(diagnostic) + more, l, decipher) == Fields(c, more, l.(diagnostic := diagnostic % 0x80), decipher)
  {
    hide Field;
    ReadsDiagnostic(c, diagnostic, more, l, decipher);
    OneField(c, DiagnosticBytes(diagnostic), more, l, decipher, c, l.(diagnostic := diagnostic % 0x80));
  }

  /** A plain AARE that is not in the short form, of up to 255 bytes, as it always is with error data of up
      to 60 bytes: most are refused before any field is read, and one length is misread. */
  lemma LongAnswerRead(c: Settings, v: Settings, result: Byte, diagnostic: Byte, e: seq<Byte>, answer: seq<Byte>,
                       command: Byte, asked: Byte, decipher: Decipher, encipher: Encipher)
    requires PlainAnswer(c, v) && Aare(v, result, diagnostic, e, command, encipher) == Pdu(answer) && !IsShort(answer)
    ensures |e| <= 60 ==> 129 <= AnswerSize(v, e) <= 255
    ensures AnswerSize(v, e) <= 255 ==>
              var o, l := ParsePdu(c, answer, asked, decipher), START.(command := asked);
              o == if AnswerSize(v, e) > 0x84 then Outcome(InvalidParameter, c, l)
                   else if AnswerSize(v, e) != 129 || v.protocolVersion == 0 then Outcome(OutOfMemory, c, l)
                   else MisreadAnswer(c, v, diagnostic, e, l, decipher)
  {
    hide ParsePdu, Aare, Framed, NameBytes, BeginsAsPdu, AnswerSize, MisreadAnswer, Fields, AareBody;
    AnswerIsShort(v, result, diagnostic, e, answer, command, encipher);
    AnswerSizeBound(c, v, e);
    AareIsFramed(v, result, diagnostic, e, command, encipher);
    var body := AareBody(v, result, diagnostic, e);
    FramedSize(0x61, body);
    AareBegins(v, result, diagnostic, e);
    LongFormRead(c, body, asked, decipher);
    ApparentLengths(body);
    if AnswerSize(v, e) == 129 && v.protocolVersion != 0 { AnswerMisread(c, v, result, diagnostic, e, START.(command := asked), decipher); }
  }

  lemma AnswerSizeBound(c: Settings, v: Settings, e: seq<Byte>)
    requires PlainAnswer(c, v)
    ensures |e| <= 60 ==> AnswerSize(v, e) < 385
  {
  }
}
