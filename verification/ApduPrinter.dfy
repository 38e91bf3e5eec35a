/** The printers of apdu.c as they run: bytes are appended to a buffer one by one and the length is
    patched in place.  Each is proved to append exactly the bytes of ApduPrinting. */
module ApduPrinter {
  import opened Bytes
  import opened ApduTypes
  import opened ApduParsing
  import opened ApduPrinting
  import opened Helpers

  // ---------- conformance ----------

  /** apdu_setConformanceToArray */
  method SetConformanceToArray(value: nat, data: ByteBuffer)
    modifies data
    ensures data.data == old(data.data) + ConformanceBytes(value) && data.position == old(data.position)
  {
    hide SwapBits;
    var v := value;
    var swapped := ReverseBits(v % 256);
    data.SetUInt8(swapped);
    v := v / 256;
    swapped := ReverseBits(v % 256);
    data.SetUInt8(swapped);
    v := v / 256;
    TwoBytesDown(value);
    swapped := ReverseBits(v % 256);
    data.SetUInt8(swapped);
  }

  lemma TwoBytesDown(v: nat)
    ensures v / 256 / 256 == v / 0x10000
  {
  }

  // ---------- names ----------

  method SetObjectIdentifier(data: ByteBuffer, last: Byte)
    requires last == 1 || last == 2
    modifies data
    ensures data.data == old(data.data) + (if last == 1 then CONTEXT_OID else MECHANISM_OID) && data.position == old(data.position)
  {
    data.SetUInt8(0x60);
    data.SetUInt8(0x85);
    data.SetUInt8(0x74);
    data.SetUInt8(0x05);
    data.SetUInt8(0x08);
    data.SetUInt8(last);
  }

  method GenerateProtocolVersion(settings: DlmsSettings, data: ByteBuffer)
    modifies data
    ensures data.data == old(data.data) + ProtocolVersionBytes(settings.View()) && data.position == old(data.position)
  {
    if settings.protocolVersion != 0 {
      data.SetUInt8(0x80);
      data.SetUInt8(2);
      data.SetUInt8(2);
      data.SetUInt8(settings.protocolVersion);
    }
  }

  method GenerateContext(settings: DlmsSettings, data: ByteBuffer)
    modifies data
    ensures data.data == old(data.data) + ContextBytes(settings.View()) && data.position == old(data.position)
  {
    var ciphered := settings.security != SECURITY_NONE;
    data.SetUInt8(0xA1);
    data.SetUInt8(0x09);
    data.SetUInt8(0x06);
    data.SetUInt8(0x07);
    SetObjectIdentifier(data, 1);
    if settings.useLogicalNames {
      data.SetUInt8(if ciphered then 3 else 1);
    } else {
      data.SetUInt8(if ciphered then 4 else 2);
    }
  }

  method SetTitle(tag: Byte, title: seq<Byte>, data: ByteBuffer)
    modifies data
    ensures data.data == old(data.data) + ([tag, 0x0A, 0x04, 0x08] + Take(title, 8)) && data.position == old(data.position)
  {
    data.SetUInt8(tag);
    data.SetUInt8(2 + 8);
    data.SetUInt8(0x04);
    data.SetUInt8(8);
    data.Set(Take(title, 8));
  }

  method SetInvocationId(tag: Byte, userId: int, data: ByteBuffer)
    modifies data
    ensures data.data == old(data.data) + [tag, 3, 2, 1, userId % 256] && data.position == old(data.position)
  {
    data.SetUInt8(tag);
    data.SetUInt8(3);
    data.SetUInt8(2);
    data.SetUInt8(1);
    data.SetUInt8(userId % 256);
  }

  /** apdu_generateApplicationContextName: a printer that fails leaves what it had printed. */
  method GenerateApplicationContextName(settings: DlmsSettings, data: ByteBuffer) returns (code: Code)
    modifies data
    ensures match NameBytes(settings.View())
            case Failed(c) => code == c && c != Ok
            case Pdu(bytes) => code == Ok && data.data == old(data.data) + bytes
    ensures data.position == old(data.position) && old(data.data) <= data.data
  {
    ghost var s, before := settings.View(), data.data;
    GenerateProtocolVersion(settings, data);
    GenerateContext(settings, data);
    assert data.data == before + (ProtocolVersionBytes(s) + ContextBytes(s));
    var ciphered := settings.security != SECURITY_NONE;
    if !settings.server && (ciphered || settings.authentication == AUTH_HIGH_GMAC) {
      if settings.systemTitle == [] { return InvalidParameter; }
      SetTitle(0xA6, settings.systemTitle, data);
    }
    assert data.data == before + (ProtocolVersionBytes(s) + ContextBytes(s) + CallingTitleBytes(s));
    if !settings.server && settings.userId != USER_ID_UNUSED && ciphered {
      SetInvocationId(0xA9, settings.userId, data);
    }
    assert data.data == before + (ProtocolVersionBytes(s) + ContextBytes(s) + CallingTitleBytes(s) + CallingInvocationBytes(s));
    return Ok;
  }

  // ---------- AARQ ----------

  method SetMechanism(acse: Byte, tag: Byte, settings: DlmsSettings, data: ByteBuffer)
    modifies data
    ensures data.data == old(data.data) + ([acse, 2, 7, 0x80, tag, 7] + MECHANISM_OID + [settings.authentication])
    ensures data.position == old(data.position)
  {
    data.SetUInt8(acse);
    data.SetUInt8(2);
    data.SetUInt16(0x0780);
    data.SetUInt8(tag);
    data.SetUInt8(7);
    SetObjectIdentifier(data, 2);
    data.SetUInt8(settings.authentication);
  }

  /** A tag, two lengths and a value, as challenges and passwords are sent. */
  method SetValue(tag: Byte, value: seq<Byte>, data: ByteBuffer)
    modifies data
    ensures data.data == old(data.data) + ([tag, Lo(2 + |value|), 0x80, Lo(|value|)] + value) && data.position == old(data.position)
  {
    data.SetUInt8(tag);
    data.SetUInt8((2 + |value|) % 256);
    data.SetUInt8(0x80);
    data.SetUInt8(|value| % 256);
    data.Set(value);
  }

  lemma Join(before: seq<Byte>, x: seq<Byte>, y: seq<Byte>)
    ensures before + x + y == before + (x + y)
  {
  }

  method SetCallingMechanism(settings: DlmsSettings, data: ByteBuffer)
    modifies data
    ensures data.data == old(data.data) + MechanismBytes(settings.View()) && data.position == old(data.position)
  {
    if settings.authentication != AUTH_NONE || settings.security != SECURITY_NONE {
      SetMechanism(0x8A, 0x8B, settings, data);
    }
  }

  method SetCallingValue(settings: DlmsSettings, data: ByteBuffer)
    modifies data
    ensures data.data == old(data.data) + CallingValueBytes(settings.View()) && data.position == old(data.position)
  {
    if settings.authentication != AUTH_NONE {
      SetValue(0xAC, if settings.authentication == AUTH_LOW then settings.password else settings.ctoSChallenge, data);
    }
  }

  /** apdu_getAuthenticationString */
  method GetAuthenticationString(settings: DlmsSettings, data: ByteBuffer)
    modifies data
    ensures data.data == old(data.data) + AuthenticationBytes(settings.View()) && data.position == old(data.position)
  {
    hide MechanismBytes, CallingValueBytes;
    SetCallingMechanism(settings, data);
    SetCallingValue(settings, data);
    Join(old(data.data), MechanismBytes(settings.View()), CallingValueBytes(settings.View()));
  }

  predicate UsesDedicatedKey(s: Settings) { s.dedicatedKey.Some? && |s.dedicatedKey.value| == 16 }

  method SetDedicatedKey(settings: DlmsSettings, data: ByteBuffer)
    modifies data
    ensures data.data == old(data.data) + DedicatedKeyBytes(settings.View()) && data.position == old(data.position)
  {
    if settings.security == SECURITY_NONE || !UsesDedicatedKey(settings.View()) {
      data.SetUInt8(0);
    } else {
      data.SetUInt8(1);
      data.SetUInt8(|settings.dedicatedKey.value|);
      data.Set(settings.dedicatedKey.value);
    }
  }

  method SetQualityOfService(settings: DlmsSettings, data: ByteBuffer)
    modifies data
    ensures data.data == old(data.data) + QualityBytes(settings.View()) && data.position == old(data.position)
  {
    if settings.qualityOfService == 0 {
      data.SetUInt8(0);
    } else {
      data.SetUInt8(1);
      data.SetUInt8(settings.qualityOfService);
    }
  }

  method SetParameters(version: Byte, conformance: nat, pduSize: nat, data: ByteBuffer)
    modifies data
    ensures data.data == old(data.data) + ([version, 0x5F, 0x1F, 0x04, 0x00] + ConformanceBytes(conformance) + [Hi(pduSize), Lo(pduSize)])
    ensures data.position == old(data.position)
  {
    hide ConformanceBytes;
    data.SetUInt8(version);
    data.SetUInt8(0x5F);
    data.SetUInt8(0x1F);
    data.SetUInt8(0x04);
    data.SetUInt8(0x00);
    SetConformanceToArray(conformance, data);
    data.SetUInt16(pduSize);
  }

  /** apdu_getInitiateRequest */
  method GetInitiateRequest(settings: DlmsSettings, data: ByteBuffer)
    modifies data
    ensures data.data == old(data.data) + InitiateRequestBytes(settings.View()) && data.position == old(data.position)
  {
    hide ConformanceBytes, QualityBytes, DedicatedKeyBytes;
    data.SetUInt8(INITIATE_REQUEST);
    SetDedicatedKey(settings, data);
    data.SetUInt8(0);
    SetQualityOfService(settings, data);
    SetParameters(settings.dlmsVersion, settings.proposedConformance, settings.maxPduSize, data);
  }

  method SetOctetString(crypted: seq<Byte>, data: ByteBuffer)
    modifies data
    ensures data.data == old(data.data) + ([Lo(2 + |crypted|), 0x04, Lo(|crypted|)] + crypted) && data.position == old(data.position)
  {
    data.SetUInt8((2 + |crypted|) % 256);
    data.SetUInt8(0x04);
    data.SetUInt8(|crypted| % 256);
    data.Set(crypted);
  }

  lemma Prepend(before: seq<Byte>, head: Byte, rest: seq<Byte>, x: Byte, y: Byte, z: Byte, body: seq<Byte>)
    requires rest == [x, y, z] + body
    ensures before + [head] + rest == before + ([head, x, y, z] + body)
  {
  }

  /** The plain user information, with its constant lengths. */
  method SetPlainRequest(settings: DlmsSettings, data: ByteBuffer)
    modifies data
    ensures data.data == old(data.data) + ([0xBE, 0x10, 0x04, 0x0E] + InitiateRequestBytes(settings.View()))
    ensures data.position == old(data.position)
  {
    hide InitiateRequestBytes;
    data.SetUInt8(0xBE);
    data.SetUInt8(0x10);
    data.SetUInt8(0x04);
    data.SetUInt8(0x0E);
    GetInitiateRequest(settings, data);
  }

  /** The initiate request, ciphered under the command that the conformance and the keys call for. */
  method CipherRequest(settings: DlmsSettings, encipher: Encipher) returns (outcome: Enciphered)
    ensures outcome == encipher(RequestCommand(settings.View()), InitiateRequestBytes(settings.View()))
  {
    hide InitiateRequestBytes, HasGeneralProtection;
    var cmd: Byte := 0x21;
    var crypted := new ByteBuffer([]);
    GetInitiateRequest(settings, crypted);
    assert crypted.data == InitiateRequestBytes(settings.View());
    if HasGeneralProtection(settings.proposedConformance) {
      cmd := if !UsesDedicatedKey(settings.View()) then 0xDB else 0xDC;
    }
    assert cmd == RequestCommand(settings.View());
    outcome := encipher(cmd, crypted.data);
  }

  /** apdu_generateUserInformation */
  method GenerateUserInformation(settings: DlmsSettings, data: ByteBuffer, encipher: Encipher) returns (code: Code)
    modifies data
    ensures match RequestInformation(settings.View(), encipher)
            case Failed(c) => code == c && c != Ok
            case Pdu(bytes) => code == Ok && data.data == old(data.data) + bytes
    ensures data.position == old(data.position)
  {
    hide InitiateRequestBytes, RequestCommand;
    if settings.security == SECURITY_NONE {
      SetPlainRequest(settings, data);
      return Ok;
    }
    data.SetUInt8(0xBE);
    var outcome := CipherRequest(settings, encipher);
    match outcome {
      case NotCiphered(c) =>
        return c;
      case Ciphered(bytes) =>
        SetOctetString(bytes, data);
        InformationJoins(old(data.data), bytes, data.data);
        return Ok;
    }
  }

  /** The byte at `offset` is patched with the number of bytes that follow it. */
  method PatchLength(data: ByteBuffer, offset: nat, ghost before: seq<Byte>, ghost tag: Byte, ghost body: seq<Byte>)
    requires offset == |before| + 1 && data.data == before + ([tag, 0] + body)
    modifies data
    ensures data.data == before + Framed(tag, body) && data.position == old(data.position)
  {
    data.SetUInt8ByIndex(offset, (|data.data| - offset - 1) % 256);
  }

  /** apdu_generateAarq */
  method GenerateAarq(settings: DlmsSettings, data: ByteBuffer, encipher: Encipher) returns (code: Code)
    modifies data
    ensures match Aarq(settings.View(), encipher)
            case Failed(c) => code == c && c != Ok
            case Pdu(bytes) => code == Ok && data.data == old(data.data) + bytes
    ensures data.position == old(data.position)
  {
    hide AuthenticationBytes, RequestInformation, NameBytes, Framed;
    ghost var s, before := settings.View(), data.data;
    var offset := |data.data| + 1;
    data.SetUInt8(0x60);
    data.SetUInt8(0);
    code := GenerateApplicationContextName(settings, data);
    if code != Ok { return; }
    GetAuthenticationString(settings, data);
    code := GenerateUserInformation(settings, data, encipher);
    if code != Ok { return; }
    ghost var body := NameBytes(s).bytes + AuthenticationBytes(s) + RequestInformation(s, encipher).bytes;
    assert data.data == before + ([0x60, 0] + body);
    PatchLength(data, offset, before, 0x60, body);
  }

  // ---------- AARE ----------

  method SetResult(result: Byte, data: ByteBuffer)
    modifies data
    ensures data.data == old(data.data) + ResultBytes(result) && data.position == old(data.position)
  {
    data.SetUInt8(0xA2);
    data.SetUInt8(3);
    data.SetUInt8(2);
    data.SetUInt8(1);
    data.SetUInt8(result);
  }

  method SetDiagnostic(diagnostic: Byte, data: ByteBuffer)
    modifies data
    ensures data.data == old(data.data) + DiagnosticBytes(diagnostic) && data.position == old(data.position)
  {
    var d := diagnostic;
    data.SetUInt8(0xA3);
    data.SetUInt8(5);
    if d / 0x80 == 0 {
      data.SetUInt8(0xA1);
    } else {
      data.SetUInt8(0xA2);
      d := d % 0x80;
    }
    data.SetUInt8(3);
    data.SetUInt8(2);
    data.SetUInt8(1);
    data.SetUInt8(d);
  }

  /** apdu_getUserInformation, into an empty buffer as its caller does. */
  method GetUserInformation(settings: DlmsSettings, data: ByteBuffer, command: Byte, encipher: Encipher) returns (code: Code)
    requires data.data == []
    modifies data
    ensures match ResponseBody(settings.View(), command, encipher)
            case Failed(c) => code == c && c != Ok
            case Pdu(bytes) => code == Ok && data.data == bytes
  {
    hide ConformanceBytes, QualityBytes;
    data.SetUInt8(INITIATE_RESPONSE);
    SetQualityOfService(settings, data);
    SetParameters(0x06, settings.negotiatedConformance, settings.maxPduSize, data);
    data.SetUInt16(if settings.useLogicalNames then 0x0007 else 0xFA00);
    assert data.data == InitiateResponseBytes(settings.View());
    if settings.security != SECURITY_NONE {
      var cmd := if command == 0xDC then 0xDC else if command == 0xDB then 0xDB else 0x28;
      match encipher(cmd, data.data) {
        case NotCiphered(c) => return c;
        case Ciphered(bytes) => data.data := bytes;
      }
    }
    return Ok;
  }

  /** The body of the user information: the error if there is one, else the response. */
  method CollectResponse(settings: DlmsSettings, errorData: seq<Byte>, command: Byte, encipher: Encipher) returns (code: Code, tmp: ByteBuffer)
    ensures fresh(tmp)
    ensures match AnswerBody(settings.View(), errorData, command, encipher)
            case Failed(c) => code == c && c != Ok
            case Pdu(bytes) => code == Ok && tmp.data == bytes
  {
    hide ResponseBody;
    code := Ok;
    tmp := new ByteBuffer([]);
    if errorData != [] {
      tmp.Set(errorData);
    } else {
      code := GetUserInformation(settings, tmp, command, encipher);
    }
  }

  method SetResponseInformation(settings: DlmsSettings, data: ByteBuffer, result: Byte, errorData: seq<Byte>, command: Byte, encipher: Encipher)
    returns (code: Code)
    modifies data
    ensures match ResponseInformation(settings.View(), result, errorData, command, encipher)
            case Failed(c) => code == c && c != Ok
            case Pdu(bytes) => code == Ok && data.data == old(data.data) + bytes
    ensures data.position == old(data.position)
  {
    hide AnswerBody;
    if result == ACCEPTED || settings.security == SECURITY_NONE {
      data.SetUInt8(0xBE);
      var tmp;
      code, tmp := CollectResponse(settings, errorData, command, encipher);
      if code != Ok { return; }
      SetOctetString(tmp.data, data);
      InformationJoins(old(data.data), tmp.data, data.data);
    }
    return Ok;
  }

  lemma InformationJoins(before: seq<Byte>, body: seq<Byte>, after: seq<Byte>)
    requires after == before + [0xBE] + ([Lo(2 + |body|), 0x04, Lo(|body|)] + body)
    ensures after == before + ([0xBE, Lo(2 + |body|), 0x04, Lo(|body|)] + body)
  {
    Prepend(before, 0xBE, [Lo(2 + |body|), 0x04, Lo(|body|)] + body, Lo(2 + |body|), 0x04, Lo(|body|), body);
  }

  method SetServerTitleAndId(settings: DlmsSettings, data: ByteBuffer)
    modifies data
    ensures data.data == old(data.data) + (RespondingTitleBytes(settings.View()) + RespondingInvocationBytes(settings.View()))
    ensures data.position == old(data.position)
  {
    if settings.authentication == AUTH_HIGH_GMAC || settings.security != SECURITY_NONE {
      SetTitle(0xA4, settings.systemTitle, data);
    }
    assert data.data == old(data.data) + RespondingTitleBytes(settings.View());
    if settings.userId != USER_ID_UNUSED && settings.security != SECURITY_NONE {
      SetInvocationId(0xA7, settings.userId, data);
    }
  }

  method SetServerChallenge(settings: DlmsSettings, data: ByteBuffer)
    requires settings.authentication > AUTH_LOW
    modifies data
    ensures data.data == old(data.data) + ServerChallengeBytes(settings.View()) && data.position == old(data.position)
  {
    SetMechanism(0x88, 0x89, settings, data);
    SetValue(0xAA, settings.stoCChallenge, data);
  }

  /** Result, diagnostic, title and invocation id. */
  function AnswerFields(s: Settings, result: Byte, diagnostic: Byte): seq<Byte> {
    ResultBytes(result) + (DiagnosticBytes(diagnostic) + (RespondingTitleBytes(s) + RespondingInvocationBytes(s)))
  }

  method SetAnswerFields(settings: DlmsSettings, data: ByteBuffer, result: Byte, diagnostic: Byte)
    modifies data
    ensures data.data == old(data.data) + AnswerFields(settings.View(), result, diagnostic) && data.position == old(data.position)
  {
    hide ResultBytes, DiagnosticBytes, RespondingTitleBytes, RespondingInvocationBytes;
    SetResult(result, data);
    SetDiagnostic(diagnostic, data);
    SetServerTitleAndId(settings, data);
  }

  lemma AppendStep(before: seq<Byte>, frame: seq<Byte>, head: seq<Byte>, x: seq<Byte>)
    ensures before + (frame + head) + x == before + (frame + (head + x))
  {
  }

  lemma AnswerRegroup(n: seq<Byte>, r: seq<Byte>, d: seq<Byte>, t: seq<Byte>, i: seq<Byte>, x: seq<Byte>, u: seq<Byte>)
    ensures n + (r + (d + (t + i))) + x + u == n + r + d + t + i + x + u
  {
  }

  /** apdu_generateAARE */
  method GenerateAare(settings: DlmsSettings, data: ByteBuffer, result: Byte, diagnostic: Byte, errorData: seq<Byte>,
                      command: Byte, encipher: Encipher) returns (code: Code)
    modifies data
    ensures match Aare(settings.View(), result, diagnostic, errorData, command, encipher)
            case Failed(c) => code == c && c != Ok
            case Pdu(bytes) => code == Ok && data.data == old(data.data) + bytes
    ensures data.position == old(data.position)
  {
    hide NameBytes, Framed, ResultBytes, DiagnosticBytes, RespondingTitleBytes, RespondingInvocationBytes, ResponseInformation;
    ghost var s, before := settings.View(), data.data;
    var offset := |data.data|;
    data.SetUInt8(0x61);
    data.SetUInt8(0);
    assert data.data == before + [0x61, 0];
    code := GenerateApplicationContextName(settings, data);
    if code != Ok { return; }
    ghost var body := NameBytes(s).bytes;
    assert data.data == before + ([0x61, 0] + body);
    AppendStep(before, [0x61, 0], body, AnswerFields(s, result, diagnostic));
    SetAnswerFields(settings, data, result, diagnostic);
    body := body + AnswerFields(s, result, diagnostic);
    if settings.authentication > AUTH_LOW {
      if settings.stoCChallenge == [] { return InvalidParameter; }
      AppendStep(before, [0x61, 0], body, ServerChallengeBytes(s));
      SetServerChallenge(settings, data);
    }
    body := body + ServerChallengeBytes(s);
    assert data.data == before + ([0x61, 0] + body);
    ghost var joined := data.data;
    code := SetResponseInformation(settings, data, result, errorData, command, encipher);
    if code != Ok { return; }
    ghost var information := ResponseInformation(s, result, errorData, command, encipher).bytes;
    assert data.data == joined + information;
    AppendStep(before, [0x61, 0], body, information);
    body := body + information;
    AnswerRegroup(NameBytes(s).bytes, ResultBytes(result), DiagnosticBytes(diagnostic), RespondingTitleBytes(s),
                  RespondingInvocationBytes(s), ServerChallengeBytes(s), information);
    PatchLength(data, offset + 1, before, 0x61, body);
  }
}
