/** The bytes that apdu.c prints: the AARQ of a client and the AARE of a server, field by field. */
module ApduPrinting {
  import opened Bytes
  import opened ApduTypes
  import opened ApduParsing
  import opened Helpers

  /** A printed PDU, or the code that stopped the printer. */
  datatype Printed = Failed(code: Code) | Pdu(bytes: seq<Byte>)

  // ---------- fields shared by both PDUs ----------

  /** apdu_setConformanceToArray */
  function ConformanceBytes(v: nat): (b: seq<Byte>)
    ensures |b| == 3
  {
    [SwapBits(v % 256), SwapBits(v / 0x100 % 256), SwapBits(v / 0x10000 % 256)]
  }

  function ProtocolVersionBytes(s: Settings): seq<Byte> {
    if s.protocolVersion != 0 then [0x80, 2, 2, s.protocolVersion] else []
  }

  function ContextId(s: Settings): Byte {
    if s.useLogicalNames then (if IsCiphered(s) then 3 else 1) else (if IsCiphered(s) then 4 else 2)
  }

  function ContextBytes(s: Settings): (b: seq<Byte>)
    ensures |b| == 11
  {
    [0xA1, 0x09, 0x06, 0x07] + CONTEXT_OID + [ContextId(s)]
  }

  predicate SendsCallingTitle(s: Settings) { !s.server && (IsCiphered(s) || s.authentication == AUTH_HIGH_GMAC) }

  function CallingTitleBytes(s: Settings): seq<Byte> {
    if SendsCallingTitle(s) then [0xA6, 0x0A, 0x04, 0x08] + Take(s.systemTitle, 8) else []
  }

  function CallingInvocationBytes(s: Settings): seq<Byte> {
    if !s.server && s.userId != USER_ID_UNUSED && IsCiphered(s) then [0xA9, 3, 2, 1, s.userId % 256] else []
  }

  /** apdu_generateApplicationContextName */
  function NameBytes(s: Settings): Printed {
    if SendsCallingTitle(s) && s.systemTitle == [] then Failed(InvalidParameter)
    else Pdu(ProtocolVersionBytes(s) + ContextBytes(s) + CallingTitleBytes(s) + CallingInvocationBytes(s))
  }

  function QualityBytes(s: Settings): seq<Byte> {
    if s.qualityOfService == 0 then [0] else [1, s.qualityOfService]
  }

  // ---------- AARQ ----------

  /** The secret a client sends: its password, or its challenge. */
  function CallingValue(s: Settings): seq<Byte> {
    if s.authentication == AUTH_LOW then s.password else s.ctoSChallenge
  }

  function MechanismBytes(s: Settings): seq<Byte> {
    if s.authentication != AUTH_NONE || IsCiphered(s)
    then [0x8A, 2, 7, 0x80, 0x8B, 7] + MECHANISM_OID + [s.authentication]
    else []
  }

  function CallingValueBytes(s: Settings): seq<Byte> {
    if s.authentication != AUTH_NONE
    then [0xAC, Lo(2 + |CallingValue(s)|), 0x80, Lo(|CallingValue(s)|)] + CallingValue(s)
    else []
  }

  function DedicatedKeyBytes(s: Settings): seq<Byte> {
    if IsCiphered(s) && s.dedicatedKey.Some? && |s.dedicatedKey.value| == 16
    then [1, 16] + s.dedicatedKey.value
    else [0]
  }

  /** apdu_getInitiateRequest */
  function InitiateRequestBytes(s: Settings): seq<Byte> {
    [INITIATE_REQUEST] + DedicatedKeyBytes(s) + [0] + QualityBytes(s)
    + [s.dlmsVersion, 0x5F, 0x1F, 0x04, 0x00] + ConformanceBytes(s.proposedConformance) + [Hi(s.maxPduSize), Lo(s.maxPduSize)]
  }

  /** The command under which a client ciphers its request. */
  function RequestCommand(s: Settings): Byte {
    if !HasGeneralProtection(s.proposedConformance) then 0x21
    else if s.dedicatedKey.Some? && |s.dedicatedKey.value| == 16 then 0xDC
    else 0xDB
  }

  /** The user information of a plain AARQ: the lengths are constants. */
  function RequestInformationBytes(s: Settings): seq<Byte> { [0xBE, 0x10, 0x04, 0x0E] + InitiateRequestBytes(s) }

  /** A body as user information, with its lengths. */
  function InformationBytes(body: seq<Byte>): seq<Byte> { [0xBE, Lo(2 + |body|), 0x04, Lo(|body|)] + body }

  /** apdu_generateUserInformation */
  function RequestInformation(s: Settings, encipher: Encipher): Printed {
    if !IsCiphered(s) then Pdu(RequestInformationBytes(s))
    else match encipher(RequestCommand(s), InitiateRequestBytes(s))
      case NotCiphered(code) => Failed(code)
      case Ciphered(bytes) => Pdu(InformationBytes(bytes))
  }

  /** apdu_getAuthenticationString */
  function AuthenticationBytes(s: Settings): seq<Byte> { MechanismBytes(s) + CallingValueBytes(s) }

  /** Tag, one length byte, body. */
  function Framed(tag: Byte, body: seq<Byte>): seq<Byte> { [tag, Lo(|body|)] + body }

  /** apdu_generateAarq */
  function Aarq(s: Settings, encipher: Encipher): Printed {
    match NameBytes(s)
    case Failed(code) => Failed(code)
    case Pdu(name) =>
      match RequestInformation(s, encipher)
      case Failed(code) => Failed(code)
      case Pdu(information) => Pdu(Framed(0x60, name + AuthenticationBytes(s) + information))
  }

  // ---------- AARE ----------

  function ResultBytes(result: Byte): seq<Byte> { [0xA2, 3, 2, 1, result] }

  function DiagnosticBytes(diagnostic: Byte): seq<Byte> {
    [0xA3, 5, if diagnostic < 0x80 then 0xA1 else 0xA2, 3, 2, 1, diagnostic % 0x80]
  }

  function RespondingTitleBytes(s: Settings): seq<Byte> {
    if s.authentication == AUTH_HIGH_GMAC || IsCiphered(s) then [0xA4, 0x0A, 0x04, 0x08] + Take(s.systemTitle, 8) else []
  }

  function RespondingInvocationBytes(s: Settings): seq<Byte> {
    if s.userId != USER_ID_UNUSED && IsCiphered(s) then [0xA7, 3, 2, 1, s.userId % 256] else []
  }

  function ServerChallengeBytes(s: Settings): seq<Byte> {
    if s.authentication > AUTH_LOW
    then [0x88, 2, 0x07, 0x80, 0x89, 7] + MECHANISM_OID + [s.authentication]
         + [0xAA, Lo(2 + |s.stoCChallenge|), 0x80, Lo(|s.stoCChallenge|)] + s.stoCChallenge
    else []
  }

  function VaaName(s: Settings): seq<Byte> { if s.useLogicalNames then [0x00, 0x07] else [0xFA, 0x00] }

  function InitiateResponseBytes(s: Settings): seq<Byte> {
    [INITIATE_RESPONSE] + QualityBytes(s)
    + [0x06, 0x5F, 0x1F, 0x04, 0x00] + ConformanceBytes(s.negotiatedConformance) + [Hi(s.maxPduSize), Lo(s.maxPduSize)]
    + VaaName(s)
  }

  function ResponseCommand(command: Byte): Byte {
    if command == 0xDC || command == 0xDB then command else 0x28
  }

  /** A request is ciphered under a dedicated key exactly if it proposes general protection and has one, and
      under the global key with general protection otherwise; without, as a global initiate request.
      Each is a command the parser deciphers, and so is the one that answers it: the same under general
      protection, else the global initiate response. */
  lemma CommandsMatch(s: Settings)
    ensures var general, dedicated := s.proposedConformance / 2 % 2 == 1, s.dedicatedKey.Some? && |s.dedicatedKey.value| == 16;
            && (RequestCommand(s) == 0xDC <==> general && dedicated) && (RequestCommand(s) == 0xDB <==> general && !dedicated)
            && (RequestCommand(s) == 0x21 <==> !general)
            && IsCipheringCommand(RequestCommand(s)) && IsCipheringCommand(ResponseCommand(RequestCommand(s)))
            && ResponseCommand(RequestCommand(s)) == if general then RequestCommand(s) else 0x28
  {
  }

  /** apdu_getUserInformation */
  function ResponseBody(s: Settings, command: Byte, encipher: Encipher): Printed {
    if !IsCiphered(s) then Pdu(InitiateResponseBytes(s))
    else match encipher(ResponseCommand(command), InitiateResponseBytes(s))
      case NotCiphered(code) => Failed(code)
      case Ciphered(bytes) => Pdu(bytes)
  }

  /** The error of the server if there is one, else its response. */
  function AnswerBody(s: Settings, errorData: seq<Byte>, command: Byte, encipher: Encipher): Printed {
    if errorData != [] then Pdu(errorData) else ResponseBody(s, command, encipher)
  }

  /** The user information of an AARE; a ciphered rejection has none. */
  function ResponseInformation(s: Settings, result: Byte, errorData: seq<Byte>, command: Byte, encipher: Encipher): Printed {
    if result != ACCEPTED && IsCiphered(s) then Pdu([])
    else match AnswerBody(s, errorData, command, encipher)
      case Failed(code) => Failed(code)
      case Pdu(body) => Pdu(InformationBytes(body))
  }

  /** The user information of a plain AARE. */
  function ResponseInformationBytes(s: Settings, errorData: seq<Byte>): seq<Byte> {
    InformationBytes(if errorData != [] then errorData else InitiateResponseBytes(s))
  }

  /** apdu_generateAARE without encrypted data from the caller. */
  function Aare(s: Settings, result: Byte, diagnostic: Byte, errorData: seq<Byte>, command: Byte, encipher: Encipher): Printed {
    match NameBytes(s)
    case Failed(code) => Failed(code)
    case Pdu(name) =>
      if s.authentication > AUTH_LOW && s.stoCChallenge == [] then Failed(InvalidParameter)
      else match ResponseInformation(s, result, errorData, command, encipher)
        case Failed(code) => Failed(code)
        case Pdu(information) =>
          Pdu(Framed(0x61, name + ResultBytes(result) + DiagnosticBytes(diagnostic) + RespondingTitleBytes(s)
                           + RespondingInvocationBytes(s) + ServerChallengeBytes(s) + information))
  }
}
