/** The association parser of apdu.c as a function of the bytes still to be read: one field at a time,
    then the checks at the end of the PDU. */
module ApduParsing {
  import opened Bytes
  import opened ApduTypes
  import opened Helpers

  /** Which fields a ciphered context still lacks. */
  datatype Missing = Missing(acse: bool, mechanism: bool, authentication: bool)

  const NOTHING_MISSING := Missing(false, false, false)
  const ALL_MISSING := Missing(true, true, true)

  /** The local variables of the parser. */
  datatype Locals = Locals(ciphered: bool, missing: Missing, result: Byte, diagnostic: Byte, command: Byte)

  /** After a piece of the PDU: go on with the rest, or leave the parser with a code. */
  datatype Progress = Next(s: Settings, rest: seq<Byte>, l: Locals) | Return(code: Code, s: Settings, l: Locals)

  /** The byte at index `i` of what is left, or the end of the data. */
  datatype Peek = Short(s: Settings, l: Locals) | Seen(b: Byte) {
    predicate IsFailure() { Short? }
    function PropagateFailure(): Progress
      requires Short?
    {
      Return(OutOfMemory, s, l)
    }
    function Extract(): Byte
      requires Seen?
    {
      b
    }
  }

  function PeekAt(s: Settings, l: Locals, b: seq<Byte>, i: nat): Peek {
    if i < |b| then Seen(b[i]) else Short(s, l)
  }

  /** `p` reads on within `b` and keeps the role and the length of the title. */
  predicate Proper(p: Progress, s: Settings, b: seq<Byte>) {
    |p.s.sourceSystemTitle| == |s.sourceSystemTitle| && p.s.server == s.server && (p.Next? ==> |p.rest| <= |b|)
  }

  // ---------- bits of the conformance block ----------

  /** The conformance value of three bytes sent with the lowest bit first. */
  function ConformanceOf(b0: Byte, b1: Byte, b2: Byte): nat {
    SwapBits(b0) + 0x100 * SwapBits(b1) + 0x10000 * SwapBits(b2)
  }

  /** The bits set in both words. */
  function BitAnd(x: nat, y: nat): nat {
    if x == 0 || y == 0 then 0 else (if x % 2 == 1 && y % 2 == 1 then 1 else 0) + 2 * BitAnd(x / 2, y / 2)
  }

  predicate HasGeneralProtection(v: nat) { v / GENERAL_PROTECTION % 2 == 1 }

  function WithoutGeneralProtection(v: nat): nat {
    if HasGeneralProtection(v) then v - GENERAL_PROTECTION else v
  }

  // ---------- object identifiers ----------

  /** Reads the bytes of `expected` from index `i` on; any other byte ends with `code`. */
  function Expect(s: Settings, l: Locals, b: seq<Byte>, i: nat, expected: seq<Byte>, code: Code): (p: Progress)
    decreases |expected|
    ensures Proper(p, s, b)
  {
    if expected == [] then Next(s, Skip(b, i), l)
    else
      var v :- PeekAt(s, l, b, i);
      if v != expected[0] then Return(code, s, l) else Expect(s, l, b, i + 1, expected[1..], code)
  }

  const CONTEXT_OID: seq<Byte> := [0x60, 0x85, 0x74, 0x05, 0x08, 0x01]
  const MECHANISM_OID: seq<Byte> := [0x60, 0x85, 0x74, 0x05, 0x08, 0x02]

  // ---------- the fields ----------

  /** apdu_parseApplicationContextName; any error rejects the association. */
  function ContextName(s: Settings, b: seq<Byte>, l: Locals): (p: Progress)
    ensures Proper(p, s, b)
  {
    var len :- PeekAt(s, l, b, 0);
    if |b| - 1 < len then Return(OutOfMemory, s, l) else
    var ch :- PeekAt(s, l, b, 1);
    if ch != 0x6 then Return(InvalidParameter, s, l) else
    var s1 := if s.server then s.(security := SECURITY_NONE) else s;
    var oidLen :- PeekAt(s1, l, b, 2);
    match Expect(s1, l, b, 3, CONTEXT_OID, InvalidParameter)
    case Return(code, s2, l2) => Return(code, s2, l2)
    case Next(_, rest, _) =>
      var name :- PeekAt(s1, l, rest, 0);
      var ciphered := name == (if s.useLogicalNames then 3 else 4);
      if ciphered || name == (if s.useLogicalNames then 1 else 2)
      then Next(s1, rest[1..], l.(ciphered := ciphered, missing := if ciphered then ALL_MISSING else l.missing))
      else Return(InvalidParameter, s1, l)
  }

  function Rejected(s: Settings, l: Locals, diagnostic: Byte): Progress {
    Return(Ok, s, l.(result := PERMANENT_REJECTED, diagnostic := diagnostic))
  }

  /** 0xA1 */
  function ContextField(s: Settings, b: seq<Byte>, l: Locals): (p: Progress)
    ensures Proper(p, s, b)
  {
    match ContextName(s, b, l)
    case Next(s1, rest, l1) => Next(s1, rest, l1)
    case Return(_, s1, l1) => Rejected(s1, l1, DIAGNOSTIC_CONTEXT_NOT_SUPPORTED)
  }

  /** 0xA2: the result for a client, the called AP title for a server. */
  function ResultField(s: Settings, b: seq<Byte>, l: Locals): (p: Progress)
    ensures Proper(p, s, b)
  {
    var len :- PeekAt(s, l, b, 0);
    if len != 3 then Return(InvalidTag, s, l) else
    var tag :- PeekAt(s, l, b, 1);
    if s.server then
      if tag != 4 then Return(InvalidTag, s, l) else
      var n :- PeekAt(s, l, b, 2);
      Next(s, Skip(b[3..], n), l)
    else
      if tag != 2 then Return(InvalidTag, s, l) else
      var n :- PeekAt(s, l, b, 2);
      if n != 1 then Return(InvalidTag, s, l) else
      var value :- PeekAt(s, l, b, 3);
      Next(s, b[4..], l.(result := value))
  }

  /** 0xA3: the source diagnostic for a client, the called AE qualifier for a server. */
  function DiagnosticField(s: Settings, b: seq<Byte>, l: Locals): (p: Progress)
    ensures Proper(p, s, b)
  {
    var len :- PeekAt(s, l, b, 0);
    var tag :- PeekAt(s, l, b, 1);
    var n :- PeekAt(s, l, b, 2);
    if s.server then
      if tag != 4 then Return(InvalidTag, s, l) else Next(s, Skip(b[3..], n), l)
    else
      var kind :- PeekAt(s, l, b, 3);
      if kind != 2 then Return(InvalidTag, s, l) else
      var size :- PeekAt(s, l, b, 4);
      if size != 1 then Return(InvalidTag, s, l) else
      var value :- PeekAt(s, l, b, 5);
      Next(s, b[6..], l.(diagnostic := value))
  }

  /** 0xA4: the responding title for a client, the called AP invocation id for a server. */
  function RespondingTitleField(s: Settings, b: seq<Byte>, l: Locals): (p: Progress)
    requires |s.sourceSystemTitle| == 8
    ensures Proper(p, s, b)
  {
    var len :- PeekAt(s, l, b, 0);
    if s.server then
      if len != 3 then Return(InvalidTag, s, l) else
      var tag :- PeekAt(s, l, b, 1);
      if tag != 2 then Return(InvalidTag, s, l) else
      var n :- PeekAt(s, l, b, 2);
      Next(s, Skip(b[3..], n), l)
    else
      if len != 0xA then Return(InvalidTag, s, l) else
      var tag :- PeekAt(s, l, b, 1);
      if tag != 4 then Return(InvalidTag, s, l) else
      var n :- PeekAt(s, l, b, 2);
      if |b| - 3 < n then Return(OutOfMemory, s, l) else
      Next(s.(sourceSystemTitle := if n == 8 then b[3..11] else Zeros(8)), b[3 + n..], l)
  }

  /** 0xA5 */
  function CalledInvocationField(s: Settings, b: seq<Byte>, l: Locals): (p: Progress)
    ensures Proper(p, s, b)
  {
    var first :- PeekAt(s, l, b, 0);
    if s.server && first != 3 then Return(InvalidTag, s, l) else
    var second :- PeekAt(s, l, b, 1);
    if s.server && second != 2 then Return(InvalidTag, s, l) else
    var third :- PeekAt(s, l, b, 2);
    if s.server && third != 1 then Return(InvalidTag, s, l) else
    var value :- PeekAt(s, l, b, 3);
    Next(if !s.server && l.ciphered then s.(userId := value) else s, b[4..], l)
  }

  /** 0xA6: the calling title. */
  function CallingTitleField(s: Settings, b: seq<Byte>, l: Locals): (p: Progress)
    requires |s.sourceSystemTitle| == 8
    ensures Proper(p, s, b)
  {
    var len :- PeekAt(s, l, b, 0);
    var tag :- PeekAt(s, l, b, 1);
    var n :- PeekAt(s, l, b, 2);
    if l.ciphered && n != 8 then Rejected(s, l, DIAGNOSTIC_TITLE_NOT_RECOGNIZED)
    else if |b| - 3 < n then Return(OutOfMemory, s, l)
    else Next(s.(sourceSystemTitle := Overlay(s.sourceSystemTitle, b[3..3 + n])), b[3 + n..], l)
  }

  /** 0xA7 */
  function RespondingInvocationField(s: Settings, b: seq<Byte>, l: Locals): (p: Progress)
    ensures Proper(p, s, b)
  {
    var first :- PeekAt(s, l, b, 0);
    var second :- PeekAt(s, l, b, 1);
    var third :- PeekAt(s, l, b, 2);
    var value :- PeekAt(s, l, b, 3);
    Next(if l.ciphered && value == 0 then s.(userId := 0) else s, b[4..], l)
  }

  /** 0xA8 */
  function CallingApInvocationField(s: Settings, b: seq<Byte>, l: Locals): (p: Progress)
    ensures Proper(p, s, b)
  {
    var first :- PeekAt(s, l, b, 0);
    if first != 3 then Return(InvalidTag, s, l) else
    var second :- PeekAt(s, l, b, 1);
    if second != 2 then Return(InvalidTag, s, l) else
    var third :- PeekAt(s, l, b, 2);
    if third != 1 then Return(InvalidTag, s, l) else
    var value :- PeekAt(s, l, b, 3);
    Next(s, b[4..], l)
  }

  /** 0xA9 */
  function CallingInvocationField(s: Settings, b: seq<Byte>, l: Locals): (p: Progress)
    ensures Proper(p, s, b)
  {
    var first :- PeekAt(s, l, b, 0);
    var second :- PeekAt(s, l, b, 1);
    var third :- PeekAt(s, l, b, 2);
    var value :- PeekAt(s, l, b, 3);
    Next(s, b[4..], l)
  }

  /** 0xAA: the server's challenge. */
  function ServerChallengeField(s: Settings, b: seq<Byte>, l: Locals): (p: Progress)
    ensures Proper(p, s, b)
  {
    var len :- PeekAt(s, l, b, 0);
    var tag :- PeekAt(s, l, b, 1);
    var n :- PeekAt(s, l, b, 2);
    Next(s.(stoCChallenge := Take(b[3..], n)), Skip(b[3..], n), l)
  }

  /** 0x8A and 0x88 */
  function AcseRequirementsField(s: Settings, b: seq<Byte>, l: Locals): (p: Progress)
    ensures Proper(p, s, b)
  {
    var len :- PeekAt(s, l, b, 0);
    if len != 2 then Return(InvalidTag, s, l) else
    var tag :- PeekAt(s, l, b, 1);
    if tag != 7 then Return(InvalidTag, s, l) else
    var value :- PeekAt(s, l, b, 2);
    Next(s, b[3..], if l.ciphered && value == 0x80 then l.(missing := l.missing.(acse := false)) else l)
  }

  /** apdu_updateAuthentication */
  function MechanismName(s: Settings, b: seq<Byte>, l: Locals): (p: Progress)
    ensures Proper(p, s, b)
  {
    var len :- PeekAt(s, l, b, 0);
    match Expect(s, l, b, 1, MECHANISM_OID, InvalidTag)
    case Return(code, s1, l1) => Return(code, s1, l1)
    case Next(_, rest, _) =>
      var name :- PeekAt(s, l, rest, 0);
      if name > AUTH_LAST_KNOWN then Return(InvalidTag, s, l)
      else Next(s.(authentication := name), rest[1..], l)
  }

  /** 0x8B and 0x89 */
  function MechanismField(s: Settings, b: seq<Byte>, l: Locals): (p: Progress)
    ensures Proper(p, s, b)
  {
    match MechanismName(s, b, l)
    case Return(code, s1, l1) => Return(code, s1, l1)
    case Next(s1, rest, _) =>
      if s1.server && s1.authentication == AUTH_HIGH_GMAC && s1.sourceSystemTitle == Zeros(8)
      then Rejected(s1, l, DIAGNOSTIC_TITLE_NOT_RECOGNIZED)
      else Next(s1, rest, if l.ciphered then l.(missing := l.missing.(mechanism := false)) else l)
  }

  /** 0xAC, apdu_updatePassword */
  function AuthenticationValueField(s: Settings, b: seq<Byte>, l: Locals): (p: Progress)
    ensures Proper(p, s, b)
  {
    var len :- PeekAt(s, l, b, 0);
    var ch :- PeekAt(s, l, b, 1);
    if ch != 0x80 then Return(InvalidTag, s, l) else
    var n :- PeekAt(s, l, b, 2);
    if s.authentication != AUTH_LOW && (n < 8 || n > 64) then Return(InvalidParameter, s, l) else
    var value := Take(b[3..], n);
    Next(if s.authentication == AUTH_LOW then s.(password := value) else s.(ctoSChallenge := value),
         Skip(b[3..], n),
         if l.ciphered then l.(missing := l.missing.(authentication := false)) else l)
  }

  /** 0x80, apdu_parseProtocolVersion; any error rejects the association. */
  function ProtocolVersionField(s: Settings, b: seq<Byte>, l: Locals): (p: Progress)
    ensures Proper(p, s, b)
  {
    if |b| < 3 || b[1] > 8 || (s.server && b[2] != 0x84) then Rejected(s, l, DIAGNOSTIC_NO_COMMON_VERSION)
    else Next(s.(protocolVersion := b[2]), b[3..], l)
  }

  /** Any other tag: its length says how much to skip. */
  function UnknownField(s: Settings, b: seq<Byte>, l: Locals): (p: Progress)
    ensures Proper(p, s, b)
  {
    if b == [] then Next(s, [], l) else Next(s, Skip(b[1..], b[0]), l)
  }

  // ---------- user information ----------

  const INITIATE_REQUEST: Byte := 0x01
  const INITIATE_RESPONSE: Byte := 0x08

  predicate IsCipheringCommand(tag: Byte) {
    tag == 0x28 || tag == 0x21 || tag == 0x48 || tag == 0x41 || tag == 0xDB || tag == 0xDC
  }

  /** The checks made on a deciphered body. */
  function PolicyError(s: Settings, security: Byte, suite: Byte, counter: nat): Code {
    if s.expectedPolicy != NO_EXPECTATION && security != s.expectedPolicy * 16 then InvalidDecipheringError
    else if s.expectedSuite != NO_EXPECTATION && suite != s.expectedSuite then InvalidSecuritySuite
    else if s.expectedCounter.Some? && counter < (1 + s.expectedCounter.value) % 0x1_0000_0000 then InvocationCounterTooSmall
    else Ok
  }

  function CountedSettings(s: Settings, counter: nat): Settings {
    if s.expectedCounter.Some? then s.(expectedCounter := Some((1 + counter) % 0x1_0000_0000)) else s
  }

  predicate WrongClientTitle(s: Settings) {
    s.expectedClientTitle.Some? && s.expectedClientTitle.value != Zeros(8) && s.sourceSystemTitle != s.expectedClientTitle.value
  }

  /** The body behind a ciphering command: `b` starts at the command. */
  function CipheredBody(s: Settings, b: seq<Byte>, l: Locals, decipher: Decipher): (p: Progress)
    requires b != []
    ensures Proper(p, s, b)
  {
    var l1 := l.(command := b[0]);
    match decipher(s.sourceSystemTitle, b)
    case Refused(code) => Return(code, s, l1)
    case Plain(security, suite, counter, text) =>
      var code := PolicyError(s, security, suite, counter);
      if code != Ok then Return(code, s, l1) else
      var s1 := CountedSettings(s, counter);
      if WrongClientTitle(s1) then Return(InvalidDecipheringError, s1, l1) else
      InitiateBody(s1.(security := security, suite := suite), text, l1)
  }

  /** From the tag of the initiate request or response on. */
  function InitiateBody(s: Settings, b: seq<Byte>, l: Locals): (p: Progress)
    ensures Proper(p, s, b)
  {
    var tag :- PeekAt(s, l, b, 0);
    if tag == INITIATE_RESPONSE then
      match QualityOfService(s, b[1..], l)
      case Return(code, s1, l1) => Return(code, s1, l1)
      case Next(s1, rest, l1) => Parameters(s1, rest, l1, true)
    else if tag == INITIATE_REQUEST then
      match DedicatedKey(s, b[1..], l)
      case Return(code, s1, l1) => Return(code, s1, l1)
      case Next(s1, rest, l1) =>
        match ResponseAllowed(s1, rest, l1)
        case Return(code, s2, l2) => Return(code, s2, l2)
        case Next(s2, rest2, l2) =>
          match QualityOfService(s2, rest2, l2)
          case Return(code, s3, l3) => Return(code, s3, l3)
          case Next(s3, rest3, l3) => Parameters(s3, rest3, l3, false)
    else Return(InvalidTag, s, l)
  }

  function DedicatedKey(s: Settings, b: seq<Byte>, l: Locals): (p: Progress)
    ensures Proper(p, s, b)
  {
    var used :- PeekAt(s, l, b, 0);
    if used == 0 then Next(s.(dedicatedKey := None), b[1..], l)
    else if !l.ciphered || s.security != SECURITY_AUTHENTICATION_ENCRYPTION then Return(InvalidParameter, s, l) else
    var n :- PeekAt(s, l, b, 1);
    if n != 16 then Return(InvalidParameter, s, l)
    else Next(s.(dedicatedKey := Some(Take(b[2..], 16))), Skip(b[2..], 16), l)
  }

  function ResponseAllowed(s: Settings, b: seq<Byte>, l: Locals): (p: Progress)
    ensures Proper(p, s, b)
  {
    var used :- PeekAt(s, l, b, 0);
    if used == 0 then Next(s, b[1..], l) else
    var value :- PeekAt(s, l, b, 1);
    Next(s, b[2..], l)
  }

  function QualityOfService(s: Settings, b: seq<Byte>, l: Locals): (p: Progress)
    ensures Proper(p, s, b)
  {
    var used :- PeekAt(s, l, b, 0);
    if used == 0 then Next(s, b[1..], l) else
    var value :- PeekAt(s, l, b, 1);
    Next(s.(qualityOfService := value), b[2..], l)
  }

  /** What the server grants, or what the client was granted. */
  function Negotiated(s: Settings, asked: nat, ciphered: bool): nat {
    if !s.server then asked
    else if ciphered then BitAnd(asked, s.proposedConformance)
    else WithoutGeneralProtection(BitAnd(asked, s.proposedConformance))
  }

  function GrantedPduSize(s: Settings, asked: nat): nat {
    if s.server && asked > s.maxServerPduSize then s.maxServerPduSize else asked
  }

  /** Version, conformance, PDU size and, in a response, the VAA name. */
  function Parameters(s: Settings, b: seq<Byte>, l: Locals, response: bool): (p: Progress)
    ensures Proper(p, s, b)
  {
    var version :- PeekAt(s, l, b, 0);
    if !s.server && version < 6 then Return(InvalidVersionNumber, s, l) else
    var s1 := if s.server then s.(dlmsVersion := version) else s;
    var tag :- PeekAt(s1, l, b, 1);
    if tag != 0x5F then Return(InvalidTag, s1, l) else
    ConformanceBlock(s1, if |b| > 2 && b[2] == 0x1F then b[3..] else b[2..], l, response)
  }

  function ConformanceBlock(s: Settings, b: seq<Byte>, l: Locals, response: bool): (p: Progress)
    ensures Proper(p, s, b)
  {
    var len :- PeekAt(s, l, b, 0);
    var unused :- PeekAt(s, l, b, 1);
    var c0 :- PeekAt(s, l, b, 2);
    var c1 :- PeekAt(s, l, b, 3);
    var c2 :- PeekAt(s, l, b, 4);
    var s1 := s.(negotiatedConformance := Negotiated(s, ConformanceOf(c0, c1, c2), l.ciphered));
    if |b| < 7 then Return(OutOfMemory, s1, l) else
    var s2 := s1.(maxPduSize := GrantedPduSize(s, Word(b[5], b[6])));
    if !response then Next(s2, b[7..], l)
    else if |b| < 9 then Return(OutOfMemory, s2, l)
    else if Word(b[7], b[8]) == (if s.useLogicalNames then 0x0007 else 0xFA00) then Next(s2, b[9..], l)
    else Return(InvalidParameter, s2, l)
  }

  /** apdu_parseUserInformation */
  function UserInformation(s: Settings, b: seq<Byte>, l: Locals, decipher: Decipher): (p: Progress)
    ensures Proper(p, s, b)
  {
    var len :- PeekAt(s, l, b, 0);
    if |b| - 1 < len then Return(OutOfMemory, s, l) else
    var tag :- PeekAt(s, l, b, 1);
    if tag != 0x4 then Return(InvalidTag, s, l) else
    var n :- PeekAt(s, l, b, 2);
    var command :- PeekAt(s, l, b, 3);
    if IsCipheringCommand(command) then CipheredBody(s, b[3..], l, decipher) else InitiateBody(s, b[3..], l)
  }

  /** apdu_handleResultComponent */
  function DiagnosticCode(diagnostic: Byte): Code {
    if diagnostic == 1 then NoReasonGiven
    else if diagnostic == 2 then ApplicationContextNameNotSupported
    else if diagnostic == 11 then MechanismNameNotRecognised
    else if diagnostic == 12 then MechanismNameRequired
    else if diagnostic == 13 then AuthenticationFailure
    else Ok
  }

  function UserInformationError(code: Code, ciphered: bool): Code {
    if code == InvocationCounterTooSmall || code == InvalidDecipheringError || code == InvalidSecuritySuite then code
    else if ciphered then InvalidDecipheringError
    else InvalidTag
  }

  /** 0xBE */
  function UserInformationField(s: Settings, b: seq<Byte>, l: Locals, decipher: Decipher): (p: Progress)
    ensures Proper(p, s, b)
  {
    if l.result != ACCEPTED && l.diagnostic != DIAGNOSTIC_NONE then Return(DiagnosticCode(l.diagnostic), s, l)
    else match UserInformation(s, b, l, decipher)
      case Next(s1, rest, l1) => Next(s1, rest, l1)
      case Return(code, s1, l1) => Return(UserInformationError(code, l.ciphered), s1, l1)
  }

  // ---------- the PDU ----------

  /** One round of the tag loop. */
  function Field(s: Settings, b: seq<Byte>, l: Locals, decipher: Decipher): (p: Progress)
    requires b != [] && |s.sourceSystemTitle| == 8
    ensures Proper(p, s, b) && (p.Next? ==> |p.rest| < |b|)
  {
    var tag, body := b[0], b[1..];
    if tag == 0xA1 then ContextField(s, body, l)
    else if tag == 0xA2 then ResultField(s, body, l)
    else if tag == 0xA3 then DiagnosticField(s, body, l)
    else if tag == 0xA4 then RespondingTitleField(s, body, l)
    else if tag == 0xA5 then CalledInvocationField(s, body, l)
    else if tag == 0xA6 then CallingTitleField(s, body, l)
    else if tag == 0xA7 then RespondingInvocationField(s, body, l)
    else if tag == 0xA8 then CallingApInvocationField(s, body, l)
    else if tag == 0xA9 then CallingInvocationField(s, body, l)
    else if tag == 0xAA then ServerChallengeField(s, body, l)
    else if tag == 0x8A || tag == 0x88 then AcseRequirementsField(s, body, l)
    else if tag == 0x8B || tag == 0x89 then MechanismField(s, body, l)
    else if tag == 0xAC then AuthenticationValueField(s, body, l)
    else if tag == 0xBE then UserInformationField(s, body, l, decipher)
    else if tag == 0x80 then ProtocolVersionField(s, body, l)
    else UnknownField(s, body, l)
  }

  /** The fields of a PDU up to its end. */
  function Fields(s: Settings, b: seq<Byte>, l: Locals, decipher: Decipher): (p: Progress)
    requires |s.sourceSystemTitle| == 8
    ensures |p.s.sourceSystemTitle| == 8 && p.s.server == s.server && (p.Next? ==> p.rest == [])
    decreases |b|
  {
    if b == [] then Next(s, b, l)
    else
      match Field(s, b, l, decipher)
      case Return(code, s1, l1) => Return(code, s1, l1)
      case Next(s1, rest, l1) => Fields(s1, rest, l1, decipher)
  }

  /** What the caller of the parser sees. */
  datatype Outcome = Outcome(code: Code, s: Settings, l: Locals)

  predicate LacksAuthentication(s: Settings, l: Locals) {
    s.server && l.missing != NOTHING_MISSING && l.result == ACCEPTED
    && !(l.missing == Missing(false, false, true) && s.authentication == AUTH_NONE)
  }

  /** The checks once every field was read. */
  function Finish(s: Settings, l: Locals): Outcome {
    if LacksAuthentication(s, l)
    then Outcome(Ok, s, l.(result := PERMANENT_REJECTED, diagnostic := DIAGNOSTIC_AUTHENTICATION_FAILURE))
    else
      var code := DiagnosticCode(l.diagnostic);
      if code == Ok && s.expectedPolicy != NO_EXPECTATION && s.security != s.expectedPolicy * 16
      then Outcome(InvalidDecipheringError, s, l)
      else Outcome(code, s, l)
  }

  const START := Locals(false, NOTHING_MISSING, ACCEPTED, DIAGNOSTIC_NONE, 0)

  /** hlp_getObjectCount2: a length of up to five bytes, kept in 16 bits. */
  function ObjectCount(s: Settings, b: seq<Byte>, l: Locals): Progress {
    var ch :- PeekAt(s, l, b, 0);
    if ch <= 0x80 then Next(s, b[1..], l)
    else if ch > 0x84 then Return(InvalidParameter, s, l)
    else if |b| - 1 < ch - 0x80 then Return(OutOfMemory, s, l)
    else Next(s, b[1 + (ch - 0x80)..], l)
  }

  /** The 16-bit length that `ObjectCount` read. */
  function CountValue(b: seq<Byte>): nat
    requires b != [] && (b[0] > 0x80 ==> b[0] <= 0x84 && |b| - 1 >= b[0] - 0x80)
  {
    if b[0] <= 0x80 then b[0]
    else if b[0] == 0x81 then b[1]
    else Word(b[b[0] - 0x80 - 1], b[b[0] - 0x80])
  }

  /** The header of a PDU and its fields. */
  function PduFields(s: Settings, b: seq<Byte>, l: Locals, decipher: Decipher): (p: Progress)
    requires |s.sourceSystemTitle| == 8
    ensures p.s.server == s.server
  {
    if b == [] then Return(OutOfMemory, s, l)
    else if b[0] != (if s.server then 0x60 else 0x61) then Return(InvalidTag, s, l)
    else match ObjectCount(s, b[1..], l)
      case Return(code, _, _) => Return(code, s, l)
      case Next(_, rest, _) =>
        if CountValue(b[1..]) > |rest| then Return(OutOfMemory, s, l) else Fields(s, rest, l, decipher)
  }

  function AfterFields(p: Progress): Outcome {
    match p
    case Return(code, s, l) => Outcome(code, s, l)
    case Next(s, _, l) => Finish(s, l)
  }

  /** apdu_parsePDU, started with the command of the caller. */
  function ParsePdu(s: Settings, b: seq<Byte>, command: Byte, decipher: Decipher): Outcome
    requires |s.sourceSystemTitle| == 8
  {
    AfterFields(PduFields(s, b, START.(command := command), decipher))
  }
}
