/** What the association code of apdu.c reads and updates: error codes, the settings of one end, the
    byte buffer, and the ciphering that is outside the model. */
module ApduTypes {
  import opened Bytes

  /** The error codes of errorcodes.h that apdu.c returns; `Other` is a code of the ciphering. */
  datatype Code =
    | Ok | InvalidParameter | OutOfMemory | InvalidVersionNumber | InvalidTag | NoReasonGiven
    | ApplicationContextNameNotSupported | MechanismNameNotRecognised | MechanismNameRequired
    | AuthenticationFailure | InvocationCounterTooSmall | InvalidDecipheringError | InvalidSecuritySuite
    | Other(value: int)

  datatype Option<+T> = None | Some(value: T)

  // ---------- constants of enums.h ----------

  const AUTH_NONE: Byte := 0
  const AUTH_LOW: Byte := 1
  const AUTH_HIGH_GMAC: Byte := 5
  const AUTH_LAST_KNOWN: Byte := 6
  const SECURITY_NONE: Byte := 0
  const SECURITY_AUTHENTICATION_ENCRYPTION: Byte := 0x30
  const NO_EXPECTATION: Byte := 0xFF

  const ACCEPTED: Byte := 0
  const PERMANENT_REJECTED: Byte := 1

  const DIAGNOSTIC_NONE: Byte := 0
  const DIAGNOSTIC_CONTEXT_NOT_SUPPORTED: Byte := 2
  const DIAGNOSTIC_TITLE_NOT_RECOGNIZED: Byte := 3
  const DIAGNOSTIC_AUTHENTICATION_FAILURE: Byte := 13
  const DIAGNOSTIC_NO_COMMON_VERSION: Byte := 0x82

  /** The value of DLMS_CONFORMANCE_GENERAL_PROTECTION, bit 1 of a conformance word. */
  const GENERAL_PROTECTION := 2
  const USER_ID_UNUSED := -1

  /** The settings of one end of an association (dlmsSettings with its ciphering). */
  datatype Settings = Settings(
    server: bool,
    useLogicalNames: bool,
    authentication: Byte,
    password: seq<Byte>,
    ctoSChallenge: seq<Byte>,
    stoCChallenge: seq<Byte>,
    sourceSystemTitle: seq<Byte>,
    systemTitle: seq<Byte>,
    security: Byte,
    suite: Byte,
    dedicatedKey: Option<seq<Byte>>,
    userId: int,
    protocolVersion: Byte,
    qualityOfService: Byte,
    dlmsVersion: Byte,
    maxPduSize: nat,
    maxServerPduSize: nat,
    proposedConformance: nat,
    negotiatedConformance: nat,
    expectedPolicy: Byte,
    expectedSuite: Byte,
    expectedCounter: Option<nat>,
    expectedClientTitle: Option<seq<Byte>>)

  predicate IsCiphered(s: Settings) { s.security != SECURITY_NONE }

  // ---------- reading past the end ----------

  /** `n` bytes from the front of `b`; what lies past the end of the buffer reads as zero. */
  function Take(b: seq<Byte>, n: nat): (t: seq<Byte>)
    ensures |t| == n
  {
    if n <= |b| then b[..n] else b + Zeros(n - |b|)
  }

  function Skip(b: seq<Byte>, n: nat): (r: seq<Byte>)
    ensures |r| <= |b|
  {
    if n <= |b| then b[n..] else []
  }

  /** An eight-byte title after its first bytes were overwritten. */
  function Overlay(title: seq<Byte>, bytes: seq<Byte>): (t: seq<Byte>)
    requires |title| == 8
    ensures |t| == 8
  {
    if |bytes| >= 8 then bytes[..8] else bytes + title[|bytes|..]
  }

  // ---------- ciphering, left open ----------

  /** What deciphering yields: an error, or security, suite, counter and the shorter plain text. */
  datatype Deciphered = Refused(code: Code) | Plain(security: Byte, suite: Byte, counter: nat, text: seq<Byte>)

  /** cip_decrypt for a peer title and the bytes left in the buffer. */
  type Decipher = f: (seq<Byte>, seq<Byte>) -> Deciphered
    | forall title, b :: (match f(title, b) case Refused(code) => code != Ok case Plain(_, _, _, text) => |text| <= |b|)
    witness (title, b) => Refused(InvalidParameter)

  /** What ciphering yields: an error, or the bytes. */
  datatype Enciphered = NotCiphered(code: Code) | Ciphered(bytes: seq<Byte>)

  /** cip_encrypt for a command and a plain body. */
  type Encipher = f: (Byte, seq<Byte>) -> Enciphered
    | forall command, b :: f(command, b).NotCiphered? ==> f(command, b).code != Ok
    witness (command, b) => NotCiphered(InvalidParameter)

  // ---------- verdicts of the reading methods ----------

  /** Go on reading, or leave with a code. */
  datatype Verdict = GoOn | Leave(code: Code) {
    predicate IsFailure() { Leave? }
    function PropagateFailure(): Verdict { this }
  }

  datatype ReadByte = EndOfData | Got(value: Byte) {
    predicate IsFailure() { EndOfData? }
    function PropagateFailure(): Verdict { Leave(OutOfMemory) }
    function Extract(): Byte
      requires Got?
    {
      value
    }
  }

  datatype ReadWord = EndOfWords | GotWord(word: nat) {
    predicate IsFailure() { EndOfWords? }
    function PropagateFailure(): Verdict { Leave(OutOfMemory) }
    function Extract(): nat
      requires GotWord?
    {
      word
    }
  }

  /** dlmsSettings and its ciphering: the settings of one end as apdu.c updates them. */
  class DlmsSettings {
    const server: bool
    const useLogicalNames: bool
    const systemTitle: seq<Byte>
    const maxServerPduSize: nat
    const proposedConformance: nat
    const expectedPolicy: Byte
    const expectedSuite: Byte
    const expectedClientTitle: Option<seq<Byte>>
    var authentication: Byte
    var password: seq<Byte>
    var ctoSChallenge: seq<Byte>
    var stoCChallenge: seq<Byte>
    var sourceSystemTitle: seq<Byte>
    var security: Byte
    var suite: Byte
    var dedicatedKey: Option<seq<Byte>>
    var userId: int
    var protocolVersion: Byte
    var qualityOfService: Byte
    var dlmsVersion: Byte
    var maxPduSize: nat
    var negotiatedConformance: nat
    var expectedCounter: Option<nat>

    constructor (s: Settings)
      ensures View() == s
    {
      server, useLogicalNames, systemTitle := s.server, s.useLogicalNames, s.systemTitle;
      maxServerPduSize, proposedConformance := s.maxServerPduSize, s.proposedConformance;
      expectedPolicy, expectedSuite, expectedClientTitle := s.expectedPolicy, s.expectedSuite, s.expectedClientTitle;
      authentication, password, ctoSChallenge, stoCChallenge := s.authentication, s.password, s.ctoSChallenge, s.stoCChallenge;
      sourceSystemTitle, security, suite := s.sourceSystemTitle, s.security, s.suite;
      dedicatedKey, userId, protocolVersion := s.dedicatedKey, s.userId, s.protocolVersion;
      qualityOfService, dlmsVersion, maxPduSize := s.qualityOfService, s.dlmsVersion, s.maxPduSize;
      negotiatedConformance, expectedCounter := s.negotiatedConformance, s.expectedCounter;
    }

    /** The settings as a value. */
    function View(): Settings
      reads this
    {
      Settings(server, useLogicalNames, authentication, password, ctoSChallenge, stoCChallenge, sourceSystemTitle,
               systemTitle, security, suite, dedicatedKey, userId, protocolVersion, qualityOfService, dlmsVersion,
               maxPduSize, maxServerPduSize, proposedConformance, negotiatedConformance, expectedPolicy, expectedSuite,
               expectedCounter, expectedClientTitle)
    }

    /** What the value shows are the fields. */
    lemma Shows()
      ensures var v := View();
              && v.server == server && v.useLogicalNames == useLogicalNames && v.authentication == authentication
              && v.sourceSystemTitle == sourceSystemTitle && v.security == security
              && v.maxServerPduSize == maxServerPduSize && v.proposedConformance == proposedConformance
              && v.expectedPolicy == expectedPolicy && v.expectedSuite == expectedSuite
              && v.expectedCounter == expectedCounter && v.expectedClientTitle == expectedClientTitle
    {
    }

    method SetAuthentication(value: Byte)
      modifies this`authentication
      ensures View() == old(View()).(authentication := value)
    {
      authentication := value;
    }

    method SetPassword(value: seq<Byte>)
      modifies this`password
      ensures View() == old(View()).(password := value)
    {
      password := value;
    }

    method SetCtoSChallenge(value: seq<Byte>)
      modifies this`ctoSChallenge
      ensures View() == old(View()).(ctoSChallenge := value)
    {
      ctoSChallenge := value;
    }

    method SetStoCChallenge(value: seq<Byte>)
      modifies this`stoCChallenge
      ensures View() == old(View()).(stoCChallenge := value)
    {
      stoCChallenge := value;
    }

    method SetSourceSystemTitle(value: seq<Byte>)
      modifies this`sourceSystemTitle
      ensures View() == old(View()).(sourceSystemTitle := value)
    {
      sourceSystemTitle := value;
    }

    method SetSecurity(value: Byte)
      modifies this`security
      ensures View() == old(View()).(security := value)
    {
      security := value;
    }

    method SetSuite(value: Byte)
      modifies this`suite
      ensures View() == old(View()).(suite := value)
    {
      suite := value;
    }

    method SetDedicatedKey(value: Option<seq<Byte>>)
      modifies this`dedicatedKey
      ensures View() == old(View()).(dedicatedKey := value)
    {
      dedicatedKey := value;
    }

    method SetUserId(value: int)
      modifies this`userId
      ensures View() == old(View()).(userId := value)
    {
      userId := value;
    }

    method SetProtocolVersion(value: Byte)
      modifies this`protocolVersion
      ensures View() == old(View()).(protocolVersion := value)
    {
      protocolVersion := value;
    }

    method SetQualityOfService(value: Byte)
      modifies this`qualityOfService
      ensures View() == old(View()).(qualityOfService := value)
    {
      qualityOfService := value;
    }

    method SetDlmsVersion(value: Byte)
      modifies this`dlmsVersion
      ensures View() == old(View()).(dlmsVersion := value)
    {
      dlmsVersion := value;
    }

    method SetMaxPduSize(value: nat)
      modifies this`maxPduSize
      ensures View() == old(View()).(maxPduSize := value)
    {
      maxPduSize := value;
    }

    method SetNegotiatedConformance(value: nat)
      modifies this`negotiatedConformance
      ensures View() == old(View()).(negotiatedConformance := value)
    {
      negotiatedConformance := value;
    }

    method SetExpectedCounter(value: Option<nat>)
      modifies this`expectedCounter
      ensures View() == old(View()).(expectedCounter := value)
    {
      expectedCounter := value;
    }
  }

  /** gxByteBuffer: `data` is the filled part, `position` the read position. */
  class ByteBuffer {
    var data: seq<Byte>
    var position: nat

    constructor (bytes: seq<Byte>)
      ensures data == bytes && position == 0
    {
      data, position := bytes, 0;
    }

    /** The bytes not yet read. */
    ghost function Rest(): seq<Byte>
      reads this
    {
      Skip(data, position)
    }

    method SetUInt8(item: Byte)
      modifies this
      ensures data == old(data) + [item] && position == old(position)
    {
      data := data + [item];
    }

    method SetUInt16(item: nat)
      modifies this
      ensures data == old(data) + [Hi(item), Lo(item)] && position == old(position)
    {
      data := data + [Hi(item), Lo(item)];
    }

    method Set(items: seq<Byte>)
      modifies this
      ensures data == old(data) + items && position == old(position)
    {
      data := data + items;
    }

    method SetUInt8ByIndex(index: nat, item: Byte)
      requires index < |data|
      modifies this
      ensures data == old(data)[index := item] && position == old(position)
    {
      data := data[index := item];
    }

    /** `k` bytes of `b` were read, and the rest of it is ahead. */
    ghost predicate Reached(b: seq<Byte>, k: nat)
      reads this
    {
      k <= |b| && Rest() == b[k..]
    }

    method GetUInt8(ghost b: seq<Byte>, ghost k: nat) returns (r: ReadByte)
      requires Reached(b, k)
      modifies this
      ensures data == old(data) && position == old(position) + (if k < |b| then 1 else 0)
      ensures if k < |b| then r == Got(b[k]) && Reached(b, k + 1) && position <= |data| else r == EndOfData && Reached(b, k)
    {
      if position >= |data| { return EndOfData; }
      r := Got(data[position]);
      position := position + 1;
    }

    method GetUInt16(ghost b: seq<Byte>, ghost k: nat) returns (r: ReadWord)
      requires Reached(b, k)
      modifies this
      ensures data == old(data)
      ensures if k + 2 <= |b| then r == GotWord(Word(b[k], b[k + 1])) && Reached(b, k + 2) else r == EndOfWords && Reached(b, k)
    {
      if position + 2 > |data| { return EndOfWords; }
      assert data[position] == b[k] && data[position + 1] == b[k + 1];
      r := GotWord(Word(data[position], data[position + 1]));
      position := position + 2;
    }

    /** The lower two of three bytes, which is what its caller keeps. */
    method GetUInt24(ghost b: seq<Byte>, ghost k: nat) returns (r: ReadWord)
      requires Reached(b, k)
      modifies this
      ensures data == old(data)
      ensures if k + 3 <= |b| then r == GotWord(Word(b[k + 1], b[k + 2])) && Reached(b, k + 3) else r == EndOfWords && Reached(b, k)
    {
      if position + 3 > |data| { return EndOfWords; }
      assert data[position + 1] == b[k + 1] && data[position + 2] == b[k + 2];
      r := GotWord(Word(data[position + 1], data[position + 2]));
      position := position + 3;
    }

    /** The lower two of four bytes, which is what its caller keeps. */
    method GetUInt32(ghost b: seq<Byte>, ghost k: nat) returns (r: ReadWord)
      requires Reached(b, k)
      modifies this
      ensures data == old(data)
      ensures if k + 4 <= |b| then r == GotWord(Word(b[k + 2], b[k + 3])) && Reached(b, k + 4) else r == EndOfWords && Reached(b, k)
    {
      if position + 4 > |data| { return EndOfWords; }
      assert data[position + 2] == b[k + 2] && data[position + 3] == b[k + 3];
      r := GotWord(Word(data[position + 2], data[position + 3]));
      position := position + 4;
    }

    /** How many bytes are left; an overshot position would wrap around in C and is not reached here. */
    method Available(ghost b: seq<Byte>, ghost k: nat) returns (n: nat)
      requires Reached(b, k) && position <= |data|
      ensures n == |b| - k
    {
      n := |data| - position;
    }

    /** The position moves on without a check. */
    method SkipBytes(count: nat)
      modifies this
      ensures data == old(data) && Rest() == Skip(old(Rest()), count)
    {
      position := position + count;
    }

    /** The byte at the position, without reading it; zero past the end. */
    method PeekUInt8(ghost b: seq<Byte>, ghost k: nat) returns (value: Byte)
      requires Reached(b, k)
      ensures value == if k < |b| then b[k] else 0
    {
      value := if position < |data| then data[position] else 0;
    }

    /** Takes the position back to where it was. */
    method StepBack(ghost b: seq<Byte>, ghost k: nat)
      requires position > 0 && k <= |b| && Skip(data, position - 1) == b[k..]
      modifies this`position
      ensures Reached(b, k)
    {
      position := position - 1;
    }

    method Remaining() returns (bytes: seq<Byte>)
      ensures bytes == Rest()
    {
      bytes := if position <= |data| then data[position..] else [];
    }

    /** The unread bytes are exchanged for others. */
    method Exchange(bytes: seq<Byte>)
      modifies this
      ensures data == bytes && position == 0 && Rest() == bytes
    {
      data, position := bytes, 0;
    }

    /** bb_set2 as a source: the bytes are taken without a check and the position moves past them. */
    method TakeBytes(count: nat) returns (bytes: seq<Byte>)
      modifies this
      ensures data == old(data) && bytes == Take(old(Rest()), count) && Rest() == Skip(old(Rest()), count)
    {
      bytes := Take(if position <= |data| then data[position..] else [], count);
      position := position + count;
    }
  }
}
