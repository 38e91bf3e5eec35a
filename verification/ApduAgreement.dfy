/** Printing and parsing meet: what each end learns from the other's PDU, and the handshake. */
module ApduAgreement {
  import opened Bytes
  import opened ApduTypes
  import opened ApduParsing
  import opened ApduPrinting
  import opened Helpers

  // ---------- bits ----------

  lemma ThreeBytes(v: nat)
    ensures v % 256 + 0x100 * (v / 0x100 % 256) + 0x10000 * (v / 0x10000 % 256) == v % 0x100_0000
  {
    var q := v / 256;
    var p := q / 256;
    var low := 0x10000 * (p % 256) + 0x100 * (q % 256) + v % 256;
    TwoBytes(v, q, p);
    assert v == 0x100_0000 * (p / 256) + low;
    Remainder24(v, p / 256, low);
  }

  lemma Remainder24(v: nat, high: nat, low: nat)
    requires v == 0x100_0000 * high + low && low < 0x100_0000
    ensures v % 0x100_0000 == low
  {
  }

  lemma TwoBytes(v: nat, q: nat, p: nat)
    requires q == v / 256 && p == q / 256
    ensures v / 0x10000 == p && v == 0x10000 * p + 0x100 * (q % 256) + v % 256
  {
  }

  lemma ConformanceOfSwapped(a: Byte, b: Byte, c: Byte)
    ensures ConformanceOf(SwapBits(a), SwapBits(b), SwapBits(c)) == a + 0x100 * b + 0x10000 * c
  {
    SwapBitsInvolution(a);
    SwapBitsInvolution(b);
    SwapBitsInvolution(c);
  }

  lemma ConformanceRoundTrip(v: nat)
    ensures var b := ConformanceBytes(v); ConformanceOf(b[0], b[1], b[2]) == v % 0x100_0000
  {
    ConformanceOfSwapped(v % 256, v / 0x100 % 256, v / 0x10000 % 256);
    ThreeBytes(v);
  }

  lemma {:induction false} ExpectReads(s: Settings, l: Locals, head: seq<Byte>, expected: seq<Byte>, more: seq<Byte>, code: Code)
    ensures Expect(s, l, head + expected + more, |head|, expected, code) == Next(s, more, l)
    decreases |expected|
  {
    var b := head + expected + more;
    if expected == [] {
      assert b[|head|..] == more;
    } else {
      assert b[|head|] == expected[0];
      assert b == (head + [expected[0]]) + expected[1..] + more;
      ExpectReads(s, l, head + [expected[0]], expected[1..], more, code);
    }
  }

  lemma TakeExact(value: seq<Byte>, more: seq<Byte>)
    ensures Take(value + more, |value|) == value && Skip(value + more, |value|) == more
  {
  }

  // ---------- each printed field is read back ----------

  lemma ReadsProtocolVersion(s: Settings, v: Byte, more: seq<Byte>, l: Locals, decipher: Decipher)
    requires |s.sourceSystemTitle| == 8
    ensures Field(s, [0x80, 2, 2, v] + more, l, decipher)
         == if s.server && v != 0x84 then Rejected(s, l, DIAGNOSTIC_NO_COMMON_VERSION)
            else Next(s.(protocolVersion := v), more, l)
  {
    var b := [0x80, 2, 2, v] + more;
    assert b[1..] == [2, 2, v] + more;
    assert b[1..][3..] == more;
  }

  lemma ReadsContext(s: Settings, c: Settings, more: seq<Byte>, l: Locals, decipher: Decipher)
    requires |s.sourceSystemTitle| == 8 && s.useLogicalNames == c.useLogicalNames
    ensures Field(s, ContextBytes(c) + more, l, decipher)
         == Next(if s.server then s.(security := SECURITY_NONE) else s, more,
                 l.(ciphered := IsCiphered(c), missing := if IsCiphered(c) then ALL_MISSING else l.missing))
  {
    var b := ContextBytes(c) + more;
    var s1 := if s.server then s.(security := SECURITY_NONE) else s;
    assert b[1..] == [0x09, 0x06, 0x07] + CONTEXT_OID + ([ContextId(c)] + more);
    ExpectReads(s1, l, [0x09, 0x06, 0x07], CONTEXT_OID, [ContextId(c)] + more, InvalidParameter);
    assert ([ContextId(c)] + more)[1..] == more;
  }

  lemma ReadsCallingTitle(s: Settings, title: seq<Byte>, more: seq<Byte>, l: Locals, decipher: Decipher)
    requires |s.sourceSystemTitle| == 8 && |title| == 8
    ensures Field(s, [0xA6, 0x0A, 0x04, 0x08] + title + more, l, decipher) == Next(s.(sourceSystemTitle := title), more, l)
  {
    var b := [0xA6, 0x0A, 0x04, 0x08] + title + more;
    assert b[1..] == [0x0A, 0x04, 0x08] + title + more;
    assert b[1..][3..11] == title && b[1..][11..] == more;
    assert title[..8] == title;
  }

  lemma ReadsAcseRequirements(s: Settings, tag: Byte, more: seq<Byte>, l: Locals, decipher: Decipher)
    requires |s.sourceSystemTitle| == 8 && (tag == 0x8A || tag == 0x88)
    ensures Field(s, [tag, 2, 7, 0x80] + more, l, decipher)
         == Next(s, more, if l.ciphered then l.(missing := l.missing.(acse := false)) else l)
  {
    var b := [tag, 2, 7, 0x80] + more;
    assert b[1..] == [2, 7, 0x80] + more;
    assert b[1..][3..] == more;
  }

  lemma ReadsMechanismName(s: Settings, name: Byte, more: seq<Byte>, l: Locals)
    ensures MechanismName(s, [7] + MECHANISM_OID + [name] + more, l)
         == if name > AUTH_LAST_KNOWN then Return(InvalidTag, s, l) else Next(s.(authentication := name), more, l)
  {
    ExpectReads(s, l, [7], MECHANISM_OID, [name] + more, InvalidTag);
    assert [7] + MECHANISM_OID + ([name] + more) == [7] + MECHANISM_OID + [name] + more;
    assert ([name] + more)[1..] == more;
  }

  lemma ReadsMechanism(s: Settings, tag: Byte, name: Byte, more: seq<Byte>, l: Locals, decipher: Decipher)
    requires |s.sourceSystemTitle| == 8 && (tag == 0x8B || tag == 0x89)
    ensures Field(s, [tag, 7] + MECHANISM_OID + [name] + more, l, decipher)
         == if name > AUTH_LAST_KNOWN then Return(InvalidTag, s, l)
            else if s.server && name == AUTH_HIGH_GMAC && s.sourceSystemTitle == Zeros(8)
            then Rejected(s.(authentication := name), l, DIAGNOSTIC_TITLE_NOT_RECOGNIZED)
            else Next(s.(authentication := name), more, if l.ciphered then l.(missing := l.missing.(mechanism := false)) else l)
  {
    hide MechanismName;
    var b := [tag, 7] + MECHANISM_OID + [name] + more;
    assert b[1..] == [7] + MECHANISM_OID + [name] + more;
    ReadsMechanismName(s, name, more, l);
  }

  lemma ReadsCallingValue(s: Settings, value: seq<Byte>, len: Byte, more: seq<Byte>, l: Locals, decipher: Decipher)
    requires |s.sourceSystemTitle| == 8 && |value| < 256
    ensures Field(s, [0xAC, len, 0x80, |value|] + value + more, l, decipher)
         == if s.authentication != AUTH_LOW && (|value| < 8 || |value| > 64) then Return(InvalidParameter, s, l)
            else Next(if s.authentication == AUTH_LOW then s.(password := value) else s.(ctoSChallenge := value), more,
                      if l.ciphered then l.(missing := l.missing.(authentication := false)) else l)
  {
    var b := [0xAC, len, 0x80, |value|] + value + more;
    assert b[1..] == [len, 0x80, |value|] + (value + more);
    assert b[1..][3..] == value + more;
    TakeExact(value, more);
  }

  lemma ReadsServerChallenge(s: Settings, value: seq<Byte>, len: Byte, more: seq<Byte>, l: Locals, decipher: Decipher)
    requires |s.sourceSystemTitle| == 8 && |value| < 256
    ensures Field(s, [0xAA, len, 0x80, |value|] + value + more, l, decipher) == Next(s.(stoCChallenge := value), more, l)
  {
    var b := [0xAA, len, 0x80, |value|] + value + more;
    assert b[1..] == [len, 0x80, |value|] + (value + more);
    assert b[1..][3..] == value + more;
    TakeExact(value, more);
  }

  lemma ReadsResult(s: Settings, result: Byte, more: seq<Byte>, l: Locals, decipher: Decipher)
    requires |s.sourceSystemTitle| == 8 && !s.server
    ensures Field(s, ResultBytes(result) + more, l, decipher) == Next(s, more, l.(result := result))
  {
    var b := ResultBytes(result) + more;
    assert b[1..] == [3, 2, 1, result] + more;
    assert b[1..][4..] == more;
  }

  lemma ReadsDiagnostic(s: Settings, diagnostic: Byte, more: seq<Byte>, l: Locals, decipher: Decipher)
    requires |s.sourceSystemTitle| == 8 && !s.server
    ensures Field(s, DiagnosticBytes(diagnostic) + more, l, decipher) == Next(s, more, l.(diagnostic := diagnostic % 0x80))
  {
    var b := DiagnosticBytes(diagnostic) + more;
    assert b[1..] == [5, if diagnostic < 0x80 then 0xA1 else 0xA2, 3, 2, 1, diagnostic % 0x80] + more;
    assert b[1..][6..] == more;
  }

  lemma ReadsRespondingTitle(s: Settings, title: seq<Byte>, more: seq<Byte>, l: Locals, decipher: Decipher)
    requires |s.sourceSystemTitle| == 8 && |title| == 8 && !s.server
    ensures Field(s, [0xA4, 0x0A, 0x04, 0x08] + title + more, l, decipher) == Next(s.(sourceSystemTitle := title), more, l)
  {
    var b := [0xA4, 0x0A, 0x04, 0x08] + title + more;
    assert b[1..] == [0x0A, 0x04, 0x08] + title + more;
    assert b[1..][3..11] == title && b[1..][11..] == more;
  }

  // ---------- user information ----------

  lemma ReadsQuality(s: Settings, c: Settings, more: seq<Byte>, l: Locals)
    ensures QualityOfService(s, QualityBytes(c) + more, l)
         == Next(if c.qualityOfService == 0 then s else s.(qualityOfService := c.qualityOfService), more, l)
  {
    var b := QualityBytes(c) + more;
    if c.qualityOfService == 0 { assert b[1..] == more; } else { assert b[2..] == more; }
  }

  /** Version, conformance and PDU size, as both initiate bodies carry them. */
  function ParameterBytes(version: Byte, conformance: nat, pduSize: nat): seq<Byte> {
    [version, 0x5F, 0x1F, 0x04, 0x00] + ConformanceBytes(conformance) + [Hi(pduSize), Lo(pduSize)]
  }

  /** The settings after those parameters. */
  function WithParameters(s: Settings, version: Byte, conformance: nat, pduSize: nat, ciphered: bool): Settings {
    Granted(if s.server then s.(dlmsVersion := version) else s, conformance % 0x100_0000, pduSize, ciphered)
  }

  /** The settings after a conformance value and a PDU size were read. */
  function Granted(s: Settings, conformance: nat, pduSize: nat, ciphered: bool): Settings {
    s.(negotiatedConformance := Negotiated(s, conformance, ciphered), maxPduSize := GrantedPduSize(s, pduSize))
  }

  lemma BlockIndices(c: seq<Byte>, p: seq<Byte>, more: seq<Byte>, b: seq<Byte>)
    requires |c| == 3 && |p| == 2 && b == [0x04, 0x00] + c + p + more
    ensures |b| == 7 + |more| && b[2] == c[0] && b[3] == c[1] && b[4] == c[2] && b[5] == p[0] && b[6] == p[1] && b[7..] == more
    ensures |more| >= 2 ==> b[7] == more[0] && b[8] == more[1] && b[9..] == more[2..]
  {
  }

  lemma ReadsBlock(s: Settings, c: seq<Byte>, p: seq<Byte>, more: seq<Byte>, l: Locals, response: bool)
    requires |c| == 3 && |p| == 2
    requires response ==> |more| >= 2 && Word(more[0], more[1]) == if s.useLogicalNames then 0x0007 else 0xFA00
    ensures ConformanceBlock(s, [0x04, 0x00] + c + p + more, l, response)
         == Next(Granted(s, ConformanceOf(c[0], c[1], c[2]), Word(p[0], p[1]), l.ciphered),
                 if response then more[2..] else more, l)
  {
    BlockIndices(c, p, more, [0x04, 0x00] + c + p + more);
  }

  lemma ParametersBeforeBlock(s: Settings, version: Byte, block: seq<Byte>, l: Locals, response: bool)
    requires !s.server ==> version >= 6
    ensures Parameters(s, [version, 0x5F, 0x1F] + block, l, response)
         == ConformanceBlock(if s.server then s.(dlmsVersion := version) else s, block, l, response)
  {
    assert ([version, 0x5F, 0x1F] + block)[3..] == block;
  }

  lemma PduSizeBytes(pduSize: nat)
    requires pduSize < 65536
    ensures Word(Hi(pduSize), Lo(pduSize)) == pduSize
  {
  }

  lemma ParameterRegroup(version: Byte, c: seq<Byte>, p: seq<Byte>, more: seq<Byte>)
    ensures [version, 0x5F, 0x1F, 0x04, 0x00] + c + p + more == [version, 0x5F, 0x1F] + ([0x04, 0x00] + c + p + more)
  {
  }

  lemma ReadsParameters(s: Settings, version: Byte, conformance: nat, pduSize: nat, more: seq<Byte>, l: Locals, response: bool)
    requires pduSize < 65536 && (!s.server ==> version >= 6)
    requires response ==> |more| >= 2 && Word(more[0], more[1]) == if s.useLogicalNames then 0x0007 else 0xFA00
    ensures Parameters(s, ParameterBytes(version, conformance, pduSize) + more, l, response)
         == Next(WithParameters(s, version, conformance, pduSize, l.ciphered), if response then more[2..] else more, l)
  {
    hide Parameters, Hi, Lo, ConformanceOf, ConformanceBytes;
    var s1 := if s.server then s.(dlmsVersion := version) else s;
    var c, p := ConformanceBytes(conformance), [Hi(pduSize), Lo(pduSize)];
    var block := [0x04, 0x00] + c + p + more;
    ParameterRegroup(version, c, p, more);
    ParametersBeforeBlock(s, version, block, l, response);
    ReadsBlock(s1, c, p, more, l, response);
    ConformanceRoundTrip(conformance);
    PduSizeBytes(pduSize);
  }

  function WithQuality(s: Settings, c: Settings): Settings {
    if c.qualityOfService == 0 then s else s.(qualityOfService := c.qualityOfService)
  }

  /** The server's settings after it read the client's request. */
  function AfterRequest(s: Settings, c: Settings): Settings {
    WithParameters(WithQuality(s.(dedicatedKey := None), c), c.dlmsVersion, c.proposedConformance, c.maxPduSize, false)
  }

  /** The client's settings after it read the server's response. */
  function AfterResponse(s: Settings, v: Settings): Settings {
    WithParameters(WithQuality(s, v), 6, v.negotiatedConformance, v.maxPduSize, false)
  }

  lemma Regroup(h: seq<Byte>, q: seq<Byte>, x: seq<Byte>, c: seq<Byte>, p: seq<Byte>, e: seq<Byte>, more: seq<Byte>)
    ensures h + q + x + c + p + e + more == h + (q + ((x + c + p) + (e + more)))
    ensures h + q + x + c + p + more == h + (q + ((x + c + p) + more))
  {
  }

  lemma RequestShape(c: Settings, more: seq<Byte>)
    requires !IsCiphered(c)
    ensures InitiateRequestBytes(c) + more
         == [INITIATE_REQUEST, 0, 0] + (QualityBytes(c) + (ParameterBytes(c.dlmsVersion, c.proposedConformance, c.maxPduSize) + more))
  {
    Regroup([INITIATE_REQUEST] + [0] + [0], QualityBytes(c), [c.dlmsVersion, 0x5F, 0x1F, 0x04, 0x00],
            ConformanceBytes(c.proposedConformance), [Hi(c.maxPduSize), Lo(c.maxPduSize)], [], more);
    assert [INITIATE_REQUEST] + [0] + [0] == [INITIATE_REQUEST, 0, 0];
  }

  lemma RequestSteps(s: Settings, rest: seq<Byte>, l: Locals, s1: Settings, rest1: seq<Byte>)
    requires QualityOfService(s.(dedicatedKey := None), rest, l) == Next(s1, rest1, l)
    ensures InitiateBody(s, [INITIATE_REQUEST, 0, 0] + rest, l) == Parameters(s1, rest1, l, false)
  {
    var b := [INITIATE_REQUEST, 0, 0] + rest;
    assert b[1..] == [0, 0] + rest;
    assert b[1..][1..] == [0] + rest;
    assert b[1..][1..][1..] == rest;
  }

  lemma ReadsRequestBody(s: Settings, c: Settings, more: seq<Byte>, l: Locals)
    requires s.server && !IsCiphered(c) && c.maxPduSize < 65536 && !l.ciphered
    ensures InitiateBody(s, InitiateRequestBytes(c) + more, l) == Next(AfterRequest(s, c), more, l)
  {
    var tail := ParameterBytes(c.dlmsVersion, c.proposedConformance, c.maxPduSize) + more;
    var s1 := s.(dedicatedKey := None);
    RequestShape(c, more);
    ReadsQuality(s1, c, tail, l);
    RequestSteps(s, QualityBytes(c) + tail, l, WithQuality(s1, c), tail);
    ReadsParameters(WithQuality(s1, c), c.dlmsVersion, c.proposedConformance, c.maxPduSize, more, l, false);
  }

  lemma ResponseSteps(s: Settings, rest: seq<Byte>, l: Locals, s1: Settings, rest1: seq<Byte>)
    requires QualityOfService(s, rest, l) == Next(s1, rest1, l)
    ensures InitiateBody(s, [INITIATE_RESPONSE] + rest, l) == Parameters(s1, rest1, l, true)
  {
    assert ([INITIATE_RESPONSE] + rest)[1..] == rest;
  }

  lemma VaaNameWord(v: Settings, more: seq<Byte>)
    ensures var tail := VaaName(v) + more;
            Word(tail[0], tail[1]) == (if v.useLogicalNames then 0x0007 else 0xFA00) && tail[2..] == more
  {
  }

  lemma ResponseShape(v: Settings, more: seq<Byte>)
    ensures InitiateResponseBytes(v) + more
         == [INITIATE_RESPONSE] + (QualityBytes(v) + (ParameterBytes(6, v.negotiatedConformance, v.maxPduSize) + (VaaName(v) + more)))
  {
    Regroup([INITIATE_RESPONSE], QualityBytes(v), [0x06, 0x5F, 0x1F, 0x04, 0x00],
            ConformanceBytes(v.negotiatedConformance), [Hi(v.maxPduSize), Lo(v.maxPduSize)], VaaName(v), more);
  }

  lemma ReadsResponseBody(s: Settings, v: Settings, more: seq<Byte>, l: Locals)
    requires !s.server && s.useLogicalNames == v.useLogicalNames && v.maxPduSize < 65536
    ensures InitiateBody(s, InitiateResponseBytes(v) + more, l) == Next(AfterResponse(s, v), more, l)
  {
    var tail := ParameterBytes(6, v.negotiatedConformance, v.maxPduSize) + (VaaName(v) + more);
    ResponseShape(v, more);
    ReadsQuality(s, v, tail, l);
    ResponseSteps(s, QualityBytes(v) + tail, l, WithQuality(s, v), tail);
    VaaNameWord(v, more);
    ReadsParameters(WithQuality(s, v), 6, v.negotiatedConformance, v.maxPduSize, VaaName(v) + more, l, true);
  }

  lemma InformationHeader(s: Settings, outer: Byte, inner: Byte, body: seq<Byte>, l: Locals, decipher: Decipher)
    requires outer <= 2 + |body| && body != [] && !IsCipheringCommand(body[0])
    ensures UserInformation(s, [outer, 0x04, inner] + body, l, decipher) == InitiateBody(s, body, l)
  {
    assert ([outer, 0x04, inner] + body)[3..] == body;
  }

  lemma InformationTag(s: Settings, x: seq<Byte>, l: Locals, decipher: Decipher)
    requires |s.sourceSystemTitle| == 8
    ensures Field(s, [0xBE] + x, l, decipher) == UserInformationField(s, x, l, decipher)
  {
    hide UserInformationField;
    var b := [0xBE] + x;
    assert b[0] == 0xBE && b[1..] == x;
  }

  lemma InformationField(s: Settings, x: seq<Byte>, l: Locals, decipher: Decipher)
    requires |s.sourceSystemTitle| == 8 && (l.result == ACCEPTED || l.diagnostic == DIAGNOSTIC_NONE)
    requires UserInformation(s, x, l, decipher).Next?
    ensures Field(s, [0xBE] + x, l, decipher) == UserInformation(s, x, l, decipher)
  {
    InformationTag(s, x, l, decipher);
  }

  /** `rest` is the initiate body and whatever follows it. */
  lemma ReadsInformation(s: Settings, outer: Byte, inner: Byte, rest: seq<Byte>, l: Locals, decipher: Decipher)
    requires |s.sourceSystemTitle| == 8 && outer <= 2 + |rest| && rest != [] && !IsCipheringCommand(rest[0])
    requires l.result == ACCEPTED || l.diagnostic == DIAGNOSTIC_NONE
    requires InitiateBody(s, rest, l).Next?
    ensures Field(s, [0xBE] + ([outer, 0x04, inner] + rest), l, decipher) == InitiateBody(s, rest, l)
  {
    InformationHeader(s, outer, inner, rest, l, decipher);
    InformationField(s, [outer, 0x04, inner] + rest, l, decipher);
  }

  // ---------- the server reads an AARQ ----------

  lemma OneField(s: Settings, x: seq<Byte>, more: seq<Byte>, l: Locals, decipher: Decipher, s1: Settings, l1: Locals)
    requires |s.sourceSystemTitle| == 8 && x != [] && Field(s, x + more, l, decipher) == Next(s1, more, l1)
    ensures |s1.sourceSystemTitle| == 8 && Fields(s, x + more, l, decipher) == Fields(s1, more, l1, decipher)
  {
    hide Field;
  }

  lemma LastField(s: Settings, x: seq<Byte>, more: seq<Byte>, l: Locals, decipher: Decipher)
    requires |s.sourceSystemTitle| == 8 && x != [] && Field(s, x + more, l, decipher).Return?
    ensures Fields(s, x + more, l, decipher) == Field(s, x + more, l, decipher)
  {
    hide Field;
  }

  /** A client and a server that can be brought together without ciphering. */
  predicate PlainPair(c: Settings, v: Settings) {
    && !c.server && v.server && !IsCiphered(c) && c.useLogicalNames == v.useLogicalNames
    && |c.sourceSystemTitle| == 8 && |v.sourceSystemTitle| == 8
    && (c.authentication == AUTH_HIGH_GMAC ==> |c.systemTitle| >= 8)
    && (c.authentication != AUTH_NONE ==> |CallingValue(c)| < 256)
    && c.maxPduSize < 65536 && v.maxServerPduSize < 65536
  }

  function Versioned(v: Settings, c: Settings): Settings {
    if c.protocolVersion != 0 then v.(protocolVersion := c.protocolVersion) else v
  }

  function Titled(v: Settings, c: Settings): Settings {
    if c.authentication == AUTH_HIGH_GMAC then v.(sourceSystemTitle := Take(c.systemTitle, 8)) else v
  }

  function Authenticated(v: Settings, c: Settings): Settings {
    if c.authentication == AUTH_NONE then v
    else if c.authentication == AUTH_LOW then v.(authentication := c.authentication, password := c.password)
    else v.(authentication := c.authentication, ctoSChallenge := c.ctoSChallenge)
  }

  /** The server's settings when the client's names were read. */
  function Named(v: Settings, c: Settings): Settings { Titled(Versioned(v, c).(security := SECURITY_NONE), c) }

  /** All that the server learns from the client's AARQ. */
  function Learned(v: Settings, c: Settings): Settings { AfterRequest(Authenticated(Named(v, c), c), c) }

  predicate VersionFits(c: Settings) { c.protocolVersion == 0 || c.protocolVersion == 0x84 }

  predicate MechanismFits(v: Settings, c: Settings) {
    c.authentication <= AUTH_LAST_KNOWN && (c.authentication == AUTH_HIGH_GMAC ==> Take(c.systemTitle, 8) != Zeros(8))
  }

  predicate ValueFits(c: Settings) { c.authentication > AUTH_LOW ==> 8 <= |c.ctoSChallenge| <= 64 }

  predicate PolicyFits(v: Settings) { v.expectedPolicy == NO_EXPECTATION || v.expectedPolicy == 0 }

  /** What decides whether the server takes the AARQ. */
  predicate Acceptable(v: Settings, c: Settings) {
    VersionFits(c) && MechanismFits(v, c) && ValueFits(c) && PolicyFits(v)
  }

  lemma VersionStage(v: Settings, c: Settings, more: seq<Byte>, l: Locals, decipher: Decipher)
    requires v.server && |v.sourceSystemTitle| == 8
    ensures Fields(v, ProtocolVersionBytes(c) + more, l, decipher)
         == if VersionFits(c) then Fields(Versioned(v, c), more, l, decipher)
            else Rejected(v, l, DIAGNOSTIC_NO_COMMON_VERSION)
  {
    hide Field;
    if c.protocolVersion == 0 {
      assert ProtocolVersionBytes(c) + more == more;
    } else {
      ReadsProtocolVersion(v, c.protocolVersion, more, l, decipher);
      if VersionFits(c) {
        OneField(v, ProtocolVersionBytes(c), more, l, decipher, Versioned(v, c), l);
      } else {
        LastField(v, ProtocolVersionBytes(c), more, l, decipher);
      }
    }
  }

  lemma TitleStage(v: Settings, c: Settings, more: seq<Byte>, l: Locals, decipher: Decipher)
    requires PlainPair(c, v)
    ensures |Titled(v, c).sourceSystemTitle| == 8
    ensures Fields(v, CallingTitleBytes(c) + more, l, decipher) == Fields(Titled(v, c), more, l, decipher)
  {
    hide Field;
    if c.authentication == AUTH_HIGH_GMAC {
      ReadsCallingTitle(v, Take(c.systemTitle, 8), more, l, decipher);
      OneField(v, CallingTitleBytes(c), more, l, decipher, Titled(v, c), l);
    } else {
      assert CallingTitleBytes(c) + more == more;
    }
  }

  lemma NameStage(v: Settings, c: Settings, more: seq<Byte>, l: Locals, decipher: Decipher)
    requires PlainPair(c, v) && !l.ciphered
    ensures NameBytes(c).Pdu? && |Named(v, c).sourceSystemTitle| == 8
    ensures Fields(v, NameBytes(c).bytes + more, l, decipher)
         == if VersionFits(c) then Fields(Named(v, c), more, l, decipher)
            else Rejected(v, l, DIAGNOSTIC_NO_COMMON_VERSION)
  {
    hide Field;
    var x, y := ContextBytes(c), CallingTitleBytes(c);
    assert NameBytes(c).bytes + more == ProtocolVersionBytes(c) + (x + (y + more));
    VersionStage(v, c, x + (y + more), l, decipher);
    var v1 := Versioned(v, c);
    var v2 := v1.(security := SECURITY_NONE);
    ReadsContext(v1, c, y + more, l, decipher);
    OneField(v1, x, y + more, l, decipher, v2, l);
    TitleStage(v2, c, more, l, decipher);
  }

  lemma AcseStage(v: Settings, more: seq<Byte>, l: Locals, decipher: Decipher)
    requires |v.sourceSystemTitle| == 8 && !l.ciphered
    ensures Fields(v, [0x8A, 2, 7, 0x80] + more, l, decipher) == Fields(v, more, l, decipher)
  {
    hide Field;
    ReadsAcseRequirements(v, 0x8A, more, l, decipher);
    OneField(v, [0x8A, 2, 7, 0x80], more, l, decipher, v, l);
  }

  /** What the mechanism name and the calling value lead to. */
  function AfterAuthentication(v: Settings, c: Settings, more: seq<Byte>, l: Locals, decipher: Decipher): Progress
    requires |v.sourceSystemTitle| == 8
  {
    var v1 := v.(authentication := c.authentication);
    if c.authentication == AUTH_NONE then Fields(v, more, l, decipher)
    else if c.authentication > AUTH_LAST_KNOWN then Return(InvalidTag, v, l)
    else if c.authentication == AUTH_HIGH_GMAC && v.sourceSystemTitle == Zeros(8) then Rejected(v1, l, DIAGNOSTIC_TITLE_NOT_RECOGNIZED)
    else if !ValueFits(c) then Return(InvalidParameter, v1, l)
    else Fields(Authenticated(v, c), more, l, decipher)
  }

  lemma ValueStage(v: Settings, c: Settings, more: seq<Byte>, l: Locals, decipher: Decipher)
    requires |v.sourceSystemTitle| == 8 && !l.ciphered && |CallingValue(c)| < 256
    requires c.authentication != AUTH_NONE && v.authentication == c.authentication
    ensures Fields(v, CallingValueBytes(c) + more, l, decipher)
         == if ValueFits(c) then Fields(Authenticated(v, c), more, l, decipher) else Return(InvalidParameter, v, l)
  {
    hide Field;
    var value := CallingValue(c);
    ReadsCallingValue(v, value, Lo(2 + |value|), more, l, decipher);
    if ValueFits(c) {
      OneField(v, CallingValueBytes(c), more, l, decipher, Authenticated(v, c), l);
    } else {
      LastField(v, CallingValueBytes(c), more, l, decipher);
    }
  }

  lemma AuthenticationStage(v: Settings, c: Settings, more: seq<Byte>, l: Locals, decipher: Decipher)
    requires PlainPair(c, v) && !l.ciphered
    ensures Fields(v, AuthenticationBytes(c) + more, l, decipher) == AfterAuthentication(v, c, more, l, decipher)
  {
    hide Field;
    if c.authentication == AUTH_NONE {
      assert AuthenticationBytes(c) + more == more;
    } else {
      var m := [0x8B, 7] + MECHANISM_OID + [c.authentication];
      var tail := CallingValueBytes(c) + more;
      assert AuthenticationBytes(c) + more == [0x8A, 2, 7, 0x80] + (m + tail);
      AcseStage(v, m + tail, l, decipher);
      MechanismStage(v, c, more, l, decipher);
    }
  }

  lemma MechanismStage(v: Settings, c: Settings, more: seq<Byte>, l: Locals, decipher: Decipher)
    requires PlainPair(c, v) && !l.ciphered && c.authentication != AUTH_NONE
    ensures Fields(v, ([0x8B, 7] + MECHANISM_OID + [c.authentication]) + (CallingValueBytes(c) + more), l, decipher)
         == AfterAuthentication(v, c, more, l, decipher)
  {
    hide Field;
    var m := [0x8B, 7] + MECHANISM_OID + [c.authentication];
    var tail := CallingValueBytes(c) + more;
    var v1 := v.(authentication := c.authentication);
    ReadsMechanism(v, 0x8B, c.authentication, tail, l, decipher);
    if c.authentication > AUTH_LAST_KNOWN || (c.authentication == AUTH_HIGH_GMAC && v.sourceSystemTitle == Zeros(8)) {
      LastField(v, m, tail, l, decipher);
    } else {
      OneField(v, m, tail, l, decipher, v1, l);
      ValueStage(v1, c, more, l, decipher);
    }
  }

  lemma RequestInformationShape(c: Settings)
    requires !IsCiphered(c)
    ensures RequestInformationBytes(c) == [0xBE] + ([0x10, 0x04, 0x0E] + InitiateRequestBytes(c))
    ensures |InitiateRequestBytes(c)| == 14 + (if c.qualityOfService == 0 then 0 else 1)
    ensures InitiateRequestBytes(c)[0] == INITIATE_REQUEST
  {
    InformationRegroup(0x10, 0x0E, InitiateRequestBytes(c));
    RequestLength([INITIATE_REQUEST], [0], [0], QualityBytes(c), [c.dlmsVersion, 0x5F, 0x1F, 0x04, 0x00],
                  ConformanceBytes(c.proposedConformance), [Hi(c.maxPduSize), Lo(c.maxPduSize)]);
  }

  lemma RequestStage(v: Settings, c: Settings, l: Locals, decipher: Decipher)
    requires PlainPair(c, v) && !l.ciphered && l.result == ACCEPTED
    ensures Fields(v, RequestInformationBytes(c), l, decipher) == Next(AfterRequest(v, c), [], l)
  {
    hide Field, InitiateBody, InitiateRequestBytes, RequestInformationBytes, AfterRequest;
    var body := InitiateRequestBytes(c);
    RequestInformationShape(c);
    assert body + [] == body;
    ReadsRequestBody(v, c, [], l);
    InformationIsRead(v, 0x10, 0x0E, body, l, decipher, AfterRequest(v, c));
  }

  function AarqBody(c: Settings): seq<Byte>
    requires NameBytes(c).Pdu?
  {
    NameBytes(c).bytes + AuthenticationBytes(c) + RequestInformationBytes(c)
  }

  lemma BodyShape(c: Settings, tail: seq<Byte>)
    requires NameBytes(c).Pdu? && tail == AuthenticationBytes(c) + RequestInformationBytes(c)
    ensures AarqBody(c) == NameBytes(c).bytes + tail
  {
    Associate(NameBytes(c).bytes, AuthenticationBytes(c), RequestInformationBytes(c));
  }

  lemma Associate(x: seq<Byte>, y: seq<Byte>, z: seq<Byte>)
    ensures x + y + z == x + (y + z)
  {
  }

  /** The fields of an AARQ up to its authentication, as the server reads them. */
  lemma AarqStages(v: Settings, c: Settings, l: Locals, decipher: Decipher)
    requires PlainPair(c, v) && !l.ciphered
    ensures NameBytes(c).Pdu? && |Named(v, c).sourceSystemTitle| == 8
    ensures Fields(v, AarqBody(c), l, decipher)
         == if VersionFits(c) then AfterAuthentication(Named(v, c), c, RequestInformationBytes(c), l, decipher)
            else Rejected(v, l, DIAGNOSTIC_NO_COMMON_VERSION)
  {
    hide Field;
    var a, u := AuthenticationBytes(c), RequestInformationBytes(c);
    BodyShape(c, a + u);
    NameStage(v, c, a + u, l, decipher);
    var v1 := Named(v, c);
    AuthenticationStage(v1, c, u, l, decipher);
  }

  /** What the parser makes of the fields of a plain AARQ, the first thing it refuses first. */
  function AarqRead(v: Settings, c: Settings, l: Locals): Outcome
    requires |v.sourceSystemTitle| == 8
  {
    var v1 := Named(v, c);
    if !VersionFits(c) then Outcome(Ok, v, l.(result := PERMANENT_REJECTED, diagnostic := DIAGNOSTIC_NO_COMMON_VERSION))
    else if c.authentication > AUTH_LAST_KNOWN then Outcome(InvalidTag, v1, l)
    else if !MechanismFits(v, c) then
      Outcome(Ok, v1.(authentication := c.authentication), l.(result := PERMANENT_REJECTED, diagnostic := DIAGNOSTIC_TITLE_NOT_RECOGNIZED))
    else if !ValueFits(c) then Outcome(InvalidParameter, v1.(authentication := c.authentication), l)
    else Outcome(if PolicyFits(v) then Ok else InvalidDecipheringError, Learned(v, c), l)
  }

  lemma AarqAccepted(v: Settings, c: Settings, l: Locals, decipher: Decipher)
    requires PlainPair(c, v) && !l.ciphered && l.result == ACCEPTED
    requires VersionFits(c) && MechanismFits(v, c) && ValueFits(c) && NameBytes(c).Pdu?
    ensures Fields(v, AarqBody(c), l, decipher) == Next(Learned(v, c), [], l)
  {
    AarqStages(v, c, l, decipher);
    RequestStage(Authenticated(Named(v, c), c), c, l, decipher);
  }

  lemma AarqRefused(v: Settings, c: Settings, l: Locals, decipher: Decipher)
    requires PlainPair(c, v) && !l.ciphered && NameBytes(c).Pdu?
    requires !(VersionFits(c) && MechanismFits(v, c) && ValueFits(c))
    ensures AfterFields(Fields(v, AarqBody(c), l, decipher)) == AarqRead(v, c, l)
  {
    hide Fields, Finish, AfterRequest;
    AarqStages(v, c, l, decipher);
  }

  lemma ShortCount(s: Settings, n: Byte, body: seq<Byte>, l: Locals)
    requires n <= 0x80
    ensures ObjectCount(s, [n] + body, l) == Next(s, body, l) && CountValue([n] + body) == n
  {
    assert ([n] + body)[1..] == body;
  }

  lemma FramedTail(tag: Byte, body: seq<Byte>)
    ensures Framed(tag, body) != [] && Framed(tag, body)[0] == tag && Framed(tag, body)[1..] == [Lo(|body|)] + body
  {
  }

  /** A PDU whose length byte is in the short form is read as its fields. */
  lemma ReadsFramed(s: Settings, body: seq<Byte>, command: Byte, decipher: Decipher)
    requires |s.sourceSystemTitle| == 8 && |body| % 256 <= 0x80
    ensures ParsePdu(s, Framed(if s.server then 0x60 else 0x61, body), command, decipher)
         == AfterFields(Fields(s, body, START.(command := command), decipher))
  {
    FramedTail(if s.server then 0x60 else 0x61, body);
    ShortCount(s, Lo(|body|), body, START.(command := command));
  }

  lemma AarqIsFramed(c: Settings, encipher: Encipher)
    requires !IsCiphered(c) && Aarq(c, encipher).Pdu?
    ensures NameBytes(c).Pdu? && Aarq(c, encipher) == Pdu(Framed(0x60, AarqBody(c)))
  {
  }

  /** The end of the PDU adds nothing but the security policy. */
  lemma PlainFinish(s: Settings, l: Locals)
    requires l.missing == NOTHING_MISSING && s.security == SECURITY_NONE && DiagnosticCode(l.diagnostic) == Ok
    ensures Finish(s, l) == if PolicyFits(s) then Outcome(Ok, s, l) else Outcome(InvalidDecipheringError, s, l)
  {
  }

  lemma LearnedOutcome(c: Settings, v: Settings, l: Locals)
    requires v.server && l.missing == NOTHING_MISSING && l.diagnostic == DIAGNOSTIC_NONE
    ensures AfterFields(Next(Learned(v, c), [], l))
         == Outcome(if PolicyFits(v) then Ok else InvalidDecipheringError, Learned(v, c), l)
  {
    PlainFinish(Learned(v, c), l);
  }

  /** The length byte is in the short form: the body is under 129 bytes, or wraps around to that. */
  predicate IsShort(pdu: seq<Byte>) { |pdu| >= 2 && (|pdu| - 2) % 256 <= 0x80 }

  lemma FramedShort(tag: Byte, body: seq<Byte>)
    ensures IsShort(Framed(tag, body)) <==> |body| % 256 <= 0x80
  {
  }

  lemma AarqOutcome(c: Settings, v: Settings, request: seq<Byte>, command: Byte, decipher: Decipher, encipher: Encipher)
    requires PlainPair(c, v) && Aarq(c, encipher) == Pdu(request) && IsShort(request)
    ensures NameBytes(c).Pdu?
    ensures ParsePdu(v, request, command, decipher)
         == AfterFields(Fields(v, AarqBody(c), START.(command := command), decipher))
  {
    hide Fields, ParsePdu, Framed, Aarq, NameBytes, AuthenticationBytes, RequestInformationBytes;
    AarqIsFramed(c, encipher);
    FramedShort(0x60, AarqBody(c));
    ReadsFramed(v, AarqBody(c), command, decipher);
  }

  /** What the server makes of a plain AARQ: code, diagnostic and settings of every refusal, and every
      setting the client sent once it accepts, which it does exactly for the acceptable ones. */
  lemma AarqRoundTrip(c: Settings, v: Settings, request: seq<Byte>, command: Byte, decipher: Decipher, encipher: Encipher)
    requires PlainPair(c, v) && Aarq(c, encipher) == Pdu(request) && IsShort(request)
    ensures var o := ParsePdu(v, request, command, decipher);
            && o == AarqRead(v, c, START.(command := command))
            && (o.code == Ok && o.l.result == ACCEPTED <==> Acceptable(v, c))
            && (Acceptable(v, c) ==> o == Outcome(Ok, Learned(v, c), START.(command := command)))
  {
    hide Fields, ParsePdu, Learned, Named, Finish;
    var l := START.(command := command);
    AarqOutcome(c, v, request, command, decipher, encipher);
    if VersionFits(c) && MechanismFits(v, c) && ValueFits(c) {
      AarqAccepted(v, c, l, decipher);
      LearnedOutcome(c, v, l);
    } else {
      AarqRefused(v, c, l, decipher);
    }
  }

  lemma RequestLength(h: seq<Byte>, d: seq<Byte>, r: seq<Byte>, q: seq<Byte>, x: seq<Byte>, c: seq<Byte>, p: seq<Byte>)
    requires h == [INITIATE_REQUEST]
    ensures |h + d + r + q + x + c + p| == 1 + |d| + |r| + |q| + |x| + |c| + |p| && (h + d + r + q + x + c + p)[0] == INITIATE_REQUEST
  {
  }

  /** The lengths of a plain user information are constants: they count its bytes exactly without a
      quality of service, and one too few with it. */
  lemma RequestLengthsAreRight(c: Settings)
    requires !IsCiphered(c)
    ensures var x := RequestInformationBytes(c);
            |x| == 18 + (if c.qualityOfService == 0 then 0 else 1) && x[1] == 16 && x[3] == 14
    ensures var x := RequestInformationBytes(c);
            (x[1] == |x| - 2 <==> c.qualityOfService == 0) && (x[3] == |x| - 4 <==> c.qualityOfService == 0)
  {
    RequestInformationShape(c);
  }

  // ---------- the client reads an AARE ----------

  /** A client and the server that answers it, without ciphering. */
  predicate PlainAnswer(c: Settings, v: Settings) {
    && !c.server && v.server && !IsCiphered(c) && !IsCiphered(v) && c.useLogicalNames == v.useLogicalNames
    && |c.sourceSystemTitle| == 8 && v.maxPduSize < 65536
    && (v.authentication == AUTH_HIGH_GMAC ==> |v.systemTitle| >= 8)
    && (v.authentication > AUTH_LOW ==> 0 < |v.stoCChallenge| < 256)
  }

  /** The client after the mechanism and the challenge of the server. */
  function Challenged(c: Settings, v: Settings): Settings {
    if v.authentication > AUTH_LOW then c.(authentication := v.authentication, stoCChallenge := v.stoCChallenge) else c
  }

  function TitledByServer(c: Settings, v: Settings): Settings {
    if v.authentication == AUTH_HIGH_GMAC then c.(sourceSystemTitle := Take(v.systemTitle, 8)) else c
  }

  /** All that the client learns before the user information. */
  function Introduced(c: Settings, v: Settings): Settings { Challenged(TitledByServer(Versioned(c, v), v), v) }

  lemma AnswerNameStage(c: Settings, v: Settings, more: seq<Byte>, l: Locals, decipher: Decipher)
    requires PlainAnswer(c, v) && !l.ciphered
    ensures NameBytes(v).Pdu? && |Versioned(c, v).sourceSystemTitle| == 8
    ensures Fields(c, NameBytes(v).bytes + more, l, decipher) == Fields(Versioned(c, v), more, l, decipher)
  {
    hide Field;
    var p, x := ProtocolVersionBytes(v), ContextBytes(v);
    assert NameBytes(v).bytes + more == p + (x + more);
    var c1 := Versioned(c, v);
    if v.protocolVersion == 0 {
      assert p + (x + more) == x + more;
    } else {
      ReadsProtocolVersion(c, v.protocolVersion, x + more, l, decipher);
      OneField(c, p, x + more, l, decipher, c1, l);
    }
    ReadsContext(c1, v, more, l, decipher);
    OneField(c1, x, more, l, decipher, c1, l);
  }

  lemma VerdictStage(c: Settings, result: Byte, diagnostic: Byte, more: seq<Byte>, l: Locals, decipher: Decipher)
    requires |c.sourceSystemTitle| == 8 && !c.server
    ensures Fields(c, ResultBytes(result) + (DiagnosticBytes(diagnostic) + more), l, decipher)
         == Fields(c, more, l.(result := result, diagnostic := diagnostic % 0x80), decipher)
  {
    hide Field;
    var l1 := l.(result := result);
    ReadsResult(c, result, DiagnosticBytes(diagnostic) + more, l, decipher);
    OneField(c, ResultBytes(result), DiagnosticBytes(diagnostic) + more, l, decipher, c, l1);
    ReadsDiagnostic(c, diagnostic, more, l1, decipher);
    OneField(c, DiagnosticBytes(diagnostic), more, l1, decipher, c, l1.(diagnostic := diagnostic % 0x80));
  }

  lemma AnswerTitleStage(c: Settings, v: Settings, more: seq<Byte>, l: Locals, decipher: Decipher)
    requires PlainAnswer(c, v)
    ensures |TitledByServer(c, v).sourceSystemTitle| == 8
    ensures Fields(c, RespondingTitleBytes(v) + more, l, decipher) == Fields(TitledByServer(c, v), more, l, decipher)
  {
    hide Field;
    if v.authentication == AUTH_HIGH_GMAC {
      ReadsRespondingTitle(c, Take(v.systemTitle, 8), more, l, decipher);
      OneField(c, RespondingTitleBytes(v), more, l, decipher, TitledByServer(c, v), l);
    } else {
      assert RespondingTitleBytes(v) + more == more;
    }
  }

  lemma AnswerAcseStage(c: Settings, more: seq<Byte>, l: Locals, decipher: Decipher)
    requires |c.sourceSystemTitle| == 8 && !l.ciphered
    ensures Fields(c, [0x88, 2, 7, 0x80] + more, l, decipher) == Fields(c, more, l, decipher)
  {
    hide Field;
    ReadsAcseRequirements(c, 0x88, more, l, decipher);
    OneField(c, [0x88, 2, 7, 0x80], more, l, decipher, c, l);
  }

  lemma ChallengeShape(v: Settings, more: seq<Byte>)
    requires v.authentication > AUTH_LOW
    ensures ServerChallengeBytes(v) + more
         == [0x88, 2, 7, 0x80] + (([0x89, 7] + MECHANISM_OID + [v.authentication])
            + (([0xAA, Lo(2 + |v.stoCChallenge|), 0x80, Lo(|v.stoCChallenge|)] + v.stoCChallenge) + more))
  {
  }

  /** The printed bytes that carry a server challenge. */
  function ChallengeValueBytes(v: Settings): seq<Byte> {
    [0xAA, Lo(2 + |v.stoCChallenge|), 0x80, Lo(|v.stoCChallenge|)] + v.stoCChallenge
  }

  lemma ChallengeValueStage(c: Settings, v: Settings, more: seq<Byte>, l: Locals, decipher: Decipher)
    requires |c.sourceSystemTitle| == 8 && |v.stoCChallenge| < 256
    ensures Fields(c, ChallengeValueBytes(v) + more, l, decipher)
         == Fields(c.(stoCChallenge := v.stoCChallenge), more, l, decipher)
  {
    hide Field;
    ReadsServerChallenge(c, v.stoCChallenge, Lo(2 + |v.stoCChallenge|), more, l, decipher);
    OneField(c, ChallengeValueBytes(v), more, l, decipher, c.(stoCChallenge := v.stoCChallenge), l);
  }

  lemma AnswerMechanismStage(c: Settings, name: Byte, more: seq<Byte>, l: Locals, decipher: Decipher)
    requires |c.sourceSystemTitle| == 8 && !c.server && !l.ciphered
    ensures Fields(c, ([0x89, 7] + MECHANISM_OID + [name]) + more, l, decipher)
         == if name > AUTH_LAST_KNOWN then Return(InvalidTag, c, l) else Fields(c.(authentication := name), more, l, decipher)
  {
    hide Field;
    var m := [0x89, 7] + MECHANISM_OID + [name];
    ReadsMechanism(c, 0x89, name, more, l, decipher);
    if name > AUTH_LAST_KNOWN {
      LastField(c, m, more, l, decipher);
    } else {
      OneField(c, m, more, l, decipher, c.(authentication := name), l);
    }
  }

  lemma ChallengeStage(c: Settings, v: Settings, more: seq<Byte>, l: Locals, decipher: Decipher)
    requires PlainAnswer(c, v) && !l.ciphered
    ensures Fields(c, ServerChallengeBytes(v) + more, l, decipher)
         == if v.authentication > AUTH_LAST_KNOWN then Return(InvalidTag, c, l) else Fields(Challenged(c, v), more, l, decipher)
  {
    hide Field;
    if v.authentication > AUTH_LOW {
      var tail := ChallengeValueBytes(v) + more;
      ChallengeShape(v, more);
      AnswerAcseStage(c, ([0x89, 7] + MECHANISM_OID + [v.authentication]) + tail, l, decipher);
      AnswerMechanismStage(c, v.authentication, tail, l, decipher);
      ChallengeValueStage(c.(authentication := v.authentication), v, more, l, decipher);
    } else {
      assert ServerChallengeBytes(v) + more == more;
    }
  }

  lemma InformationRegroup(outer: Byte, inner: Byte, body: seq<Byte>)
    ensures [0xBE, outer, 0x04, inner] + body == [0xBE] + ([outer, 0x04, inner] + body)
  {
  }

  lemma ResponseLength(h: seq<Byte>, q: seq<Byte>, x: seq<Byte>, c: seq<Byte>, p: seq<Byte>, e: seq<Byte>)
    requires h == [INITIATE_RESPONSE]
    ensures |h + q + x + c + p + e| == 1 + |q| + |x| + |c| + |p| + |e| && (h + q + x + c + p + e)[0] == INITIATE_RESPONSE
  {
  }

  lemma ResponseInformationShape(v: Settings)
    requires !IsCiphered(v)
    ensures ResponseInformationBytes(v, [])
         == [0xBE] + ([Lo(2 + |InitiateResponseBytes(v)|), 0x04, Lo(|InitiateResponseBytes(v)|)] + InitiateResponseBytes(v))
    ensures |InitiateResponseBytes(v)| == 14 + (if v.qualityOfService == 0 then 0 else 1)
    ensures InitiateResponseBytes(v)[0] == INITIATE_RESPONSE
  {
    hide Lo, InitiateResponseBytes;
    var body := InitiateResponseBytes(v);
    InitiateResponseShape(v);
    InformationRegroup(Lo(2 + |body|), Lo(|body|), body);
  }

  lemma InitiateResponseShape(v: Settings)
    ensures |InitiateResponseBytes(v)| == 14 + (if v.qualityOfService == 0 then 0 else 1)
    ensures InitiateResponseBytes(v)[0] == INITIATE_RESPONSE
  {
    hide Hi, Lo;
    ResponseLength([INITIATE_RESPONSE], QualityBytes(v), [0x06, 0x5F, 0x1F, 0x04, 0x00],
                   ConformanceBytes(v.negotiatedConformance), [Hi(v.maxPduSize), Lo(v.maxPduSize)], VaaName(v));
  }

  /** A client that already knows of a rejection with a diagnostic stops at the user information. */
  lemma InformationStops(c: Settings, x: seq<Byte>, l: Locals, decipher: Decipher)
    requires |c.sourceSystemTitle| == 8 && l.result != ACCEPTED && l.diagnostic != DIAGNOSTIC_NONE
    ensures Fields(c, [0xBE] + x, l, decipher) == Return(DiagnosticCode(l.diagnostic), c, l)
  {
    hide Field;
    InformationTag(c, x, l, decipher);
    LastField(c, [0xBE], x, l, decipher);
  }

  lemma InformationIsRead(c: Settings, outer: Byte, inner: Byte, body: seq<Byte>, l: Locals, decipher: Decipher, c1: Settings)
    requires |c.sourceSystemTitle| == 8 && outer <= 2 + |body| && body != [] && !IsCipheringCommand(body[0])
    requires l.result == ACCEPTED || l.diagnostic == DIAGNOSTIC_NONE
    requires InitiateBody(c, body, l) == Next(c1, [], l)
    ensures Fields(c, [0xBE] + ([outer, 0x04, inner] + body), l, decipher) == Next(c1, [], l)
  {
    hide Field;
    ReadsInformation(c, outer, inner, body, l, decipher);
    var x := [0xBE] + ([outer, 0x04, inner] + body);
    assert x + [] == x;
    OneField(c, x, [], l, decipher, c1, l);
  }

  lemma ResponseStage(c: Settings, v: Settings, l: Locals, decipher: Decipher)
    requires PlainAnswer(c, v) && !l.ciphered
    ensures Fields(c, ResponseInformationBytes(v, []), l, decipher)
         == if l.result != ACCEPTED && l.diagnostic != DIAGNOSTIC_NONE then Return(DiagnosticCode(l.diagnostic), c, l)
            else Next(AfterResponse(c, v), [], l)
  {
    hide Field, InitiateBody, InitiateResponseBytes, ResponseInformationBytes;
    var body := InitiateResponseBytes(v);
    ResponseInformationShape(v);
    if l.result != ACCEPTED && l.diagnostic != DIAGNOSTIC_NONE {
      InformationStops(c, [Lo(2 + |body|), 0x04, Lo(|body|)] + body, l, decipher);
    } else {
      assert body + [] == body;
      ReadsResponseBody(c, v, [], l);
      InformationIsRead(c, Lo(2 + |body|), Lo(|body|), body, l, decipher, AfterResponse(c, v));
    }
  }

  /** The tags with which the parser goes on reading a body. */
  predicate StartsBody(tag: Byte) { tag == INITIATE_REQUEST || tag == INITIATE_RESPONSE || IsCipheringCommand(tag) }

  /** The rejections that stop a client at the user information. */
  predicate Stops(result: Byte, diagnostic: Byte) { result != ACCEPTED && diagnostic % 0x80 != 0 }

  /** What the user information of an AARE leads to, with the error `e` of the server in it if there is one. */
  function AfterInformation(c: Settings, v: Settings, e: seq<Byte>, l: Locals, decipher: Decipher): Progress
    requires |c.sourceSystemTitle| == 8
  {
    if l.result != ACCEPTED && l.diagnostic != DIAGNOSTIC_NONE then Return(DiagnosticCode(l.diagnostic), c, l)
    else if e == [] then Next(AfterResponse(c, v), [], l)
    else if !StartsBody(e[0]) then Return(InvalidTag, c, l)
    else Fields(c, ResponseInformationBytes(v, e), l, decipher)
  }

  lemma ErrorShape(v: Settings, e: seq<Byte>)
    requires !IsCiphered(v) && e != []
    ensures ResponseInformationBytes(v, e) == [0xBE] + ([Lo(2 + |e|), 0x04, Lo(|e|)] + e)
  {
    InformationRegroup(Lo(2 + |e|), Lo(|e|), e);
  }

  lemma WrongBody(c: Settings, e: seq<Byte>, l: Locals)
    requires e != [] && !StartsBody(e[0])
    ensures InitiateBody(c, e, l) == Return(InvalidTag, c, l)
  {
    hide QualityOfService, Parameters, DedicatedKey, ResponseAllowed;
  }

  /** A body that is no initiate body is refused as a wrong tag. */
  lemma ErrorIsRefused(c: Settings, e: seq<Byte>, l: Locals, decipher: Decipher)
    requires |c.sourceSystemTitle| == 8 && !l.ciphered && e != [] && !StartsBody(e[0])
    requires l.result == ACCEPTED || l.diagnostic == DIAGNOSTIC_NONE
    ensures Fields(c, [0xBE] + ([Lo(2 + |e|), 0x04, Lo(|e|)] + e), l, decipher) == Return(InvalidTag, c, l)
  {
    hide Field, UserInformation, InitiateBody;
    var x := [Lo(2 + |e|), 0x04, Lo(|e|)] + e;
    WrongBody(c, e, l);
    InformationHeader(c, Lo(2 + |e|), Lo(|e|), e, l, decipher);
    InformationTag(c, x, l, decipher);
    LastField(c, [0xBE], x, l, decipher);
  }

  lemma InformationStage(c: Settings, v: Settings, e: seq<Byte>, l: Locals, decipher: Decipher)
    requires PlainAnswer(c, v) && !l.ciphered
    ensures Fields(c, ResponseInformationBytes(v, e), l, decipher)
         == AfterInformation(c, v, e, l, decipher)
  {
    hide Fields, ResponseInformationBytes, AfterResponse;
    if e == [] {
      ResponseStage(c, v, l, decipher);
    } else {
      ErrorShape(v, e);
      if l.result != ACCEPTED && l.diagnostic != DIAGNOSTIC_NONE {
        InformationStops(c, [Lo(2 + |e|), 0x04, Lo(|e|)] + e, l, decipher);
      } else if !StartsBody(e[0]) {
        ErrorIsRefused(c, e, l, decipher);
      }
    }
  }

  /** The body of an AARE. */
  function AareBody(v: Settings, result: Byte, diagnostic: Byte, e: seq<Byte>): seq<Byte>
    requires NameBytes(v).Pdu?
  {
    NameBytes(v).bytes + ResultBytes(result) + DiagnosticBytes(diagnostic) + RespondingTitleBytes(v)
    + RespondingInvocationBytes(v) + ServerChallengeBytes(v) + ResponseInformationBytes(v, e)
  }

  lemma AareShape(n: seq<Byte>, r: seq<Byte>, d: seq<Byte>, t: seq<Byte>, i: seq<Byte>, x: seq<Byte>, u: seq<Byte>)
    requires i == []
    ensures n + r + d + t + i + x + u == n + (r + (d + (t + (x + u))))
  {
  }

  /** The fields of an AARE as the client reads them. */
  lemma AareFields(c: Settings, v: Settings, result: Byte, diagnostic: Byte, e: seq<Byte>, l: Locals, decipher: Decipher)
    requires PlainAnswer(c, v) && !l.ciphered
    ensures NameBytes(v).Pdu? && |Introduced(c, v).sourceSystemTitle| == 8
    ensures var l1 := l.(result := result, diagnostic := diagnostic % 0x80);
            Fields(c, AareBody(v, result, diagnostic, e), l, decipher)
            == if v.authentication > AUTH_LAST_KNOWN then Return(InvalidTag, TitledByServer(Versioned(c, v), v), l1)
               else AfterInformation(Introduced(c, v), v, e, l1, decipher)
  {
    hide Field, AfterInformation, ResponseInformationBytes, ServerChallengeBytes, RespondingTitleBytes;
    var x, u := ServerChallengeBytes(v), ResponseInformationBytes(v, e);
    var t := RespondingTitleBytes(v);
    var l1 := l.(result := result, diagnostic := diagnostic % 0x80);
    AnswerNameStage(c, v, ResultBytes(result) + (DiagnosticBytes(diagnostic) + (t + (x + u))), l, decipher);
    AareShape(NameBytes(v).bytes, ResultBytes(result), DiagnosticBytes(diagnostic), t, RespondingInvocationBytes(v), x, u);
    var c0 := Versioned(c, v);
    VerdictStage(c0, result, diagnostic, t + (x + u), l, decipher);
    AnswerTitleStage(c0, v, x + u, l1, decipher);
    var c1 := TitledByServer(c0, v);
    ChallengeStage(c1, v, u, l1, decipher);
    if v.authentication <= AUTH_LAST_KNOWN {
      InformationStage(Introduced(c, v), v, e, l1, decipher);
    }
  }

  lemma AareIsFramed(v: Settings, result: Byte, diagnostic: Byte, e: seq<Byte>, command: Byte, encipher: Encipher)
    requires !IsCiphered(v) && Aare(v, result, diagnostic, e, command, encipher).Pdu?
    ensures NameBytes(v).Pdu? && (v.authentication > AUTH_LOW ==> v.stoCChallenge != [])
    ensures Aare(v, result, diagnostic, e, command, encipher)
         == Pdu(Framed(0x61, AareBody(v, result, diagnostic, e)))
  {
  }

  /** The code with which a client ends that read every field. */
  function AnswerCode(c: Settings, diagnostic: Byte): Code {
    if DiagnosticCode(diagnostic) != Ok then DiagnosticCode(diagnostic) else if PolicyFits(c) then Ok else InvalidDecipheringError
  }

  lemma AnswerFinish(c: Settings, s: Settings, l: Locals)
    requires !s.server && s.expectedPolicy == c.expectedPolicy && s.security == SECURITY_NONE
    ensures Finish(s, l) == Outcome(AnswerCode(c, l.diagnostic), s, l)
  {
  }

  lemma AareOutcome(c: Settings, v: Settings, result: Byte, diagnostic: Byte, e: seq<Byte>, answer: seq<Byte>,
                    command: Byte, asked: Byte, decipher: Decipher, encipher: Encipher)
    requires PlainAnswer(c, v) && Aare(v, result, diagnostic, e, command, encipher) == Pdu(answer) && IsShort(answer)
    ensures NameBytes(v).Pdu?
    ensures ParsePdu(c, answer, asked, decipher)
         == AfterFields(Fields(c, AareBody(v, result, diagnostic, e), START.(command := asked), decipher))
  {
    hide Fields, ParsePdu, Framed, Aare, NameBytes, ResponseInformationBytes;
    AareIsFramed(v, result, diagnostic, e, command, encipher);
    FramedShort(0x61, AareBody(v, result, diagnostic, e));
    ReadsFramed(c, AareBody(v, result, diagnostic, e), asked, decipher);
  }

  /** What the client makes of a plain AARE, whatever error the server put into it.  Result, diagnostic,
      title, mechanism and challenge come across always.  A rejection with a diagnostic stops with the
      matching code; otherwise conformance and PDU size come across too, unless the server sent an error
      in their place, which is refused as a wrong tag. */
  lemma AareRoundTrip(c: Settings, v: Settings, result: Byte, diagnostic: Byte, e: seq<Byte>, answer: seq<Byte>,
                      command: Byte, asked: Byte, decipher: Decipher, encipher: Encipher)
    requires PlainAnswer(c, v) && v.authentication <= AUTH_LAST_KNOWN
    requires Aare(v, result, diagnostic, e, command, encipher) == Pdu(answer) && IsShort(answer)
    ensures |Introduced(c, v).sourceSystemTitle| == 8
    ensures var o, c1 := ParsePdu(c, answer, asked, decipher), Introduced(c, v);
            var l := START.(command := asked, result := result, diagnostic := diagnostic % 0x80);
            && (Stops(result, diagnostic) ==> o == Outcome(DiagnosticCode(diagnostic % 0x80), c1, l))
            && (!Stops(result, diagnostic) && e == [] ==> o == Outcome(AnswerCode(c, diagnostic % 0x80), AfterResponse(c1, v), l))
            && (!Stops(result, diagnostic) && e != [] && !StartsBody(e[0]) ==> o == Outcome(InvalidTag, c1, l))
            && (!Stops(result, diagnostic) && e != [] && StartsBody(e[0]) ==>
                  o == AfterFields(Fields(c1, ResponseInformationBytes(v, e), l, decipher)))
  {
    hide Fields, ParsePdu, Aare, NameBytes, ResponseInformationBytes;
    var l := START.(command := asked);
    AareOutcome(c, v, result, diagnostic, e, answer, command, asked, decipher, encipher);
    AareFields(c, v, result, diagnostic, e, l, decipher);
    AnswerFinish(c, AfterResponse(Introduced(c, v), v), l.(result := result, diagnostic := diagnostic % 0x80));
  }

  /** A mechanism number past the last known one (ECDSA) is printed by the server, and refused by the
      client as a wrong tag. */
  lemma UnknownMechanismRefused(c: Settings, v: Settings, result: Byte, diagnostic: Byte, e: seq<Byte>,
                                answer: seq<Byte>, command: Byte, asked: Byte, decipher: Decipher, encipher: Encipher)
    requires PlainAnswer(c, v) && v.authentication > AUTH_LAST_KNOWN
    requires Aare(v, result, diagnostic, e, command, encipher) == Pdu(answer) && IsShort(answer)
    ensures ParsePdu(c, answer, asked, decipher).code == InvalidTag
  {
    hide Fields, ParsePdu;
    AareOutcome(c, v, result, diagnostic, e, answer, command, asked, decipher, encipher);
    AareFields(c, v, result, diagnostic, e, START.(command := asked), decipher);
  }

  // ---------- how long the PDUs are ----------

  /** The bytes of a plain AARQ behind its length byte. */
  function RequestSize(c: Settings): nat {
    (if c.protocolVersion != 0 then 4 else 0) + 11 + (if c.authentication == AUTH_HIGH_GMAC then 12 else 0)
    + (if c.authentication != AUTH_NONE then 17 + |CallingValue(c)| else 0) + (if c.qualityOfService == 0 then 18 else 19)
  }

  /** The bytes of a plain AARE behind its length byte, with the error `e` if there is one. */
  function AnswerSize(v: Settings, e: seq<Byte>): nat {
    (if v.protocolVersion != 0 then 4 else 0) + 11 + 12 + (if v.authentication == AUTH_HIGH_GMAC then 12 else 0)
    + (if v.authentication > AUTH_LOW then 17 + |v.stoCChallenge| else 0)
    + (if e != [] then 4 + |e| else if v.qualityOfService == 0 then 18 else 19)
  }

  lemma NameSize(s: Settings)
    requires NameBytes(s).Pdu? && !IsCiphered(s)
    ensures |NameBytes(s).bytes| == (if s.protocolVersion != 0 then 4 else 0) + 11 + if SendsCallingTitle(s) then 12 else 0
  {
  }

  lemma AuthenticationSize(c: Settings)
    requires !IsCiphered(c)
    ensures |AuthenticationBytes(c)| == if c.authentication != AUTH_NONE then 17 + |CallingValue(c)| else 0
  {
  }

  /** A plain AARQ is in the short form as its settings say: always, if the secret has at most 64 bytes. */
  lemma RequestIsShort(c: Settings, request: seq<Byte>, encipher: Encipher)
    requires !c.server && !IsCiphered(c) && Aarq(c, encipher) == Pdu(request)
    ensures |request| == 2 + RequestSize(c) && (IsShort(request) <==> RequestSize(c) % 256 <= 0x80)
    ensures |CallingValue(c)| <= 64 ==> IsShort(request)
  {
    hide NameBytes, AuthenticationBytes, RequestInformationBytes, Framed, Aarq, CallingValue;
    AarqIsFramed(c, encipher);
    NameSize(c);
    AuthenticationSize(c);
    RequestLengthsAreRight(c);
    FramedSize(0x60, AarqBody(c));
  }

  lemma FramedSize(tag: Byte, body: seq<Byte>)
    ensures |Framed(tag, body)| == 2 + |body|
  {
  }

  lemma AnswerPartSizes(v: Settings, result: Byte, diagnostic: Byte)
    requires !IsCiphered(v)
    ensures |ResultBytes(result)| == 5 && |DiagnosticBytes(diagnostic)| == 7 && RespondingInvocationBytes(v) == []
    ensures |RespondingTitleBytes(v)| == if v.authentication == AUTH_HIGH_GMAC then 12 else 0
    ensures |ServerChallengeBytes(v)| == if v.authentication > AUTH_LOW then 17 + |v.stoCChallenge| else 0
  {
  }

  lemma ResponseInformationSize(v: Settings, e: seq<Byte>)
    requires !IsCiphered(v)
    ensures |ResponseInformationBytes(v, e)|
         == if e != [] then 4 + |e| else if v.qualityOfService == 0 then 18 else 19
  {
    hide InitiateResponseBytes, ResponseInformationBytes;
    if e == [] { ResponseInformationShape(v); } else { ErrorShape(v, e); }
  }

  /** A plain AARE is in the short form as its settings and its error say: always, if the challenge has at
      most 53 bytes and the error at most 15. */
  lemma AnswerIsShort(v: Settings, result: Byte, diagnostic: Byte, e: seq<Byte>, answer: seq<Byte>, command: Byte, encipher: Encipher)
    requires v.server && !IsCiphered(v) && Aare(v, result, diagnostic, e, command, encipher) == Pdu(answer)
    ensures |answer| == 2 + AnswerSize(v, e) && (IsShort(answer) <==> AnswerSize(v, e) % 256 <= 0x80)
    ensures |v.stoCChallenge| <= 53 && |e| <= 15 ==> IsShort(answer)
  {
    hide NameBytes, ResponseInformationBytes, Framed, Aare, ResultBytes, DiagnosticBytes, RespondingTitleBytes, ServerChallengeBytes;
    AareIsFramed(v, result, diagnostic, e, command, encipher);
    NameSize(v);
    AnswerPartSizes(v, result, diagnostic);
    ResponseInformationSize(v, e);
    FramedSize(0x61, AareBody(v, result, diagnostic, e));
  }

  // ---------- what both ends agree on ----------

  /** Bit `i` of `v`. */
  predicate Bit(v: nat, i: nat) { if i == 0 then v % 2 == 1 else Bit(v / 2, i - 1) }

  lemma {:induction false} BitAndBits(x: nat, y: nat, i: nat)
    ensures Bit(BitAnd(x, y), i) <==> Bit(x, i) && Bit(y, i)
    decreases i
  {
    if x == 0 || y == 0 {
      NoBits(i);
    } else if i > 0 {
      BitAndBits(x / 2, y / 2, i - 1);
    }
  }

  lemma {:induction false} NoBits(i: nat)
    ensures !Bit(0, i)
  {
    if i > 0 { NoBits(i - 1); }
  }

  lemma {:induction false} BitAndBound(x: nat, y: nat)
    ensures BitAnd(x, y) <= x && BitAnd(x, y) <= y
  {
    if x > 0 && y > 0 { BitAndBound(x / 2, y / 2); }
  }

  lemma BitAbove(v: nat, i: nat)
    requires i >= 2
    ensures Bit(v, i) == Bit(v / 4, i - 2)
  {
    assert Bit(v, i) == Bit(v / 2, i - 1) == Bit(v / 2 / 2, i - 2);
    assert v / 2 / 2 == v / 4;
  }

  lemma SecondBit(v: nat)
    ensures Bit(v, 1) <==> HasGeneralProtection(v)
  {
    assert Bit(v, 1) == Bit(v / 2, 0);
  }

  lemma OnlySecondBit(v: nat, w: nat)
    requires w == WithoutGeneralProtection(v)
    ensures w / 4 == v / 4 && w % 2 == v % 2 && !HasGeneralProtection(w)
  {
    assert v == 4 * (v / 4) + 2 * (v / 2 % 2) + v % 2;
  }

  lemma WithoutGeneralProtectionBits(v: nat, i: nat)
    ensures Bit(WithoutGeneralProtection(v), i) <==> Bit(v, i) && i != 1
  {
    hide WithoutGeneralProtection, HasGeneralProtection;
    var w := WithoutGeneralProtection(v);
    OnlySecondBit(v, w);
    SecondBit(w);
    if i >= 2 {
      BitAbove(v, i);
      BitAbove(w, i);
    }
  }

  /** What both ends hold after the handshake: the client's 24 proposed bits that the server proposed
      too, general protection aside. */
  function Agreed(c: Settings, v: Settings): nat {
    WithoutGeneralProtection(BitAnd(c.proposedConformance % 0x100_0000, v.proposedConformance))
  }

  lemma AgreedBits(c: Settings, v: Settings, i: nat)
    ensures Bit(Agreed(c, v), i) <==> Bit(c.proposedConformance % 0x100_0000, i) && Bit(v.proposedConformance, i) && i != 1
    ensures Agreed(c, v) < 0x100_0000
  {
    var x, y := c.proposedConformance % 0x100_0000, v.proposedConformance;
    BitAndBits(x, y, i);
    BitAndBound(x, y);
    WithoutGeneralProtectionBits(BitAnd(x, y), i);
  }

  lemma LearnedFields(c: Settings, v: Settings)
    requires PlainPair(c, v)
    ensures var v1 := Learned(v, c);
            && v1.server && !IsCiphered(v1) && v1.useLogicalNames == v.useLogicalNames
            && v1.negotiatedConformance == Agreed(c, v) && v1.maxPduSize == Least(c.maxPduSize, v.maxServerPduSize)
            && v1.authentication == (if c.authentication == AUTH_NONE then v.authentication else c.authentication)
            && (c.authentication == AUTH_LOW ==> v1.password == c.password)
            && (c.authentication > AUTH_LOW ==> v1.ctoSChallenge == c.ctoSChallenge)
            && (c.authentication == AUTH_HIGH_GMAC ==> v1.sourceSystemTitle == Take(c.systemTitle, 8))
            && v1.systemTitle == v.systemTitle && v1.dlmsVersion == c.dlmsVersion
  {
  }

  /** What the client knows of the server, with and without its user information. */
  lemma AnsweredFields(c: Settings, v: Settings)
    requires PlainAnswer(c, v)
    ensures var c0, c1 := Introduced(c, v), AfterResponse(Introduced(c, v), v);
            && c1.authentication == c0.authentication == (if v.authentication > AUTH_LOW then v.authentication else c.authentication)
            && (v.authentication > AUTH_LOW ==> c1.stoCChallenge == c0.stoCChallenge == v.stoCChallenge)
            && (v.authentication == AUTH_HIGH_GMAC ==> c1.sourceSystemTitle == c0.sourceSystemTitle == Take(v.systemTitle, 8))
  {
  }

  lemma AnsweredFully(c: Settings, v: Settings)
    requires PlainAnswer(c, v) && v.negotiatedConformance < 0x100_0000
    ensures var c1 := AfterResponse(Introduced(c, v), v);
            c1.negotiatedConformance == v.negotiatedConformance && c1.maxPduSize == v.maxPduSize
  {
  }
}
