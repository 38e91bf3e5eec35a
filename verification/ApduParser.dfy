/** The parser of apdu.c as it runs: bytes are taken from a buffer, settings are overwritten as fields
    are read, and an error ends the call.  Each method is proved to do what ApduParsing says. */
module ApduParser {
  import opened Bytes
  import opened ApduTypes
  import opened ApduParsing
  import opened Helpers

  /** The call went as `p` says: on with the rest, or out with a code. */
  ghost predicate Agrees(p: Progress, r: Verdict, settings: DlmsSettings, buff: ByteBuffer, l: Locals)
    reads settings, buff
  {
    match p
    case Next(s1, rest, l1) => r == GoOn && settings.View() == s1 && buff.Rest() == rest && l == l1
    case Return(code, s1, l1) => r == Leave(code) && settings.View() == s1 && l == l1
  }

  lemma Begin(buff: ByteBuffer)
    ensures buff.Reached(buff.Rest(), 0)
  {
  }

  lemma Arrived(buff: ByteBuffer, b: seq<Byte>, k: nat)
    requires buff.Reached(b, k)
    ensures k <= |b| && buff.Rest() == b[k..]
  {
  }

  // ---------- object identifiers ----------

  /** One byte of an object identifier. */
  method ExpectByte(buff: ByteBuffer, value: Byte, code: Code, ghost b: seq<Byte>, ghost k: nat) returns (r: Verdict)
    requires buff.Reached(b, k)
    modifies buff
    ensures buff.data == old(buff.data)
    ensures if k >= |b| then r == Leave(OutOfMemory) else if b[k] != value then r == Leave(code) else r == GoOn && buff.Reached(b, k + 1)
  {
    var ch :- buff.GetUInt8(b, k);
    return if ch == value then GoOn else Leave(code);
  }

  /** What is left of an identifier after its first `n` bytes. */
  lemma ExpectStep(s: Settings, l: Locals, b: seq<Byte>, i: nat, oid: seq<Byte>, n: nat, code: Code)
    requires n < |oid|
    ensures Expect(s, l, b, i + n, oid[n..], code)
         == if i + n >= |b| then Return(OutOfMemory, s, l)
            else if b[i + n] != oid[n] then Return(code, s, l)
            else Expect(s, l, b, i + (n + 1), oid[n + 1..], code)
  {
    assert oid[n..][1..] == oid[n + 1..];
  }

  /** The comparisons one by one. */
  lemma ExpectSix(s: Settings, l: Locals, b: seq<Byte>, i: nat, oid: seq<Byte>, code: Code)
    requires |oid| == 6
    ensures Expect(s, l, b, i, oid, code)
         == if i >= |b| then Return(OutOfMemory, s, l) else if b[i] != oid[0] then Return(code, s, l)
            else if i + 1 >= |b| then Return(OutOfMemory, s, l) else if b[i + 1] != oid[1] then Return(code, s, l)
            else if i + 2 >= |b| then Return(OutOfMemory, s, l) else if b[i + 2] != oid[2] then Return(code, s, l)
            else if i + 3 >= |b| then Return(OutOfMemory, s, l) else if b[i + 3] != oid[3] then Return(code, s, l)
            else if i + 4 >= |b| then Return(OutOfMemory, s, l) else if b[i + 4] != oid[4] then Return(code, s, l)
            else if i + 5 >= |b| then Return(OutOfMemory, s, l) else if b[i + 5] != oid[5] then Return(code, s, l)
            else Next(s, b[i + 6..], l)
  {
    hide Expect;
    assert oid[0..] == oid;
    ExpectStep(s, l, b, i, oid, 0, code);
    ExpectStep(s, l, b, i, oid, 1, code);
    ExpectStep(s, l, b, i, oid, 2, code);
    ExpectStep(s, l, b, i, oid, 3, code);
    ExpectStep(s, l, b, i, oid, 4, code);
    ExpectStep(s, l, b, i, oid, 5, code);
    ExpectEnd(s, l, b, i + 6, oid[6..], code);
  }

  lemma ExpectEnd(s: Settings, l: Locals, b: seq<Byte>, i: nat, oid: seq<Byte>, code: Code)
    requires oid == []
    ensures Expect(s, l, b, i, oid, code) == Next(s, Skip(b, i), l)
  {
  }

  /** The six bytes of an object identifier, each read and compared. */
  method ReadObjectIdentifier(buff: ByteBuffer, last: Byte, code: Code, ghost s: Settings, ghost l: Locals, ghost b: seq<Byte>, ghost i: nat)
    returns (r: Verdict)
    requires (last == 1 || last == 2) && buff.Reached(b, i)
    modifies buff
    ensures buff.data == old(buff.data)
    ensures match Expect(s, l, b, i, if last == 1 then CONTEXT_OID else MECHANISM_OID, code)
            case Next(_, rest, _) => r == GoOn && buff.Reached(b, i + 6) && rest == b[i + 6..]
            case Return(c, s1, l1) => r == Leave(c) && s1 == s && l1 == l
  {
    hide Expect, ByteBuffer.Reached, ByteBuffer.Rest;
    ExpectSix(s, l, b, i, if last == 1 then CONTEXT_OID else MECHANISM_OID, code);
    :- ExpectByte(buff, 0x60, code, b, i);
    :- ExpectByte(buff, 0x85, code, b, i + 1);
    :- ExpectByte(buff, 0x74, code, b, i + 2);
    :- ExpectByte(buff, 0x05, code, b, i + 3);
    :- ExpectByte(buff, 0x08, code, b, i + 4);
    :- ExpectByte(buff, last, code, b, i + 5);
    return GoOn;
  }

  // ---------- the fields ----------

  /** apdu_parseApplicationContextName with the bookkeeping of its caller. */
  method ParseApplicationContextName(settings: DlmsSettings, buff: ByteBuffer, l0: Locals) returns (r: Verdict, l: Locals)
    modifies settings, buff
    ensures Agrees(ContextName(old(settings.View()), old(buff.Rest()), l0), r, settings, buff, l)
  {
    hide Expect, ByteBuffer.Reached, ByteBuffer.Rest, DlmsSettings.View, Skip, Take, Overlay, Zeros;
    l := l0;
    ghost var b := buff.Rest();
    Begin(buff);
    settings.Shows();
    var len :- buff.GetUInt8(b, 0);
    var n := buff.Available(b, 1);
    if n < len { return Leave(OutOfMemory), l; }
    var ch :- buff.GetUInt8(b, 1);
    if ch != 0x6 { return Leave(InvalidParameter), l; }
    if settings.server { settings.SetSecurity(SECURITY_NONE); }
    len :- buff.GetUInt8(b, 2);
    :- ReadObjectIdentifier(buff, 1, InvalidParameter, settings.View(), l, b, 3);
    ch :- buff.GetUInt8(b, 9);
    var ciphered := ch == (if settings.useLogicalNames then 3 else 4);
    if ciphered || ch == (if settings.useLogicalNames then 1 else 2) {
      l := l.(ciphered := ciphered, missing := if ciphered then ALL_MISSING else l.missing);
      Arrived(buff, b, 10);
      return GoOn, l;
    }
    return Leave(InvalidParameter), l;
  }

  /** 0xA1 */
  method ParseContext(settings: DlmsSettings, buff: ByteBuffer, l0: Locals) returns (r: Verdict, l: Locals)
    modifies settings, buff
    ensures Agrees(ContextField(old(settings.View()), old(buff.Rest()), l0), r, settings, buff, l)
  {
    hide ContextName;
    r, l := ParseApplicationContextName(settings, buff, l0);
    if r.Leave? {
      l := l.(result := PERMANENT_REJECTED, diagnostic := DIAGNOSTIC_CONTEXT_NOT_SUPPORTED);
      r := Leave(Ok);
    }
  }

  /** 0xA2 */
  method ParseResult(settings: DlmsSettings, buff: ByteBuffer, l0: Locals) returns (r: Verdict, l: Locals)
    modifies settings, buff
    ensures Agrees(ResultField(old(settings.View()), old(buff.Rest()), l0), r, settings, buff, l)
  {
    hide ByteBuffer.Reached, ByteBuffer.Rest, DlmsSettings.View, Skip, Take, Overlay, Zeros;
    l := l0;
    ghost var b := buff.Rest();
    Begin(buff);
    settings.Shows();
    var len :- buff.GetUInt8(b, 0);
    if len != 3 { return Leave(InvalidTag), l; }
    var tag :- buff.GetUInt8(b, 1);
    if settings.server {
      if tag != 4 { return Leave(InvalidTag), l; }
      len :- buff.GetUInt8(b, 2);
      Arrived(buff, b, 3);
      buff.SkipBytes(len);
    } else {
      if tag != 2 { return Leave(InvalidTag), l; }
      len :- buff.GetUInt8(b, 2);
      if len != 1 { return Leave(InvalidTag), l; }
      tag :- buff.GetUInt8(b, 3);
      Arrived(buff, b, 4);
      l := l.(result := tag);
    }
    return GoOn, l;
  }

  /** 0xA3 */
  method ParseDiagnostic(settings: DlmsSettings, buff: ByteBuffer, l0: Locals) returns (r: Verdict, l: Locals)
    modifies settings, buff
    ensures Agrees(DiagnosticField(old(settings.View()), old(buff.Rest()), l0), r, settings, buff, l)
  {
    hide ByteBuffer.Reached, ByteBuffer.Rest, DlmsSettings.View, Skip, Take, Overlay, Zeros;
    l := l0;
    ghost var b := buff.Rest();
    Begin(buff);
    settings.Shows();
    var len :- buff.GetUInt8(b, 0);
    var tag :- buff.GetUInt8(b, 1);
    len :- buff.GetUInt8(b, 2);
    if settings.server {
      if tag != 4 { return Leave(InvalidTag), l; }
      Arrived(buff, b, 3);
      buff.SkipBytes(len);
    } else {
      tag :- buff.GetUInt8(b, 3);
      if tag != 2 { return Leave(InvalidTag), l; }
      len :- buff.GetUInt8(b, 4);
      if len != 1 { return Leave(InvalidTag), l; }
      tag :- buff.GetUInt8(b, 5);
      Arrived(buff, b, 6);
      l := l.(diagnostic := tag);
    }
    return GoOn, l;
  }

  /** The title of an octet string, eight bytes or none. */
  method TakeTitle(settings: DlmsSettings, buff: ByteBuffer, ghost b: seq<Byte>) returns (r: Verdict)
    requires buff.Reached(b, 2)
    modifies settings`sourceSystemTitle, buff
    ensures if |b| < 3 || |b| - 3 < b[2] then r == Leave(OutOfMemory) && settings.View() == old(settings.View())
            else r == GoOn && buff.Rest() == b[3 + b[2]..]
                 && settings.View() == old(settings.View()).(sourceSystemTitle := if b[2] == 8 then b[3..11] else Zeros(8))
  {
    hide ByteBuffer.Reached, ByteBuffer.Rest, DlmsSettings.View, Skip, Take, Zeros;
    var len :- buff.GetUInt8(b, 2);
    var n := buff.Available(b, 3);
    if n < len { return Leave(OutOfMemory); }
    Arrived(buff, b, 3);
    TakeWithin(b, 3, len);
    var title := buff.TakeBytes(len);
    settings.SetSourceSystemTitle(if len == 8 then title else Zeros(8));
    return GoOn;
  }

  /** 0xA4 */
  method ParseRespondingTitle(settings: DlmsSettings, buff: ByteBuffer, l0: Locals) returns (r: Verdict, l: Locals)
    requires |settings.sourceSystemTitle| == 8
    modifies settings, buff
    ensures Agrees(RespondingTitleField(old(settings.View()), old(buff.Rest()), l0), r, settings, buff, l)
  {
    hide ByteBuffer.Reached, ByteBuffer.Rest, DlmsSettings.View, Skip, Take, Overlay, Zeros;
    l := l0;
    ghost var b := buff.Rest();
    Begin(buff);
    settings.Shows();
    var len :- buff.GetUInt8(b, 0);
    if settings.server {
      if len != 3 { return Leave(InvalidTag), l; }
      var tag :- buff.GetUInt8(b, 1);
      if tag != 2 { return Leave(InvalidTag), l; }
      len :- buff.GetUInt8(b, 2);
      Arrived(buff, b, 3);
      buff.SkipBytes(len);
    } else {
      if len != 0xA { return Leave(InvalidTag), l; }
      var tag :- buff.GetUInt8(b, 1);
      if tag != 4 { return Leave(InvalidTag), l; }
      :- TakeTitle(settings, buff, b);
    }
    return GoOn, l;
  }

  /** 0xA5 */
  method ParseCalledInvocation(settings: DlmsSettings, buff: ByteBuffer, l0: Locals) returns (r: Verdict, l: Locals)
    modifies settings, buff
    ensures Agrees(CalledInvocationField(old(settings.View()), old(buff.Rest()), l0), r, settings, buff, l)
  {
    hide ByteBuffer.Reached, ByteBuffer.Rest, DlmsSettings.View, Skip, Take, Overlay, Zeros;
    l := l0;
    ghost var b := buff.Rest();
    Begin(buff);
    settings.Shows();
    var len :- buff.GetUInt8(b, 0);
    if settings.server && len != 3 { return Leave(InvalidTag), l; }
    len :- buff.GetUInt8(b, 1);
    if settings.server && len != 2 { return Leave(InvalidTag), l; }
    len :- buff.GetUInt8(b, 2);
    if settings.server && len != 1 { return Leave(InvalidTag), l; }
    len :- buff.GetUInt8(b, 3);
    Arrived(buff, b, 4);
    if !settings.server && l.ciphered { settings.SetUserId(len); }
    return GoOn, l;
  }

  /** 0xA6 */
  method ParseCallingTitle(settings: DlmsSettings, buff: ByteBuffer, l0: Locals) returns (r: Verdict, l: Locals)
    requires |settings.sourceSystemTitle| == 8
    modifies settings, buff
    ensures Agrees(CallingTitleField(old(settings.View()), old(buff.Rest()), l0), r, settings, buff, l)
  {
    hide ByteBuffer.Reached, ByteBuffer.Rest, DlmsSettings.View, Skip, Take, Overlay, Zeros;
    l := l0;
    ghost var b := buff.Rest();
    Begin(buff);
    settings.Shows();
    var len :- buff.GetUInt8(b, 0);
    var tag :- buff.GetUInt8(b, 1);
    len :- buff.GetUInt8(b, 2);
    if l.ciphered && len != 8 {
      l := l.(diagnostic := DIAGNOSTIC_TITLE_NOT_RECOGNIZED, result := PERMANENT_REJECTED);
      return Leave(Ok), l;
    }
    var n := buff.Available(b, 3);
    if n < len { return Leave(OutOfMemory), l; }
    Arrived(buff, b, 3);
    var title := buff.TakeBytes(len);
    TakeWithin(b, 3, len);
    settings.SetSourceSystemTitle(Overlay(settings.sourceSystemTitle, title));
    return GoOn, l;
  }

  lemma TakeWithin(b: seq<Byte>, k: nat, n: nat)
    requires k + n <= |b|
    ensures Take(b[k..], n) == b[k..k + n] && Skip(b[k..], n) == b[k + n..]
  {
  }

  /** 0xA7 */
  method ParseRespondingInvocation(settings: DlmsSettings, buff: ByteBuffer, l0: Locals) returns (r: Verdict, l: Locals)
    modifies settings, buff
    ensures Agrees(RespondingInvocationField(old(settings.View()), old(buff.Rest()), l0), r, settings, buff, l)
  {
    hide ByteBuffer.Reached, ByteBuffer.Rest, DlmsSettings.View, Skip, Take, Overlay, Zeros;
    l := l0;
    ghost var b := buff.Rest();
    Begin(buff);
    settings.Shows();
    var len :- buff.GetUInt8(b, 0);
    var tag :- buff.GetUInt8(b, 1);
    len :- buff.GetUInt8(b, 2);
    len :- buff.GetUInt8(b, 3);
    Arrived(buff, b, 4);
    if l.ciphered && len == 0 { settings.SetUserId(len); }
    return GoOn, l;
  }

  /** 0xA8 */
  method ParseCallingApInvocation(settings: DlmsSettings, buff: ByteBuffer, l0: Locals) returns (r: Verdict, l: Locals)
    modifies buff
    ensures Agrees(CallingApInvocationField(old(settings.View()), old(buff.Rest()), l0), r, settings, buff, l)
  {
    hide ByteBuffer.Reached, ByteBuffer.Rest, DlmsSettings.View, Skip, Take, Overlay, Zeros;
    l := l0;
    ghost var b := buff.Rest();
    Begin(buff);
    settings.Shows();
    var tag :- buff.GetUInt8(b, 0);
    if tag != 3 { return Leave(InvalidTag), l; }
    var len :- buff.GetUInt8(b, 1);
    if len != 2 { return Leave(InvalidTag), l; }
    len :- buff.GetUInt8(b, 2);
    if len != 1 { return Leave(InvalidTag), l; }
    len :- buff.GetUInt8(b, 3);
    Arrived(buff, b, 4);
    return GoOn, l;
  }

  /** 0xA9 */
  method ParseCallingInvocation(settings: DlmsSettings, buff: ByteBuffer, l0: Locals) returns (r: Verdict, l: Locals)
    modifies buff
    ensures Agrees(CallingInvocationField(old(settings.View()), old(buff.Rest()), l0), r, settings, buff, l)
  {
    hide ByteBuffer.Reached, ByteBuffer.Rest, DlmsSettings.View, Skip, Take, Overlay, Zeros;
    l := l0;
    ghost var b := buff.Rest();
    Begin(buff);
    settings.Shows();
    var len :- buff.GetUInt8(b, 0);
    var tag :- buff.GetUInt8(b, 1);
    len :- buff.GetUInt8(b, 2);
    len :- buff.GetUInt8(b, 3);
    Arrived(buff, b, 4);
    return GoOn, l;
  }

  /** 0xAA */
  method ParseServerChallenge(settings: DlmsSettings, buff: ByteBuffer, l0: Locals) returns (r: Verdict, l: Locals)
    modifies settings, buff
    ensures Agrees(ServerChallengeField(old(settings.View()), old(buff.Rest()), l0), r, settings, buff, l)
  {
    hide ByteBuffer.Reached, ByteBuffer.Rest, DlmsSettings.View, Skip, Take, Overlay, Zeros;
    l := l0;
    ghost var b := buff.Rest();
    Begin(buff);
    settings.Shows();
    var len :- buff.GetUInt8(b, 0);
    var tag :- buff.GetUInt8(b, 1);
    len :- buff.GetUInt8(b, 2);
    Arrived(buff, b, 3);
    var challenge := buff.TakeBytes(len);
    settings.SetStoCChallenge(challenge);
    return GoOn, l;
  }

  /** 0x8A and 0x88 */
  method ParseAcseRequirements(settings: DlmsSettings, buff: ByteBuffer, l0: Locals) returns (r: Verdict, l: Locals)
    modifies buff
    ensures Agrees(AcseRequirementsField(old(settings.View()), old(buff.Rest()), l0), r, settings, buff, l)
  {
    hide ByteBuffer.Reached, ByteBuffer.Rest, DlmsSettings.View, Skip, Take, Overlay, Zeros;
    l := l0;
    ghost var b := buff.Rest();
    Begin(buff);
    settings.Shows();
    var len :- buff.GetUInt8(b, 0);
    if len != 2 { return Leave(InvalidTag), l; }
    var tag :- buff.GetUInt8(b, 1);
    if tag != 7 { return Leave(InvalidTag), l; }
    tag :- buff.GetUInt8(b, 2);
    Arrived(buff, b, 3);
    if l.ciphered && tag == 0x80 { l := l.(missing := l.missing.(acse := false)); }
    return GoOn, l;
  }

  /** apdu_updateAuthentication */
  method UpdateAuthentication(settings: DlmsSettings, buff: ByteBuffer, l0: Locals) returns (r: Verdict, l: Locals)
    modifies settings, buff
    ensures Agrees(MechanismName(old(settings.View()), old(buff.Rest()), l0), r, settings, buff, l)
  {
    hide Expect, ByteBuffer.Reached, ByteBuffer.Rest, DlmsSettings.View, Skip, Take, Overlay, Zeros;
    l := l0;
    ghost var b := buff.Rest();
    Begin(buff);
    settings.Shows();
    var ch :- buff.GetUInt8(b, 0);
    :- ReadObjectIdentifier(buff, 2, InvalidTag, settings.View(), l, b, 1);
    ch :- buff.GetUInt8(b, 7);
    if ch > AUTH_LAST_KNOWN { return Leave(InvalidTag), l; }
    Arrived(buff, b, 8);
    settings.SetAuthentication(ch);
    return GoOn, l;
  }

  /** 0x8B and 0x89 */
  method ParseMechanism(settings: DlmsSettings, buff: ByteBuffer, l0: Locals) returns (r: Verdict, l: Locals)
    modifies settings, buff
    ensures Agrees(MechanismField(old(settings.View()), old(buff.Rest()), l0), r, settings, buff, l)
  {
    hide MechanismName, DlmsSettings.View, ByteBuffer.Rest;
    r, l := UpdateAuthentication(settings, buff, l0);
    if r.Leave? { return; }
    settings.Shows();
    l := l0;
    var invalidSystemTitle := settings.sourceSystemTitle == Zeros(8);
    if settings.server && settings.authentication == AUTH_HIGH_GMAC && invalidSystemTitle {
      l := l.(diagnostic := DIAGNOSTIC_TITLE_NOT_RECOGNIZED, result := PERMANENT_REJECTED);
      return Leave(Ok), l;
    }
    if l.ciphered { l := l.(missing := l.missing.(mechanism := false)); }
  }

  /** 0xAC, apdu_updatePassword */
  method UpdatePassword(settings: DlmsSettings, buff: ByteBuffer, l0: Locals) returns (r: Verdict, l: Locals)
    modifies settings, buff
    ensures Agrees(AuthenticationValueField(old(settings.View()), old(buff.Rest()), l0), r, settings, buff, l)
  {
    hide ByteBuffer.Reached, ByteBuffer.Rest, DlmsSettings.View, Skip, Take, Overlay, Zeros;
    l := l0;
    ghost var b := buff.Rest();
    Begin(buff);
    settings.Shows();
    var len :- buff.GetUInt8(b, 0);
    var ch :- buff.GetUInt8(b, 1);
    if ch != 0x80 { return Leave(InvalidTag), l; }
    len :- buff.GetUInt8(b, 2);
    Arrived(buff, b, 3);
    if settings.authentication == AUTH_LOW {
      var password := buff.TakeBytes(len);
      settings.SetPassword(password);
    } else {
      if len < 8 || len > 64 { return Leave(InvalidParameter), l; }
      var challenge := buff.TakeBytes(len);
      settings.SetCtoSChallenge(challenge);
    }
    if l.ciphered { l := l.(missing := l.missing.(authentication := false)); }
    return GoOn, l;
  }

  /** apdu_parseProtocolVersion */
  method ParseVersion(settings: DlmsSettings, buff: ByteBuffer, ghost b: seq<Byte>) returns (r: Verdict)
    requires buff.Reached(b, 0)
    modifies settings, buff
    ensures if |b| < 3 || b[1] > 8 || (settings.server && b[2] != 0x84)
            then r.Leave? && settings.View() == old(settings.View())
            else r == GoOn && settings.View() == old(settings.View()).(protocolVersion := b[2]) && buff.Rest() == b[3..]
  {
    hide ByteBuffer.Reached, ByteBuffer.Rest, DlmsSettings.View, Skip, Take, Overlay, Zeros;
    var cnt :- buff.GetUInt8(b, 0);
    var unusedBits :- buff.GetUInt8(b, 1);
    if unusedBits > 8 { return Leave(InvalidParameter); }
    var value :- buff.GetUInt8(b, 2);
    if settings.server && value != 0x84 { return Leave(InvalidParameter); }
    Arrived(buff, b, 3);
    settings.SetProtocolVersion(value);
    return GoOn;
  }

  /** 0x80 */
  method ParseProtocolVersion(settings: DlmsSettings, buff: ByteBuffer, l0: Locals) returns (r: Verdict, l: Locals)
    modifies settings, buff
    ensures Agrees(ProtocolVersionField(old(settings.View()), old(buff.Rest()), l0), r, settings, buff, l)
  {
    hide ByteBuffer.Reached, ByteBuffer.Rest, DlmsSettings.View, Skip, Take, Overlay, Zeros;
    l := l0;
    ghost var b := buff.Rest();
    Begin(buff);
    settings.Shows();
    r := ParseVersion(settings, buff, b);
    if r.Leave? {
      l := l.(diagnostic := DIAGNOSTIC_NO_COMMON_VERSION, result := PERMANENT_REJECTED);
      r := Leave(Ok);
    }
  }

  lemma Done(buff: ByteBuffer)
    requires buff.position >= |buff.data|
    ensures buff.Rest() == []
  {
  }

  lemma NotDone(buff: ByteBuffer)
    requires buff.position < |buff.data|
    ensures buff.Rest() != []
  {
  }

  /** Any other tag: its length says how much to skip. */
  method SkipUnknown(settings: DlmsSettings, buff: ByteBuffer, l0: Locals) returns (r: Verdict, l: Locals)
    modifies buff
    ensures Agrees(UnknownField(old(settings.View()), old(buff.Rest()), l0), r, settings, buff, l)
  {
    hide ByteBuffer.Reached, ByteBuffer.Rest, DlmsSettings.View, Skip, Take, Overlay, Zeros;
    l := l0;
    ghost var b := buff.Rest();
    Begin(buff);
    settings.Shows();
    if buff.position < |buff.data| {
      NotDone(buff);
      var len :- buff.GetUInt8(b, 0);
      Arrived(buff, b, 1);
      buff.SkipBytes(len);
    } else {
      Done(buff);
    }
    return GoOn, l;
  }

  // ---------- user information ----------

  /** apdu_getConformanceFromArray */
  method GetConformanceFromArray(buff: ByteBuffer, ghost b: seq<Byte>, ghost k: nat) returns (r: ReadWord)
    requires buff.Reached(b, k)
    modifies buff
    ensures if k + 3 <= |b| then r == GotWord(ConformanceOf(b[k], b[k + 1], b[k + 2])) && buff.Reached(b, k + 3) else r == EndOfWords
  {
    hide ByteBuffer.Reached, ByteBuffer.Rest, SwapBits;
    var v := buff.GetUInt8(b, k);
    if v.EndOfData? { return EndOfWords; }
    var value: nat, tmp: nat;
    value := ReverseBits(v.value);
    v := buff.GetUInt8(b, k + 1);
    if v.EndOfData? { return EndOfWords; }
    tmp := ReverseBits(v.value);
    value := value + 0x100 * tmp;
    v := buff.GetUInt8(b, k + 2);
    if v.EndOfData? { return EndOfWords; }
    tmp := ReverseBits(v.value);
    r := GotWord(value + 0x10000 * tmp);
  }

  /** The conformance that a server grants, or that a client was granted. */
  method Negotiate(settings: DlmsSettings, v: nat, ciphered: bool)
    modifies settings`negotiatedConformance
    ensures settings.View() == old(settings.View()).(negotiatedConformance := Negotiated(old(settings.View()), v, ciphered))
  {
    hide DlmsSettings.View, BitAnd;
    settings.Shows();
    if settings.server {
      var both := BitAnd(v, settings.proposedConformance);
      if !ciphered && HasGeneralProtection(both) { both := both - GENERAL_PROTECTION; }
      settings.SetNegotiatedConformance(both);
    } else {
      settings.SetNegotiatedConformance(v);
    }
  }

  method LimitPduSize(settings: DlmsSettings, asked: nat)
    modifies settings`maxPduSize
    ensures settings.View() == old(settings.View()).(maxPduSize := GrantedPduSize(old(settings.View()), asked))
  {
    hide DlmsSettings.View;
    settings.Shows();
    var pduSize := asked;
    if settings.server && pduSize > settings.maxServerPduSize { pduSize := settings.maxServerPduSize; }
    settings.SetMaxPduSize(pduSize);
  }

  method ParseConformanceBlock(settings: DlmsSettings, buff: ByteBuffer, l0: Locals, response: bool) returns (r: Verdict, l: Locals)
    modifies settings, buff
    ensures Agrees(ConformanceBlock(old(settings.View()), old(buff.Rest()), l0, response), r, settings, buff, l)
  {
    hide Negotiated, ConformanceOf, ByteBuffer.Reached, ByteBuffer.Rest, DlmsSettings.View, Skip, Take, Overlay, Zeros;
    l := l0;
    ghost var b := buff.Rest();
    Begin(buff);
    settings.Shows();
    var len :- buff.GetUInt8(b, 0);
    var tag :- buff.GetUInt8(b, 1);
    var v :- GetConformanceFromArray(buff, b, 2);
    Negotiate(settings, v, l.ciphered);
    var pduSize :- buff.GetUInt16(b, 5);
    LimitPduSize(settings, pduSize);
    if response {
      var vaa :- buff.GetUInt16(b, 7);
      if vaa == 0x0007 {
        if !settings.useLogicalNames { return Leave(InvalidParameter), l; }
      } else if vaa == 0xFA00 {
        if settings.useLogicalNames { return Leave(InvalidParameter), l; }
      } else {
        return Leave(InvalidParameter), l;
      }
    }
    Arrived(buff, b, if response then 9 else 7);
    return GoOn, l;
  }

  method ParseParameters(settings: DlmsSettings, buff: ByteBuffer, l0: Locals, response: bool) returns (r: Verdict, l: Locals)
    modifies settings, buff
    ensures Agrees(Parameters(old(settings.View()), old(buff.Rest()), l0, response), r, settings, buff, l)
  {
    hide ConformanceBlock;
    hide ByteBuffer.Reached, ByteBuffer.Rest, DlmsSettings.View, Skip, Take, Overlay, Zeros;
    l := l0;
    ghost var b := buff.Rest();
    Begin(buff);
    settings.Shows();
    var ch :- buff.GetUInt8(b, 0);
    if settings.server {
      settings.SetDlmsVersion(ch);
    } else if ch < 6 {
      return Leave(InvalidVersionNumber), l;
    }
    var tag :- buff.GetUInt8(b, 1);
    if tag != 0x5F { return Leave(InvalidTag), l; }
    tag := buff.PeekUInt8(b, 2);
    Arrived(buff, b, 2);
    if tag == 0x1F {
      TakeWithin(b, 2, 1);
      buff.SkipBytes(1);
    }
    r, l := ParseConformanceBlock(settings, buff, l, response);
  }

  method ParseQualityOfService(settings: DlmsSettings, buff: ByteBuffer, l0: Locals) returns (r: Verdict, l: Locals)
    modifies settings, buff
    ensures Agrees(QualityOfService(old(settings.View()), old(buff.Rest()), l0), r, settings, buff, l)
  {
    hide ByteBuffer.Reached, ByteBuffer.Rest, DlmsSettings.View, Skip, Take, Overlay, Zeros;
    l := l0;
    ghost var b := buff.Rest();
    Begin(buff);
    settings.Shows();
    var tag :- buff.GetUInt8(b, 0);
    Arrived(buff, b, 1);
    if tag != 0 {
      var quality :- buff.GetUInt8(b, 1);
      Arrived(buff, b, 2);
      settings.SetQualityOfService(quality);
    }
    return GoOn, l;
  }

  method ParseDedicatedKey(settings: DlmsSettings, buff: ByteBuffer, l0: Locals) returns (r: Verdict, l: Locals)
    modifies settings, buff
    ensures Agrees(DedicatedKey(old(settings.View()), old(buff.Rest()), l0), r, settings, buff, l)
  {
    hide ByteBuffer.Reached, ByteBuffer.Rest, DlmsSettings.View, Skip, Take, Overlay, Zeros;
    l := l0;
    ghost var b := buff.Rest();
    Begin(buff);
    settings.Shows();
    var tag :- buff.GetUInt8(b, 0);
    Arrived(buff, b, 1);
    if tag != 0 {
      if !l.ciphered || settings.security != SECURITY_AUTHENTICATION_ENCRYPTION { return Leave(InvalidParameter), l; }
      var len :- buff.GetUInt8(b, 1);
      if len != 16 { return Leave(InvalidParameter), l; }
      Arrived(buff, b, 2);
      var key := buff.TakeBytes(len);
      settings.SetDedicatedKey(Some(key));
    } else {
      settings.SetDedicatedKey(None);
    }
    return GoOn, l;
  }

  method ParseResponseAllowed(settings: DlmsSettings, buff: ByteBuffer, l0: Locals) returns (r: Verdict, l: Locals)
    modifies buff
    ensures Agrees(ResponseAllowed(old(settings.View()), old(buff.Rest()), l0), r, settings, buff, l)
  {
    hide ByteBuffer.Reached, ByteBuffer.Rest, DlmsSettings.View, Skip, Take, Overlay, Zeros;
    l := l0;
    ghost var b := buff.Rest();
    Begin(buff);
    settings.Shows();
    var tag :- buff.GetUInt8(b, 0);
    Arrived(buff, b, 1);
    if tag != 0 {
      tag :- buff.GetUInt8(b, 1);
      Arrived(buff, b, 2);
    }
    return GoOn, l;
  }

  /** The initiate request or response whose tag was read. */
  method ParseInitiate(settings: DlmsSettings, buff: ByteBuffer, l0: Locals, tag: Byte, ghost b: seq<Byte>) returns (r: Verdict, l: Locals)
    requires b != [] && tag == b[0] && buff.Rest() == b[1..]
    modifies settings, buff
    ensures Agrees(InitiateBody(old(settings.View()), b, l0), r, settings, buff, l)
  {
    hide ByteBuffer.Rest, DlmsSettings.View, QualityOfService, DedicatedKey, ResponseAllowed, Parameters;
    l := l0;
    var response := tag == INITIATE_RESPONSE;
    if response {
      r, l := ParseQualityOfService(settings, buff, l);
      if r.Leave? { return; }
    } else if tag == INITIATE_REQUEST {
      r, l := ParseDedicatedKey(settings, buff, l);
      if r.Leave? { return; }
      r, l := ParseResponseAllowed(settings, buff, l);
      if r.Leave? { return; }
      r, l := ParseQualityOfService(settings, buff, l);
      if r.Leave? { return; }
    } else {
      return Leave(InvalidTag), l;
    }
    r, l := ParseParameters(settings, buff, l, response);
  }

  /** The checks made on a deciphered body, and the counter they move on. */
  method CheckPolicy(settings: DlmsSettings, security: Byte, suite: Byte, counter: nat) returns (code: Code)
    modifies settings`expectedCounter
    ensures var s := old(settings.View());
            if PolicyError(s, security, suite, counter) != Ok
            then code == PolicyError(s, security, suite, counter) && settings.View() == s
            else settings.View() == CountedSettings(s, counter)
                 && code == if WrongClientTitle(CountedSettings(s, counter)) then InvalidDecipheringError else Ok
  {
    hide DlmsSettings.View;
    settings.Shows();
    if settings.expectedPolicy != NO_EXPECTATION && security != settings.expectedPolicy * 16 { return InvalidDecipheringError; }
    if settings.expectedSuite != NO_EXPECTATION && suite != settings.expectedSuite { return InvalidSecuritySuite; }
    if settings.expectedCounter.Some? {
      if counter < (1 + settings.expectedCounter.value) % 0x1_0000_0000 { return InvocationCounterTooSmall; }
      settings.SetExpectedCounter(Some((1 + counter) % 0x1_0000_0000));
    }
    if settings.expectedClientTitle.Some? && settings.expectedClientTitle.value != Zeros(8)
       && settings.sourceSystemTitle != settings.expectedClientTitle.value {
      return InvalidDecipheringError;
    }
    return Ok;
  }

  /** The body behind a ciphering command, at which the buffer stands. */
  method ParseCipheredBody(settings: DlmsSettings, buff: ByteBuffer, l0: Locals, command: Byte, decipher: Decipher)
    returns (r: Verdict, l: Locals)
    requires buff.Rest() != [] && command == buff.Rest()[0]
    modifies settings, buff
    ensures Agrees(CipheredBody(old(settings.View()), old(buff.Rest()), l0, decipher), r, settings, buff, l)
  {
    hide ByteBuffer.Rest, ByteBuffer.Reached, DlmsSettings.View, InitiateBody, PolicyError, CountedSettings, WrongClientTitle;
    l := l0.(command := command);
    settings.Shows();
    var crypted := buff.Remaining();
    match decipher(settings.sourceSystemTitle, crypted)
    case Refused(code) =>
      return Leave(code), l;
    case Plain(security, suite, counter, text) =>
      var code := CheckPolicy(settings, security, suite, counter);
      if code != Ok { return Leave(code), l; }
      settings.SetSecurity(security);
      settings.SetSuite(suite);
      buff.Exchange(text);
      Begin(buff);
      var tag := buff.GetUInt8(text, 0);
      if tag.EndOfData? {
        EmptyInitiate(settings.View(), text, l);
        return Leave(OutOfMemory), l;
      }
      Arrived(buff, text, 1);
      r, l := ParseInitiate(settings, buff, l, tag.value, text);
  }

  lemma EmptyInitiate(s: Settings, b: seq<Byte>, l: Locals)
    requires b == []
    ensures InitiateBody(s, b, l) == Return(OutOfMemory, s, l)
  {
  }

  lemma RestIs(buff: ByteBuffer)
    ensures buff.Rest() == Skip(buff.data, buff.position)
  {
  }

  /** The body behind the three bytes of `b` that were read. */
  function InformationBody(s: Settings, b: seq<Byte>, l: Locals, decipher: Decipher): Progress
    requires |b| >= 3
  {
    if |b| == 3 then Return(OutOfMemory, s, l)
    else if IsCipheringCommand(b[3]) then CipheredBody(s, b[3..], l, decipher)
    else InitiateBody(s, b[3..], l)
  }

  method ParseInformationBody(settings: DlmsSettings, buff: ByteBuffer, l0: Locals, decipher: Decipher, ghost b: seq<Byte>)
    returns (r: Verdict, l: Locals)
    requires |b| >= 3 && buff.Reached(b, 3)
    modifies settings, buff
    ensures Agrees(InformationBody(old(settings.View()), b, l0, decipher), r, settings, buff, l)
  {
    hide CipheredBody, InitiateBody;
    hide ByteBuffer.Reached, ByteBuffer.Rest, DlmsSettings.View, Skip, Take, Overlay, Zeros;
    l := l0;
    Arrived(buff, b, 3);
    RestIs(buff);
    var tag :- buff.GetUInt8(b, 3);
    Arrived(buff, b, 4);
    if IsCipheringCommand(tag) {
      buff.StepBack(b, 3);
      Arrived(buff, b, 3);
      r, l := ParseCipheredBody(settings, buff, l, tag, decipher);
    } else {
      r, l := ParseInitiate(settings, buff, l, tag, b[3..]);
    }
  }

  /** apdu_parseUserInformation */
  method ParseUserInformation(settings: DlmsSettings, buff: ByteBuffer, l0: Locals, decipher: Decipher) returns (r: Verdict, l: Locals)
    modifies settings, buff
    ensures Agrees(UserInformation(old(settings.View()), old(buff.Rest()), l0, decipher), r, settings, buff, l)
  {
    hide CipheredBody, InitiateBody;
    hide ByteBuffer.Reached, ByteBuffer.Rest, DlmsSettings.View, Skip, Take, Overlay, Zeros;
    l := l0;
    ghost var b := buff.Rest();
    Begin(buff);
    settings.Shows();
    var len :- buff.GetUInt8(b, 0);
    var n := buff.Available(b, 1);
    if n < len { return Leave(OutOfMemory), l; }
    var tag :- buff.GetUInt8(b, 1);
    if tag != 0x4 { return Leave(InvalidTag), l; }
    len :- buff.GetUInt8(b, 2);
    r, l := ParseInformationBody(settings, buff, l, decipher, b);
  }

  /** 0xBE */
  method ParseInformation(settings: DlmsSettings, buff: ByteBuffer, l0: Locals, decipher: Decipher) returns (r: Verdict, l: Locals)
    modifies settings, buff
    ensures Agrees(UserInformationField(old(settings.View()), old(buff.Rest()), l0, decipher), r, settings, buff, l)
  {
    hide UserInformation, ByteBuffer.Rest, DlmsSettings.View;
    l := l0;
    if l.result != ACCEPTED && l.diagnostic != DIAGNOSTIC_NONE {
      return Leave(DiagnosticCode(l.diagnostic)), l;
    }
    r, l := ParseUserInformation(settings, buff, l, decipher);
    if r.Leave? { r := Leave(UserInformationError(r.code, l0.ciphered)); }
  }

  // ---------- the PDU ----------

  /** One round of the tag loop. */
  method ParseField(settings: DlmsSettings, buff: ByteBuffer, l0: Locals, decipher: Decipher) returns (r: Verdict, l: Locals)
    requires |settings.sourceSystemTitle| == 8 && buff.Rest() != []
    modifies settings, buff
    ensures Agrees(Field(old(settings.View()), old(buff.Rest()), l0, decipher), r, settings, buff, l)
  {
    hide ContextField, ResultField, DiagnosticField, CalledInvocationField, CallingTitleField, RespondingTitleField;
    hide RespondingInvocationField, CallingApInvocationField, CallingInvocationField, ServerChallengeField, UnknownField;
    hide ProtocolVersionField, AcseRequirementsField, MechanismField, AuthenticationValueField, UserInformationField;
    hide ByteBuffer.Reached, ByteBuffer.Rest, DlmsSettings.View, Skip, Take, Overlay, Zeros;
    l := l0;
    ghost var b := buff.Rest();
    Begin(buff);
    settings.Shows();
    var tag :- buff.GetUInt8(b, 0);
    Arrived(buff, b, 1);
    if tag == 0xA1 { r, l := ParseContext(settings, buff, l); }
    else if tag == 0xA2 { r, l := ParseResult(settings, buff, l); }
    else if tag == 0xA3 { r, l := ParseDiagnostic(settings, buff, l); }
    else if tag == 0xA4 { r, l := ParseRespondingTitle(settings, buff, l); }
    else if tag == 0xA5 { r, l := ParseCalledInvocation(settings, buff, l); }
    else if tag == 0xA6 { r, l := ParseCallingTitle(settings, buff, l); }
    else if tag == 0xA7 { r, l := ParseRespondingInvocation(settings, buff, l); }
    else if tag == 0xA8 { r, l := ParseCallingApInvocation(settings, buff, l); }
    else if tag == 0xA9 { r, l := ParseCallingInvocation(settings, buff, l); }
    else if tag == 0xAA { r, l := ParseServerChallenge(settings, buff, l); }
    else if tag == 0x8A || tag == 0x88 { r, l := ParseAcseRequirements(settings, buff, l); }
    else if tag == 0x8B || tag == 0x89 { r, l := ParseMechanism(settings, buff, l); }
    else if tag == 0xAC { r, l := UpdatePassword(settings, buff, l); }
    else if tag == 0xBE { r, l := ParseInformation(settings, buff, l, decipher); }
    else if tag == 0x80 { r, l := ParseProtocolVersion(settings, buff, l); }
    else { r, l := SkipUnknown(settings, buff, l); }
  }

  /** hlp_getObjectCount2 */
  method GetObjectCount(buff: ByteBuffer, ghost b: seq<Byte>, ghost s: Settings, ghost l: Locals) returns (r: Verdict, count: nat)
    requires buff.Reached(b, 0)
    modifies buff
    ensures match ObjectCount(s, b, l)
            case Return(code, _, _) => r == Leave(code)
            case Next(_, rest, _) => r == GoOn && buff.Rest() == rest && count == CountValue(b)
  {
    hide ByteBuffer.Reached, ByteBuffer.Rest;
    count := 0;
    var ch :- buff.GetUInt8(b, 0);
    Arrived(buff, b, 1);
    if ch > 0x80 {
      if ch == 0x81 {
        var low :- buff.GetUInt8(b, 1);
        count := low;
      } else if ch == 0x82 {
        count :- buff.GetUInt16(b, 1);
      } else if ch == 0x83 {
        count :- buff.GetUInt24(b, 1);
      } else if ch == 0x84 {
        count :- buff.GetUInt32(b, 1);
      } else {
        return Leave(InvalidParameter), count;
      }
      Arrived(buff, b, 1 + (ch - 0x80));
    } else {
      count := ch;
    }
    return GoOn, count;
  }

  /** The tag loop, up to the end of the data or the field that leaves. */
  method ParseFields(settings: DlmsSettings, buff: ByteBuffer, l0: Locals, decipher: Decipher) returns (r: Verdict, l: Locals)
    requires |settings.sourceSystemTitle| == 8
    modifies settings, buff
    ensures Agrees(Fields(old(settings.View()), old(buff.Rest()), l0, decipher), r, settings, buff, l)
  {
    hide Field, DlmsSettings.View, ByteBuffer.Rest;
    settings.Shows();
    ghost var whole := Fields(settings.View(), buff.Rest(), l0, decipher);
    r, l := GoOn, l0;
    while buff.position < |buff.data|
      invariant |settings.View().sourceSystemTitle| == 8 && r == GoOn
      invariant whole == Fields(settings.View(), buff.Rest(), l, decipher)
      decreases |buff.Rest()|
    {
      NotDone(buff);
      settings.Shows();
      r, l := ParseField(settings, buff, l, decipher);
      if r.Leave? { return; }
    }
    Done(buff);
  }

  /** The checks once every field was read. */
  method FinishPdu(settings: DlmsSettings, l0: Locals) returns (code: Code, l: Locals)
    ensures Outcome(code, settings.View(), l) == Finish(settings.View(), l0)
  {
    hide DlmsSettings.View;
    settings.Shows();
    l := l0;
    if settings.server && l.missing != NOTHING_MISSING && l.result == ACCEPTED
       && !(l.missing == Missing(false, false, true) && settings.authentication == AUTH_NONE) {
      l := l.(result := PERMANENT_REJECTED, diagnostic := DIAGNOSTIC_AUTHENTICATION_FAILURE);
      return Ok, l;
    }
    code := DiagnosticCode(l.diagnostic);
    if code == Ok && settings.expectedPolicy != NO_EXPECTATION && settings.security != settings.expectedPolicy * 16 {
      code := InvalidDecipheringError;
    }
  }

  /** apdu_parsePDU */
  method ParsePduBytes(settings: DlmsSettings, buff: ByteBuffer, command: Byte, decipher: Decipher) returns (code: Code, l: Locals)
    requires |settings.sourceSystemTitle| == 8
    modifies settings, buff
    ensures Outcome(code, settings.View(), l) == ParsePdu(old(settings.View()), old(buff.Rest()), command, decipher)
  {
    hide Fields, Finish, ByteBuffer.Reached, ByteBuffer.Rest, DlmsSettings.View, CountValue, ObjectCount;
    l := START.(command := command);
    ghost var s, b := settings.View(), buff.Rest();
    Begin(buff);
    settings.Shows();
    var tag := buff.GetUInt8(b, 0);
    if tag.EndOfData? { return OutOfMemory, l; }
    if tag.value != (if settings.server then 0x60 else 0x61) { return InvalidTag, l; }
    Arrived(buff, b, 1);
    Begin(buff);
    var r, size := GetObjectCount(buff, b[1..], s, l);
    if r.Leave? { return r.code, l; }
    var rest := buff.Remaining();
    if size > |rest| { return OutOfMemory, l; }
    r, l := ParseFields(settings, buff, l, decipher);
    if r.Leave? { return r.code, l; }
    code, l := FinishPdu(settings, l);
  }
}
