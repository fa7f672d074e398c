/** parseClientHello of sniproxy/sniff.go, and the messages of section 4.1.2 of RFC 8446 it reads. */
module ClientHello {
  import opened Bytes

  datatype Reason =
    | BufferTooShort | NotHandshake | NotClientHello | BadSessionId | BadCipherSuites | BadCompression | NoExtensions
    | BadExtensionsLength | BadExtensionFormat | BadExtensionLength
    | BadSniFormat | BadSniList | BadNameType | BadNameLength | BadNameData | SniNotFound

  /** The name found, an error, or a read past the end of the buffer. */
  datatype Sniffed = Found(name: seq<Byte>) | Fail(reason: Reason) | OutOfRange

  function U16(s: seq<Byte>): nat
    requires |s| >= 2
  {
    FromBE(s[..2])
  }

  // ----- What parsing means, on what is left of the message -----

  function Parse(buf: seq<Byte>): Sniffed {
    if |buf| < 5 then Fail(BufferTooShort)
    else if buf[0] != 0x16 then Fail(NotHandshake)
    else if |buf| < 43 || buf[5] != 0x01 then Fail(NotClientHello)
    else FromSession(buf[43..])
  }

  function FromSession(s: seq<Byte>): Sniffed {
    if |s| < 1 then OutOfRange
    else if 1 + s[0] >= |s| then Fail(BadSessionId)
    else FromSuites(s[1 + s[0]..])
  }

  function FromSuites(s: seq<Byte>): Sniffed
    requires s != []
  {
    if |s| < 2 then OutOfRange
    else if 2 + U16(s) >= |s| then Fail(BadCipherSuites)
    else FromCompression(s[2 + U16(s)..])
  }

  function FromCompression(s: seq<Byte>): Sniffed
    requires s != []
  {
    if 1 + s[0] >= |s| then Fail(BadCompression) else FromExtensions(s[1 + s[0]..])
  }

  function FromExtensions(s: seq<Byte>): Sniffed {
    if |s| < 2 then Fail(NoExtensions)
    else if 2 + U16(s) > |s| then Fail(BadExtensionsLength)
    else Scan(s[2..], U16(s))
  }

  /** The extension loop, n bytes before its end. */
  function Scan(s: seq<Byte>, n: int): Sniffed
    decreases |s|
  {
    if n <= 0 then Fail(SniNotFound)
    else if |s| < 4 then Fail(BadExtensionFormat)
    else
      var k := U16(s[2..]);
      if 4 + k > |s| then Fail(BadExtensionLength)
      else if U16(s) == 0 then FromNames(s[4..])
      else Scan(s[4 + k..], n - 4 - k)
  }

  function FromNames(s: seq<Byte>): Sniffed {
    if |s| < 2 then Fail(BadSniFormat)
    else if 2 + U16(s) > |s| then Fail(BadSniList)
    else if |s| < 3 || s[2] != 0 then Fail(BadNameType)
    else if |s| < 5 then Fail(BadNameLength)
    else if 5 + U16(s[3..]) > |s| then Fail(BadNameData)
    else Found(s[5..5 + U16(s[3..])])
  }

  // ----- The parser -----

  method ParseClientHello(buf: seq<Byte>) returns (r: Sniffed)
    ensures r == Parse(buf)
  {
    hide FromExtensions, U16;
    if |buf| < 5 {
      return Fail(BufferTooShort);
    }
    if buf[0] != 0x16 {
      return Fail(NotHandshake);
    }
    if |buf| < 43 || buf[5] != 0x01 {
      return Fail(NotClientHello);
    }
    var pos: nat := 43;
    if pos >= |buf| {
      return OutOfRange;
    }
    pos := pos + 1 + buf[pos];
    if pos >= |buf| {
      return Fail(BadSessionId);
    }
    if pos + 2 > |buf| {
      return OutOfRange;
    }
    pos := pos + 2 + U16(buf[pos..]);
    if pos >= |buf| {
      return Fail(BadCipherSuites);
    }
    pos := pos + 1 + buf[pos];
    if pos >= |buf| {
      return Fail(BadCompression);
    }
    r := ParseExtensions(buf, pos);
  }

  method ParseExtensions(buf: seq<Byte>, start: nat) returns (r: Sniffed)
    requires start <= |buf|
    ensures r == FromExtensions(buf[start..])
  {
    hide FromNames, U16;
    var pos := start;
    if pos + 2 > |buf| {
      return Fail(NoExtensions);
    }
    var extensionsLen := U16(buf[pos..]);
    pos := pos + 2;
    if pos + extensionsLen > |buf| {
      return Fail(BadExtensionsLength);
    }
    var end := pos + extensionsLen;
    while pos < end
      invariant pos <= |buf| && FromExtensions(buf[start..]) == Scan(buf[pos..], end - pos)
    {
      if pos + 4 > |buf| {
        return Fail(BadExtensionFormat);
      }
      var extType := U16(buf[pos..]);
      var extLen := U16(buf[pos + 2..]);
      pos := pos + 4;
      if pos + extLen > |buf| {
        return Fail(BadExtensionLength);
      }
      if extType == 0 {
        r := ParseNames(buf, pos);
        return;
      }
      pos := pos + extLen;
    }
    return Fail(SniNotFound);
  }

  method ParseNames(buf: seq<Byte>, start: nat) returns (r: Sniffed)
    requires start <= |buf|
    ensures r == FromNames(buf[start..])
  {
    var pos := start;
    if pos + 2 > |buf| {
      return Fail(BadSniFormat);
    }
    var nameListLen := U16(buf[pos..]);
    pos := pos + 2;
    if pos + nameListLen > |buf| {
      return Fail(BadSniList);
    }
    if pos + 1 > |buf| || buf[pos] != 0 {
      return Fail(BadNameType);
    }
    pos := pos + 1;
    if pos + 2 > |buf| {
      return Fail(BadNameLength);
    }
    var nameLen := U16(buf[pos..]);
    pos := pos + 2;
    if pos + nameLen > |buf| {
      return Fail(BadNameData);
    }
    return Found(buf[pos..pos + nameLen]);
  }

  /** Apart from the two reads its guards do not cover, parsing stays inside the buffer. */
  lemma StaysInside(buf: seq<Byte>)
    ensures Parse(buf) != OutOfRange <==>
      !(|buf| >= 43 && buf[0] == 0x16 && buf[5] == 0x01 && (|buf| == 43 || |buf| - 45 == buf[43]))
  {
    hide FromSuites;
    if |buf| > 43 && 1 + buf[43] < |buf| - 43 {
      SuitesStayInside(buf[43..][1 + buf[43]..]);
    }
  }

  lemma SuitesStayInside(s: seq<Byte>)
    requires s != []
    ensures FromSuites(s) == OutOfRange <==> |s| == 1
  {
    hide U16, Scan;
    if |s| >= 2 && 2 + U16(s) < |s| {
      var compression := s[2 + U16(s)..];
      if 1 + compression[0] < |compression| {
        var extensions := compression[1 + compression[0]..];
        if |extensions| >= 2 {
          ScanStaysInside(extensions[2..], U16(extensions));
        }
      }
    }
  }

  lemma {:induction false} ScanStaysInside(s: seq<Byte>, n: int)
    ensures Scan(s, n) != OutOfRange
    decreases |s|
  {
    if n > 0 && |s| >= 4 && 4 + U16(s[2..]) <= |s| && U16(s) != 0 {
      ScanStaysInside(s[4 + U16(s[2..])..], n - 4 - U16(s[2..]));
    }
  }

  // ----- The messages -----

  /** A server_name extension holds host names (section 3 of RFC 6066); the others are opaque. */
  datatype Extension = ServerName(names: seq<seq<Byte>>) | Other(kind: nat, body: seq<Byte>)

  datatype Hello = Hello(
    recordVersion: seq<Byte>,
    version: seq<Byte>,
    random: seq<Byte>,
    session: seq<Byte>,
    suites: seq<Byte>,
    compression: seq<Byte>,
    extensions: Option<seq<Extension>>)

  /** Vectors behind one and two bytes of length. */
  function Vec1(s: seq<Byte>): seq<Byte>
    requires |s| < 0x100
  {
    [|s|] + s
  }

  function Vec2(s: seq<Byte>): (v: seq<Byte>)
    ensures |v| == 2 + |s|
  {
    BE(|s|, 2) + s
  }

  function NameList(names: seq<seq<Byte>>): seq<Byte> {
    if names == [] then [] else [0] + Vec2(names[0]) + NameList(names[1..])
  }

  function Body(e: Extension): seq<Byte> {
    if e.ServerName? then Vec2(NameList(e.names)) else e.body
  }

  function Wire(e: Extension): seq<Byte> {
    BE(if e.ServerName? then 0 else e.kind, 2) + Vec2(Body(e))
  }

  function Block(es: seq<Extension>): seq<Byte> {
    if es == [] then [] else Wire(es[0]) + Block(es[1..])
  }

  function Content(h: Hello): seq<Byte>
    requires |h.session| < 0x100 && |h.compression| < 0x100
  {
    var tail := if h.extensions.Some? then Vec2(Block(h.extensions.value)) else [];
    h.version + h.random + (Vec1(h.session) + (Vec2(h.suites) + (Vec1(h.compression) + tail)))
  }

  /** One record with one handshake message. */
  function Serialise(h: Hello): seq<Byte>
    requires |h.session| < 0x100 && |h.compression| < 0x100
  {
    var c := Content(h);
    [0x16] + h.recordVersion + BE(4 + |c|, 2) + [0x01] + BE(|c|, 3) + c
  }

  predicate ExtensionOk(e: Extension) {
    |Body(e)| < 0x1_0000 &&
    if e.ServerName? then e.names != [] && |NameList(e.names)| < 0x1_0000 else 0 < e.kind < 0x1_0000
  }

  predicate WellFormed(h: Hello) {
    |h.recordVersion| == 2 && |h.version| == 2 && |h.random| == 32 &&
    |h.session| < 0x100 && |h.suites| < 0x1_0000 && 0 < |h.compression| < 0x100 &&
    (h.extensions.Some? ==>
      |Block(h.extensions.value)| < 0x1_0000 && forall e :: e in h.extensions.value ==> ExtensionOk(e)) &&
    4 + |Content(h)| < 0x1_0000
  }

  /** The first name of the first server_name extension. */
  function HostName(es: seq<Extension>): Option<seq<Byte>> {
    if es == [] then None
    else if es[0].ServerName? && es[0].names != [] then Some(es[0].names[0])
    else HostName(es[1..])
  }

  lemma {:induction false} U16OfBE(n: nat, rest: seq<Byte>)
    requires n < 0x1_0000
    ensures U16(BE(n, 2) + rest) == n && (BE(n, 2) + rest)[2..] == rest
  {
    PowerValues();
    FromBEOfBE(n, 2);
    assert (BE(n, 2) + rest)[..2] == BE(n, 2);
  }

  lemma U16OfVec2(x: seq<Byte>, rest: seq<Byte>)
    requires |x| < 0x1_0000
    ensures U16(Vec2(x) + rest) == |x| && (Vec2(x) + rest)[2..2 + |x|] == x && (Vec2(x) + rest)[2 + |x|..] == rest
  {
    Assoc(BE(|x|, 2), x, rest);
    U16OfBE(|x|, x + rest);
  }

  lemma {:induction false} NamesFound(names: seq<seq<Byte>>, rest: seq<Byte>)
    requires names != [] && |NameList(names)| < 0x1_0000
    ensures FromNames(Vec2(NameList(names)) + rest) == Found(names[0])
  {
    hide U16, BE;
    var list := NameList(names);
    var s := Vec2(list) + rest;
    U16OfVec2(list, rest);
    var more := NameList(names[1..]) + rest;
    assert list + rest == [0] + (Vec2(names[0]) + more);
    assert s[2..] == list + rest by {
      Assoc(BE(|list|, 2), list, rest);
    }
    assert s[3..] == Vec2(names[0]) + more by {
      assert s[3..] == s[2..][1..];
    }
    U16OfVec2(names[0], more);
    assert s[5..5 + |names[0]|] == s[3..][2..2 + |names[0]|];
    assert s[2] == s[2..][0];
  }

  lemma {:induction false} ScanOne(e: Extension, more: seq<Byte>, n: int)
    requires ExtensionOk(e) && n > 0
    ensures Scan(Wire(e) + more, n) == if e.ServerName? then Found(e.names[0]) else Scan(more, n - |Wire(e)|)
  {
    hide U16, BE, FromNames, NameList;
    var kind, body := if e.ServerName? then 0 else e.kind, Body(e);
    var s := Wire(e) + more;
    Assoc(BE(kind, 2), Vec2(body), more);
    U16OfBE(kind, Vec2(body) + more);
    U16OfVec2(body, more);
    assert s[4 + |body|..] == s[2..][2 + |body|..] == more;
    if e.ServerName? {
      assert s[4..] == s[2..][2..];
      Assoc(BE(|body|, 2), body, more);
      assert s[4..] == body + more;
      NamesFound(e.names, more);
    }
  }

  lemma {:induction false} ScanBlock(es: seq<Extension>, rest: seq<Byte>)
    requires forall e :: e in es ==> ExtensionOk(e)
    ensures Scan(Block(es) + rest, |Block(es)|) ==
      if HostName(es).Some? then Found(HostName(es).value) else Fail(SniNotFound)
  {
    hide Scan, Wire, Body;
    if es == [] {
      assert Block(es) + rest == rest;
      ScanNothing(rest);
    } else {
      assert |Wire(es[0])| > 0 by {
        WireLength(es[0]);
      }
      Assoc(Wire(es[0]), Block(es[1..]), rest);
      ScanOne(es[0], Block(es[1..]) + rest, |Block(es)|);
      ScanBlock(es[1..], rest);
    }
  }

  lemma {:induction false} ScanNothing(s: seq<Byte>)
    ensures Scan(s, 0) == Fail(SniNotFound)
  {
  }

  lemma WireLength(e: Extension)
    ensures |Wire(e)| == 4 + |Body(e)|
  {
  }

  lemma SkipSession(x: seq<Byte>, rest: seq<Byte>)
    requires |x| < 0x100 && rest != []
    ensures FromSession(Vec1(x) + rest) == FromSuites(rest)
  {
    hide FromSuites;
    assert (Vec1(x) + rest)[1 + |x|..] == rest;
  }

  lemma SkipSuites(x: seq<Byte>, rest: seq<Byte>)
    requires |x| < 0x1_0000 && rest != []
    ensures FromSuites(Vec2(x) + rest) == FromCompression(rest)
  {
    hide FromCompression, U16;
    U16OfVec2(x, rest);
  }

  lemma SkipCompression(x: seq<Byte>, rest: seq<Byte>)
    requires |x| < 0x100
    ensures FromCompression(Vec1(x) + rest) == if rest == [] then Fail(BadCompression) else FromExtensions(rest)
  {
    hide FromExtensions;
    assert (Vec1(x) + rest)[1 + |x|..] == rest;
  }

  lemma {:induction false} EnterBlock(x: seq<Byte>)
    requires |x| < 0x1_0000
    ensures FromExtensions(Vec2(x)) == Scan(x, |x|)
  {
    hide Scan, U16;
    assert Vec2(x) + [] == Vec2(x) && x + [] == x;
    U16OfVec2(x, []);
    assert Vec2(x)[2..] == x;
  }

  /** Parsing inverts serialisation; without an extension block it reports the compression list instead. */
  lemma ParseSerialise(h: Hello)
    requires WellFormed(h)
    ensures Parse(Serialise(h)) ==
      match h.extensions
      case None => Fail(BadCompression)
      case Some(es) => if HostName(es).Some? then Found(HostName(es).value) else Fail(SniNotFound)
    ensures Parse(Serialise(h)) == Fail(BadCompression) <==> h.extensions.None?
  {
    hide U16, BE, Block, HostName, Scan, FromSession, FromSuites, FromCompression, FromExtensions;
    var buf := Serialise(h);
    var tail := if h.extensions.Some? then Vec2(Block(h.extensions.value)) else [];
    var compression := Vec1(h.compression) + tail;
    var suites := Vec2(h.suites) + compression;
    assert buf[43..] == Vec1(h.session) + suites;
    assert buf[0] == 0x16 && buf[5] == 0x01;
    SkipSession(h.session, suites);
    SkipSuites(h.suites, compression);
    SkipCompression(h.compression, tail);
    if h.extensions.Some? {
      var block := Block(h.extensions.value);
      EnterBlock(block);
      assert block + [] == block;
      ScanBlock(h.extensions.value, []);
    }
  }

  /** TLS 1.2 with one cipher suite, the null compression and no extensions (section 7.4.1.2 of RFC 5246). */
  lemma NoExtensionBlock(random: seq<Byte>)
    requires |random| == 32
    ensures var h := Hello([3, 1], [3, 3], random, [], [0, 47], [0], None);
      WellFormed(h) && |Serialise(h)| == 50 && Parse(Serialise(h)) == Fail(BadCompression)
  {
    hide Parse;
    var h := Hello([3, 1], [3, 3], random, [], [0, 47], [0], None);
    assert |Vec1(h.session)| == 1 && |Vec2(h.suites)| == 4 && |Vec1(h.compression)| == 2;
    ParseSerialise(h);
  }

  // ----- Octet by octet -----

  lemma U16Octets(s: seq<Byte>)
    requires |s| >= 2
    ensures U16(s) == s[0] as int * 256 + s[1] as int
  {
    assert s[..2] == [s[0], s[1]] && s[..2][..1] == [s[0]];
    assert FromBE([s[0]]) == s[0];
  }

  /** Two octets of a message as a number. */
  function Pair(s: seq<Byte>, i: nat): nat
    requires i + 2 <= |s|
  {
    s[i] as int * 256 + s[i + 1] as int
  }

  lemma U16At(s: seq<Byte>, i: nat)
    requires i + 2 <= |s|
    ensures U16(s[i..]) == Pair(s, i)
  {
    hide U16;
    U16Octets(s[i..]);
  }

  /** What is too short or of another kind is refused by its first octets. */
  lemma FirstOctets(buf: seq<Byte>)
    ensures |buf| < 5 ==> Parse(buf) == Fail(BufferTooShort)
    ensures |buf| >= 5 && buf[0] != 0x16 ==> Parse(buf) == Fail(NotHandshake)
    ensures |buf| >= 5 && buf[0] == 0x16 && (|buf| < 43 || buf[5] != 0x01) ==> Parse(buf) == Fail(NotClientHello)
  {
    hide FromSession;
  }

  lemma MethodsOctets(buf: seq<Byte>, methods: nat)
    requires methods < |buf|
    ensures var block := methods + 1 + buf[methods] as int;
      FromCompression(buf[methods..]) ==
        if block >= |buf| then Fail(BadCompression)
        else if block + 1 == |buf| then Fail(NoExtensions)
        else if block + 2 + Pair(buf, block) > |buf| then Fail(BadExtensionsLength)
        else Scan(buf[block + 2..], Pair(buf, block))
  {
    hide U16, Scan, Pair;
    var block := methods + 1 + buf[methods] as int;
    if block < |buf| {
      assert buf[methods..][1 + buf[methods]..] == buf[block..];
      if block + 1 < |buf| {
        U16At(buf, block);
        assert buf[block..][2..] == buf[block + 2..];
      }
    }
  }

  lemma SuitesOctets(buf: seq<Byte>, suites: nat)
    requires suites < |buf|
    ensures FromSuites(buf[suites..]) ==
      if suites + 1 == |buf| then OutOfRange
      else if suites + 2 + Pair(buf, suites) >= |buf| then Fail(BadCipherSuites)
      else FromCompression(buf[suites + 2 + Pair(buf, suites)..])
  {
    hide U16, FromCompression, Pair;
    if suites + 1 < |buf| {
      U16At(buf, suites);
      var methods := suites + 2 + Pair(buf, suites);
      if methods < |buf| {
        assert buf[suites..][2 + Pair(buf, suites)..] == buf[methods..];
      }
    }
  }

  /**
   * Up to the extensions, by positions: session identifiers, cipher suites, compression methods and
   * extensions that reach past the end of the message are told apart.
   */
  lemma BodyOctets(buf: seq<Byte>)
    requires |buf| > 43 && buf[0] == 0x16 && buf[5] == 0x01
    ensures var suites := 44 + buf[43] as int;
      if suites >= |buf| then Parse(buf) == Fail(BadSessionId)
      else if suites + 1 == |buf| then Parse(buf) == OutOfRange
      else
        var methods := suites + 2 + Pair(buf, suites);
        if methods >= |buf| then Parse(buf) == Fail(BadCipherSuites)
        else
          var block := methods + 1 + buf[methods] as int;
          if block >= |buf| then Parse(buf) == Fail(BadCompression)
          else if block + 1 == |buf| then Parse(buf) == Fail(NoExtensions)
          else if block + 2 + Pair(buf, block) > |buf| then Parse(buf) == Fail(BadExtensionsLength)
          else Parse(buf) == Scan(buf[block + 2..], Pair(buf, block))
  {
    hide FromSuites, FromCompression, Scan, Pair;
    var suites := 44 + buf[43] as int;
    if suites < |buf| {
      assert buf[43..][1 + buf[43]..] == buf[suites..];
      SuitesOctets(buf, suites);
      if suites + 1 < |buf| && suites + 2 + Pair(buf, suites) < |buf| {
        MethodsOctets(buf, suites + 2 + Pair(buf, suites));
      }
    }
  }

  /** One extension after the other, while octets of the block are left: the first of type 0 0 has the names. */
  lemma ExtensionOctets(s: seq<Byte>, n: int)
    ensures n <= 0 ==> Scan(s, n) == Fail(SniNotFound)
    ensures n > 0 && |s| < 4 ==> Scan(s, n) == Fail(BadExtensionFormat)
    ensures n > 0 && |s| >= 4 ==>
      var k := 4 + Pair(s, 2);
      Scan(s, n) ==
        if k > |s| then Fail(BadExtensionLength)
        else if s[0] == 0 && s[1] == 0 then FromNames(s[4..])
        else Scan(s[k..], n - k)
  {
    hide U16, FromNames;
    if n > 0 && |s| >= 4 {
      U16Octets(s);
      U16At(s, 2);
    }
  }

  /** The host name list, taken at its word only as far as it reaches: lengths, and a type that must be 0. */
  lemma NameOctets(s: seq<Byte>)
    ensures |s| < 2 ==> FromNames(s) == Fail(BadSniFormat)
    ensures |s| >= 2 && Pair(s, 0) > |s| - 2 ==> FromNames(s) == Fail(BadSniList)
    ensures |s| >= 2 && Pair(s, 0) <= |s| - 2 ==>
      (FromNames(s) == Fail(BadNameType) <==> |s| == 2 || s[2] != 0) &&
      (FromNames(s) == Fail(BadNameLength) <==> 3 <= |s| < 5 && s[2] == 0)
    ensures |s| >= 5 && Pair(s, 0) <= |s| - 2 && s[2] == 0 ==>
      var n := Pair(s, 3);
      FromNames(s) == if n > |s| - 5 then Fail(BadNameData) else Found(s[5..5 + n])
  {
    hide U16;
    if |s| >= 2 {
      U16Octets(s);
      if |s| >= 5 {
        U16At(s, 3);
      }
    }
  }

  /** A hello whose first server_name extension has any body at all, behind other extensions and before any. */
  lemma {:induction false} ServerNameRead(h: Hello, es: seq<Extension>, body: seq<Byte>, after: seq<Extension>)
    requires |h.recordVersion| == 2 && |h.version| == 2 && |h.random| == 32 && |h.compression| < 0x100
    requires |h.session| < 0x100 && |h.suites| < 0x1_0000 && |body| < 0x1_0000
    requires forall e :: e in es ==> e.Other? && ExtensionOk(e)
    requires h.extensions == Some(es + [Other(0, body)] + after) && |Block(h.extensions.value)| < 0x1_0000
    ensures Parse(Serialise(h)) == FromNames(body + Block(after))
  {
    hide U16, BE, Block, Scan, FromSession, FromSuites, FromCompression, FromExtensions, FromNames;
    var buf, block := Serialise(h), Block(h.extensions.value);
    var compression := Vec1(h.compression) + Vec2(block);
    var suites := Vec2(h.suites) + compression;
    assert buf[43..] == Vec1(h.session) + suites;
    assert buf[0] == 0x16 && buf[5] == 0x01;
    SkipSession(h.session, suites);
    SkipSuites(h.suites, compression);
    SkipCompression(h.compression, Vec2(block));
    EnterBlock(block);
    ScanToNames(es, body, after);
  }

  lemma {:induction false} ScanToNames(es: seq<Extension>, body: seq<Byte>, after: seq<Extension>)
    requires |body| < 0x1_0000 && forall e :: e in es ==> e.Other? && ExtensionOk(e)
    ensures var block := Block(es + [Other(0, body)] + after);
      |block| > 0 && Scan(block, |block|) == FromNames(body + Block(after))
  {
    hide Scan, Wire, Body, FromNames;
    var all := es + [Other(0, body)] + after;
    if es == [] {
      assert all[0] == Other(0, body) && all[1..] == after;
      WireLength(Other(0, body));
      ScanNames(body, Block(after), |Block(all)|);
    } else {
      var rest := es[1..] + [Other(0, body)] + after;
      assert all[0] == es[0] && all[1..] == rest;
      ScanToNames(es[1..], body, after);
      WireLength(es[0]);
      ScanOne(es[0], Block(rest), |Block(all)|);
    }
  }

  lemma {:induction false} ScanNames(body: seq<Byte>, more: seq<Byte>, n: int)
    requires |body| < 0x1_0000 && n > 0
    ensures |Wire(Other(0, body))| > 0 && Scan(Wire(Other(0, body)) + more, n) == FromNames(body + more)
  {
    hide U16, BE, FromNames;
    var s := Wire(Other(0, body)) + more;
    Assoc(BE(0, 2), Vec2(body), more);
    U16OfBE(0, Vec2(body) + more);
    U16OfVec2(body, more);
    Assoc(BE(|body|, 2), body, more);
    assert s[2..] == BE(|body|, 2) + (body + more);
    assert s[4..] == s[2..][2..] == body + more;
  }
}
