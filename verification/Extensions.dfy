/** Extension headers: the scanners and parseExtensions of third-party/websocket/util.go. */
module Extensions {
  import opened Bytes

  type Text = seq<Byte>

  const TAB: Byte := 9
  const SPACE: Byte := 32
  const QUOTE: Byte := 34
  const COMMA: Byte := 44
  const SEMICOLON: Byte := 59
  const EQUALS: Byte := 61
  const BACKSLASH: Byte := 92

  predicate IsSpace(b: Byte) {
    b == SPACE || b == TAB
  }

  /** The octets of a token (section 2.2 of RFC 2616): visible ASCII but for the separators. */
  predicate IsToken(b: Byte) {
    32 < b < 127 && b !in {34, 40, 41, 44, 47, 58, 59, 60, 61, 62, 63, 64, 91, 92, 93, 123, 125}
  }

  /** The same, listed: letters, digits and ! # $ % & ' * + - . ^ _ ` | ~. */
  predicate TokenChar(b: Byte) {
    48 <= b <= 57 || 65 <= b <= 90 || 97 <= b <= 122 ||
    b in {33, 35, 36, 37, 38, 39, 42, 43, 45, 46, 94, 95, 96, 124, 126}
  }

  lemma TokenOctets(b: Byte)
    ensures IsToken(b) <==> TokenChar(b)
  {
  }

  // ----- What the scanners return -----

  function SkipSpace(s: Text): (r: Text)
    ensures |r| <= |s| && (r != [] ==> !IsSpace(r[0]))
  {
    if s != [] && IsSpace(s[0]) then SkipSpace(s[1..]) else s
  }

  function TokenLength(s: Text): (n: nat)
    ensures n <= |s|
  {
    if s != [] && IsToken(s[0]) then 1 + TokenLength(s[1..]) else 0
  }

  function NextToken(s: Text): (r: (Text, Text))
    ensures |r.0| + |r.1| == |s|
  {
    (s[..TokenLength(s)], s[TokenLength(s)..])
  }

  /** A quoted string from behind its opening quote, or just behind a backslash; None when nothing closes it. */
  function Unquote(s: Text, escape: bool): (r: Option<(Text, Text)>)
    ensures r.Some? ==> |r.value.1| < |s|
  {
    if s == [] then None
    else if !escape && s[0] == BACKSLASH then Unquote(s[1..], true)
    else if !escape && s[0] == QUOTE then Some(([], s[1..]))
    else
      var r := Unquote(s[1..], false);
      if r.None? then None else Some(([s[0]] + r.value.0, r.value.1))
  }

  /**
   * The value and the rest, with what was taken before; a string nothing closes counts as empty and ends
   * the header.
   */
  function Unquoted(taken: Text, r: Option<(Text, Text)>): (Text, Text) {
    if r.None? then ([], []) else (taken + r.value.0, r.value.1)
  }

  function NextTokenOrQuoted(s: Text): (r: (Text, Text))
    ensures |r.1| <= |s|
  {
    if s == [] || s[0] != QUOTE then NextToken(s)
    else Unquoted([], Unquote(s[1..], false))
  }

  // ----- The scanners -----

  method ScanSpace(s: Text) returns (rest: Text)
    ensures rest == SkipSpace(s)
    ensures |rest| <= |s| && rest == s[|s| - |rest|..] && (rest != [] ==> rest[0] !in {9, 32})
    ensures forall i :: 0 <= i < |s| - |rest| ==> s[i] in {9, 32}
  {
    var i := 0;
    while i < |s| && IsSpace(s[i])
      invariant i <= |s| && SkipSpace(s[i..]) == SkipSpace(s)
      invariant forall j :: 0 <= j < i ==> s[j] in {9, 32}
    {
      i := i + 1;
    }
    return s[i..];
  }

  method ScanToken(s: Text) returns (token: Text, rest: Text)
    ensures (token, rest) == NextToken(s)
    ensures s == token + rest && (rest != [] ==> !TokenChar(rest[0]))
    ensures forall i :: 0 <= i < |token| ==> TokenChar(token[i])
  {
    hide IsToken, TokenChar;
    var i := 0;
    while i < |s| && IsToken(s[i])
      invariant i <= |s| && i + TokenLength(s[i..]) == TokenLength(s)
      invariant forall j :: 0 <= j < i ==> TokenChar(s[j])
    {
      TokenOctets(s[i]);
      i := i + 1;
    }
    if i < |s| {
      TokenOctets(s[i]);
    }
    return s[..i], s[i..];
  }

  lemma {:induction false} TakeOne(taken: Text, s: Text, escape: bool)
    requires s != [] && (escape || (s[0] != BACKSLASH && s[0] != QUOTE))
    ensures Unquoted(taken, Unquote(s, escape)) == Unquoted(taken + [s[0]], Unquote(s[1..], false))
  {
    var r := Unquote(s[1..], false);
    if r.Some? {
      Assoc(taken, [s[0]], r.value.0);
    }
  }

  /** Without an escape the value is a slice of s; from the first escape on it is copied. */
  method ScanTokenOrQuoted(t: Text) returns (value: Text, rest: Text)
    ensures (value, rest) == NextTokenOrQuoted(t)
  {
    if t == [] || t[0] != QUOTE {
      value, rest := ScanToken(t);
      return;
    }
    var s := t[1..];
    var i := 0;
    while i < |s|
      invariant i <= |s| && Unquoted([], Unquote(s, false)) == Unquoted(s[..i], Unquote(s[i..], false))
    {
      if s[i] == QUOTE {
        assert s[i..][1..] == s[i + 1..] && s[..i] + [] == s[..i];
        return s[..i], s[i + 1..];
      }
      if s[i] == BACKSLASH {
        value, rest := ScanEscaped(s, i);
        return;
      }
      TakeOne(s[..i], s[i..], false);
      assert s[i..][1..] == s[i + 1..] && s[..i] + [s[i]] == s[..i + 1];
      i := i + 1;
    }
    return [], [];
  }

  /** The rest of the scan, from the first backslash at i; the copy never outgrows its buffer. */
  method ScanEscaped(s: Text, start: nat) returns (value: Text, rest: Text)
    requires start < |s| && s[start] == BACKSLASH
    ensures (value, rest) == Unquoted(s[..start], Unquote(s[start..], false))
  {
    var p := new Byte[|s| - 1];
    Copy(p, 0, s[..start]);
    var j, escape, i := start, true, start + 1;
    assert s[start..][1..] == s[start + 1..];
    while i < |s|
      invariant start < i <= |s| && j < i
      invariant Unquoted(s[..start], Unquote(s[start..], false)) == Unquoted(p[..j], Unquote(s[i..], escape))
    {
      var b := s[i];
      ghost var taken := p[..j];
      assert s[i..][1..] == s[i + 1..];
      if escape {
        TakeOne(taken, s[i..], true);
        escape := false;
        p[j] := b;
        j := j + 1;
        assert p[..j] == taken + [b];
      } else if b == BACKSLASH {
        escape := true;
      } else if b == QUOTE {
        assert taken + [] == taken;
        return p[..j], s[i + 1..];
      } else {
        TakeOne(taken, s[i..], false);
        p[j] := b;
        j := j + 1;
        assert p[..j] == taken + [b];
      }
      i := i + 1;
    }
    return [], [];
  }

  // ----- parseExtensions -----

  type ExtensionMap = map<Text, Text>

  /** An extension with its parameters and what follows, or a header that is given up. */
  datatype Scanned = Bad | Extension(ext: ExtensionMap, rest: Text)

  /** The value behind a key, if there is one, and what follows. */
  function ValueOf(s: Text): (r: (Text, Text))
    ensures |r.1| <= |s|
  {
    if s != [] && s[0] == EQUALS then
      var (v, rest) := NextTokenOrQuoted(SkipSpace(s[1..]));
      (v, SkipSpace(rest))
    else ([], s)
  }

  predicate Starts(s: Text, b: Byte) {
    s != [] && s[0] == b
  }

  function Params(s: Text, ext: ExtensionMap): (r: Scanned)
    ensures r.Extension? ==> |r.rest| <= |s|
    decreases |s|
  {
    var s := SkipSpace(s);
    if !Starts(s, SEMICOLON) then Extension(ext, s)
    else
      var (k, s) := NextToken(SkipSpace(s[1..]));
      if k == [] then Bad
      else
        var (v, s) := ValueOf(SkipSpace(s));
        if s != [] && s[0] != COMMA && s[0] != SEMICOLON then Bad else Params(s, ext[k := v])
  }

  function Header(s: Text): seq<ExtensionMap>
    decreases |s|
  {
    var (t, s) := NextToken(SkipSpace(s));
    if t == [] then []
    else
      match Params(s, map[[] := t])
      case Bad => []
      case Extension(ext, s) =>
        if s == [] then [ext] else if s[0] != COMMA then [] else [ext] + Header(s[1..])
  }

  function Headers(hs: seq<Text>): seq<ExtensionMap> {
    if hs == [] then [] else Headers(hs[..|hs| - 1]) + Header(hs[|hs| - 1])
  }

  method ParseExtensions(header: seq<Text>) returns (result: seq<ExtensionMap>)
    ensures result == Headers(header)
  {
    result := [];
    for h := 0 to |header|
      invariant result == Headers(header[..h])
    {
      ghost var before := result;
      var s := header[h];
      var more := true;
      while more
        invariant more ==> before + Header(header[h]) == result + Header(s)
        invariant !more ==> result == before + Header(header[h])
        decreases more, |s|
      {
        ghost var at, had := s, result;
        var t;
        s := ScanSpace(s);
        t, s := ScanToken(s);
        if t == [] {
          more := false;
        } else {
          var scanned := ScanParams(s, t);
          match scanned
          case Bad => more := false;
          case Extension(ext, rest) =>
            if rest == [] {
              result := result + [ext];
              more := false;
            } else if rest[0] != COMMA {
              more := false;
            } else {
              result := result + [ext];
              s := rest[1..];
              Assoc(had, [ext], Header(s));
            }
        }
        assert more || Header(at) == result[|had|..];
      }
      assert header[..h + 1][..h] == header[..h];
    }
    assert header[..|header|] == header;
  }

  method ScanParams(start: Text, t: Text) returns (r: Scanned)
    ensures r == Params(start, map[[] := t])
  {
    var s, ext := start, map[[] := t];
    while true
      invariant Params(s, ext) == Params(start, map[[] := t])
      decreases |s|
    {
      s := ScanSpace(s);
      if s == [] || s[0] != SEMICOLON {
        return Extension(ext, s);
      }
      var k;
      s := ScanSpace(s[1..]);
      k, s := ScanToken(s);
      if k == [] {
        return Bad;
      }
      s := ScanSpace(s);
      var v: Text := [];
      if s != [] && s[0] == EQUALS {
        s := ScanSpace(s[1..]);
        v, s := ScanTokenOrQuoted(s);
        s := ScanSpace(s);
      }
      if s != [] && s[0] != COMMA && s[0] != SEMICOLON {
        return Bad;
      }
      ext := ext[k := v];
    }
  }
}
