/** Writing extension lists (section 9.1 of RFC 6455), and that parsing reads back what was written. */
module ExtensionTexts {
  import opened Bytes
  import opened Extensions

  /** A byte of a quoted string, written after a backslash or plainly. */
  datatype Glyph = Glyph(b: Byte, escaped: bool)

  datatype Value = Absent | Token(token: Text) | Quoted(glyphs: seq<Glyph>)

  /** ;key=value with white space before the semicolon, the key, the equals sign and the value. */
  datatype Param = Param(key: Text, value: Value, w0: Text, w1: Text, w2: Text, w3: Text)

  datatype Item = Item(before: Text, name: Text, params: seq<Param>, after: Text)

  predicate Blank(w: Text) {
    forall i :: 0 <= i < |w| ==> w[i] in {9, 32}
  }

  predicate IsTokenText(t: Text) {
    t != [] && forall i :: 0 <= i < |t| ==> TokenChar(t[i])
  }

  predicate ValueOk(v: Value) {
    match v
    case Absent => true
    case Token(t) => IsTokenText(t)
    case Quoted(g) => forall i :: 0 <= i < |g| && g[i].b in {34, 92} ==> g[i].escaped
  }

  predicate ParamOk(p: Param) {
    IsTokenText(p.key) && ValueOk(p.value) && Blank(p.w0) && Blank(p.w1) && Blank(p.w2) && Blank(p.w3)
  }

  predicate ItemOk(e: Item) {
    Blank(e.before) && Blank(e.after) && IsTokenText(e.name) && forall i :: 0 <= i < |e.params| ==> ParamOk(e.params[i])
  }

  // ----- Writing -----

  function Spelled(g: seq<Glyph>): Text {
    if g == [] then [] else (if g[0].escaped then [92, g[0].b] else [g[0].b]) + Spelled(g[1..])
  }

  function Meant(g: seq<Glyph>): Text {
    if g == [] then [] else [g[0].b] + Meant(g[1..])
  }

  function ValueText(v: Value): Text {
    match v
    case Absent => []
    case Token(t) => t
    case Quoted(g) => [34] + (Spelled(g) + [34])
  }

  function ParamText(p: Param): Text {
    var value := if p.value.Absent? then [] else p.w2 + ([61] + (p.w3 + ValueText(p.value)));
    p.w0 + ([59] + (p.w1 + (p.key + value)))
  }

  function ParamsText(ps: seq<Param>): Text {
    if ps == [] then [] else ParamText(ps[0]) + ParamsText(ps[1..])
  }

  function ItemText(e: Item): Text {
    e.before + (e.name + (ParamsText(e.params) + e.after))
  }

  function ListText(es: seq<Item>): Text {
    if es == [] then []
    else if |es| == 1 then ItemText(es[0])
    else ItemText(es[0]) + ([44] + ListText(es[1..]))
  }

  // ----- What it stands for -----

  function Meaning(v: Value): Text {
    match v
    case Absent => []
    case Token(t) => t
    case Quoted(g) => Meant(g)
  }

  function WithParams(ps: seq<Param>, ext: ExtensionMap): ExtensionMap {
    if ps == [] then ext else WithParams(ps[1..], ext[ps[0].key := Meaning(ps[0].value)])
  }

  function MapOf(e: Item): ExtensionMap {
    WithParams(e.params, map[[] := e.name])
  }

  function Maps(es: seq<Item>): seq<ExtensionMap> {
    if es == [] then [] else [MapOf(es[0])] + Maps(es[1..])
  }

  // ----- Scanning what was written -----

  lemma {:induction false} SkipBlank(w: Text, rest: Text)
    requires Blank(w)
    ensures SkipSpace(w + rest) == SkipSpace(rest)
  {
    if w == [] {
      assert w + rest == rest;
    } else {
      assert (w + rest)[1..] == w[1..] + rest;
      SkipBlank(w[1..], rest);
    }
  }

  lemma {:induction false} TokenThen(t: Text, rest: Text)
    requires (forall i :: 0 <= i < |t| ==> TokenChar(t[i])) && (rest != [] ==> !TokenChar(rest[0]))
    ensures TokenLength(t + rest) == |t| && NextToken(t + rest) == (t, rest)
  {
    hide IsToken, TokenChar;
    if t == [] {
      assert t + rest == rest;
      if rest != [] {
        TokenOctets(rest[0]);
      }
    } else {
      TokenOctets(t[0]);
      assert (t + rest)[1..] == t[1..] + rest;
      assert forall i :: 0 <= i < |t| - 1 ==> t[1..][i] == t[i + 1];
      TokenThen(t[1..], rest);
      assert (t + rest)[0] == t[0];
    }
  }

  lemma {:induction false} UnquoteSpelled(g: seq<Glyph>, rest: Text)
    requires ValueOk(Quoted(g))
    ensures Unquote(Spelled(g) + ([QUOTE] + rest), false) == Some((Meant(g), rest))
  {
    var tail := [QUOTE] + rest;
    if g == [] {
      assert Spelled(g) + tail == tail;
      assert tail[1..] == rest;
    } else {
      var more := Spelled(g[1..]) + tail;
      UnquoteSpelled(g[1..], rest);
      Assoc(if g[0].escaped then [BACKSLASH, g[0].b] else [g[0].b], Spelled(g[1..]), tail);
      UnquoteGlyph(g[0], more);
    }
  }

  lemma {:induction false} UnquoteGlyph(g: Glyph, more: Text)
    requires g.b in [QUOTE, BACKSLASH] ==> g.escaped
    ensures Unquote((if g.escaped then [BACKSLASH, g.b] else [g.b]) + more, false) ==
      (var r := Unquote(more, false); if r.None? then None else Some(([g.b] + r.value.0, r.value.1)))
  {
    if g.escaped {
      assert ([BACKSLASH, g.b] + more)[1..] == [g.b] + more;
    }
    assert ([g.b] + more)[1..] == more;
  }

  /** What may follow a key or value: white space, then a semicolon, a comma or the end. */
  predicate Ends(s: Text) {
    var r := SkipSpace(s);
    (s == [] || IsSpace(s[0]) || s[0] == SEMICOLON || s[0] == COMMA) && (r == [] || r[0] == SEMICOLON || r[0] == COMMA)
  }

  lemma BlankThenEnds(w: Text, rest: Text)
    requires Blank(w) && (rest == [] || rest[0] == SEMICOLON || rest[0] == COMMA)
    ensures Ends(w + rest)
  {
    SkipBlank(w, rest);
    if w == [] {
      assert w + rest == rest;
    }
  }

  lemma {:induction false} QuotedRead(g: seq<Glyph>, rest: Text)
    requires ValueOk(Quoted(g))
    ensures NextTokenOrQuoted(ValueText(Quoted(g)) + rest) == (Meant(g), rest)
  {
    hide Meant, Spelled, Unquote;
    var s := ValueText(Quoted(g)) + rest;
    assert s == [QUOTE] + (Spelled(g) + ([QUOTE] + rest));
    assert s[1..] == Spelled(g) + ([QUOTE] + rest);
    UnquoteSpelled(g, rest);
    assert [] + Meant(g) == Meant(g);
  }

  lemma {:induction false} ValueRead(v: Value, w: Text, rest: Text)
    requires ValueOk(v) && !v.Absent? && Blank(w) && Ends(rest)
    ensures ValueOf([EQUALS] + (w + (ValueText(v) + rest))) == (Meaning(v), SkipSpace(rest))
  {
    var s := ValueText(v) + rest;
    assert ([EQUALS] + (w + s))[1..] == w + s;
    SkipBlank(w, s);
    assert s != [] && !IsSpace(s[0]);
    assert NextTokenOrQuoted(s) == (Meaning(v), rest) by {
      match v
      case Token(t) =>
        TokenThen(t, rest);
        assert s[0] == t[0];
      case Quoted(g) => QuotedRead(g, rest);
    }
    hide NextTokenOrQuoted;
  }

  lemma NoValue(s: Text)
    requires s == [] || s[0] != EQUALS
    ensures ValueOf(s) == ([], s)
  {
  }

  /** What follows the key of a parameter, when rest follows the parameter. */
  function AfterKey(p: Param, rest: Text): Text {
    if p.value.Absent? then rest else p.w2 + ([EQUALS] + (p.w3 + (ValueText(p.value) + rest)))
  }

  lemma {:induction false} KeyRead(p: Param, rest: Text)
    requires ParamOk(p) && Ends(rest)
    ensures NextToken(p.key + AfterKey(p, rest)) == (p.key, AfterKey(p, rest))
    ensures ValueOf(SkipSpace(AfterKey(p, rest))) == (Meaning(p.value), SkipSpace(rest))
  {
    hide ValueText, ValueOf, NextToken;
    if p.value.Absent? {
      TokenThen(p.key, rest);
      NoValue(SkipSpace(rest));
    } else {
      var value := [EQUALS] + (p.w3 + (ValueText(p.value) + rest));
      assert value[0] == EQUALS;
      assert p.w2 != [] ==> (p.w2 + value)[0] == p.w2[0];
      assert p.w2 == [] ==> p.w2 + value == value;
      TokenThen(p.key, p.w2 + value);
      SkipBlank(p.w2, value);
      ValueRead(p.value, p.w3, rest);
    }
  }

  lemma {:induction false} ParamStart(p: Param, rest: Text)
    requires ParamOk(p)
    ensures var s := SkipSpace(ParamText(p) + rest);
      Starts(s, SEMICOLON) && SkipSpace(s[1..]) == p.key + AfterKey(p, rest)
  {
    hide ValueText, SkipSpace, IsTokenText, TokenChar;
    var value := if p.value.Absent? then [] else p.w2 + ([61] + (p.w3 + ValueText(p.value)));
    var tail := AfterKey(p, rest);
    assert tail == value + rest;
    var s := [59] + (p.w1 + (p.key + tail));
    assert ParamText(p) + rest == p.w0 + s by {
      Assoc(p.w0, [59] + (p.w1 + (p.key + value)), rest);
      Assoc([59], p.w1 + (p.key + value), rest);
      Assoc(p.w1, p.key + value, rest);
      Assoc(p.key, value, rest);
    }
    SkipBlank(p.w0, s);
    NotSkipped(s);
    assert s[1..] == p.w1 + (p.key + tail);
    SkipBlank(p.w1, p.key + tail);
    KeyFirst(p.key, tail);
    NotSkipped(p.key + tail);
  }

  lemma {:induction false} NotSkipped(s: Text)
    requires s != [] ==> s[0] !in {9, 32}
    ensures SkipSpace(s) == s
  {
  }

  lemma KeyFirst(key: Text, tail: Text)
    requires IsTokenText(key)
    ensures key + tail != [] && (key + tail)[0] !in {9, 32}
  {
    assert (key + tail)[0] == key[0];
  }

  /** One round of the parameter loop. */
  lemma ParamsRound(s: Text, key: Text, tail: Text, value: Text, rest: Text, ext: ExtensionMap)
    requires var t := SkipSpace(s); Starts(t, SEMICOLON) && NextToken(SkipSpace(t[1..])) == (key, tail)
    requires key != [] && ValueOf(SkipSpace(tail)) == (value, rest)
    requires rest == [] || rest[0] == COMMA || rest[0] == SEMICOLON
    ensures Params(s, ext) == Params(rest, ext[key := value])
  {
    hide SkipSpace, NextToken, ValueOf;
  }

  lemma {:induction false} ParamRead(p: Param, rest: Text, ext: ExtensionMap)
    requires ParamOk(p) && Ends(rest)
    ensures Params(ParamText(p) + rest, ext) == Params(rest, ext[p.key := Meaning(p.value)])
  {
    hide Meaning, ParamText, AfterKey, ValueOf, NextToken, IsToken, Params;
    ParamStart(p, rest);
    KeyRead(p, rest);
    ParamsRound(ParamText(p) + rest, p.key, AfterKey(p, rest), Meaning(p.value), SkipSpace(rest), ext);
    ParamsSkip(rest, ext[p.key := Meaning(p.value)]);
  }

  lemma {:induction false} ParamsSkip(s: Text, ext: ExtensionMap)
    ensures Params(SkipSpace(s), ext) == Params(s, ext)
  {
    assert SkipSpace(SkipSpace(s)) == SkipSpace(s);
  }

  lemma {:induction false} ParamsEnd(ps: seq<Param>, after: Text, rest: Text)
    requires (forall i :: 0 <= i < |ps| ==> ParamOk(ps[i])) && Blank(after) && (rest == [] || rest[0] == COMMA)
    ensures Ends(ParamsText(ps) + (after + rest))
  {
    hide Ends;
    if ps == [] {
      assert ParamsText(ps) + (after + rest) == after + rest;
      BlankThenEnds(after, rest);
    } else {
      var p := ps[0];
      var tail := p.w1 + (p.key + if p.value.Absent? then [] else p.w2 + ([EQUALS] + (p.w3 + ValueText(p.value))));
      assert ParamText(p) == p.w0 + ([SEMICOLON] + tail);
      var s := [SEMICOLON] + (tail + (ParamsText(ps[1..]) + (after + rest)));
      assert ParamsText(ps) + (after + rest) == p.w0 + s by {
        hide ParamText, ValueText;
        Assoc(ParamText(p), ParamsText(ps[1..]), after + rest);
        Assoc(p.w0, [SEMICOLON] + tail, ParamsText(ps[1..]) + (after + rest));
        Assoc([SEMICOLON], tail, ParamsText(ps[1..]) + (after + rest));
      }
      BlankThenEnds(p.w0, s);
    }
  }

  lemma {:induction false} ParamsRead(ps: seq<Param>, after: Text, rest: Text, ext: ExtensionMap)
    requires (forall i :: 0 <= i < |ps| ==> ParamOk(ps[i])) && Blank(after) && (rest == [] || rest[0] == COMMA)
    ensures Params(ParamsText(ps) + (after + rest), ext) == Extension(WithParams(ps, ext), rest)
  {
    hide ParamText, ParamOk, Ends;
    if ps == [] {
      assert ParamsText(ps) + (after + rest) == after + rest;
      SkipBlank(after, rest);
    } else {
      hide Params;
      var more := ParamsText(ps[1..]) + (after + rest);
      Assoc(ParamText(ps[0]), ParamsText(ps[1..]), after + rest);
      ParamsEnd(ps[1..], after, rest);
      ParamRead(ps[0], more, ext);
      ParamsRead(ps[1..], after, rest, ext[ps[0].key := Meaning(ps[0].value)]);
    }
  }

  lemma {:induction false} NameRead(e: Item, rest: Text)
    requires ItemOk(e) && (rest == [] || rest[0] == COMMA)
    ensures NextToken(SkipSpace(ItemText(e) + rest)) == (e.name, ParamsText(e.params) + (e.after + rest))
  {
    hide ParamText, ParamOk, NextToken;
    var tail := ParamsText(e.params) + (e.after + rest);
    assert ItemText(e) + rest == e.before + (e.name + tail);
    SkipBlank(e.before, e.name + tail);
    assert (e.name + tail)[0] == e.name[0];
    ParamsEnd(e.params, e.after, rest);
    TokenThen(e.name, tail);
  }

  /** Parsing reads back every list of extensions, however spaced, quoted and escaped. */
  lemma {:induction false} HeaderRead(es: seq<Item>)
    requires forall i :: 0 <= i < |es| ==> ItemOk(es[i])
    ensures Header(ListText(es)) == Maps(es)
  {
    hide ItemText, ItemOk, NextToken, Params;
    if es == [] {
      NothingRead();
    } else {
      var e := es[0];
      var rest := if |es| == 1 then [] else [COMMA] + ListText(es[1..]);
      assert ListText(es) == ItemText(e) + rest;
      NameRead(e, rest);
      assert e.name != [] by {
        NameThere(e);
      }
      ParamsOkOf(e);
      ParamsRead(e.params, e.after, rest, map[[] := e.name]);
      if |es| > 1 {
        assert rest[1..] == ListText(es[1..]);
        HeaderRead(es[1..]);
      } else {
        assert es[1..] == [];
      }
    }
  }

  lemma NothingRead()
    ensures Header([]) == []
  {
  }

  lemma NameThere(e: Item)
    requires ItemOk(e)
    ensures e.name != []
  {
  }

  lemma ParamsOkOf(e: Item)
    requires ItemOk(e)
    ensures (forall i :: 0 <= i < |e.params| ==> ParamOk(e.params[i])) && Blank(e.after)
  {
  }

  function Texts(lists: seq<seq<Item>>): seq<Text> {
    seq(|lists|, i requires 0 <= i < |lists| => ListText(lists[i]))
  }

  function AllMaps(lists: seq<seq<Item>>): seq<ExtensionMap> {
    if lists == [] then [] else AllMaps(lists[..|lists| - 1]) + Maps(lists[|lists| - 1])
  }

  /** The lists may be spread over several headers. */
  lemma {:induction false} HeadersRead(lists: seq<seq<Item>>)
    requires forall k, i :: 0 <= k < |lists| && 0 <= i < |lists[k]| ==> ItemOk(lists[k][i])
    ensures Headers(Texts(lists)) == AllMaps(lists)
  {
    hide Header, ListText, Maps, ItemOk;
    if lists != [] {
      var n := |lists| - 1;
      HeadersRead(lists[..n]);
      HeaderRead(lists[n]);
      assert Texts(lists)[..n] == Texts(lists[..n]);
    }
  }

  lemma {:induction false} OtherKeys(ps: seq<Param>, ext: ExtensionMap, k: Text)
    requires forall i :: 0 <= i < |ps| ==> ps[i].key != k
    ensures k in WithParams(ps, ext) <==> k in ext
    ensures k in ext ==> WithParams(ps, ext)[k] == ext[k]
  {
    hide Meaning;
    if ps != [] {
      OtherKeys(ps[1..], ext[ps[0].key := Meaning(ps[0].value)], k);
    }
  }

  lemma {:induction false} OwnKey(ps: seq<Param>, ext: ExtensionMap, i: nat)
    requires i < |ps| && forall j :: i < j < |ps| ==> ps[i].key != ps[j].key
    ensures ps[i].key in WithParams(ps, ext) && WithParams(ps, ext)[ps[i].key] == Meaning(ps[i].value)
  {
    hide Meaning;
    var next := ext[ps[0].key := Meaning(ps[0].value)];
    if i == 0 {
      OtherKeys(ps[1..], next, ps[0].key);
    } else {
      OwnKey(ps[1..], next, i - 1);
    }
  }

  /** With distinct keys the map has the name and exactly the parameters, each with its own value. */
  lemma MapOfDistinct(e: Item)
    requires ItemOk(e) && forall i, j :: 0 <= i < j < |e.params| ==> e.params[i].key != e.params[j].key
    ensures [] in MapOf(e) && MapOf(e)[[]] == e.name
    ensures forall i :: 0 <= i < |e.params| ==>
      e.params[i].key in MapOf(e) && MapOf(e)[e.params[i].key] == Meaning(e.params[i].value)
    ensures forall k :: k in MapOf(e) && k != [] ==> exists i :: 0 <= i < |e.params| && e.params[i].key == k
  {
    hide Meaning, WithParams;
    var ext: ExtensionMap := map[[] := e.name];
    OtherKeys(e.params, ext, []);
    forall i | 0 <= i < |e.params|
      ensures e.params[i].key in MapOf(e) && MapOf(e)[e.params[i].key] == Meaning(e.params[i].value)
    {
      OwnKey(e.params, ext, i);
    }
    forall k | k in MapOf(e) && k != [] ensures exists i :: 0 <= i < |e.params| && e.params[i].key == k {
      if forall i :: 0 <= i < |e.params| ==> e.params[i].key != k {
        OtherKeys(e.params, ext, k);
      }
    }
  }

  // ----- Malformed headers -----

  /** What is neither white space, a semicolon nor a comma, and does not go on with the token before it. */
  predicate Junk(w: Text, junk: Text) {
    Blank(w) && junk != [] && junk[0] !in {9, 32, 44, 59} && (w == [] ==> !TokenChar(junk[0]))
  }

  /** A header from its first name on. */
  lemma {:induction false} HeaderFrom(name: Text, tail: Text)
    requires IsTokenText(name) && (tail != [] ==> !TokenChar(tail[0]))
    ensures Header(name + tail) ==
      match Params(tail, map[[] := name])
      case Bad => []
      case Extension(ext, s) => if s == [] then [ext] else if s[0] != 44 then [] else [ext] + Header(s[1..])
  {
    hide Params, TokenChar, NextToken, SkipSpace;
    KeyFirst(name, tail);
    NotSkipped(name + tail);
    TokenThen(name, tail);
  }

  /** An item behind which something else stands than a comma is not taken, nor is the rest of the header. */
  lemma {:induction false} JunkAfterName(name: Text, w: Text, junk: Text)
    requires IsTokenText(name) && Junk(w, junk)
    ensures Header(name + (w + junk)) == []
  {
    hide TokenChar, IsTokenText, SkipSpace;
    BlankFirst(w, junk);
    HeaderFrom(name, w + junk);
    SkipBlank(w, junk);
    NotSkipped(junk);
  }

  lemma BlankFirst(w: Text, junk: Text)
    requires Junk(w, junk)
    ensures w + junk != [] && !TokenChar((w + junk)[0])
  {
    assert (w + junk)[0] == if w == [] then junk[0] else w[0];
  }

  /** Nor is one with a parameter that has no key. */
  lemma {:induction false} NoKey(name: Text, w: Text, rest: Text)
    requires IsTokenText(name) && Blank(w) && (rest != [] ==> rest[0] !in {9, 32} && !TokenChar(rest[0]))
    ensures Header(name + ([59] + (w + rest))) == []
  {
    hide TokenChar, IsTokenText, SkipSpace, NextToken;
    var tail := [59] + (w + rest);
    NotToken();
    HeaderFrom(name, tail);
    NotSkipped(tail);
    assert tail[1..] == w + rest;
    SkipBlank(w, rest);
    NotSkipped(rest);
    assert [] + rest == rest;
    TokenThen([], rest);
  }

  lemma NotToken()
    ensures !TokenChar(59) && !TokenChar(61) && !TokenChar(34)
  {
  }

  /** Nor one with anything else behind a value. */
  lemma {:induction false} JunkAfterValue(name: Text, key: Text, value: Text, w: Text, junk: Text)
    requires IsTokenText(name) && IsTokenText(key) && IsTokenText(value) && Junk(w, junk)
    ensures Header(name + ([59] + (key + ([61] + (value + (w + junk)))))) == []
  {
    hide TokenChar, IsTokenText, SkipSpace, NextToken, NextTokenOrQuoted, Params;
    var s2 := value + (w + junk);
    var s1 := [61] + s2;
    var tail := [59] + (key + s1);
    NotToken();
    HeaderFrom(name, tail);
    KeyedValue(key, s2, map[[] := name]);
    BlankFirst(w, junk);
    PlainValue(value, w + junk);
    SkipBlank(w, junk);
    NotSkipped(junk);
  }

  /** The first parameter of tail, up to its value. */
  lemma {:induction false} KeyedValue(key: Text, s: Text, ext: ExtensionMap)
    requires IsTokenText(key)
    ensures var (value, rest) := NextTokenOrQuoted(SkipSpace(s));
      var after := SkipSpace(rest);
      Params([59] + (key + ([61] + s)), ext) ==
        if after != [] && after[0] != 44 && after[0] != 59 then Bad else Params(after, ext[key := value])
  {
    hide TokenChar, SkipSpace, NextToken, NextTokenOrQuoted;
    var tail := [59] + (key + ([61] + s));
    NotToken();
    NotSkipped(tail);
    assert tail[1..] == key + ([61] + s);
    KeyFirst(key, [61] + s);
    NotSkipped(key + ([61] + s));
    TokenThen(key, [61] + s);
    NotSkipped([61] + s);
    assert ([61] + s)[1..] == s;
  }

  lemma {:induction false} PlainValue(value: Text, rest: Text)
    requires IsTokenText(value) && (rest != [] ==> !TokenChar(rest[0]))
    ensures NextTokenOrQuoted(SkipSpace(value + rest)) == (value, rest)
  {
    hide SkipSpace, NextToken, TokenChar;
    KeyFirst(value, rest);
    NotSkipped(value + rest);
    TokenThen(value, rest);
    NotToken();
    assert (value + rest)[0] == value[0];
  }

  /** A quoted value that nothing closes counts as empty, and takes the rest of the header with it. */
  lemma {:induction false} Unclosed(name: Text, key: Text, g: seq<Glyph>)
    requires IsTokenText(name) && IsTokenText(key) && ValueOk(Quoted(g))
    ensures Header(name + ([59] + (key + ([61] + ([34] + Spelled(g)))))) == [map[[] := name, key := []]]
  {
    hide TokenChar, IsTokenText, SkipSpace, NextToken, Params, Spelled, Unquote;
    var s := [34] + Spelled(g);
    NotToken();
    HeaderFrom(name, [59] + (key + ([61] + s)));
    KeyedValue(key, s, map[[] := name]);
    NotSkipped(s);
    assert s[1..] == Spelled(g);
    NothingCloses(g);
    NotSkipped([]);
    NoMoreParams(map[[] := name][key := []]);
  }

  lemma {:induction false} NoMoreParams(ext: ExtensionMap)
    ensures Params([], ext) == Extension(ext, [])
  {
  }

  lemma {:induction false} NothingCloses(g: seq<Glyph>)
    requires ValueOk(Quoted(g))
    ensures Unquote(Spelled(g), false).None?
  {
    if g != [] {
      NothingCloses(g[1..]);
      UnquoteGlyph(g[0], Spelled(g[1..]));
    }
  }

  /** The items before a malformed one count all the same. */
  lemma {:induction false} ItemThenAny(e: Item, rest: Text)
    requires ItemOk(e)
    ensures Header(ItemText(e) + ([44] + rest)) == [MapOf(e)] + Header(rest)
  {
    hide ItemText, ItemOk, NextToken, Params;
    var s := [44] + rest;
    NameRead(e, s);
    NameThere(e);
    ParamsOkOf(e);
    ParamsRead(e.params, e.after, s, map[[] := e.name]);
    assert s[1..] == rest;
  }

  // ----- An example -----

  /** name; key=value */
  lemma {:induction false} OneParam(name: Text, key: Text, value: Text)
    requires IsTokenText(name) && IsTokenText(key) && IsTokenText(value)
    ensures Header(name + ([59, 32] + (key + ([61] + value)))) == [map[[] := name, key := value]]
  {
    hide Header, IsTokenText;
    var p := Param(key, Token(value), [], [32], [], []);
    var e := Item([], name, [p], []);
    OneParamOk(p, e);
    HeaderRead([e]);
    OneParamText(p, e);
    assert [e][1..] == [] && [p][1..] == [];
    assert Maps([e]) == [MapOf(e)] + Maps([]) == [MapOf(e)];
    assert MapOf(e) == WithParams([], map[[] := name][key := value]);
  }

  lemma OneParamOk(p: Param, e: Item)
    requires IsTokenText(p.key) && p.value.Token? && IsTokenText(p.value.token)
    requires p.w0 == p.w2 == p.w3 == [] && p.w1 == [32]
    requires IsTokenText(e.name) && e.before == e.after == [] && e.params == [p]
    ensures ItemOk(e)
  {
    hide IsTokenText;
  }

  lemma OneParamText(p: Param, e: Item)
    requires p.value.Token? && p.w0 == p.w2 == p.w3 == [] && p.w1 == [32]
    requires e.before == e.after == [] && e.params == [p]
    ensures ListText([e]) == e.name + ([59, 32] + (p.key + ([61] + p.value.token)))
  {
    var value := [61] + p.value.token;
    assert ParamText(p) == [59] + ([32] + (p.key + value));
    Assoc([59], [32], p.key + value);
    assert [p][1..] == [];
    assert ParamsText([p]) == ParamText(p) + ParamsText([]) == ParamText(p);
    assert [59] + [32] == [59, 32];
  }

  /** The octets of plain text. */
  function Ascii(s: string): Text
    requires forall i :: 0 <= i < |s| ==> s[i] < 128 as char
  {
    seq(|s|, i requires 0 <= i < |s| => s[i] as Byte)
  }

  lemma PlainToken(s: string)
    requires s != ""
    requires forall i :: 0 <= i < |s| ==> 'a' <= s[i] <= 'z' || '0' <= s[i] <= '9' || s[i] == '-' || s[i] == '_'
    ensures IsTokenText(Ascii(s))
  {
  }

  /** permessage-deflate; client_max_window_bits=15 (section 7.1.2.2 of RFC 7692). */
  lemma {:induction false} DeflateHeader()
    ensures
      Header(Ascii("permessage-deflate") + ([59, 32] + (Ascii("client_max_window_bits") + ([61] + Ascii("15"))))) ==
      [map[[] := Ascii("permessage-deflate"), Ascii("client_max_window_bits") := Ascii("15")]]
  {
    hide Header, IsTokenText;
    PlainToken("permessage-deflate");
    PlainToken("client_max_window_bits");
    PlainToken("15");
    OneParam(Ascii("permessage-deflate"), Ascii("client_max_window_bits"), Ascii("15"));
  }
}
