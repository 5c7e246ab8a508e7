/**
 The form encoding of query strings, as net/url implements it (WHATWG URL Standard, section 5):
 url.Values.Encode and url.ParseQuery. Escaping works on the bytes of a string; how text is
 turned into bytes and back is supplied by the caller.
 */
module Form {
  import opened Common
  import opened Strings

  type Values = map<string, seq<string>>

  predicate IsBytes(s: string) {
    forall i :: 0 <= i < |s| ==> s[i] as int < 256
  }

  predicate Unreserved(c: char) {
    'a' <= c <= 'z' || 'A' <= c <= 'Z' || '0' <= c <= '9' || c == '-' || c == '_' || c == '.' || c == '~'
  }

  function HexDigit(n: int): char
    requires 0 <= n < 16
  {
    if n < 10 then '0' + n as char else 'A' + (n - 10) as char
  }

  function FromHex(c: char): Option<int> {
    if '0' <= c <= '9' then Some(c as int - '0' as int)
    else if 'A' <= c <= 'F' then Some(c as int - 'A' as int + 10)
    else if 'a' <= c <= 'f' then Some(c as int - 'a' as int + 10)
    else None
  }

  function EscapeByte(c: char): string
    requires c as int < 256
  {
    if Unreserved(c) then [c]
    else if c == ' ' then "+"
    else ['%', HexDigit(c as int / 16), HexDigit(c as int % 16)]
  }

  /** url.QueryEscape */
  function Escape(s: string): string
    requires IsBytes(s)
  {
    if s == "" then "" else EscapeByte(s[0]) + Escape(s[1..])
  }

  /** url.QueryUnescape; None where it returns an error. */
  function Unescape(s: string): Option<string> {
    if s == "" then Some("")
    else if s[0] == '%' then
      if |s| < 3 || FromHex(s[1]).None? || FromHex(s[2]).None? then None
      else Cons((FromHex(s[1]).value * 16 + FromHex(s[2]).value) as char, Unescape(s[3..]))
    else Cons(if s[0] == '+' then ' ' else s[0], Unescape(s[1..]))
  }

  function Cons(c: char, rest: Option<string>): Option<string> {
    if rest.None? then None else Some([c] + rest.value)
  }

  /** What each byte is escaped as: letters, digits and four marks stand for themselves, a blank is a plus, any other byte is its number. */
  lemma {:induction false} EscapedByteIs(c: char)
    requires c as int < 256
    ensures var e := Escape([c]);
            (e == [c] <==> 'a' <= c <= 'z' || 'A' <= c <= 'Z' || '0' <= c <= '9' || c in ['-', '_', '.', '~']) &&
            (e == "+" <==> c == ' ') &&
            (e != [c] && c != ' ' ==> e == ['%', "0123456789ABCDEF"[c as int / 16], "0123456789ABCDEF"[c as int % 16]])
  {
    assert [c][1..] == "" && Escape([c]) == EscapeByte(c) + "" == EscapeByte(c);
    HexDigitIs(c as int / 16);
    HexDigitIs(c as int % 16);
  }

  lemma HexDigitIs(n: int)
    requires 0 <= n < 16
    ensures HexDigit(n) == "0123456789ABCDEF"[n]
  {}

  lemma {:induction false} EscapeConcat(a: string, b: string)
    requires IsBytes(a) && IsBytes(b)
    ensures IsBytes(a + b) && Escape(a + b) == Escape(a) + Escape(b)
  {
    if a == "" {
      assert a + b == b;
    } else {
      hide EscapeByte, Unescape;
      assert (a + b)[0] == a[0] && (a + b)[1..] == a[1..] + b;
      EscapeConcat(a[1..], b);
      assert EscapeByte(a[0]) + (Escape(a[1..]) + Escape(b)) == EscapeByte(a[0]) + Escape(a[1..]) + Escape(b);
    }
  }

  lemma UnescapeByte(c: char, rest: string)
    requires c as int < 256
    ensures Unescape(EscapeByte(c) + rest) == Cons(c, Unescape(rest))
  {
    assert (EscapeByte(c) + rest)[|EscapeByte(c)|..] == rest;
  }

  /** Unescaping undoes escaping on every string of bytes. */
  lemma {:induction false} UnescapeUndoesEscape(s: string)
    requires IsBytes(s)
    ensures Unescape(Escape(s)) == Some(s)
  {
    hide Unescape, EscapeByte;
    if s == "" {
      UnescapeNothing();
    } else {
      UnescapeByte(s[0], Escape(s[1..]));
      UnescapeUndoesEscape(s[1..]);
      assert [s[0]] + s[1..] == s;
    }
  }

  lemma UnescapeNothing()
    ensures Unescape("") == Some("")
  {}

  predicate Delimiter(c: char) {
    c == '&' || c == '=' || c == ';'
  }

  lemma {:induction false} EscapeHasNoDelimiter(s: string)
    requires IsBytes(s)
    ensures forall c :: c in Escape(s) ==> !Delimiter(c)
  {
    if s != "" {
      EscapeHasNoDelimiter(s[1..]);
      var n := s[0] as int;
      assert !Delimiter(HexDigit(n / 16)) && !Delimiter(HexDigit(n % 16));
      assert forall c :: c in EscapeByte(s[0]) ==> !Delimiter(c);
    }
  }

  // ---------------------------------------------------------------- whole forms

  /** The key-value pairs of a form, keys in the given order. */
  function Pairs(m: Values, keys: seq<string>): seq<(string, string)>
    requires forall k :: k in keys ==> k in m
  {
    if keys == [] then [] else PairsOf(keys[0], m[keys[0]]) + Pairs(m, keys[1..])
  }

  function PairsOf(k: string, vs: seq<string>): seq<(string, string)> {
    if vs == [] then [] else [(k, vs[0])] + PairsOf(k, vs[1..])
  }

  /** Text as bytes: any encoding that can be undone. */
  datatype Encoding = Encoding(bytes: string -> string, text: string -> string) {
    ghost predicate Valid() {
      forall s :: IsBytes(bytes(s)) && text(bytes(s)) == s
    }
  }

  ghost function EncodePair(e: Encoding, p: (string, string)): string
    requires e.Valid()
  {
    Escape(e.bytes(p.0)) + "=" + Escape(e.bytes(p.1))
  }

  ghost function EncodeEach(e: Encoding, ps: seq<(string, string)>): seq<string>
    requires e.Valid()
    decreases |ps|
  {
    if ps == [] then [] else [EncodePair(e, ps[0])] + EncodeEach(e, ps[1..])
  }

  /** The string that Values.Encode builds from its pairs. */
  ghost function EncodePairs(e: Encoding, ps: seq<(string, string)>): string
    requires e.Valid()
  {
    Join(EncodeEach(e, ps), '&')
  }

  function Add(m: Values, k: string, v: string): Values {
    m[k := (if k in m then m[k] else []) + [v]]
  }

  /** One piece between ampersands; a malformed or empty one is passed over. */
  function ParsePiece(e: Encoding, m: Values, piece: string): Values {
    if ';' in piece || piece == "" then m
    else
      var kv := Split(piece, '=');
      var k, v := Unescape(kv[0]), Unescape(Join(kv[1..], '='));
      if k.None? || v.None? then m else Add(m, e.text(k.value), e.text(v.value))
  }

  function ParsePieces(e: Encoding, m: Values, pieces: seq<string>): Values
    decreases |pieces|
  {
    if pieces == [] then m else ParsePieces(e, ParsePiece(e, m, pieces[0]), pieces[1..])
  }

  /** url.ParseQuery, errors ignored as URL.Query does. */
  function Parse(e: Encoding, s: string): Values {
    ParsePieces(e, map[], Split(s, '&'))
  }

  function Collect(m: Values, ps: seq<(string, string)>): Values
    decreases |ps|
  {
    if ps == [] then m else Collect(Add(m, ps[0].0, ps[0].1), ps[1..])
  }

  /** The digits of a percent sequence are read in either case. */
  lemma HexIsRead(c: char, n: int)
    ensures FromHex(c) == Some(n) <==> 0 <= n < 16 && (c == "0123456789ABCDEF"[n] || c == "0123456789abcdef"[n])
  {}

  /** A piece is cut at its first equals sign; one whose escapes are malformed is passed over. */
  lemma {:induction false} PieceIsCut(e: Encoding, m: Values, k: string, v: string)
    requires '=' !in k && ';' !in k && ';' !in v
    ensures ParsePiece(e, m, k + ['='] + v) ==
            if Unescape(k).None? || Unescape(v).None? then m else Add(m, e.text(Unescape(k).value), e.text(Unescape(v).value))
  {
    hide Unescape, Split, Join;
    SplitHead(k, v, '=');
    JoinUndoesSplit(v, '=');
    assert (k + ['='] + v)[|k|] == '=';
    assert ([k] + Split(v, '='))[1..] == Split(v, '=');
  }

  lemma PieceRoundTrip(e: Encoding, m: Values, p: (string, string))
    requires e.Valid()
    ensures ParsePiece(e, m, EncodePair(e, p)) == Add(m, p.0, p.1)
    ensures '&' !in EncodePair(e, p)
  {
    hide Unescape, Escape, IsBytes;
    var x, y := e.bytes(p.0), e.bytes(p.1);
    EscapeHasNoDelimiter(x);
    EscapeHasNoDelimiter(y);
    var k, v := Escape(x), Escape(y);
    assert EncodePair(e, p) == k + ['='] + v;
    SplitHead(k, v, '=');
    SplitWhole(v, '=');
    UnescapeUndoesEscape(x);
    UnescapeUndoesEscape(y);
    var kv := Split(EncodePair(e, p), '=');
    assert kv == [k, v] && kv[1..] == [v];
    assert EncodePair(e, p)[|k|] == '=';
  }

  lemma {:induction false} PiecesRoundTrip(e: Encoding, m: Values, ps: seq<(string, string)>)
    requires e.Valid()
    ensures ParsePieces(e, m, EncodeEach(e, ps)) == Collect(m, ps)
    ensures forall piece :: piece in EncodeEach(e, ps) ==> '&' !in piece
    decreases |ps|
  {
    hide ParsePiece, EncodePair, IsBytes;
    if ps != [] {
      PieceRoundTrip(e, m, ps[0]);
      PiecesRoundTrip(e, Add(m, ps[0].0, ps[0].1), ps[1..]);
      assert EncodeEach(e, ps)[1..] == EncodeEach(e, ps[1..]);
    }
  }

  lemma {:induction false} CollectMore(m: Values, a: seq<(string, string)>, b: seq<(string, string)>)
    ensures Collect(m, a + b) == Collect(Collect(m, a), b)
    decreases |a|
  {
    if a == [] {
      assert a + b == b;
    } else {
      assert (a + b)[1..] == a[1..] + b;
      CollectMore(Add(m, a[0].0, a[0].1), a[1..], b);
    }
  }

  lemma {:induction false} CollectOne(m: Values, k: string, vs: seq<string>)
    requires vs != []
    ensures Collect(m, PairsOf(k, vs)) == m[k := (if k in m then m[k] else []) + vs]
    decreases |vs|
  {
    var had := if k in m then m[k] else [];
    var m1, rest := Add(m, k, vs[0]), vs[1..];
    assert PairsOf(k, vs) != [] && PairsOf(k, vs)[0] == (k, vs[0]) && PairsOf(k, vs)[1..] == PairsOf(k, rest);
    assert Collect(m, PairsOf(k, vs)) == Collect(m1, PairsOf(k, rest));
    assert m1 == m[k := had + [vs[0]]];
    if rest != [] {
      CollectOne(m1, k, rest);
      hide Collect, PairsOf, Add;
      assert had + [vs[0]] + rest == had + vs;
      assert m1[k := had + vs] == m[k := had + vs];
    } else {
      assert PairsOf(k, rest) == [] && vs == [vs[0]];
    }
  }

  /** Every key once, in any order. */
  ghost predicate Enumerates(keys: seq<string>, m: Values) {
    (forall k :: k in keys <==> k in m) && forall i, j :: 0 <= i < j < |keys| ==> keys[i] != keys[j]
  }

  /** The part of a multimap under some of its keys. */
  function Only(m: Values, keys: seq<string>): Values
    requires forall k :: k in keys ==> k in m
  {
    map k | k in keys :: m[k]
  }

  lemma OnlyStep(m: Values, got: Values, keys: seq<string>)
    requires keys != [] && forall k :: k in keys ==> k in m
    ensures keys[0] in m && got[keys[0] := m[keys[0]]] + Only(m, keys[1..]) == got + Only(m, keys)
  {
    assert keys[0] in keys;
    var a, b := got[keys[0] := m[keys[0]]] + Only(m, keys[1..]), got + Only(m, keys);
    assert forall x :: x in keys <==> x == keys[0] || x in keys[1..];
    assert a.Keys == b.Keys;
  }

  lemma {:induction false} CollectAll(m: Values, got: Values, keys: seq<string>)
    requires forall k :: k in keys ==> k in m && m[k] != [] && k !in got
    requires forall i, j :: 0 <= i < j < |keys| ==> keys[i] != keys[j]
    ensures Collect(got, Pairs(m, keys)) == got + Only(m, keys)
    decreases |keys|
  {
    if keys == [] {
      assert got + Only(m, keys) == got;
    } else {
      hide Only, Collect;
      var k := keys[0];
      assert k in keys;
      CollectMore(got, PairsOf(k, m[k]), Pairs(m, keys[1..]));
      CollectOne(got, k, m[k]);
      assert [] + m[k] == m[k];
      CollectAll(m, got[k := m[k]], keys[1..]);
      OnlyStep(m, got, keys);
    }
  }

  /** Parsing undoes encoding: every multimap without empty lists comes back, whatever order its keys are written in. */
  lemma {:induction false} ParseUndoesEncode(e: Encoding, m: Values, keys: seq<string>)
    requires e.Valid() && Enumerates(keys, m) && forall k :: k in m ==> m[k] != []
    ensures Parse(e, EncodePairs(e, Pairs(m, keys))) == m
  {
    hide ParsePiece, EncodePair;
    var ps := Pairs(m, keys);
    PiecesRoundTrip(e, map[], ps);
    CollectAll(m, map[], keys);
    assert map[] + Only(m, keys) == m;
    if ps == [] {
      assert EncodePairs(e, ps) == "" && Split("", '&') == [""];
      EmptyPiece(e, map[]);
      assert [""][1..] == [];
      assert ParsePieces(e, map[], [""]) == map[];
    } else {
      SplitUndoesJoin(EncodeEach(e, ps), '&');
    }
  }

  lemma EmptyPiece(e: Encoding, m: Values)
    ensures ParsePiece(e, m, "") == m
  {}
}
