/** Where one string occurs in another, as String.indexOf and strings.Contains see it. */
module Strings {
  import opened Common

  predicate OccursAt(t: string, s: string, i: int) {
    0 <= i <= |t| - |s| && t[i..i + |s|] == s
  }

  predicate Contains(t: string, s: string) {
    exists i :: 0 <= i <= |t| && OccursAt(t, s, i)
  }

  predicate HasPrefix(t: string, s: string) {
    OccursAt(t, s, 0)
  }

  predicate HasSuffix(t: string, s: string) {
    OccursAt(t, s, |t| - |s|)
  }

  /** What containing means. */
  lemma {:induction false} ContainsIff(t: string, s: string)
    ensures Contains(t, s) <==> exists front, back :: t == front + s + back
  {
    if Contains(t, s) {
      var i :| 0 <= i <= |t| && OccursAt(t, s, i);
      assert t == t[..i] + s + t[i + |s|..];
    }
    forall front, back | t == front + s + back ensures Contains(t, s) { assert OccursAt(t, s, |front|); }
  }

  /** What starting with and ending with mean. */
  lemma {:induction false} AffixIff(t: string, s: string)
    ensures HasPrefix(t, s) <==> s <= t
    ensures HasSuffix(t, s) <==> exists front :: t == front + s
  {
    if HasSuffix(t, s) { assert t == t[..|t| - |s|] + s; }
    forall front | t == front + s ensures HasSuffix(t, s) { assert t[|front|..|front| + |s|] == s; }
  }

  /** White space as unicode.IsSpace has it. */
  predicate IsSpace(c: char) {
    '\t' <= c <= '\r' || c == ' ' || c == '\U{0085}' || c == '\U{00A0}' || c == '\U{1680}' ||
    '\U{2000}' <= c <= '\U{200A}' || c == '\U{2028}' || c == '\U{2029}' || c == '\U{202F}' ||
    c == '\U{205F}' || c == '\U{3000}'
  }

  /** White space as `\s` of a JavaScript regular expression has it, and as trimEnd removes it. */
  predicate JsSpace(c: char) {
    '\t' <= c <= '\r' || c == ' ' || c == '\U{00A0}' || c == '\U{1680}' || '\U{2000}' <= c <= '\U{200A}' ||
    c == '\U{2028}' || c == '\U{2029}' || c == '\U{202F}' || c == '\U{205F}' || c == '\U{3000}' || c == '\U{FEFF}'
  }

  /** Go and JavaScript agree on white space but for two characters. */
  lemma SpacesDiffer(c: char)
    ensures IsSpace(c) != JsSpace(c) <==> c == '\U{0085}' || c == '\U{FEFF}'
  {}

  function TrimLeft(s: string): string {
    if s != "" && IsSpace(s[0]) then TrimLeft(s[1..]) else s
  }

  function TrimRight(s: string): string {
    if s != "" && IsSpace(s[|s| - 1]) then TrimRight(s[..|s| - 1]) else s
  }

  /** strings.TrimSpace */
  function TrimSpace(s: string): string {
    TrimRight(TrimLeft(s))
  }

  /** strings.Split on a one-character separator. */
  function Split(s: string, sep: char): (parts: seq<string>)
    ensures |parts| > 0
  {
    if s == "" then [""]
    else if s[0] == sep then [""] + Split(s[1..], sep)
    else
      var rest := Split(s[1..], sep);
      [[s[0]] + rest[0]] + rest[1..]
  }

  /** strings.Join with a one-character separator. */
  function Join(parts: seq<string>, sep: char): string {
    if parts == [] then ""
    else if |parts| == 1 then parts[0]
    else parts[0] + [sep] + Join(parts[1..], sep)
  }

  lemma {:induction false} SplitHead(a: string, rest: string, sep: char)
    requires sep !in a
    ensures Split(a + [sep] + rest, sep) == [a] + Split(rest, sep)
  {
    var s := a + [sep] + rest;
    if a == "" {
      assert s[1..] == rest;
    } else {
      assert s[1..] == a[1..] + [sep] + rest;
      SplitHead(a[1..], rest, sep);
      assert a == [a[0]] + a[1..];
    }
  }

  lemma {:induction false} SplitWhole(a: string, sep: char)
    requires sep !in a
    ensures Split(a, sep) == [a]
  {
    if a != "" {
      SplitWhole(a[1..], sep);
      assert a == [a[0]] + a[1..];
    }
  }

  /** Splitting undoes joining when no part holds the separator. */
  lemma {:induction false} SplitUndoesJoin(parts: seq<string>, sep: char)
    requires parts != [] && forall p :: p in parts ==> sep !in p
    ensures Split(Join(parts, sep), sep) == parts
  {
    assert parts[0] in parts;
    if |parts| == 1 {
      SplitWhole(parts[0], sep);
    } else {
      SplitHead(parts[0], Join(parts[1..], sep), sep);
      SplitUndoesJoin(parts[1..], sep);
      assert parts == [parts[0]] + parts[1..];
    }
  }

  lemma {:induction false} SplitConcat(a: string, b: string, sep: char)
    ensures Split(a + [sep] + b, sep) == Split(a, sep) + Split(b, sep)
  {
    var s := a + [sep] + b;
    if a == "" {
      assert s[1..] == b;
    } else {
      assert s[1..] == a[1..] + [sep] + b;
      SplitConcat(a[1..], b, sep);
    }
  }

  /** Joining undoes splitting. */
  lemma {:induction false} JoinUndoesSplit(s: string, sep: char)
    ensures Join(Split(s, sep), sep) == s
  {
    if s != "" {
      var rest := Split(s[1..], sep);
      JoinUndoesSplit(s[1..], sep);
      assert s == [s[0]] + s[1..];
      if s[0] == sep {
        assert ([""] + rest)[1..] == rest;
        assert "" + [sep] + s[1..] == s;
      } else {
        assert ([[s[0]] + rest[0]] + rest[1..])[1..] == rest[1..];
        assert |rest| > 1 ==> [s[0]] + rest[0] + [sep] + Join(rest[1..], sep) == [s[0]] + (rest[0] + [sep] + Join(rest[1..], sep));
      }
    }
  }

  lemma {:induction false} SplitPartsLackSeparator(s: string, sep: char)
    ensures forall p :: p in Split(s, sep) ==> sep !in p && forall c :: c in p ==> c in s
  {
    if s != "" { SplitPartsLackSeparator(s[1..], sep); }
  }

  // ---------------------------------------------------------------- trimming

  /** Without white space at either end. */
  predicate Trimmed(s: string) {
    s == "" || (!IsSpace(s[0]) && !IsSpace(s[|s| - 1]))
  }

  lemma {:induction false} TrimLeftShape(s: string)
    ensures var r := TrimLeft(s);
            (r == "" || !IsSpace(r[0])) && |r| <= |s| && r == s[|s| - |r|..]
  {
    if s != "" && IsSpace(s[0]) { TrimLeftShape(s[1..]); }
  }

  lemma {:induction false} TrimRightShape(s: string)
    ensures var r := TrimRight(s);
            (r == "" || !IsSpace(r[|r| - 1])) && |r| <= |s| && r == s[..|r|]
  {
    if s != "" && IsSpace(s[|s| - 1]) { TrimRightShape(s[..|s| - 1]); }
  }

  lemma TrimSpaceShape(s: string)
    ensures Trimmed(TrimSpace(s)) && forall c :: c in TrimSpace(s) ==> c in s
  {
    TrimLeftShape(s);
    TrimRightShape(TrimLeft(s));
    assert forall c :: c in TrimLeft(s) ==> c in s;
  }

  /** Trimming takes white space off both ends and nothing else. */
  lemma {:induction false} TrimSpaceIs(s: string) returns (front: string, back: string)
    ensures s == front + TrimSpace(s) + back && Trimmed(TrimSpace(s))
    ensures forall c :: c in front || c in back ==> IsSpace(c)
  {
    front := TrimsLeft(s);
    back := TrimsRight(TrimLeft(s));
    assert s == front + (TrimSpace(s) + back);
    TrimSpaceShape(s);
  }

  lemma {:induction false} TrimsLeft(s: string) returns (front: string)
    ensures s == front + TrimLeft(s) && forall c :: c in front ==> IsSpace(c)
  {
    if s != "" && IsSpace(s[0]) {
      var rest := TrimsLeft(s[1..]);
      front := [s[0]] + rest;
      assert s == [s[0]] + s[1..];
    } else {
      front := "";
    }
  }

  lemma {:induction false} TrimsRight(s: string) returns (back: string)
    ensures s == TrimRight(s) + back && forall c :: c in back ==> IsSpace(c)
  {
    if s != "" && IsSpace(s[|s| - 1]) {
      var rest := TrimsRight(s[..|s| - 1]);
      back := rest + [s[|s| - 1]];
      assert s == s[..|s| - 1] + [s[|s| - 1]];
    } else {
      back := "";
    }
  }

  predicate AllSpaces(s: string) {
    forall c :: c in s ==> IsSpace(c)
  }

  /** Whatever white space stands around a trimmed text, trimming leaves the text. */
  lemma {:induction false} TrimOnly(front: string, text: string, back: string)
    requires AllSpaces(front) && AllSpaces(back) && Trimmed(text)
    ensures TrimSpace(front + text + back) == text
  {
    assert front + text + back == front + (text + back);
    TrimLeftSkips(front, text + back);
    if text == "" {
      assert text + back == back + "";
      TrimLeftSkips(back, "");
    } else {
      assert (text + back)[0] == text[0];
      TrimRightSkips(text, back);
    }
  }

  lemma {:induction false} TrimLeftSkips(front: string, rest: string)
    requires AllSpaces(front)
    ensures TrimLeft(front + rest) == TrimLeft(rest)
  {
    if front == "" {
      assert front + rest == rest;
    } else {
      assert front[0] in front && (front + rest)[1..] == front[1..] + rest;
      TrimLeftSkips(front[1..], rest);
    }
  }

  lemma {:induction false} TrimRightSkips(text: string, back: string)
    requires AllSpaces(back)
    ensures TrimRight(text + back) == TrimRight(text)
  {
    if back == "" {
      assert text + back == text;
    } else {
      var n := |back| - 1;
      assert back[n] in back && (text + back)[|text + back| - 1] == back[n] && (text + back)[..|text + back| - 1] == text + back[..n];
      TrimRightSkips(text, back[..n]);
    }
  }

  lemma TrimmedStays(s: string)
    requires Trimmed(s)
    ensures TrimSpace(s) == s
  {}
}
