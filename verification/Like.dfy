/**
 LIKE patterns (PostgreSQL documentation, section 9.7.1, backslash as the escape character)
 and the escaping of filter values in admin-panel/internal/browser/sql_builder.go.
 */
module Like {
  import opened Strings

  /** Does the text match the pattern? A pattern that ends in a lone backslash matches nothing. */
  predicate Matches(p: string, t: string)
    decreases |p| + |t|
  {
    if p == "" then t == ""
    else if p[0] == '%' then Matches(p[1..], t) || (t != "" && Matches(p, t[1..]))
    else if p[0] == '\\' then |p| > 1 && t != "" && t[0] == p[1] && Matches(p[2..], t[1..])
    else t != "" && (p[0] == '_' || p[0] == t[0]) && Matches(p[1..], t[1..])
  }

  predicate Special(c: char) {
    c == '%' || c == '_' || c == '\\'
  }

  /** strings.NewReplacer over single characters replaces each character on its own. */
  function EscapeLike(s: string): string {
    if s == "" then ""
    else EscapeChar(s[0]) + EscapeLike(s[1..])
  }

  function EscapeChar(c: char): string {
    if Special(c) then ['\\', c] else [c]
  }

  lemma EscapedCharIsLiteral(c: char, p: string, t: string)
    ensures Matches(EscapeChar(c) + p, t) <==> t != "" && t[0] == c && Matches(p, t[1..])
  {
    var q := EscapeChar(c) + p;
    assert q[|EscapeChar(c)|..] == p;
  }

  lemma PrefixStep(s: string, t: string)
    requires s != "" && t != ""
    ensures HasPrefix(t, s) <==> t[0] == s[0] && HasPrefix(t[1..], s[1..])
  {
    if HasPrefix(t, s) { assert t[0..|s|][1..] == t[1..][0..|s| - 1]; }
    if t[0] == s[0] && HasPrefix(t[1..], s[1..]) { assert t[0..|s|] == [t[0]] + t[1..][0..|s| - 1]; }
  }

  /** An escaped value matches itself and nothing else, whatever comes after it in the pattern. */
  lemma {:induction false} EscapedIsLiteral(s: string, p: string, t: string)
    ensures Matches(EscapeLike(s) + p, t) <==> HasPrefix(t, s) && Matches(p, t[|s|..])
  {
    hide Matches;
    if s == "" {
      assert EscapeLike(s) + p == p && t[0..] == t;
    } else {
      assert EscapeLike(s) + p == EscapeChar(s[0]) + (EscapeLike(s[1..]) + p);
      EscapedCharIsLiteral(s[0], EscapeLike(s[1..]) + p, t);
      if t != "" {
        EscapedIsLiteral(s[1..], p, t[1..]);
        PrefixStep(s, t);
        assert |s| <= |t| ==> t[1..][|s[1..]|..] == t[|s|..];
      }
    }
  }

  /** A leading percent sign skips any number of characters. */
  lemma {:induction false} PercentSkips(p: string, t: string)
    ensures Matches("%" + p, t) <==> exists i :: 0 <= i <= |t| && Matches(p, t[i..])
    decreases |t|
  {
    assert ("%" + p)[1..] == p && t[0..] == t;
    if t != "" {
      PercentSkips(p, t[1..]);
      if exists i :: 0 <= i <= |t| && Matches(p, t[i..]) {
        var i :| 0 <= i <= |t| && Matches(p, t[i..]);
        if i > 0 { assert t[1..][i - 1..] == t[i..]; }
      }
      if exists i :: 0 <= i <= |t[1..]| && Matches(p, t[1..][i..]) {
        var i :| 0 <= i <= |t[1..]| && Matches(p, t[1..][i..]);
        assert t[1..][i..] == t[i + 1..];
      }
    }
  }

  lemma {:induction false} PercentMatchesAll(t: string)
    ensures Matches("%", t)
  {
    assert "%" == "%" + "";
    PercentSkips("", t);
    assert t[|t|..] == "";
  }

  /** `esc(s)%` matches exactly the texts that start with s. */
  lemma {:induction false} StartsWithPattern(s: string, t: string)
    ensures Matches(EscapeLike(s) + "%", t) <==> HasPrefix(t, s)
  {
    EscapedIsLiteral(s, "%", t);
    if HasPrefix(t, s) { PercentMatchesAll(t[|s|..]); }
  }

  /** `%esc(s)` matches exactly the texts that end with s. */
  lemma {:induction false} EndsWithPattern(s: string, t: string)
    ensures Matches("%" + EscapeLike(s), t) <==> HasSuffix(t, s)
  {
    PercentSkips(EscapeLike(s), t);
    assert EscapeLike(s) + "" == EscapeLike(s);
    forall i | 0 <= i <= |t| ensures Matches(EscapeLike(s), t[i..]) <==> t[i..] == s {
      EscapedIsLiteral(s, "", t[i..]);
      if HasPrefix(t[i..], s) && t[i..][|s|..] == "" { assert t[i..] == t[i..][0..|s|]; }
      if t[i..] == s { assert t[i..][0..|s|] == s; }
    }
    if HasSuffix(t, s) { assert t[|t| - |s|..] == s; }
  }

  /** `%esc(s)%` matches exactly the texts that contain s. */
  lemma {:induction false} ContainsPattern(s: string, t: string)
    ensures Matches("%" + EscapeLike(s) + "%", t) <==> Contains(t, s)
  {
    assert "%" + EscapeLike(s) + "%" == "%" + (EscapeLike(s) + "%");
    PercentSkips(EscapeLike(s) + "%", t);
    forall i | 0 <= i <= |t| ensures Matches(EscapeLike(s) + "%", t[i..]) <==> OccursAt(t, s, i) {
      StartsWithPattern(s, t[i..]);
      if |s| <= |t| - i { assert t[i..][0..|s|] == t[i..i + |s|]; }
    }
  }

  // ---------------------------------------------------------------- ILIKE

  function Fold(fold: char -> char, s: string): (r: string)
    ensures |r| == |s| && forall i :: 0 <= i < |s| ==> r[i] == fold(s[i])
  {
    if s == "" then "" else [fold(s[0])] + Fold(fold, s[1..])
  }

  /** Folding leaves the pattern characters alone and turns no other character into one. */
  ghost predicate FoldsLetters(fold: char -> char) {
    forall c :: (Special(c) ==> fold(c) == c) && (Special(fold(c)) ==> Special(c))
  }

  /** ILIKE: both sides are folded first. */
  predicate ILike(fold: char -> char, p: string, t: string) {
    Matches(Fold(fold, p), Fold(fold, t))
  }

  lemma {:induction false} FoldConcat(fold: char -> char, a: string, b: string)
    ensures Fold(fold, a + b) == Fold(fold, a) + Fold(fold, b)
  {
    if a == "" {
      assert a + b == b;
    } else {
      assert (a + b)[1..] == a[1..] + b;
      FoldConcat(fold, a[1..], b);
    }
  }

  lemma FoldHead(fold: char -> char, c: char, rest: string)
    ensures Fold(fold, [c] + rest) == [fold(c)] + Fold(fold, rest)
  {
    assert ([c] + rest)[1..] == rest;
  }

  lemma FoldEscapedChar(fold: char -> char, c: char, rest: string)
    requires FoldsLetters(fold)
    ensures Fold(fold, EscapeChar(c) + rest) == EscapeChar(fold(c)) + Fold(fold, rest)
  {
    FoldHead(fold, c, rest);
    if Special(c) {
      FoldHead(fold, '\\', [c] + rest);
      assert Special('\\') && EscapeChar(c) + rest == ['\\'] + ([c] + rest);
    } else {
      assert !Special(fold(c));
    }
  }

  lemma {:induction false} FoldEscape(fold: char -> char, s: string)
    requires FoldsLetters(fold)
    ensures Fold(fold, EscapeLike(s)) == EscapeLike(Fold(fold, s))
  {
    if s != "" {
      FoldEscape(fold, s[1..]);
      FoldEscapedChar(fold, s[0], EscapeLike(s[1..]));
      hide EscapeChar, FoldsLetters;
      assert Fold(fold, s)[1..] == Fold(fold, s[1..]);
    }
  }

  lemma FoldPercent(fold: char -> char)
    requires FoldsLetters(fold)
    ensures Fold(fold, "%") == "%"
  {
    assert Special('%') && "%"[1..] == "";
  }

  /** The three filter patterns under ILIKE, for every value, full of pattern characters or not. */
  lemma {:induction false} EscapedILike(fold: char -> char, v: string, t: string)
    requires FoldsLetters(fold)
    ensures ILike(fold, "%" + EscapeLike(v) + "%", t) <==> Contains(Fold(fold, t), Fold(fold, v))
    ensures ILike(fold, EscapeLike(v) + "%", t) <==> HasPrefix(Fold(fold, t), Fold(fold, v))
    ensures ILike(fold, "%" + EscapeLike(v), t) <==> HasSuffix(Fold(fold, t), Fold(fold, v))
  {
    FoldPercent(fold);
    FoldEscape(fold, v);
    FoldConcat(fold, "%" + EscapeLike(v), "%");
    FoldConcat(fold, "%", EscapeLike(v));
    FoldConcat(fold, EscapeLike(v), "%");
    ContainsPattern(Fold(fold, v), Fold(fold, t));
    StartsWithPattern(Fold(fold, v), Fold(fold, t));
    EndsWithPattern(Fold(fold, v), Fold(fold, t));
  }

  // ---------------------------------------------------------------- free search is not escaped

  predicate Plain(s: string) {
    forall i :: 0 <= i < |s| ==> !Special(s[i])
  }

  /** A text that an unescaped pattern matches although it does not contain it; `any` stands in for an underscore. */
  function Decoy(s: string, any: char): string {
    if s == "" then ""
    else if s[0] == '%' then Decoy(s[1..], any)
    else if s[0] == '_' then [any] + Decoy(s[1..], any)
    else if s[0] == '\\' then (if |s| == 1 then "%" else [s[1]] + Decoy(s[2..], any))
    else [s[0]] + Decoy(s[1..], any)
  }

  lemma {:induction false} DecoyMatches(s: string, any: char)
    requires !Special(any)
    ensures Matches(s + "%", Decoy(s, any))
    ensures |Decoy(s, any)| <= |s| && (!Plain(s) ==> Decoy(s, any) != s)
    decreases |s|
  {
    var p := s + "%";
    if s == "" {
      PercentMatchesAll("");
      assert p == "%";
    } else if s[0] == '\\' {
      assert p[1] == (if |s| == 1 then '%' else s[1]);
      if |s| == 1 {
        assert p[2..] == "" && "%"[1..] == "";
      } else {
        assert p[2..] == s[2..] + "%";
        DecoyMatches(s[2..], any);
        assert Decoy(s, any)[1..] == Decoy(s[2..], any);
      }
    } else {
      assert p[1..] == s[1..] + "%";
      DecoyMatches(s[1..], any);
      if s[0] != '%' {
        assert Decoy(s, any)[1..] == Decoy(s[1..], any);
        if !Plain(s) && s[0] != '_' { assert !Plain(s[1..]); }
        if s[0] == '_' { assert Decoy(s, any)[0] == any; }
      }
    }
  }

  /** Folding leaves the pattern characters where they are, so it folds the decoy. */
  lemma {:induction false} FoldDecoy(fold: char -> char, s: string, any: char)
    requires FoldsLetters(fold)
    ensures Fold(fold, Decoy(s, any)) == Decoy(Fold(fold, s), fold(any))
    decreases |s|
  {
    if s != "" {
      var f := Fold(fold, s);
      assert Special(s[0]) ==> f[0] == s[0];
      assert Special(f[0]) ==> Special(s[0]);
      assert f[1..] == Fold(fold, s[1..]);
      if s[0] == '\\' && |s| > 1 {
        assert Fold(fold, s[1..])[1..] == Fold(fold, s[2..]) by { assert s[1..][1..] == s[2..]; }
        assert f[1] == fold(s[1]) && f[2..] == f[1..][1..];
        FoldDecoy(fold, s[2..], any);
        FoldConcat(fold, [s[1]], Decoy(s[2..], any));
        assert Fold(fold, [s[1]]) == [fold(s[1])] by { assert [s[1]][1..] == ""; }
      } else if s[0] == '\\' {
        assert s == "\\" && f == "\\";
        FoldPercent(fold);
      } else {
        FoldDecoy(fold, s[1..], any);
        FoldHead(fold, s[0], Decoy(s[1..], any));
        FoldHead(fold, any, Decoy(s[1..], any));
      }
    }
  }

  lemma {:induction false} PlainIsItsOwnEscape(s: string)
    requires Plain(s)
    ensures EscapeLike(s) == s
  {
    if s != "" {
      assert Plain(s[1..]) by { forall i | 0 <= i < |s[1..]| ensures !Special(s[1..][i]) { assert s[1..][i] == s[i + 1]; } }
      PlainIsItsOwnEscape(s[1..]);
    }
  }

  lemma {:induction false} FoldPlain(fold: char -> char, s: string)
    requires FoldsLetters(fold)
    ensures |Fold(fold, s)| == |s| && (Plain(Fold(fold, s)) <==> Plain(s))
  {
    if s != "" {
      FoldPlain(fold, s[1..]);
      PlainCons(s[0], s[1..]);
      PlainCons(fold(s[0]), Fold(fold, s[1..]));
      assert s == [s[0]] + s[1..];
    }
  }

  lemma PlainCons(c: char, rest: string)
    ensures Plain([c] + rest) <==> !Special(c) && Plain(rest)
  {
    var s := [c] + rest;
    assert s[0] == c && forall i :: 0 <= i < |rest| ==> rest[i] == s[i + 1];
  }

  /** The search box finds exactly the texts that contain what was typed, case aside, if and only if no pattern character was typed. */
  lemma {:induction false} SearchIsLiteralIffPlain(fold: char -> char, s: string)
    requires FoldsLetters(fold)
    ensures Plain(s) <==> forall t: string :: ILike(fold, "%" + s + "%", t) <==> Contains(Fold(fold, t), Fold(fold, s))
  {
    if Plain(s) {
      PlainIsItsOwnEscape(s);
      forall t: string ensures ILike(fold, "%" + s + "%", t) <==> Contains(Fold(fold, t), Fold(fold, s)) { EscapedILike(fold, s, t); }
    } else {
      DecoyFools(fold, s);
    }
  }

  lemma {:induction false} DecoyFools(fold: char -> char, s: string)
    requires FoldsLetters(fold) && !Plain(s)
    ensures var t := Decoy(s, 'a'); ILike(fold, "%" + s + "%", t) && !Contains(Fold(fold, t), Fold(fold, s))
  {
    hide Matches, Decoy, Plain;
    var f, t := Fold(fold, s), Decoy(s, 'a');
    assert !Special('a') && !Special(fold('a'));
    FoldPlain(fold, s);
    FoldDecoy(fold, s, 'a');
    DecoyMatches(f, fold('a'));
    FoldPercent(fold);
    FoldConcat(fold, "%" + s, "%");
    FoldConcat(fold, "%", s);
    var d := Fold(fold, t);
    assert "%" + f + "%" == "%" + (f + "%") && d[0..] == d;
    PercentSkips(f + "%", d);
    assert !Contains(d, f);
  }
}
