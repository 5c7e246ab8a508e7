/**
 Merging an ORM add-on's module overrides into go.mod (cli/src/baseline.ts). The add map is a list of
 pairs with distinct keys, in the order in which JavaScript walks it.
 */
module Gomod {
  import opened Common
  import opened Strings

  /** What a dot does not match. */
  predicate Terminator(c: char) {
    c == '\n' || c == '\r' || c == '\U{2028}' || c == '\U{2029}'
  }

  predicate Blanks(s: string) {
    forall i :: 0 <= i < |s| ==> JsSpace(s[i])
  }

  /** A non-empty string without white space: a module path or a version. */
  predicate IsWord(s: string) {
    s != "" && forall i :: 0 <= i < |s| ==> !JsSpace(s[i])
  }

  function SkipBlanks(s: string): (r: string)
    ensures r == "" || !JsSpace(r[0])
  {
    if s != "" && JsSpace(s[0]) then SkipBlanks(s[1..]) else s
  }

  function FirstWord(s: string): (r: string)
    ensures |r| <= |s|
  {
    if s == "" || JsSpace(s[0]) then "" else [s[0]] + FirstWord(s[1..])
  }

  function TrimEnd(s: string): string {
    if s != "" && JsSpace(s[|s| - 1]) then TrimEnd(s[..|s| - 1]) else s
  }

  // ---------------------------------------------------------------- lines of a require block

  datatype Entry = Entry(mod: string, ver: string, trailing: string)

  /** The two words of a line and what follows them, unless that holds a line terminator other than the one lines are split at. */
  function ParseEntry(line: string): Option<Entry> {
    var a := SkipBlanks(line);
    var mod := FirstWord(a);
    var b := SkipBlanks(a[|mod|..]);
    var ver := FirstWord(b);
    var trailing := b[|ver|..];
    if mod == "" || ver == "" || exists i :: 0 <= i < |trailing| && Terminator(trailing[i]) then None
    else Some(Entry(mod, ver, trailing))
  }

  function EntryLine(e: Entry): string {
    "\t" + e.mod + " " + e.ver + e.trailing
  }

  /** `require (`, with any white space. */
  predicate Opens(line: string) {
    OpensHere(SkipBlanks(line))
  }

  predicate OpensHere(a: string) {
    "require" <= a && var b := SkipBlanks(a[7..]); b != "" && b[0] == '(' && SkipBlanks(b[1..]) == ""
  }

  predicate Closes(line: string) {
    var a := SkipBlanks(line);
    a != "" && a[0] == ')' && SkipBlanks(a[1..]) == ""
  }

  /** What may follow a version on its line. */
  predicate IsTrailing(s: string) {
    (s == "" || JsSpace(s[0])) && forall i :: 0 <= i < |s| ==> !Terminator(s[i])
  }

  lemma {:induction false} FirstWordShape(s: string)
    ensures var w := FirstWord(s); w == s[..|w|] && (w != "" ==> IsWord(w)) && (|w| < |s| ==> JsSpace(s[|w|]))
  {
    if s != "" && !JsSpace(s[0]) { FirstWordShape(s[1..]); }
  }

  lemma {:induction false} FirstWordIs(w: string, rest: string)
    requires IsWord(w) && (rest == "" || JsSpace(rest[0]))
    ensures FirstWord(w + rest) == w && SkipBlanks(w + rest) == w + rest && (w + rest)[|w|..] == rest
  {
    assert (w + rest)[1..] == w[1..] + rest;
    if |w| > 1 { FirstWordIs(w[1..], rest); } else { assert w[1..] == ""; assert w[1..] + rest == rest; }
  }

  lemma {:induction false} SkipIs(s: string, rest: string)
    requires Blanks(s)
    ensures SkipBlanks(s + rest) == SkipBlanks(rest)
  {
    if s == "" { assert s + rest == rest; }
    else { assert (s + rest)[1..] == s[1..] + rest; SkipIs(s[1..], rest); }
  }

  /** An entry read from a line has proper words. */
  lemma ParsedShape(line: string)
    requires ParseEntry(line).Some?
    ensures var e := ParseEntry(line).value; IsWord(e.mod) && IsWord(e.ver) && IsTrailing(e.trailing)
  {
    var a := SkipBlanks(line);
    FirstWordShape(a);
    var b := SkipBlanks(a[|FirstWord(a)|..]);
    FirstWordShape(b);
  }

  lemma WordIsNotEmpty(w: string)
    requires IsWord(w)
    ensures w != ""
  {}

  lemma OneBlank()
    ensures Blanks("\t") && Blanks(" ") && JsSpace(' ')
  {}

  /** Reading a printed entry gives it back. */
  lemma ParsePrinted(e: Entry)
    requires IsWord(e.mod) && IsWord(e.ver) && IsTrailing(e.trailing)
    ensures ParseEntry(EntryLine(e)) == Some(e)
  {
    hide IsWord, Blanks, JsSpace, Terminator, FirstWord, SkipBlanks;
    WordIsNotEmpty(e.mod);
    WordIsNotEmpty(e.ver);
    var tail := e.ver + e.trailing;
    var a := e.mod + (" " + tail);
    OneBlank();
    assert (" " + tail)[0] == ' ';
    FirstWordIs(e.ver, e.trailing);
    FirstWordIs(e.mod, " " + tail);
    SkipIs("\t", a);
    SkipIs(" ", tail);
    assert EntryLine(e) == "\t" + a;
    assert SkipBlanks(EntryLine(e)) == a;
    assert FirstWord(a) == e.mod && a[|e.mod|..] == " " + tail;
  }

  // ---------------------------------------------------------------- what the lines are, without the scanners

  lemma {:induction false} SkipSplits(s: string) returns (lead: string)
    ensures s == lead + SkipBlanks(s) && Blanks(lead)
  {
    lead := "";
    if s != "" && JsSpace(s[0]) {
      var rest := SkipSplits(s[1..]);
      lead := [s[0]] + rest;
      assert s == [s[0]] + s[1..];
    }
  }

  /** White space, a module, white space, a version and what follows it. */
  predicate EntryParts(line: string, lead: string, gap: string, e: Entry) {
    line == lead + e.mod + gap + e.ver + e.trailing && Blanks(lead) && Blanks(gap) && gap != "" &&
    IsWord(e.mod) && IsWord(e.ver) && IsTrailing(e.trailing)
  }

  lemma PartsAreRead(line: string, lead: string, gap: string, e: Entry)
    requires EntryParts(line, lead, gap, e)
    ensures ParseEntry(line) == Some(e)
  {
    hide IsWord, JsSpace, Terminator, FirstWord, SkipBlanks;
    WordIsNotEmpty(e.mod);
    WordIsNotEmpty(e.ver);
    var tail := e.ver + e.trailing;
    var rest := gap + tail;
    assert rest[0] == gap[0];
    FirstWordIs(e.ver, e.trailing);
    FirstWordIs(e.mod, rest);
    SkipIs(lead, e.mod + rest);
    SkipIs(gap, tail);
    assert line == lead + (e.mod + rest);
  }

  /** What follows a word does not go on with a word. */
  lemma AfterWord(w: string, rest: string)
    requires w == FirstWord(w + rest)
    ensures FirstWord(rest) == ""
  {
    FirstWordShape(w + rest);
    if rest != "" { assert (w + rest)[|w|] == rest[0]; }
  }

  lemma {:induction false} ReadHasParts(line: string) returns (lead: string, gap: string)
    requires ParseEntry(line).Some?
    ensures EntryParts(line, lead, gap, ParseEntry(line).value)
  {
    hide IsWord, IsTrailing, Blanks, JsSpace, FirstWord, SkipBlanks;
    ParsedShape(line);
    lead := SkipSplits(line);
    var a, e := SkipBlanks(line), ParseEntry(line).value;
    FirstWordShape(a);
    gap := SkipSplits(a[|e.mod|..]);
    var b := SkipBlanks(a[|e.mod|..]);
    FirstWordShape(b);
    assert a == e.mod + a[|e.mod|..] && b == e.ver + e.trailing;
    assert line == lead + e.mod + gap + e.ver + e.trailing;
    AfterWord(e.mod, a[|e.mod|..]);
  }

  /** A line is an entry exactly if it has those parts. */
  lemma {:induction false} ParseEntryIff(line: string, e: Entry)
    ensures ParseEntry(line) == Some(e) <==> exists lead: string, gap: string :: EntryParts(line, lead, gap, e)
  {
    hide ParseEntry, EntryParts;
    if ParseEntry(line) == Some(e) { var lead, gap := ReadHasParts(line); }
    forall lead: string, gap: string | EntryParts(line, lead, gap, e) ensures ParseEntry(line) == Some(e) {
      PartsAreRead(line, lead, gap, e);
    }
  }

  /** There are four line terminators. */
  lemma TrailingIff(s: string)
    ensures IsTrailing(s) <==>
            (s == "" || JsSpace(s[0])) && '\n' !in s && '\r' !in s && '\U{2028}' !in s && '\U{2029}' !in s
  {
    hide JsSpace;
    forall i | 0 <= i < |s| && Terminator(s[i]) ensures !IsTrailing(s) && s[i] in s {}
  }

  /** One mark, with white space on both sides. */
  predicate Marked(line: string, lead: string, mark: string, trail: string) {
    line == lead + mark + trail && Blanks(lead) && Blanks(trail)
  }

  lemma {:induction false} AllBlank(s: string)
    ensures SkipBlanks(s) == "" <==> Blanks(s)
  {
    if s != "" {
      assert s == [s[0]] + s[1..];
      AllBlank(s[1..]);
    }
  }

  /** A block is closed by a parenthesis alone. */
  lemma {:induction false} ClosesIff(line: string)
    ensures Closes(line) <==> exists lead: string, trail: string :: Marked(line, lead, ")", trail)
  {
    if Closes(line) {
      var lead := SkipSplits(line);
      var a := SkipBlanks(line);
      AllBlank(a[1..]);
      assert Marked(line, lead, ")", a[1..]);
    }
    forall lead: string, trail: string | Marked(line, lead, ")", trail) ensures Closes(line) {
      assert line == lead + (")" + trail);
      SkipIs(lead, ")" + trail);
      AllBlank(trail);
    }
  }

  lemma {:induction false} OpeningHasParts(line: string) returns (lead: string, gap: string, trail: string)
    requires Opens(line)
    ensures Blanks(gap) && Marked(line, lead, "require" + gap + "(", trail)
  {
    hide JsSpace, SkipBlanks;
    lead := SkipSplits(line);
    var a := SkipBlanks(line);
    gap := SkipSplits(a[7..]);
    var b := SkipBlanks(a[7..]);
    trail := b[1..];
    AllBlank(trail);
    assert a == a[..7] + a[7..] && b == [b[0]] + trail;
  }

  lemma {:induction false} PartsOpen(line: string, lead: string, gap: string, trail: string)
    requires Blanks(gap) && Marked(line, lead, "require" + gap + "(", trail)
    ensures Opens(line)
  {
    var b := "(" + trail;
    var a := "require" + (gap + b);
    assert line == lead + a;
    SkipIs(lead, a);
    SkipIs(gap, b);
    assert a[7..] == gap + b && b[1..] == trail;
    AllBlank(trail);
  }

  /** A block is opened by the word and a parenthesis, with white space wherever. */
  lemma {:induction false} OpensIff(line: string)
    ensures Opens(line) <==>
            exists lead: string, gap: string, trail: string :: Blanks(gap) && Marked(line, lead, "require" + gap + "(", trail)
  {
    hide Opens, Blanks, Marked;
    if Opens(line) { var lead, gap, trail := OpeningHasParts(line); }
    forall lead: string, gap: string, trail: string | Blanks(gap) && Marked(line, lead, "require" + gap + "(", trail) ensures Opens(line) {
      PartsOpen(line, lead, gap, trail);
    }
  }

  /** trimEnd removes white space, and all that there is. */
  lemma {:induction false} TrimEndIs(s: string, t: string, blanks: string)
    requires s == t + blanks && Blanks(blanks) && (t == "" || !JsSpace(t[|t| - 1]))
    ensures TrimEnd(s) == t
  {
    if blanks == "" {
      assert s == t;
    } else {
      assert s[..|s| - 1] == t + blanks[..|blanks| - 1];
      TrimEndIs(s[..|s| - 1], t, blanks[..|blanks| - 1]);
    }
  }

  // ---------------------------------------------------------------- the program

  type Overrides = seq<(string, string)>

  predicate DistinctKeys(add: Overrides) {
    add == [] || (Lookup(add[1..], add[0].0).None? && DistinctKeys(add[1..]))
  }

  /** Module paths and versions that can stand in a go.mod line. */
  predicate Words(add: Overrides) {
    add == [] || (IsWord(add[0].0) && IsWord(add[0].1) && Words(add[1..]))
  }

  function Lookup(add: Overrides, m: string): Option<string> {
    if add == [] then None else if add[0].0 == m then Some(add[0].1) else Lookup(add[1..], m)
  }

  /** Map.delete */
  function Without(add: Overrides, m: string): Overrides {
    if add == [] then []
    else if add[0].0 == m then Without(add[1..], m)
    else [add[0]] + Without(add[1..], m)
  }

  function AddLines(add: Overrides): (lines: seq<string>)
    ensures |lines| == |add|
  {
    if add == [] then [] else [EntryLine(Entry(add[0].0, add[0].1, ""))] + AddLines(add[1..])
  }

  /** What one line of the block becomes, and the overrides that are left. */
  function Step(line: string, add: Overrides, remove: set<string>): (seq<string>, Overrides) {
    match ParseEntry(line)
    case None => ([line], add)
    case Some(e) =>
      if e.mod in remove then ([], add)
      else if Lookup(add, e.mod).Some? then ([EntryLine(e.(ver := Lookup(add, e.mod).value))], Without(add, e.mod))
      else ([line], add)
  }

  /** The lines of the block that stay, some with a new version. */
  function Kept(block: seq<string>, add: Overrides, remove: set<string>): seq<string> {
    if block == [] then []
    else
      var (line, left) := Step(block[0], add, remove);
      line + Kept(block[1..], left, remove)
  }

  /** The overrides for which no line was found. */
  function Left(block: seq<string>, add: Overrides, remove: set<string>): Overrides {
    if block == [] then add else Left(block[1..], Step(block[0], add, remove).1, remove)
  }

  /** The block after the merge. */
  function Rewrite(block: seq<string>, add: Overrides, remove: set<string>): seq<string> {
    Kept(block, add, remove) + AddLines(Left(block, add, remove))
  }

  function NextOpen(lines: seq<string>, i: nat): (r: nat)
    requires i <= |lines|
    ensures i <= r <= |lines| && (r < |lines| ==> Opens(lines[r]))
    ensures forall k :: i <= k < r ==> !Opens(lines[k])
    decreases |lines| - i
  {
    if i == |lines| || Opens(lines[i]) then i else NextOpen(lines, i + 1)
  }

  function NextClose(lines: seq<string>, i: nat): (r: nat)
    requires i <= |lines|
    ensures i <= r <= |lines| && (r < |lines| ==> Closes(lines[r]))
    ensures forall k :: i <= k < r ==> !Closes(lines[k])
    decreases |lines| - i
  {
    if i == |lines| || Closes(lines[i]) then i else NextClose(lines, i + 1)
  }

  /** The first line that opens a block, and the first one after it that closes one. */
  ghost predicate IsBlock(lines: seq<string>, s: nat, e: nat) {
    s < e < |lines| && Opens(lines[s]) && Closes(lines[e]) &&
    (forall k :: 0 <= k < s ==> !Opens(lines[k])) && (forall k :: s < k < e ==> !Closes(lines[k]))
  }

  function FindBlock(lines: seq<string>): Option<(nat, nat)> {
    var s := NextOpen(lines, 0);
    if s == |lines| then None
    else
      var e := NextClose(lines, s + 1);
      if e == |lines| then None else Some((s, e))
  }

  method FindRequireBlock(lines: seq<string>) returns (block: Option<(nat, nat)>)
    ensures block.Some? ==> IsBlock(lines, block.value.0, block.value.1)
    ensures block.None? ==> forall s :: 0 <= s < |lines| && Opens(lines[s]) ==>
              exists s' :: 0 <= s' <= s && Opens(lines[s']) && forall e :: s' < e < |lines| ==> !Closes(lines[e])
  {
    hide Opens, Closes;
    for i := 0 to |lines|
      invariant forall k :: 0 <= k < i ==> !Opens(lines[k])
    {
      if Opens(lines[i]) {
        for j := i + 1 to |lines|
          invariant forall k :: i < k < j ==> !Closes(lines[k])
        {
          if Closes(lines[j]) { return Some((i, j)); }
        }
        return None;
      }
    }
    return None;
  }

  lemma FindBlockIs(lines: seq<string>)
    ensures forall s: nat, e: nat :: IsBlock(lines, s, e) <==> FindBlock(lines) == Some((s, e))
  {
    hide Opens, Closes;
  }

  const NEW_BLOCK: seq<string> := ["", "require ("]

  /** The file after the merge. */
  function After(text: string, add: Overrides, remove: set<string>): string {
    var lines := Split(text, '\n');
    match FindBlock(lines)
    case None =>
      if add == [] then text
      else TrimEnd(text) + "\n" + Join(NEW_BLOCK + AddLines(add) + [")"], '\n') + "\n"
    case Some((s, e)) =>
      Join(lines[..s + 1] + Rewrite(lines[s + 1..e], add, remove) + lines[e..], '\n')
  }

  /** go.mod, which need not exist. */
  class GoMod {
    var text: Option<string>

    constructor (text: Option<string>)
      ensures this.text == text
    {
      this.text := text;
    }

    /** applyGomodOverrides */
    method ApplyOverrides(add: Overrides, remove: set<string>)
      requires DistinctKeys(add)
      modifies this
      ensures text == match old(text) case None => None case Some(t) => Some(After(t, add, remove))
    {
      hide Opens, Closes, ParseEntry, Lookup, Without, EntryLine, TrimEnd, Split, Join, AddLines, FindBlock, Kept, Left;
      if text.None? { return; }
      var lines := Split(text.value, '\n');
      var block := FindRequireBlock(lines);
      NoBlockFound(lines, block);
      if block.None? {
        if add == [] { return; }
        text := Some(TrimEnd(text.value) + "\n" + Join(NEW_BLOCK + AddLines(add) + [")"], '\n') + "\n");
        return;
      }
      var (start, end) := block.value;
      ghost var inside := lines[start + 1..end];
      ReadAll(inside, add, remove);
      var kept, entries := [], add;
      for i := start + 1 to end
        invariant Kept(inside, add, remove) == kept + Kept(inside[i - start - 1..], entries, remove)
        invariant Left(inside, add, remove) == Left(inside[i - start - 1..], entries, remove)
      {
        var line := lines[i];
        ReadOne(inside, i - start - 1, entries, remove);
        match ParseEntry(line) {
          case None =>
            kept := kept + [line];
          case Some(e) =>
            if e.mod in remove { continue; }
            if Lookup(entries, e.mod).Some? {
              kept := kept + [EntryLine(e.(ver := Lookup(entries, e.mod).value))];
              entries := Without(entries, e.mod);
              continue;
            }
            kept := kept + [line];
        }
      }
      ReadAll(inside, entries, remove);
      assert kept + [] == kept;
      kept := kept + AddLines(entries);
      text := Some(Join(lines[..start + 1] + kept + lines[end..], '\n'));
    }
  }

  lemma ReadOne(block: seq<string>, i: nat, add: Overrides, remove: set<string>)
    requires i < |block|
    ensures Kept(block[i..], add, remove) == Step(block[i], add, remove).0 + Kept(block[i + 1..], Step(block[i], add, remove).1, remove)
    ensures Left(block[i..], add, remove) == Left(block[i + 1..], Step(block[i], add, remove).1, remove)
  {
    assert block[i..][1..] == block[i + 1..];
    hide Step;
  }

  lemma ReadAll(block: seq<string>, add: Overrides, remove: set<string>)
    ensures block[0..] == block && Kept(block[|block|..], add, remove) == [] && Left(block[|block|..], add, remove) == add
  {}

  lemma NoBlockFound(lines: seq<string>, block: Option<(nat, nat)>)
    requires block.Some? ==> IsBlock(lines, block.value.0, block.value.1)
    requires block.None? ==> forall s :: 0 <= s < |lines| && Opens(lines[s]) ==>
               exists s' :: 0 <= s' <= s && Opens(lines[s']) && forall e :: s' < e < |lines| ==> !Closes(lines[e])
    ensures block == FindBlock(lines)
  {
    hide Opens, Closes;
    FindBlockIs(lines);
  }

  // ---------------------------------------------------------------- reading a block back

  /** The versions that the lines give for a module, in order. */
  function Versions(lines: seq<string>, m: string): seq<string> {
    if lines == [] then [] else VersionsOf(lines[0], m) + Versions(lines[1..], m)
  }

  function VersionsOf(line: string, m: string): seq<string> {
    match ParseEntry(line)
    case None => []
    case Some(e) => if e.mod == m then [e.ver] else []
  }

  /** What the merge ought to do with the versions of one module. */
  function Merged(versions: seq<string>, over: Option<string>, removed: bool): seq<string> {
    var kept := if removed then [] else versions;
    match over
    case None => kept
    case Some(v) => if kept == [] then [v] else [v] + kept[1..]
  }

  lemma {:induction false} VersionsConcat(a: seq<string>, b: seq<string>, m: string)
    ensures Versions(a + b, m) == Versions(a, m) + Versions(b, m)
  {
    hide VersionsOf;
    if a == [] { assert a + b == b; } else { assert (a + b)[1..] == a[1..] + b; VersionsConcat(a[1..], b, m); }
  }

  lemma {:induction false} LookupWord(add: Overrides, m: string)
    requires Words(add) && Lookup(add, m).Some?
    ensures IsWord(m) && IsWord(Lookup(add, m).value)
  {
    hide IsWord;
    if add[0].0 != m { LookupWord(add[1..], m); }
  }

  lemma {:induction false} WithoutSays(add: Overrides, k: string, m: string)
    ensures Lookup(Without(add, k), m) == if m == k then None else Lookup(add, m)
  {
    if add != [] { WithoutSays(add[1..], k, m); }
  }

  lemma {:induction false} WithoutKeeps(add: Overrides, k: string)
    requires DistinctKeys(add) && Words(add)
    ensures DistinctKeys(Without(add, k)) && Words(Without(add, k))
  {
    hide IsWord;
    if add != [] {
      WithoutKeeps(add[1..], k);
      WithoutSays(add[1..], k, add[0].0);
      var rest := Without(add[1..], k);
      assert ([add[0]] + rest)[1..] == rest;
    }
  }

  lemma {:induction false} AddVersions(add: Overrides, m: string)
    requires DistinctKeys(add) && Words(add)
    ensures Versions(AddLines(add), m) == match Lookup(add, m) case None => [] case Some(v) => [v]
  {
    if add != [] {
      hide IsWord, ParseEntry, EntryLine;
      ParsePrinted(Entry(add[0].0, add[0].1, ""));
      AddVersions(add[1..], m);
    }
  }

  lemma StepKeeps(line: string, add: Overrides, remove: set<string>)
    requires DistinctKeys(add) && Words(add)
    ensures DistinctKeys(Step(line, add, remove).1) && Words(Step(line, add, remove).1)
  {
    hide ParseEntry, EntryLine, DistinctKeys, Words, Lookup;
    if ParseEntry(line).Some? { WithoutKeeps(add, ParseEntry(line).value.mod); }
  }

  /** One line: what stays of its version, and what stays of the override. */
  lemma StepVersions(line: string, add: Overrides, remove: set<string>, m: string)
    requires Words(add)
    ensures var (out, left) := Step(line, add, remove);
            if m in remove || VersionsOf(line, m) == [] then Lookup(left, m) == Lookup(add, m) && Versions(out, m) == []
            else Lookup(left, m) == None && Versions(out, m) == Merged(VersionsOf(line, m), Lookup(add, m), false)
  {
    hide ParseEntry, EntryLine, Words, Lookup, Without;
    if ParseEntry(line).Some? {
      var e := ParseEntry(line).value;
      WithoutSays(add, e.mod, m);
      if Lookup(add, e.mod).Some? {
        LookupWord(add, e.mod);
        ParsedShape(line);
        ParsePrinted(e.(ver := Lookup(add, e.mod).value));
      }
    }
  }

  lemma MergedConcat(head: seq<string>, rest: seq<string>, over: Option<string>, removed: bool)
    ensures removed || head == [] ==> Merged(head + rest, over, removed) == [] + Merged(rest, over, removed)
    ensures !removed && head != [] ==> Merged(head + rest, over, false) == Merged(head, over, false) + Merged(rest, None, false)
  {
    if head == [] { assert head + rest == rest; } else { assert (head + rest)[1..] == head[1..] + rest; }
  }

  lemma RewriteFirst(block: seq<string>, add: Overrides, remove: set<string>)
    requires block != []
    ensures var (out, left) := Step(block[0], add, remove);
            Rewrite(block, add, remove) == out + Rewrite(block[1..], left, remove)
  {
    hide Step, AddLines;
  }

  /** The merge does to the versions of every module what it ought to, however often the module is listed. */
  lemma {:induction false} VersionsAreMerged(block: seq<string>, add: Overrides, remove: set<string>, m: string)
    requires DistinctKeys(add) && Words(add)
    ensures Versions(Rewrite(block, add, remove), m) == Merged(Versions(block, m), Lookup(add, m), m in remove)
  {
    if block == [] {
      hide DistinctKeys, Words, Lookup, AddLines;
      AddVersions(add, m);
      assert Rewrite(block, add, remove) == AddLines(add);
    } else {
      hide DistinctKeys, Words, Lookup, Step, AddLines, VersionsOf, Merged;
      var (out, left) := Step(block[0], add, remove);
      var rest := Rewrite(block[1..], left, remove);
      RewriteFirst(block, add, remove);
      hide Rewrite;
      StepVersions(block[0], add, remove, m);
      StepKeeps(block[0], add, remove);
      VersionsAreMerged(block[1..], left, remove, m);
      VersionsConcat(out, rest, m);
      assert Versions(block, m) == VersionsOf(block[0], m) + Versions(block[1..], m);
      hide Versions;
      MergedConcat(VersionsOf(block[0], m), Versions(block[1..], m), Lookup(add, m), m in remove);
    }
  }

  /** Module to version, as the first line that lists a module has it. */
  function FirstListed(lines: seq<string>): map<string, string> {
    if lines == [] then map[]
    else
      match ParseEntry(lines[0])
      case None => FirstListed(lines[1..])
      case Some(e) => FirstListed(lines[1..])[e.mod := e.ver]
  }

  function AsMap(add: Overrides): map<string, string> {
    if add == [] then map[] else AsMap(add[1..])[add[0].0 := add[0].1]
  }

  lemma {:induction false} FirstListedIs(lines: seq<string>, m: string)
    ensures if Versions(lines, m) == [] then m !in FirstListed(lines)
            else m in FirstListed(lines) && FirstListed(lines)[m] == Versions(lines, m)[0]
  {
    if lines != [] {
      hide ParseEntry;
      FirstListedIs(lines[1..], m);
    }
  }

  lemma {:induction false} LookupIsMap(add: Overrides, m: string)
    ensures Lookup(add, m) == if m in AsMap(add) then Some(AsMap(add)[m]) else None
  {
    if add != [] { LookupIsMap(add[1..], m); }
  }

  /** The main result: the block reads back as the old one without the removed modules, overridden by the added ones. */
  lemma {:induction false} MergeIsMapUpdate(block: seq<string>, add: Overrides, remove: set<string>)
    requires DistinctKeys(add) && Words(add)
    ensures FirstListed(Rewrite(block, add, remove)) == (FirstListed(block) - remove) + AsMap(add)
  {
    hide FirstListed, Rewrite, Versions, AsMap, DistinctKeys, Words;
    var new_, old_ := FirstListed(Rewrite(block, add, remove)), (FirstListed(block) - remove) + AsMap(add);
    forall m ensures (m in new_ <==> m in old_) && (m in new_ ==> new_[m] == old_[m]) {
      VersionsAreMerged(block, add, remove, m);
      FirstListedIs(Rewrite(block, add, remove), m);
      FirstListedIs(block, m);
      LookupIsMap(add, m);
    }
  }

  // ---------------------------------------------------------------- a reader that takes two words whatever follows

  /** The first two words of a line. A line that the merge passes over, ending in a carriage return say, may have them too. */
  function TwoWords(line: string): Option<(string, string)> {
    var a := SkipBlanks(line);
    var mod := FirstWord(a);
    var ver := FirstWord(SkipBlanks(a[|mod|..]));
    if mod == "" || ver == "" then None else Some((mod, ver))
  }

  /** A line that lists a module with this version, and whether the merge sees that it does. */
  datatype Listing = Listing(ver: string, seen: bool)

  function Listings(lines: seq<string>, m: string): seq<Listing> {
    if lines == [] then [] else ListingsOf(lines[0], m) + Listings(lines[1..], m)
  }

  function ListingsOf(line: string, m: string): seq<Listing> {
    match TwoWords(line)
    case None => []
    case Some((mod, ver)) => if mod == m then [Listing(ver, ParseEntry(line).Some?)] else []
  }

  /** What the merge does with the listings of one module: those it does not see stay. */
  function MergedListings(ls: seq<Listing>, over: Option<string>, removed: bool): seq<Listing> {
    if ls == [] then (match over case None => [] case Some(v) => [Listing(v, true)])
    else if !ls[0].seen then [ls[0]] + MergedListings(ls[1..], over, removed)
    else if removed then MergedListings(ls[1..], over, removed)
    else [Listing(if over.Some? then over.value else ls[0].ver, true)] + MergedListings(ls[1..], None, false)
  }

  lemma ParsedIsRead(line: string)
    requires ParseEntry(line).Some?
    ensures TwoWords(line) == Some((ParseEntry(line).value.mod, ParseEntry(line).value.ver))
  {}

  lemma {:induction false} ListingsConcat(a: seq<string>, b: seq<string>, m: string)
    ensures Listings(a + b, m) == Listings(a, m) + Listings(b, m)
  {
    hide ListingsOf;
    if a == [] { assert a + b == b; } else { assert (a + b)[1..] == a[1..] + b; ListingsConcat(a[1..], b, m); }
  }

  lemma {:induction false} AddListings(add: Overrides, m: string)
    requires DistinctKeys(add) && Words(add)
    ensures Listings(AddLines(add), m) == match Lookup(add, m) case None => [] case Some(v) => [Listing(v, true)]
  {
    if add != [] {
      hide IsWord, ParseEntry, EntryLine, TwoWords;
      ParsePrinted(Entry(add[0].0, add[0].1, ""));
      ParsedIsRead(EntryLine(Entry(add[0].0, add[0].1, "")));
      AddListings(add[1..], m);
    }
  }

  /** One line: what it lists afterwards, and what stays of the override. */
  lemma StepListings(line: string, add: Overrides, remove: set<string>, m: string)
    requires Words(add)
    ensures var (out, left), ls := Step(line, add, remove), ListingsOf(line, m);
            if ls == [] || !ls[0].seen then Lookup(left, m) == Lookup(add, m) && Listings(out, m) == ls
            else if m in remove then Lookup(left, m) == Lookup(add, m) && Listings(out, m) == []
            else Lookup(left, m) == None && Listings(out, m) == [Listing(if Lookup(add, m).Some? then Lookup(add, m).value else ls[0].ver, true)]
  {
    hide ParseEntry, EntryLine, Words, Lookup, Without, TwoWords;
    if ParseEntry(line).Some? {
      var e := ParseEntry(line).value;
      WithoutSays(add, e.mod, m);
      ParsedIsRead(line);
      if Lookup(add, e.mod).Some? {
        var e' := e.(ver := Lookup(add, e.mod).value);
        LookupWord(add, e.mod);
        ParsedShape(line);
        ParsePrinted(e');
        ParsedIsRead(EntryLine(e'));
      }
    }
  }

  /** The listings of every module after the merge, those that it does not see included. */
  lemma {:induction false} ListingsAreMerged(block: seq<string>, add: Overrides, remove: set<string>, m: string)
    requires DistinctKeys(add) && Words(add)
    ensures Listings(Rewrite(block, add, remove), m) == MergedListings(Listings(block, m), Lookup(add, m), m in remove)
  {
    if block == [] {
      hide DistinctKeys, Words, Lookup, AddLines;
      AddListings(add, m);
      assert Rewrite(block, add, remove) == AddLines(add);
    } else {
      hide DistinctKeys, Words, Lookup, Step, AddLines;
      var (out, left) := Step(block[0], add, remove);
      var rest := Rewrite(block[1..], left, remove);
      RewriteFirst(block, add, remove);
      hide Rewrite;
      StepListings(block[0], add, remove, m);
      StepKeeps(block[0], add, remove);
      ListingsAreMerged(block[1..], left, remove, m);
      ListingsConcat(out, rest, m);
      var head, tail := ListingsOf(block[0], m), Listings(block[1..], m);
      assert Listings(block, m) == head + tail;
      hide ListingsOf, Listings;
      if head == [] { assert head + tail == tail; } else { assert (head + tail)[1..] == tail; }
    }
  }

  /** Module to version, as this reader has it from the first line that lists a module. */
  function FirstRead(lines: seq<string>): map<string, string> {
    if lines == [] then map[]
    else
      match TwoWords(lines[0])
      case None => FirstRead(lines[1..])
      case Some((mod, ver)) => FirstRead(lines[1..])[mod := ver]
  }

  lemma {:induction false} FirstReadIs(lines: seq<string>, m: string)
    ensures if Listings(lines, m) == [] then m !in FirstRead(lines)
            else m in FirstRead(lines) && FirstRead(lines)[m] == Listings(lines, m)[0].ver
  {
    if lines != [] {
      hide TwoWords, ParseEntry;
      FirstReadIs(lines[1..], m);
    }
  }

  /** The first of the listings that stay where they are. */
  function FirstStaying(ls: seq<Listing>, removed: bool): Option<Listing> {
    if ls == [] then None else if removed && ls[0].seen then FirstStaying(ls[1..], removed) else Some(ls[0])
  }

  /**
   No listing that the merge does not see is in its way: none of a removed module, and none before the line that
   has the version of an added one, unless it has that version already.
   */
  predicate NoneInTheWay(ls: seq<Listing>, over: Option<string>, removed: bool) {
    var first := FirstStaying(ls, removed);
    if over.Some? then first.None? || first.value.seen || first.value.ver == over.value
    else removed ==> first.None?
  }

  lemma {:induction false} FirstMerged(ls: seq<Listing>, over: Option<string>, removed: bool)
    ensures var merged, want := MergedListings(ls, over, removed), if over.Some? then over else if removed || ls == [] then None else Some(ls[0].ver);
            (if merged == [] then None else Some(merged[0].ver)) == want <==> NoneInTheWay(ls, over, removed)
  {
    if ls != [] && ls[0].seen && removed { FirstMerged(ls[1..], over, removed); }
  }

  /** For a reader that takes two words whatever follows the merge is the map update if and only if no listing that it does not see is in the way. */
  lemma {:induction false} ReadsAsMapUpdateIff(block: seq<string>, add: Overrides, remove: set<string>)
    requires DistinctKeys(add) && Words(add)
    ensures FirstRead(Rewrite(block, add, remove)) == (FirstRead(block) - remove) + AsMap(add) <==>
            forall m :: NoneInTheWay(Listings(block, m), Lookup(add, m), m in remove)
  {
    hide FirstRead, Rewrite, Listings, MergedListings, NoneInTheWay, AsMap, DistinctKeys, Words, Lookup;
    var new_, old_ := FirstRead(Rewrite(block, add, remove)), (FirstRead(block) - remove) + AsMap(add);
    forall m ensures ((m in new_ <==> m in old_) && (m in new_ ==> new_[m] == old_[m])) <==>
                     NoneInTheWay(Listings(block, m), Lookup(add, m), m in remove)
    {
      ListingsAreMerged(block, add, remove, m);
      FirstReadIs(Rewrite(block, add, remove), m);
      FirstReadIs(block, m);
      LookupIsMap(add, m);
      FirstMerged(Listings(block, m), Lookup(add, m), m in remove);
    }
  }

  lemma CarriageReturn(m: string, v: string)
    requires IsWord(m) && IsWord(v)
    ensures var line := "\t" + m + " " + v + "\r"; ParseEntry(line).None? && TwoWords(line) == Some((m, v))
  {
    hide IsWord, JsSpace, Blanks, SkipBlanks, FirstWord;
    var tail := v + "\r";
    var rest := " " + tail;
    OneBlank();
    ReturnIsBlank();
    WordIsNotEmpty(m);
    WordIsNotEmpty(v);
    assert rest[0] == ' ' && "\r"[0] == '\r';
    FirstWordIs(v, "\r");
    FirstWordIs(m, rest);
    SkipIs("\t", m + rest);
    SkipIs(" ", tail);
    assert "\t" + m + " " + v + "\r" == "\t" + (m + rest);
    assert Terminator("\r"[0]);
  }

  lemma ReturnIsBlank()
    ensures JsSpace('\r')
  {}

  /** A module on a line that ends in a carriage return is not removed. */
  lemma {:induction false} CarriageReturnHidesLine(m: string, v: string)
    requires IsWord(m) && IsWord(v)
    ensures var line := "\t" + m + " " + v + "\r";
            Rewrite([line], [], {m}) == [line] && TwoWords(line) == Some((m, v))
  {
    hide ParseEntry, TwoWords, IsWord;
    var line := "\t" + m + " " + v + "\r";
    CarriageReturn(m, v);
    assert [line][1..] == [];
    assert Kept([line], [], {m}) == [line] + Kept([line][1..], [], {m});
    assert Left([line], [], {m}) == Left([line][1..], [], {m});
  }

  // ---------------------------------------------------------------- which lines stay

  /** The lines of the block that do not list a removed module. */
  function Survivors(block: seq<string>, remove: set<string>): seq<string> {
    if block == [] then []
    else (if ParseEntry(block[0]).Some? && ParseEntry(block[0]).value.mod in remove then [] else [block[0]]) +
         Survivors(block[1..], remove)
  }

  /** The same line, or the same module and trailing text with the version that the overrides have. */
  predicate Reversioned(line: string, line': string, add: Overrides) {
    line' == line ||
    (ParseEntry(line).Some? &&
     var e := ParseEntry(line).value;
     Lookup(add, e.mod).Some? && line' == EntryLine(e.(ver := Lookup(add, e.mod).value)))
  }

  /** Order and trailing comments of what is not removed are left alone; only versions change. */
  lemma {:induction false} LinesKept(block: seq<string>, add: Overrides, remove: set<string>)
    ensures var kept, survivors := Kept(block, add, remove), Survivors(block, remove);
            |kept| == |survivors| &&
            forall i :: 0 <= i < |kept| ==> Reversioned(survivors[i], kept[i], add)
  {
    if block != [] {
      var (out, left) := Step(block[0], add, remove);
      var kept, survivors := Kept(block[1..], left, remove), Survivors(block[1..], remove);
      LinesKept(block[1..], left, remove);
      hide ParseEntry, EntryLine, Kept, Survivors;
      forall i | 0 <= i < |kept| ensures Reversioned(survivors[i], kept[i], add) {
        if kept[i] != survivors[i] && ParseEntry(block[0]).Some? {
          WithoutSays(add, ParseEntry(block[0]).value.mod, ParseEntry(survivors[i]).value.mod);
        }
      }
    }
  }

  /** The overrides, in order, whose module no surviving line lists. */
  function Unlisted(add: Overrides, block: seq<string>, remove: set<string>): Overrides {
    if add == [] then []
    else (if add[0].0 in remove || Versions(block, add[0].0) == [] then [add[0]] else []) + Unlisted(add[1..], block, remove)
  }

  lemma {:induction false} WithoutNothing(add: Overrides, k: string)
    requires Lookup(add, k).None?
    ensures Without(add, k) == add
  {
    if add != [] { WithoutNothing(add[1..], k); }
  }

  lemma {:induction false} UnlistedUntouched(add: Overrides, block: seq<string>, remove: set<string>)
    requires block != [] && (ParseEntry(block[0]).None? || ParseEntry(block[0]).value.mod in remove)
    ensures Unlisted(add, block[1..], remove) == Unlisted(add, block, remove)
  {
    if add != [] {
      hide ParseEntry;
      UnlistedUntouched(add[1..], block, remove);
    }
  }

  lemma {:induction false} UnlistedTouched(add: Overrides, block: seq<string>, remove: set<string>)
    requires block != [] && ParseEntry(block[0]).Some? && ParseEntry(block[0]).value.mod !in remove
    ensures Unlisted(Without(add, ParseEntry(block[0]).value.mod), block[1..], remove) == Unlisted(add, block, remove)
  {
    if add != [] {
      hide ParseEntry;
      UnlistedTouched(add[1..], block, remove);
      if add[0].0 != ParseEntry(block[0]).value.mod {
        assert Versions(block, add[0].0) == Versions(block[1..], add[0].0);
      }
    }
  }

  lemma UnlistedStep(add: Overrides, block: seq<string>, remove: set<string>)
    requires block != []
    ensures Unlisted(Step(block[0], add, remove).1, block[1..], remove) == Unlisted(add, block, remove)
  {
    hide ParseEntry, EntryLine, Unlisted;
    if ParseEntry(block[0]).None? || ParseEntry(block[0]).value.mod in remove {
      UnlistedUntouched(add, block, remove);
    } else {
      UnlistedTouched(add, block, remove);
      if Lookup(add, ParseEntry(block[0]).value.mod).None? { WithoutNothing(add, ParseEntry(block[0]).value.mod); }
    }
  }

  /** The lines appended are those of the overrides that no surviving line lists. */
  lemma {:induction false} LeftIsUnlisted(block: seq<string>, add: Overrides, remove: set<string>)
    ensures Left(block, add, remove) == Unlisted(add, block, remove)
  {
    hide Step;
    if block == [] {
      NothingListed(add, remove);
    } else {
      LeftIsUnlisted(block[1..], Step(block[0], add, remove).1, remove);
      UnlistedStep(add, block, remove);
    }
  }

  lemma {:induction false} NothingListed(add: Overrides, remove: set<string>)
    ensures Unlisted(add, [], remove) == add
  {
    if add != [] { NothingListed(add[1..], remove); }
  }

  // ---------------------------------------------------------------- the second run

  /** The overrides that are not removed as well, and those that are. */
  function Outside(add: Overrides, remove: set<string>): Overrides {
    if add == [] then []
    else if add[0].0 in remove then Outside(add[1..], remove)
    else [add[0]] + Outside(add[1..], remove)
  }

  function Inside(add: Overrides, remove: set<string>): Overrides {
    if add == [] then []
    else if add[0].0 in remove then [add[0]] + Inside(add[1..], remove)
    else Inside(add[1..], remove)
  }

  /** A line that stayed stays as it is, and uses up the same override. */
  lemma StepAgain(line: string, add: Overrides, remove: set<string>)
    requires Words(add)
    ensures var (out, left) := Step(line, add, remove);
            if out == [] then left == add else |out| == 1 && Step(out[0], add, remove) == (out, left)
  {
    hide ParseEntry, EntryLine, Words, Lookup, Without;
    if ParseEntry(line).Some? {
      var e := ParseEntry(line).value;
      if Lookup(add, e.mod).Some? {
        LookupWord(add, e.mod);
        ParsedShape(line);
        ParsePrinted(e.(ver := Lookup(add, e.mod).value));
      }
    }
  }

  lemma ReadFirst(line: string, rest: seq<string>, add: Overrides, remove: set<string>)
    ensures var (out, left) := Step(line, add, remove);
            Kept([line] + rest, add, remove) == out + Kept(rest, left, remove) &&
            Left([line] + rest, add, remove) == Left(rest, left, remove)
  {
    hide Step;
    assert ([line] + rest)[1..] == rest;
  }

  lemma {:induction false} LeftConcat(a: seq<string>, b: seq<string>, add: Overrides, remove: set<string>)
    ensures Left(a + b, add, remove) == Left(b, Left(a, add, remove), remove)
  {
    hide Step;
    if a == [] {
      assert a + b == b;
    } else {
      assert (a + b)[1..] == a[1..] + b;
      LeftConcat(a[1..], b, Step(a[0], add, remove).1, remove);
    }
  }

  lemma {:induction false} KeptConcat(a: seq<string>, b: seq<string>, add: Overrides, remove: set<string>)
    ensures Kept(a + b, add, remove) == Kept(a, add, remove) + Kept(b, Left(a, add, remove), remove)
  {
    hide Step;
    if a == [] {
      assert a + b == b;
    } else {
      var (out, left) := Step(a[0], add, remove);
      assert (a + b)[1..] == a[1..] + b;
      KeptConcat(a[1..], b, left, remove);
    }
  }

  /** Running over the lines that stayed changes none of them and leaves the same overrides over. */
  lemma {:induction false} KeptAgain(block: seq<string>, add: Overrides, remove: set<string>)
    requires DistinctKeys(add) && Words(add)
    ensures Kept(Kept(block, add, remove), add, remove) == Kept(block, add, remove)
    ensures Left(Kept(block, add, remove), add, remove) == Left(block, add, remove)
  {
    if block != [] {
      var (out, left) := Step(block[0], add, remove);
      var rest := Kept(block[1..], left, remove);
      StepAgain(block[0], add, remove);
      StepKeeps(block[0], add, remove);
      KeptAgain(block[1..], left, remove);
      ReadFirst(block[0], block[1..], add, remove);
      assert [block[0]] + block[1..] == block;
      if out == [] {
        hide *;
        assert out + rest == rest;
      } else {
        ReadFirst(out[0], rest, add, remove);
        hide *;
        assert out == [out[0]];
      }
    }
  }

  lemma {:induction false} WithoutMiddle(done: Overrides, todo: Overrides)
    requires todo != [] && DistinctKeys(done + todo)
    ensures Lookup(done + todo, todo[0].0) == Some(todo[0].1) && Without(done + todo, todo[0].0) == done + todo[1..]
    ensures DistinctKeys(done + todo[1..])
  {
    if done == [] {
      assert done + todo == todo && done + todo[1..] == todo[1..];
      WithoutNothing(todo[1..], todo[0].0);
    } else {
      assert (done + todo)[1..] == done[1..] + todo && (done + todo[1..])[1..] == done[1..] + todo[1..];
      WithoutMiddle(done[1..], todo);
      WithoutSays(done[1..] + todo, todo[0].0, done[0].0);
    }
  }

  lemma AddStep(head: (string, string), add: Overrides, remove: set<string>)
    requires IsWord(head.0) && IsWord(head.1)
    requires Lookup(add, head.0) == Some(head.1)
    ensures var line := EntryLine(Entry(head.0, head.1, ""));
            Step(line, add, remove) == if head.0 in remove then ([], add) else ([line], Without(add, head.0))
  {
    hide ParseEntry, EntryLine, Lookup, Without;
    ParsePrinted(Entry(head.0, head.1, ""));
  }

  lemma AppendedStep(done: Overrides, todo: Overrides, remove: set<string>)
    requires todo != [] && DistinctKeys(done + todo) && Words(todo)
    ensures var line, rest := AddLines(todo)[0], AddLines(todo[1..]);
            if todo[0].0 in remove then
              Kept(AddLines(todo), done + todo, remove) == Kept(rest, done + todo, remove) &&
              Left(AddLines(todo), done + todo, remove) == Left(rest, done + todo, remove)
            else
              Kept(AddLines(todo), done + todo, remove) == [line] + Kept(rest, done + todo[1..], remove) &&
              Left(AddLines(todo), done + todo, remove) == Left(rest, done + todo[1..], remove)
  {
    WithoutMiddle(done, todo);
    AddStep(todo[0], done + todo, remove);
    ReadFirst(EntryLine(Entry(todo[0].0, todo[0].1, "")), AddLines(todo[1..]), done + todo, remove);
    hide Kept, Left, Step, DistinctKeys, Lookup, Without, EntryLine, IsWord;
  }

  /** Running over appended lines: those of removed modules go and are left over again. */
  lemma {:induction false} AppendedAgain(done: Overrides, todo: Overrides, remove: set<string>)
    requires DistinctKeys(done + todo) && Words(todo)
    ensures Kept(AddLines(todo), done + todo, remove) == AddLines(Outside(todo, remove))
    ensures Left(AddLines(todo), done + todo, remove) == done + Inside(todo, remove)
    decreases |todo|
  {
    hide Kept, Left, DistinctKeys, EntryLine, IsWord;
    if todo == [] {
      ReadAll([], done, remove);
      assert done + todo == done && done + Inside(todo, remove) == done;
    } else {
      AppendedStep(done, todo, remove);
      if todo[0].0 in remove {
        assert done + todo == (done + [todo[0]]) + todo[1..];
        AppendedAgain(done + [todo[0]], todo[1..], remove);
        assert done + [todo[0]] + Inside(todo[1..], remove) == done + ([todo[0]] + Inside(todo[1..], remove));
      } else {
        WithoutMiddle(done, todo);
        AppendedAgain(done, todo[1..], remove);
        assert ([todo[0]] + Outside(todo[1..], remove))[1..] == Outside(todo[1..], remove);
      }
    }
  }

  lemma {:induction false} LeftKeeps(block: seq<string>, add: Overrides, remove: set<string>)
    requires DistinctKeys(add) && Words(add)
    ensures DistinctKeys(Left(block, add, remove)) && Words(Left(block, add, remove))
  {
    if block != [] {
      hide Step, DistinctKeys, Words;
      StepKeeps(block[0], add, remove);
      LeftKeeps(block[1..], Step(block[0], add, remove).1, remove);
    }
  }

  /** What a second run makes of the block. */
  lemma {:induction false} SecondRun(block: seq<string>, add: Overrides, remove: set<string>)
    requires DistinctKeys(add) && Words(add)
    ensures var left := Left(block, add, remove);
            Rewrite(Rewrite(block, add, remove), add, remove) ==
            Kept(block, add, remove) + (AddLines(Outside(left, remove)) + AddLines(Inside(left, remove)))
  {
    hide Kept, Left, DistinctKeys, Words, AddLines;
    var left := Left(block, add, remove);
    LeftKeeps(block, add, remove);
    KeptConcat(Kept(block, add, remove), AddLines(left), add, remove);
    LeftConcat(Kept(block, add, remove), AddLines(left), add, remove);
    KeptAgain(block, add, remove);
    assert [] + left == left;
    AppendedAgain([], left, remove);
    assert [] + Inside(left, remove) == Inside(left, remove);
  }

  /** No override that is removed as well is appended before one that is not. */
  ghost predicate RemovedComeLast(left: Overrides, remove: set<string>) {
    forall i, j :: 0 <= i < j < |left| && left[i].0 in remove ==> left[j].0 in remove
  }

  lemma {:induction false} AddLinesConcat(a: Overrides, b: Overrides)
    ensures AddLines(a + b) == AddLines(a) + AddLines(b)
  {
    if a == [] { assert a + b == b; } else { assert (a + b)[1..] == a[1..] + b; AddLinesConcat(a[1..], b); }
  }

  lemma {:induction false} AddLinesDetermine(a: Overrides, b: Overrides)
    requires Words(a) && Words(b) && AddLines(a) == AddLines(b)
    ensures a == b
  {
    if a != [] {
      hide ParseEntry, EntryLine, IsWord;
      assert |a| == |b|;
      ParsePrinted(Entry(a[0].0, a[0].1, ""));
      ParsePrinted(Entry(b[0].0, b[0].1, ""));
      assert AddLines(a)[1..] == AddLines(a[1..]) && AddLines(b)[1..] == AddLines(b[1..]);
      AddLinesDetermine(a[1..], b[1..]);
      assert a == [a[0]] + a[1..] && b == [b[0]] + b[1..];
    }
  }

  lemma {:induction false} AllInside(left: Overrides, remove: set<string>)
    requires forall j :: 0 <= j < |left| ==> left[j].0 in remove
    ensures Outside(left, remove) == [] && Inside(left, remove) == left
  {
    if left != [] { AllInside(left[1..], remove); }
  }

  lemma {:induction false} SplitIsPermutation(left: Overrides, remove: set<string>)
    ensures forall i :: 0 <= i < |Inside(left, remove)| ==> Inside(left, remove)[i].0 in remove
    ensures forall i :: 0 <= i < |Outside(left, remove)| ==> Outside(left, remove)[i].0 !in remove
    ensures |Outside(left, remove)| + |Inside(left, remove)| == |left|
  {
    if left != [] { SplitIsPermutation(left[1..], remove); }
  }

  lemma {:induction false} SplitKeepsWords(left: Overrides, remove: set<string>)
    requires Words(left)
    ensures Words(Outside(left, remove)) && Words(Inside(left, remove))
  {
    hide IsWord;
    if left != [] {
      SplitKeepsWords(left[1..], remove);
      assert ([left[0]] + Inside(left[1..], remove))[1..] == Inside(left[1..], remove);
      assert ([left[0]] + Outside(left[1..], remove))[1..] == Outside(left[1..], remove);
    }
  }

  lemma {:induction false} WordsConcat(a: Overrides, b: Overrides)
    ensures Words(a + b) <==> Words(a) && Words(b)
  {
    hide IsWord;
    if a == [] { assert a + b == b; } else { assert (a + b)[1..] == a[1..] + b; WordsConcat(a[1..], b); }
  }

  lemma {:induction false} OrderedIffUnmoved(left: Overrides, remove: set<string>)
    ensures Outside(left, remove) + Inside(left, remove) == left <==> RemovedComeLast(left, remove)
  {
    var o, n := Outside(left, remove), Inside(left, remove);
    SplitIsPermutation(left, remove);
    hide Outside, Inside;
    if o + n == left {
      assert forall i :: 0 <= i < |left| && left[i].0 in remove ==> i >= |o|;
      assert forall j :: |o| <= j < |left| ==> left[j] == n[j - |o|];
    }
    if RemovedComeLast(left, remove) { OrderedIsUnmoved(left, remove); }
  }

  lemma {:induction false} OrderedIsUnmoved(left: Overrides, remove: set<string>)
    requires RemovedComeLast(left, remove)
    ensures Outside(left, remove) + Inside(left, remove) == left
  {
    if left != [] {
      LaterInOrder(left, remove);
      hide RemovedComeLast;
      if left[0].0 in remove {
        AllInside(left, remove);
        hide Outside, Inside;
      } else {
        OrderedIsUnmoved(left[1..], remove);
        Grow(left, Outside(left[1..], remove), Inside(left[1..], remove));
      }
    }
  }

  lemma Grow(left: Overrides, o: Overrides, n: Overrides)
    requires left != [] && o + n == left[1..]
    ensures [left[0]] + o + n == left
  {
    assert [left[0]] + o + n == [left[0]] + (o + n);
  }

  lemma LaterInOrder(left: Overrides, remove: set<string>)
    requires left != [] && RemovedComeLast(left, remove)
    ensures RemovedComeLast(left[1..], remove)
    ensures left[0].0 in remove ==> forall j :: 0 <= j < |left| ==> left[j].0 in remove
  {
    assert forall j :: 0 <= j < |left| - 1 ==> left[1..][j] == left[j + 1];
  }

  /**
   A second run leaves the block as it is, byte for byte, if and only if among the overrides without a
   surviving line none that is also removed comes before one that is not.
   */
  lemma {:induction false} SecondRunChangesNothingIff(block: seq<string>, add: Overrides, remove: set<string>)
    requires DistinctKeys(add) && Words(add)
    ensures Rewrite(Rewrite(block, add, remove), add, remove) == Rewrite(block, add, remove) <==>
            RemovedComeLast(Unlisted(add, block, remove), remove)
  {
    hide Kept, DistinctKeys, Words, AddLines, Outside, Inside, RemovedComeLast, Unlisted, Left;
    var left := Left(block, add, remove);
    var moved := Outside(left, remove) + Inside(left, remove);
    LeftIsUnlisted(block, add, remove);
    LeftKeeps(block, add, remove);
    SecondRun(block, add, remove);
    AddLinesConcat(Outside(left, remove), Inside(left, remove));
    OrderedIffUnmoved(left, remove);
    SplitIsPermutation(left, remove);
    SplitKeepsWords(left, remove);
    WordsConcat(Outside(left, remove), Inside(left, remove));
    var k, x, y := Kept(block, add, remove), AddLines(moved), AddLines(left);
    assert Rewrite(block, add, remove) == k + y;
    if k + x == k + y {
      assert x == (k + x)[|k|..] && y == (k + y)[|k|..];
      AddLinesDetermine(moved, left);
    }
  }

  /** In particular when nothing is both added and removed. */
  lemma {:induction false} DisjointSecondRun(block: seq<string>, add: Overrides, remove: set<string>)
    requires DistinctKeys(add) && Words(add) && AsMap(add).Keys !! remove
    ensures Rewrite(Rewrite(block, add, remove), add, remove) == Rewrite(block, add, remove)
  {
    hide Rewrite, DistinctKeys, Words, Versions;
    SecondRunChangesNothingIff(block, add, remove);
    UnlistedIsAdded(add, block, remove);
  }

  lemma {:induction false} UnlistedIsAdded(add: Overrides, block: seq<string>, remove: set<string>)
    ensures forall i :: 0 <= i < |Unlisted(add, block, remove)| ==> Unlisted(add, block, remove)[i].0 in AsMap(add)
  {
    hide Versions;
    if add != [] { UnlistedIsAdded(add[1..], block, remove); }
  }

  // ---------------------------------------------------------------- the file

  /** A line that stays within the block when the file is read again. */
  predicate Inner(line: string) {
    '\n' !in line && !Closes(line)
  }

  lemma {:induction false} WordSkips(w: string, rest: string)
    requires IsWord(w)
    ensures SkipBlanks(w + rest) == w + rest
  {}

  lemma EntryIsInner(e: Entry)
    requires IsWord(e.mod) && IsWord(e.ver) && IsTrailing(e.trailing)
    ensures Inner(EntryLine(e))
  {
    var tail := " " + (e.ver + e.trailing);
    var a := e.mod + tail;
    assert EntryLine(e) == "\t" + a;
    WordSkips(e.mod, tail);
    SkipIs("\t", a);
    NoNewline(e);
    assert a[1..][|e.mod|] == e.ver[0];
    NotAllBlank(a[1..], |e.mod|);
    hide IsWord, IsTrailing, SkipBlanks;
  }

  lemma NoNewline(e: Entry)
    requires IsWord(e.mod) && IsWord(e.ver) && IsTrailing(e.trailing)
    ensures '\n' !in EntryLine(e)
  {}

  lemma {:induction false} NotAllBlank(s: string, i: nat)
    requires i < |s| && !JsSpace(s[i])
    ensures SkipBlanks(s) != ""
  {
    if i > 0 && JsSpace(s[0]) { NotAllBlank(s[1..], i - 1); }
  }

  lemma StepIsInner(line: string, add: Overrides, remove: set<string>)
    requires Inner(line) && Words(add)
    ensures forall l :: l in Step(line, add, remove).0 ==> Inner(l)
  {
    hide ParseEntry, EntryLine, Words, Lookup, Without, Inner;
    if ParseEntry(line).Some? {
      var e := ParseEntry(line).value;
      if Lookup(add, e.mod).Some? {
        LookupWord(add, e.mod);
        ParsedShape(line);
        EntryIsInner(e.(ver := Lookup(add, e.mod).value));
      }
    }
  }

  lemma {:induction false} AddLinesAreInner(add: Overrides)
    requires Words(add)
    ensures forall l :: l in AddLines(add) ==> Inner(l)
  {
    if add != [] {
      hide EntryLine, Inner, IsWord;
      EntryIsInner(Entry(add[0].0, add[0].1, ""));
      AddLinesAreInner(add[1..]);
    }
  }

  lemma {:induction false} RewriteIsInner(block: seq<string>, add: Overrides, remove: set<string>)
    requires DistinctKeys(add) && Words(add) && forall l :: l in block ==> Inner(l)
    ensures forall l :: l in Rewrite(block, add, remove) ==> Inner(l)
  {
    hide Step, Inner, DistinctKeys, Words, AddLines;
    if block == [] {
      AddLinesAreInner(add);
    } else {
      assert block[0] in block;
      StepIsInner(block[0], add, remove);
      StepKeeps(block[0], add, remove);
      RewriteIsInner(block[1..], Step(block[0], add, remove).1, remove);
    }
  }

  /** The lines around the block, with other lines in between. */
  function Around(lines: seq<string>, s: nat, e: nat, inside: seq<string>): seq<string>
    requires s < e < |lines|
  {
    lines[..s + 1] + inside + lines[e..]
  }

  lemma {:induction false} AroundIsBlock(lines: seq<string>, s: nat, e: nat, inside: seq<string>)
    requires IsBlock(lines, s, e) && forall l :: l in inside ==> Inner(l)
    ensures var lines' := Around(lines, s, e, inside);
            IsBlock(lines', s, s + 1 + |inside|) && lines'[s + 1..s + 1 + |inside|] == inside
    ensures var lines' := Around(lines, s, e, inside);
            lines'[..s + 1] == lines[..s + 1] && lines'[s + 1 + |inside|..] == lines[e..]
  {
    hide Opens, Closes;
    var lines' := Around(lines, s, e, inside);
    assert forall k :: s < k < s + 1 + |inside| ==> lines'[k] == inside[k - s - 1] && lines'[k] in inside;
  }

  lemma {:induction false} BlockIsInner(text: string, s: nat, e: nat)
    requires IsBlock(Split(text, '\n'), s, e)
    ensures forall l :: l in Split(text, '\n')[s + 1..e] ==> Inner(l)
  {
    hide Closes, Split, Opens;
    SplitPartsLackSeparator(text, '\n');
    var lines := Split(text, '\n');
    forall l | l in lines[s + 1..e] ensures Inner(l) {
      var k :| 0 <= k < |lines[s + 1..e]| && lines[s + 1..e][k] == l;
      assert l == lines[s + 1 + k] && l in lines;
    }
  }

  /** Without overrides a file that has no block to merge with stays as it is. */
  lemma {:induction false} NothingToAdd(text: string, remove: set<string>)
    requires FindBlock(Split(text, '\n')).None?
    ensures After(text, [], remove) == text
  {}

  /** The lines of the file after the merge, when it has a block. */
  lemma {:induction false} LinesAfter(text: string, add: Overrides, remove: set<string>, s: nat, e: nat)
    requires DistinctKeys(add) && Words(add) && IsBlock(Split(text, '\n'), s, e)
    ensures var lines := Split(text, '\n');
            Split(After(text, add, remove), '\n') == Around(lines, s, e, Rewrite(lines[s + 1..e], add, remove)) &&
            forall l :: l in Rewrite(lines[s + 1..e], add, remove) ==> Inner(l)
  {
    hide IsBlock, Rewrite, Split, Join, FindBlock, DistinctKeys, Words;
    var lines := Split(text, '\n');
    BlockBounds(lines, s, e);
    var inside := Rewrite(lines[s + 1..e], add, remove);
    FindBlockIs(lines);
    BlockIsInner(text, s, e);
    RewriteIsInner(lines[s + 1..e], add, remove);
    SplitPartsLackSeparator(text, '\n');
    var lines' := Around(lines, s, e, inside);
    forall l | l in lines' ensures '\n' !in l {
      assert l in lines || l in inside;
    }
    SplitUndoesJoin(lines', '\n');
  }

  lemma BlockBounds(lines: seq<string>, s: nat, e: nat)
    requires IsBlock(lines, s, e)
    ensures s < e < |lines|
  {}

  /** A file with a block stays one; the lines around the block are untouched and the block reads back merged. */
  lemma {:induction false} MergedFile(text: string, add: Overrides, remove: set<string>, s: nat, e: nat)
    requires DistinctKeys(add) && Words(add) && IsBlock(Split(text, '\n'), s, e)
    ensures var before, after := Split(text, '\n'), Split(After(text, add, remove), '\n');
            exists e': nat :: IsBlock(after, s, e') && after[..s + 1] == before[..s + 1] && after[e'..] == before[e..] &&
              FirstListed(after[s + 1..e']) == (FirstListed(before[s + 1..e]) - remove) + AsMap(add)
  {
    hide Rewrite, Split, After, FirstListed, DistinctKeys, Words, Opens, Closes;
    var lines := Split(text, '\n');
    LinesAfter(text, add, remove, s, e);
    AroundIsBlock(lines, s, e, Rewrite(lines[s + 1..e], add, remove));
    var e' := s + 1 + |Rewrite(lines[s + 1..e], add, remove)|;
    assert IsBlock(Split(After(text, add, remove), '\n'), s, e');
    MergeIsMapUpdate(lines[s + 1..e], add, remove);
  }

  /** A run changes a file with a block if and only if it changes the block. */
  lemma {:induction false} UnchangedIff(text: string, add: Overrides, remove: set<string>, s: nat, e: nat)
    requires DistinctKeys(add) && Words(add) && IsBlock(Split(text, '\n'), s, e)
    ensures var block := Split(text, '\n')[s + 1..e];
            After(text, add, remove) == text <==> Rewrite(block, add, remove) == block
  {
    hide Rewrite, Split, Join, FindBlock, DistinctKeys, Words, Opens, Closes;
    var lines := Split(text, '\n');
    var block, inside := lines[s + 1..e], Rewrite(lines[s + 1..e], add, remove);
    FindBlockIs(lines);
    assert lines == Around(lines, s, e, block);
    if After(text, add, remove) == text {
      LinesAfter(text, add, remove, s, e);
      assert |inside| == |block|;
      var lines' := Around(lines, s, e, inside);
      assert inside == lines'[s + 1..e];
    }
    JoinUndoesSplit(text, '\n');
  }

  /** A second run writes the same file if and only if no removed override is appended before another one. */
  lemma {:induction false} SecondMergeIff(text: string, add: Overrides, remove: set<string>, s: nat, e: nat)
    requires DistinctKeys(add) && Words(add) && IsBlock(Split(text, '\n'), s, e)
    ensures var once := After(text, add, remove);
            After(once, add, remove) == once <==>
            RemovedComeLast(Unlisted(add, Split(text, '\n')[s + 1..e], remove), remove)
  {
    hide Rewrite, Split, After, DistinctKeys, Words, Opens, Closes, RemovedComeLast, Unlisted, FirstListed;
    var block := Split(text, '\n')[s + 1..e];
    LinesAfter(text, add, remove, s, e);
    AroundIsBlock(Split(text, '\n'), s, e, Rewrite(block, add, remove));
    hide Around;
    UnchangedIff(After(text, add, remove), add, remove, s, s + 1 + |Rewrite(block, add, remove)|);
    SecondRunChangesNothingIff(block, add, remove);
  }

  // ---------------------------------------------------------------- a file without a block

  lemma {:induction false} SplitSnoc(s: string, c: char, sep: char)
    requires c != sep
    ensures var lines, n := Split(s, sep), |Split(s, sep)| - 1;
            Split(s + [c], sep) == lines[..n] + [lines[n] + [c]]
  {
    if s == "" {
      SplitWhole([c], sep);
      assert s + [c] == [c];
    } else {
      assert (s + [c])[1..] == s[1..] + [c];
      SplitSnoc(s[1..], c, sep);
      var rest := Split(s[1..], sep);
      var more := rest[..|rest| - 1] + [rest[|rest| - 1] + [c]];
      if s[0] == sep {
        assert Split(s, sep) == [""] + rest && Split(s + [c], sep) == [""] + more;
      } else {
        assert Split(s, sep) == [[s[0]] + rest[0]] + rest[1..] && Split(s + [c], sep) == [[s[0]] + more[0]] + more[1..];
        hide Split;
        OntoFirst([s[0]], rest, c);
      }
    }
  }

  lemma OntoFirst(h: string, rest: seq<string>, c: char)
    requires rest != []
    ensures var lines, more, n := [h + rest[0]] + rest[1..], rest[..|rest| - 1] + [rest[|rest| - 1] + [c]], |rest| - 1;
            [h + more[0]] + more[1..] == lines[..n] + [lines[n] + [c]]
  {
    if |rest| == 1 { assert h + rest[0] + [c] == h + (rest[0] + [c]); }
  }

  lemma {:induction false} SkipSnoc(s: string, c: char)
    requires JsSpace(c)
    ensures SkipBlanks(s + [c]) == if SkipBlanks(s) == "" then "" else SkipBlanks(s) + [c]
  {
    if s == "" {
      assert (s + [c])[1..] == "";
    } else {
      assert (s + [c])[1..] == s[1..] + [c];
      SkipSnoc(s[1..], c);
    }
  }

  /** White space at the end of a line does not change what the line opens or closes. */
  lemma BlankTail(line: string, c: char)
    requires JsSpace(c)
    ensures Opens(line + [c]) <==> Opens(line)
    ensures Closes(line + [c]) <==> Closes(line)
  {
    hide SkipBlanks;
    var a := SkipBlanks(line);
    SkipSnoc(line, c);
    if a != "" {
      assert (a + [c])[1..] == a[1..] + [c];
      SkipSnoc(a[1..], c);
      OpensTail(a, c);
    }
  }

  lemma OpensTail(a: string, c: char)
    requires a != "" && JsSpace(c)
    ensures OpensHere(a + [c]) <==> OpensHere(a)
  {
    hide SkipBlanks;
    if |a| >= 7 {
      assert (a + [c])[7..] == a[7..] + [c] && (a + [c])[..7] == a[..7];
      SkipSnoc(a[7..], c);
      var b := SkipBlanks(a[7..]);
      if b != "" {
        assert (b + [c])[1..] == b[1..] + [c];
        SkipSnoc(b[1..], c);
      }
    } else if "require" <= a + [c] {
      assert "require"[6] == (a + [c])[6] == c;
    }
  }

  /** What trimming the end of the file leaves of its lines, as far as blocks are concerned. */
  ghost predicate SameMarks(trimmed: seq<string>, lines: seq<string>) {
    |trimmed| <= |lines| &&
    (forall i :: 0 <= i < |trimmed| ==> (Opens(trimmed[i]) <==> Opens(lines[i])) && (Closes(trimmed[i]) <==> Closes(lines[i]))) &&
    forall i :: |trimmed| <= i < |lines| ==> !Opens(lines[i]) && !Closes(lines[i])
  }

  lemma {:induction false} TrimKeepsMarks(text: string)
    ensures SameMarks(Split(TrimEnd(text), '\n'), Split(text, '\n'))
  {
    if text != "" && JsSpace(text[|text| - 1]) {
      var t, c := text[..|text| - 1], text[|text| - 1];
      assert TrimEnd(text) == TrimEnd(t) && text == t + [c];
      TrimKeepsMarks(t);
      LastCharMarks(t, c);
      hide *;
      MarksCompose(Split(TrimEnd(t), '\n'), Split(t, '\n'), Split(t + [c], '\n'));
    }
  }

  lemma MarksCompose(a: seq<string>, b: seq<string>, c: seq<string>)
    requires SameMarks(a, b) && SameMarks(b, c)
    ensures SameMarks(a, c)
  {
    hide Opens, Closes;
  }

  lemma LastCharMarks(t: string, c: char)
    requires JsSpace(c)
    ensures SameMarks(Split(t, '\n'), Split(t + [c], '\n'))
  {
    hide Opens, Closes, Split;
    var before := Split(t, '\n');
    if c == '\n' {
      SplitConcat(t, "", '\n');
      assert t + ['\n'] + "" == t + [c];
      SplitWhole("", '\n');
      EmptyLine();
      assert Split(t + [c], '\n') == before + [""];
    } else {
      SplitSnoc(t, c, '\n');
      BlankTail(before[|before| - 1], c);
    }
  }

  lemma EmptyLine()
    ensures !Opens("") && !Closes("")
  {}

  lemma NewBlockLines()
    ensures Opens("require (") && !Closes("require (") && Closes(")") && "require" <= "require ("
  {
    var a := "require (";
    assert SkipBlanks(a) == a && a[7..] == " (" && " ("[1..] == "(" && "("[1..] == "";
    assert SkipBlanks(" (") == "(";
    assert ")"[1..] == "";
  }

  /** The lines of the file after the merge, when no block was found. */
  lemma {:induction false} LinesAppended(text: string, add: Overrides, remove: set<string>)
    requires Words(add) && add != [] && FindBlock(Split(text, '\n')).None?
    ensures Split(After(text, add, remove), '\n') ==
            Split(TrimEnd(text), '\n') + (NEW_BLOCK + AddLines(add) + [")"] + [""])
  {
    hide Split, Join, FindBlock, Words, TrimEnd, AddLines, Inner;
    var parts := NEW_BLOCK + AddLines(add) + [")"];
    AddLinesAreInner(add);
    forall p | p in parts ensures '\n' !in p {
      assert p in NEW_BLOCK || p in AddLines(add) || p == ")";
      LackNewline(p);
    }
    SplitUndoesJoin(parts, '\n');
    SplitWhole("", '\n');
    var tail := Join(parts, '\n') + "\n";
    SplitConcat(Join(parts, '\n'), "", '\n');
    assert Join(parts, '\n') + ['\n'] + "" == tail;
    SplitConcat(TrimEnd(text), tail, '\n');
    assert After(text, add, remove) == TrimEnd(text) + ['\n'] + tail;
  }

  lemma LackNewline(p: string)
    ensures Inner(p) || p in NEW_BLOCK || p == ")" ==> '\n' !in p
  {}

  /** Such a file gets a block that holds the overrides, when no line of it opens one. */
  lemma {:induction false} NewBlock(text: string, add: Overrides, remove: set<string>)
    requires DistinctKeys(add) && Words(add) && add != []
    requires forall l :: l in Split(text, '\n') ==> !Opens(l)
    ensures var after, s := Split(After(text, add, remove), '\n'), |Split(TrimEnd(text), '\n')| + 1;
            IsBlock(after, s, s + 1 + |add|) && after[s + 1..s + 1 + |add|] == AddLines(add) &&
            after[..s - 1] == Split(TrimEnd(text), '\n')
  {
    hide Split, DistinctKeys, Words, TrimEnd, AddLines, Opens, Closes, After;
    var lines, front := Split(text, '\n'), Split(TrimEnd(text), '\n');
    assert FindBlock(lines).None?;
    LinesAppended(text, add, remove);
    TrimKeepsMarks(text);
    AddLinesAreInner(add);
    EmptyLine();
    NewBlockLines();
    var after, s := front + (NEW_BLOCK + AddLines(add) + [")"] + [""]), |front| + 1;
    assert after[s] == "require (" && after[s - 1] == "" && after[s + 1 + |add|] == ")";
    forall k | s < k < s + 1 + |add| ensures !Closes(after[k]) {
      assert after[k] == AddLines(add)[k - s - 1] && after[k] in AddLines(add);
    }
    forall k | 0 <= k < s ensures !Opens(after[k]) {
      if k < |front| { assert after[k] == front[k] && lines[k] in lines; }
    }
  }

  /** What a new block reads back as, and when a second run writes the same file. */
  lemma {:induction false} NewBlockMerged(text: string, add: Overrides, remove: set<string>)
    requires DistinctKeys(add) && Words(add) && add != []
    requires forall l :: l in Split(text, '\n') ==> !Opens(l)
    ensures var once := After(text, add, remove);
            FirstListed(AddLines(add)) == AsMap(add) &&
            (After(once, add, remove) == once <==> RemovedComeLast(add, remove))
  {
    hide Split, DistinctKeys, Words, TrimEnd, AddLines, Opens, Closes, After, FirstListed, RemovedComeLast, IsBlock;
    var s := |Split(TrimEnd(text), '\n')| + 1;
    NewBlock(text, add, remove);
    UnchangedIff(After(text, add, remove), add, remove, s, s + 1 + |add|);
    assert Rewrite([], add, remove) == AddLines(add);
    SecondRunChangesNothingIff([], add, remove);
    NothingListed(add, remove);
    MergeIsMapUpdate([], add, remove);
    NothingRead(add, remove);
  }

  lemma NothingRead(add: Overrides, remove: set<string>)
    ensures (FirstListed([]) - remove) + AsMap(add) == AsMap(add)
  {}

  /**
   A file that opens a block and never closes it is not merged: the appended block closes the open one, so
   that the next run takes everything from the old line on for the block.
   */
  lemma {:induction false} UnclosedBlockIsAdopted(text: string, add: Overrides, remove: set<string>, s: nat)
    requires Words(add) && add != []
    requires var lines := Split(text, '\n');
             s < |lines| && Opens(lines[s]) && (forall k :: 0 <= k < s ==> !Opens(lines[k])) &&
             forall k :: s < k < |lines| ==> !Closes(lines[k])
    ensures var after, n := Split(After(text, add, remove), '\n'), |Split(TrimEnd(text), '\n')|;
            IsBlock(after, s, n + 2 + |add|) && s < n
  {
    hide Split, Words, TrimEnd, AddLines, Opens, Closes, After;
    var lines, front := Split(text, '\n'), Split(TrimEnd(text), '\n');
    assert FindBlock(lines).None?;
    LinesAppended(text, add, remove);
    TrimKeepsMarks(text);
    AddLinesAreInner(add);
    EmptyLine();
    NewBlockLines();
    var n := |front|;
    var after := front + (NEW_BLOCK + AddLines(add) + [")"] + [""]);
    assert after[n] == "" && after[n + 1] == "require (" && after[n + 2 + |add|] == ")";
    forall k | s < k < n + 2 + |add| ensures !Closes(after[k]) {
      if k < n { assert after[k] == front[k]; }
      else if n + 1 < k { assert after[k] == AddLines(add)[k - n - 2] && after[k] in AddLines(add); }
    }
    assert forall k :: 0 <= k < n ==> after[k] == front[k];
  }
}
