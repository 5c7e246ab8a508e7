/**
 The text patches of the scaffolder's features (cli/src/features.ts): a text is inserted at an
 anchor together with a sentinel line that keeps it from being inserted again.
 */
module TextPatch {
  import opened Common
  import opened Strings

  datatype Patch = Patch(file: string, anchor: string, insert: string, before: bool)

  /** The feature a patch belongs to, and the hash that goes into its sentinel. */
  datatype Feature = Feature(name: string, hash: string -> string) {
    ghost predicate Valid() {
      '\n' !in name && forall s :: '\n' !in hash(s) && ' ' !in hash(s)
    }
  }

  /** String.prototype.indexOf from a position on. */
  function IndexFrom(t: string, s: string, i: nat): (r: Option<nat>)
    ensures r.Some? ==> i <= r.value && OccursAt(t, s, r.value)
    ensures forall j :: i <= j <= |t| && OccursAt(t, s, j) ==> r.Some? && r.value <= j
    decreases |t| - i
  {
    if i > |t| then None else if OccursAt(t, s, i) then Some(i) else IndexFrom(t, s, i + 1)
  }

  /** `content.lastIndexOf('\n', idx) + 1` */
  function LineStart(t: string, idx: nat): nat
    requires idx <= |t|
  {
    if idx < |t| && t[idx] == '\n' then idx + 1
    else if idx == 0 then 0
    else LineStart(t, idx - 1)
  }

  function LeadingSpace(s: string): string {
    if s == "" || !JsSpace(s[0]) then "" else [s[0]] + LeadingSpace(s[1..])
  }

  function Indent(t: string, idx: nat): string {
    if idx <= |t| && LineStart(t, idx) <= idx then LeadingSpace(t[LineStart(t, idx)..idx]) else ""
  }

  /** The sentinel line without its indent. */
  function Core(f: Feature, p: Patch): string {
    (if '#' in p.anchor then "# " else "// ") + "projx-feature: " + f.name + " " + f.hash(p.anchor + "|" + p.insert) + "\n"
  }

  function SentinelFor(f: Feature, p: Patch, indent: string): string {
    indent + Core(f, p)
  }

  datatype Error = FileMissing(file: string) | AnchorMissing(anchor: string, file: string)

  /** The content after one patch. */
  function Patched(f: Feature, content: string, p: Patch): Result<string, Error> {
    match IndexFrom(content, p.anchor, 0)
    case None => Err(AnchorMissing(p.anchor, p.file))
    case Some(idx) =>
      var sentinel := SentinelFor(f, p, Indent(content, idx));
      if Contains(content, sentinel) then Ok(content)
      else
        var block := p.insert + sentinel;
        if p.before then Ok(content[..idx] + block + content[idx..])
        else
          var end := idx + |p.anchor|;
          var after := content[end..];
          Ok(content[..end] + "\n" + block + (if after != "" && after[0] == '\n' then after[1..] else after))
  }

  /** The files after one patch; a missing file may be tolerated. */
  function PatchedFiles(f: Feature, files: map<string, string>, p: Patch, tolerate: bool): Result<map<string, string>, Error> {
    if p.file !in files then (if tolerate then Ok(files) else Err(FileMissing(p.file)))
    else
      match Patched(f, files[p.file], p)
      case Err(e) => Err(e)
      case Ok(next) => Ok(files[p.file := next])
  }

  /** The files after a list of patches; the first failure stops it. */
  function AllPatched(f: Feature, files: map<string, string>, ps: seq<Patch>, tolerate: bool): Result<map<string, string>, Error> {
    if ps == [] then Ok(files)
    else
      var n := |ps| - 1;
      match AllPatched(f, files, ps[..n], tolerate)
      case Err(e) => Err(e)
      case Ok(before) => PatchedFiles(f, before, ps[n], tolerate)
  }

  /** The patches before number i went through and led to `now`; number i fails there. */
  ghost predicate StoppedAt(f: Feature, files: map<string, string>, ps: seq<Patch>, tolerate: bool, i: nat,
                            now: map<string, string>, e: Error) {
    i < |ps| && AllPatched(f, files, ps[..i], tolerate) == Ok(now) && PatchedFiles(f, now, ps[i], tolerate) == Err(e)
  }

  class Workspace {
    var files: map<string, string>

    constructor (files: map<string, string>)
      ensures this.files == files
    {
      this.files := files;
    }

    method ApplyTextPatch(f: Feature, patch: Patch, tolerateMissingTarget: bool) returns (r: Result<(), Error>)
      modifies this
      ensures match PatchedFiles(f, old(files), patch, tolerateMissingTarget)
              case Err(e) => r == Err(e) && files == old(files)
              case Ok(next) => r == Ok(()) && files == next
    {
      hide Core, Contains, IndexFrom, LeadingSpace, LineStart;
      if patch.file !in files {
        if tolerateMissingTarget { return Ok(()); }
        return Err(FileMissing(patch.file));
      }
      var content := files[patch.file];
      var idx := IndexFrom(content, patch.anchor, 0);
      if idx.None? { return Err(AnchorMissing(patch.anchor, patch.file)); }
      var sentinel := SentinelFor(f, patch, Indent(content, idx.value));
      if Contains(content, sentinel) {
        assert files[patch.file := content] == files;
        return Ok(());
      }
      var insertWithSentinel := patch.insert + sentinel;
      var next: string;
      if patch.before {
        next := content[..idx.value] + insertWithSentinel + content[idx.value..];
      } else {
        var end := idx.value + |patch.anchor|;
        var after := content[end..];
        next := content[..end] + "\n" + insertWithSentinel + (if after != "" && after[0] == '\n' then after[1..] else after);
      }
      files := files[patch.file := next];
      return Ok(());
    }

    /** applyPatches on text patches, in the order of their file names; what was written before a failure stays. */
    method ApplyPatches(f: Feature, patches: seq<Patch>, tolerateMissingTarget: bool) returns (r: Result<(), Error>)
      modifies this
      ensures match AllPatched(f, old(files), patches, tolerateMissingTarget)
              case Err(e) => r == Err(e) && exists i: nat :: StoppedAt(f, old(files), patches, tolerateMissingTarget, i, files, e)
              case Ok(next) => r == Ok(()) && files == next
    {
      for i := 0 to |patches|
        invariant AllPatched(f, old(files), patches[..i], tolerateMissingTarget) == Ok(files)
      {
        hide PatchedFiles;
        assert patches[..i + 1][..i] == patches[..i];
        var one := ApplyTextPatch(f, patches[i], tolerateMissingTarget);
        if one.Err? {
          FailureStays(f, old(files), patches, i + 1, tolerateMissingTarget);
          assert StoppedAt(f, old(files), patches, tolerateMissingTarget, i, files, one.error);
          return Err(one.error);
        }
      }
      assert patches[..|patches|] == patches;
      return Ok(());
    }
  }

  lemma {:induction false} FailureStays(f: Feature, files: map<string, string>, ps: seq<Patch>, i: nat, tolerate: bool)
    requires i <= |ps| && AllPatched(f, files, ps[..i], tolerate).Err?
    ensures AllPatched(f, files, ps, tolerate) == AllPatched(f, files, ps[..i], tolerate)
  {
    if i < |ps| {
      assert ps[..|ps| - 1][..i] == ps[..i];
      FailureStays(f, files, ps[..|ps| - 1], i, tolerate);
    } else {
      assert ps[..i] == ps;
    }
  }

  /** When a patch fails: its file is missing and that is not tolerated, or its anchor is not in the file. */
  lemma {:induction false} PatchFailsIff(f: Feature, files: map<string, string>, p: Patch, tolerate: bool)
    ensures PatchedFiles(f, files, p, tolerate) == Err(FileMissing(p.file)) <==> p.file !in files && !tolerate
    ensures PatchedFiles(f, files, p, tolerate) == Err(AnchorMissing(p.anchor, p.file)) <==>
            p.file in files && forall front, back :: files[p.file] != front + p.anchor + back
    ensures forall e :: PatchedFiles(f, files, p, tolerate) == Err(e) ==> e == FileMissing(p.file) || e == AnchorMissing(p.anchor, p.file)
    ensures PatchedFiles(f, files, p, tolerate).Ok? ==> PatchedFiles(f, files, p, tolerate).value - {p.file} == files - {p.file}
    ensures p.file !in files && tolerate ==> PatchedFiles(f, files, p, tolerate) == Ok(files)
  {
    hide Core, Indent, Contains, OccursAt;
    if p.file in files {
      var c := files[p.file];
      ContainsIff(c, p.anchor);
      OccursIff(c, p.anchor);
    }
  }

  lemma OccursIff(t: string, s: string)
    ensures Contains(t, s) <==> IndexFrom(t, s, 0).Some?
  {}

  // ---------------------------------------------------------------- a single 'after' patch

  lemma {:induction false} LineStartOfPrefix(t: string, u: string, idx: nat)
    requires idx < |t| && idx < |u| && t[..idx + 1] == u[..idx + 1]
    ensures LineStart(t, idx) == LineStart(u, idx)
  {
    assert t[idx] == t[..idx + 1][idx] && u[idx] == u[..idx + 1][idx];
    if t[idx] != '\n' && idx > 0 {
      assert t[..idx] == t[..idx + 1][..idx] && u[..idx] == u[..idx + 1][..idx];
      LineStartOfPrefix(t, u, idx - 1);
    }
  }

  lemma {:induction false} LineStartRange(t: string, idx: nat)
    requires idx <= |t|
    ensures LineStart(t, idx) <= idx + 1
    ensures forall i :: LineStart(t, idx) <= i <= idx && i < |t| ==> t[i] != '\n'
    ensures LineStart(t, idx) > 0 ==> LineStart(t, idx) <= |t| && t[LineStart(t, idx) - 1] == '\n'
  {
    if !(idx < |t| && t[idx] == '\n') && idx > 0 { LineStartRange(t, idx - 1); }
  }

  lemma OccursInPrefix(t: string, u: string, s: string, i: nat, n: nat)
    requires n <= |t| && n <= |u| && t[..n] == u[..n] && i + |s| <= n
    ensures OccursAt(t, s, i) <==> OccursAt(u, s, i)
  {
    assert t[i..i + |s|] == t[..n][i..i + |s|] && u[i..i + |s|] == u[..n][i..i + |s|];
  }

  /** The first occurrence in a text is still the first when only what comes after it changes. */
  lemma FirstStays(t: string, u: string, s: string, idx: nat)
    requires IndexFrom(t, s, 0) == Some(idx) && idx + |s| <= |u| && t[..idx + |s|] == u[..idx + |s|]
    ensures IndexFrom(u, s, 0) == Some(idx)
  {
    hide OccursAt;
    OccursShort(t, s, idx);
    OccursInPrefix(t, u, s, idx, idx + |s|);
    var j := IndexFrom(u, s, 0).value;
    OccursInPrefix(t, u, s, j, idx + |s|);
  }

  lemma OccursShort(t: string, s: string, i: nat)
    requires OccursAt(t, s, i)
    ensures i + |s| <= |t|
  {}

  lemma ContainsMiddle(a: string, s: string, b: string)
    ensures Contains(a + s + b, s)
  {
    assert (a + s + b)[|a|..|a| + |s|] == s;
    assert OccursAt(a + s + b, s, |a|);
  }

  /** An 'after' patch applied to its own output changes nothing, whatever the file, the anchor and the inserted text. */
  lemma {:induction false} AfterIsIdempotent(f: Feature, content: string, p: Patch)
    requires !p.before && Patched(f, content, p).Ok?
    ensures Patched(f, Patched(f, content, p).value, p) == Patched(f, content, p)
  {
    hide Core, Contains, Indent, OccursAt;
    var idx := IndexFrom(content, p.anchor, 0).value;
    OccursShort(content, p.anchor, idx);
    var sentinel := SentinelFor(f, p, Indent(content, idx));
    var next := Patched(f, content, p).value;
    if next != content {
      var end := idx + |p.anchor|;
      var after := content[end..];
      var tail := if after != "" && after[0] == '\n' then after[1..] else after;
      assert next == (content[..end] + "\n" + p.insert) + sentinel + tail;
      ContainsMiddle(content[..end] + "\n" + p.insert, sentinel, tail);
      assert next[..end] == content[..end];
      FirstStays(content, next, p.anchor, idx);
      if p.anchor == "" { EmptyAnchorIsFirst(content); }
      SameIndent(content, next, idx, end);
    }
  }

  lemma EmptyAnchorIsFirst(t: string)
    ensures IndexFrom(t, "", 0) == Some(0)
  {}

  lemma SameIndent(t: string, u: string, idx: nat, end: nat)
    requires idx <= end <= |t| && end <= |u| && t[..end] == u[..end] && (idx == end ==> idx == 0)
    ensures Indent(t, idx) == Indent(u, idx)
  {
    if idx < end { SameLineStart(t, u, idx, end); }
  }

  // ---------------------------------------------------------------- a list of patches

  predicate AllSpace(s: string) {
    forall i :: 0 <= i < |s| ==> JsSpace(s[i]) && s[i] != '\n'
  }

  /** An anchor text as patches use it: on one line, starting with a visible character. */
  predicate GoodAnchor(a: string) {
    a != "" && '\n' !in a && !JsSpace(a[0])
  }

  /** The anchor first occurs at q, alone on its line but for an indent; it may occur again further down. */
  ghost predicate LoneAt(c: string, a: string, q: nat) {
    OccursAt(c, a, q) && (forall r :: OccursAt(c, a, r) ==> q <= r) &&
    LineStart(c, q) <= q && AllSpace(c[LineStart(c, q)..q]) &&
    (q + |a| < |c| ==> c[q + |a|] == '\n')
  }

  lemma {:induction false} LeadingSpaceIsAll(s: string)
    requires AllSpace(s)
    ensures LeadingSpace(s) == s
  {
    if s != "" {
      assert AllSpace(s[1..]);
      LeadingSpaceIsAll(s[1..]);
    }
  }

  lemma LoneIsFirst(c: string, a: string, q: nat)
    requires LoneAt(c, a, q)
    ensures IndexFrom(c, a, 0) == Some(q) && q + |a| <= |c| && Indent(c, q) == c[LineStart(c, q)..q]
  {
    LeadingSpaceIsAll(c[LineStart(c, q)..q]);
  }

  lemma {:induction false} LineStartIs(t: string, idx: nat, ls: nat)
    requires idx <= |t| && ls <= idx
    requires ls > 0 ==> t[ls - 1] == '\n'
    requires forall i :: ls <= i <= idx && i < |t| ==> t[i] != '\n'
    ensures LineStart(t, idx) == ls
  {
    LineStartRange(t, idx);
  }

  /** The line that a text ends in the middle of. */
  function LastLine(x: string): string
    requires LineStart(x, |x|) <= |x|
  {
    x[LineStart(x, |x|)..]
  }

  /** A place where a patch inserts: at the start of a line, or between an indent and the text after it. */
  ghost predicate Gap(x: string, y: string) {
    LineStart(x, |x|) <= |x| && AllSpace(LastLine(x)) && (LastLine(x) != "" ==> y != "" && y[0] != '\n')
  }

  lemma OccursOnOneLine(t: string, s: string, r: nat)
    requires GoodAnchor(s) && OccursAt(t, s, r)
    ensures r + |s| <= |t| && t[r] == s[0] && !JsSpace(t[r])
    ensures forall i :: r <= i < r + |s| ==> t[i] != '\n'
  {
    forall i | r <= i < r + |s| ensures t[i] == s[i - r] { assert t[i] == t[r..r + |s|][i - r]; }
  }

  /** A visible line of text never reaches across the end of x. */
  lemma NoStraddle(x: string, y: string, t: string, s: string, r: nat)
    requires Gap(x, y) && x <= t && GoodAnchor(s) && OccursAt(t, s, r) && r < |x|
    ensures r + |s| < |x|
  {
    OccursOnOneLine(t, s, r);
    LineStartRange(x, |x|);
    var ls := LineStart(x, |x|);
    assert forall i :: ls <= i < |x| ==> x[i] == LastLine(x)[i - ls];
  }

  /** After the insertion of a block that does not hold s, s occurs only where it did before. */
  lemma InsertedOccurs(x: string, block: string, y: string, s: string, r: nat)
    requires Gap(x, y) && GoodAnchor(s) && !Contains(block, s) && block != "" && block[|block| - 1] == '\n'
    requires OccursAt(x + block + y, s, r)
    ensures (r + |s| < |x| && OccursAt(x + y, s, r)) || (r >= |x| + |block| && OccursAt(x + y, s, r - |block|))
  {
    var t := x + block + y;
    OccursOnOneLine(t, s, r);
    if r < |x| {
      NoStraddle(x, y, t, s, r);
      OccursInPrefix(t, x + y, s, r, |x|);
    } else {
      assert t[|x| + |block| - 1] == '\n';
      if r < |x| + |block| {
        InBlock(x, block, y, s, r);
      } else {
        assert (x + y)[r - |block|..r - |block| + |s|] == t[r..r + |s|];
      }
    }
  }

  lemma InBlock(x: string, block: string, y: string, s: string, r: nat)
    requires OccursAt(x + block + y, s, r) && |x| <= r && r + |s| <= |x| + |block|
    ensures Contains(block, s)
  {
    assert block[r - |x|..r - |x| + |s|] == (x + block + y)[r..r + |s|];
    assert OccursAt(block, s, r - |x|);
  }

  /** What occurred before the insertion still does, at its place or pushed down by the block. */
  lemma StillOccurs(x: string, block: string, y: string, s: string, r: nat)
    requires OccursAt(x + y, s, r) && (r + |s| <= |x| || r >= |x|)
    ensures OccursAt(x + block + y, s, if r + |s| <= |x| then r else r + |block|)
  {
    var c, t := x + y, x + block + y;
    if r + |s| <= |x| {
      OccursInPrefix(c, t, s, r, |x|);
    } else {
      assert t[r + |block|..r + |block| + |s|] == c[r..r + |s|];
    }
  }

  ghost predicate IsSuffix(s: string, t: string) {
    |s| <= |t| && t[|t| - |s|..] == s
  }

  /** t is c with k characters put in at n, the last of them a newline. */
  ghost predicate PushedDown(c: string, t: string, n: nat, k: nat) {
    n <= |c| && k > 0 && |t| == |c| + k && t[n + k - 1] == '\n' && forall i :: n <= i < |c| ==> t[i + k] == c[i]
  }

  lemma InsertPushesDown(x: string, block: string, y: string)
    requires block != "" && block[|block| - 1] == '\n'
    ensures PushedDown(x + y, x + block + y, |x|, |block|)
  {}

  lemma {:induction false} LineStartPushedDown(c: string, t: string, n: nat, k: nat, q: nat)
    requires PushedDown(c, t, n, k) && n <= q < |c| && c[q] != '\n'
    ensures LineStart(c, q) <= q && LineStart(t, q + k) == k + if LineStart(c, q) > n then LineStart(c, q) else n
  {
    LineStartRange(c, q);
    var ls := if LineStart(c, q) > n then LineStart(c, q) else n;
    forall i | ls + k <= i <= q + k ensures t[i] != '\n' { assert t[i] == c[i - k]; }
    if ls > n { assert t[ls - 1 + k] == c[ls - 1]; }
    LineStartIs(t, q + k, ls + k);
  }

  lemma {:induction false} LineStartAfterInsert(x: string, block: string, y: string, q: nat)
    requires block != "" && block[|block| - 1] == '\n' && |x| <= q < |x + y| && (x + y)[q] != '\n'
    ensures var c, t, q' := x + y, x + block + y, q + |block|;
            LineStart(t, q') <= q' && LineStart(c, q) <= q && IsSuffix(t[LineStart(t, q')..q'], c[LineStart(c, q)..q])
  {
    hide PushedDown, LineStart;
    var c, t, k := x + y, x + block + y, |block|;
    InsertPushesDown(x, block, y);
    LineStartRange(c, q);
    LineStartPushedDown(c, t, |x|, k, q);
    var ls := if LineStart(c, q) > |x| then LineStart(c, q) else |x|;
    assert t[ls + k..q + k] == c[ls..q] by { Shifted(c, t, |x|, k, ls, q); }
    SliceSuffix(c, LineStart(c, q), ls, q);
  }

  lemma Shifted(c: string, t: string, n: nat, k: nat, i: nat, j: nat)
    requires PushedDown(c, t, n, k) && n <= i <= j <= |c|
    ensures t[i + k..j + k] == c[i..j]
  {
    var a, b := t[i + k..j + k], c[i..j];
    assert forall m :: 0 <= m < j - i ==> a[m] == t[i + m + k] == c[i + m] == b[m];
  }

  lemma SliceSuffix(c: string, i: nat, j: nat, q: nat)
    requires i <= j <= q <= |c|
    ensures IsSuffix(c[j..q], c[i..q])
  {}

  lemma SuffixIsSpace(s: string, t: string)
    requires IsSuffix(s, t) && AllSpace(t)
    ensures AllSpace(s)
  {
    forall i | 0 <= i < |s| ensures s[i] == t[|t| - |s| + i] {}
  }

  lemma SameLineStart(t: string, u: string, idx: nat, n: nat)
    requires idx < n <= |t| && n <= |u| && t[..n] == u[..n]
    ensures LineStart(t, idx) == LineStart(u, idx)
    ensures LineStart(t, idx) <= idx ==> t[LineStart(t, idx)..idx] == u[LineStart(t, idx)..idx]
  {
    assert t[..idx + 1] == t[..n][..idx + 1] && u[..idx + 1] == u[..n][..idx + 1];
    LineStartOfPrefix(t, u, idx);
    if LineStart(t, idx) <= idx {
      assert t[LineStart(t, idx)..idx] == t[..n][LineStart(t, idx)..idx] == u[LineStart(t, idx)..idx];
    }
  }

  lemma LoneAbove(x: string, block: string, y: string, a: string, q: nat)
    requires Gap(x, y) && GoodAnchor(a) && LoneAt(x + y, a, q) && q < |x|
    requires forall r :: OccursAt(x + block + y, a, r) ==> q <= r
    ensures LoneAt(x + block + y, a, q) && Indent(x + block + y, q) == Indent(x + y, q)
  {
    hide Gap;
    var c, t := x + y, x + block + y;
    NoStraddle(x, y, c, a, q);
    StillOccurs(x, block, y, a, q);
    assert c[..q + |a| + 1] == t[..q + |a| + 1];
    assert c[q + |a|] == c[..q + |a| + 1][q + |a|] == t[q + |a|];
    SameLineStart(c, t, q, q + |a| + 1);
  }

  lemma LoneBelow(x: string, block: string, y: string, a: string, q: nat)
    requires GoodAnchor(a) && block != "" && block[|block| - 1] == '\n' && LoneAt(x + y, a, q) && q >= |x|
    requires forall r :: OccursAt(x + block + y, a, r) ==> q + |block| <= r
    ensures LoneAt(x + block + y, a, q + |block|)
    ensures IsSuffix(Indent(x + block + y, q + |block|), Indent(x + y, q))
  {
    var c, t, q' := x + y, x + block + y, q + |block|;
    OccursOnOneLine(c, a, q);
    StillOccurs(x, block, y, a, q);
    LineStartAfterInsert(x, block, y, q);
    SuffixIsSpace(t[LineStart(t, q')..q'], c[LineStart(c, q)..q]);
    assert q' + |a| < |t| ==> t[q' + |a|] == c[q + |a|];
    assert LoneAt(t, a, q');
    LoneIsFirst(c, a, q);
    LoneIsFirst(t, a, q');
  }

  /** An anchor stays alone on its line when a block is inserted elsewhere, or just before it; its indent can only lose from the left. */
  lemma {:induction false} LoneStays(x: string, block: string, y: string, a: string, q: nat) returns (q': nat)
    requires Gap(x, y) && GoodAnchor(a) && !Contains(block, a) && block != "" && block[|block| - 1] == '\n'
    requires LoneAt(x + y, a, q)
    ensures LoneAt(x + block + y, a, q')
    ensures IsSuffix(Indent(x + block + y, q'), Indent(x + y, q))
  {
    hide Gap, Indent, Contains, LineStart;
    OccursShort(x + y, a, q);
    q' := if q < |x| then q else q + |block|;
    if q < |x| { NoStraddle(x, y, x + y, a, q); }
    StillOccurs(x, block, y, a, q);
    StaysFirst(x, block, y, a, q, q');
    if q < |x| { LoneAbove(x, block, y, a, q); } else { LoneBelow(x, block, y, a, q); }
  }

  lemma StaysFirst(x: string, block: string, y: string, a: string, q: nat, q': nat)
    requires Gap(x, y) && GoodAnchor(a) && !Contains(block, a) && block != "" && block[|block| - 1] == '\n'
    requires forall r :: OccursAt(x + y, a, r) ==> q <= r
    requires OccursAt(x + block + y, a, q') && q' == if q < |x| then q else q + |block|
    ensures forall r :: OccursAt(x + block + y, a, r) ==> q' <= r
  {
    hide OccursAt, Contains;
    forall r | OccursAt(x + block + y, a, r) ensures q' <= r {
      OccursIsNat(x + block + y, a, r);
      InsertedOccurs(x, block, y, a, r);
    }
  }

  lemma OccursIsNat(t: string, s: string, r: int)
    requires OccursAt(t, s, r)
    ensures r >= 0
  {}

  // ---------------------------------------------------------------- sentinels survive

  /** Text without a newline, then a newline: an indent and the core of a sentinel. */
  predicate IsLine(s: string) {
    s != "" && s[|s| - 1] == '\n' && '\n' !in s[..|s| - 1]
  }

  lemma LineShape(c: string, s: string, r: nat)
    requires IsLine(s) && OccursAt(c, s, r)
    ensures r + |s| <= |c| && c[r + |s| - 1] == '\n'
    ensures forall i :: r <= i < r + |s| - 1 ==> c[i] == s[i - r] && c[i] != '\n'
  {
    forall i | r <= i < r + |s| ensures c[i] == s[i - r] { assert c[r..r + |s|][i - r] == s[i - r]; }
    forall i | 0 <= i < |s| - 1 ensures s[i] != '\n' { assert s[..|s| - 1][i] == s[i]; }
  }

  lemma AnchorInside(c: string, s: string, a: string, r: nat, n: nat)
    requires IsLine(s) && OccursAt(c, s, r) && r <= n < r + |s| && GoodAnchor(a) && n + |a| <= |c| && c[n..n + |a|] == a
    ensures Contains(s, a)
  {
    LineShape(c, s, r);
    OccursOnOneLine(c, a, n);
    var k := n - r;
    assert s[k..k + |a|] == c[r..r + |s|][k..k + |a|] == c[n..n + |a|];
    assert OccursAt(s, a, k);
  }

  lemma EndsLine(x: string)
    requires LineStart(x, |x|) <= |x|
    ensures x != "" && LastLine(x) == "" ==> x[|x| - 1] == '\n'
  {
    LineStartRange(x, |x|);
    assert |LastLine(x)| == |x| - LineStart(x, |x|);
  }

  /** A sentinel in the file is not cut in two by an insertion, since no anchor is part of it. */
  lemma {:induction false} SentinelNotCut(x: string, y: string, s: string, a: string, r: nat)
    requires Gap(x, y) && IsLine(s) && OccursAt(x + y, s, r)
    requires LastLine(x) != "" ==> GoodAnchor(a) && a <= y && !Contains(s, a)
    ensures r + |s| <= |x| || r >= |x|
  {
    var c := x + y;
    LineShape(c, s, r);
    EndsLine(x);
    if r < |x| < r + |s| {
      assert c[|x| - 1] == x[|x| - 1] != '\n';
      assert LastLine(x) != "";
      assert c[|x|..|x| + |a|] == y[..|a|] == a;
      AnchorInside(c, s, a, r, |x|);
    }
  }

  lemma {:induction false} SentinelStays(x: string, block: string, y: string, s: string, a: string)
    requires Gap(x, y) && IsLine(s) && Contains(x + y, s)
    requires LastLine(x) != "" ==> GoodAnchor(a) && a <= y && !Contains(s, a)
    ensures Contains(x + block + y, s)
  {
    var r :| 0 <= r <= |x + y| && OccursAt(x + y, s, r);
    SentinelNotCut(x, y, s, a, r);
    StillOccurs(x, block, y, s, r);
  }

  // ---------------------------------------------------------------- re-applying

  /** The sentinel of the patch, with the indent its anchor now has, is in the file: the patch would change nothing. */
  ghost predicate Settled(f: Feature, c: string, p: Patch) {
    exists q: nat :: LoneAt(c, p.anchor, q) && Contains(c, Indent(c, q) + Core(f, p))
  }

  ghost predicate Lone(c: string, a: string) {
    exists q: nat :: LoneAt(c, a, q)
  }

  /** Nothing that p inserts holds the anchor a, whatever indent its sentinel gets. */
  ghost predicate Spares(f: Feature, p: Patch, a: string) {
    forall indent :: AllSpace(indent) ==> !Contains(p.insert + SentinelFor(f, p, indent), a)
  }

  lemma SettledChangesNothing(f: Feature, c: string, p: Patch)
    requires Settled(f, c, p)
    ensures Patched(f, c, p) == Ok(c)
  {
    hide Core, Contains, LoneAt, Indent;
    var q: nat :| LoneAt(c, p.anchor, q) && Contains(c, Indent(c, q) + Core(f, p));
    LoneIsFirst(c, p.anchor, q);
  }

  lemma CoreIsLine(f: Feature, p: Patch, indent: string)
    requires f.Valid() && '\n' !in p.anchor && AllSpace(indent)
    ensures IsLine(indent + Core(f, p)) && Core(f, p) != "" && !JsSpace(Core(f, p)[0])
  {
    var h := f.hash(p.anchor + "|" + p.insert);
    assert '\n' !in h;
    var text := (if '#' in p.anchor then "# " else "// ") + "projx-feature: " + f.name + " " + h;
    assert Core(f, p) == text + "\n";
    assert '\n' !in (if '#' in p.anchor then "# " else "// ") && '\n' !in "projx-feature: ";
    var s := indent + Core(f, p);
    assert s[..|s| - 1] == indent + text;
    assert '\n' !in indent;
  }

  lemma ContainsSuffix(t: string, s: string, s': string)
    requires Contains(t, s) && IsSuffix(s', s)
    ensures Contains(t, s')
  {
    var r :| 0 <= r <= |t| && OccursAt(t, s, r);
    var k := |s| - |s'|;
    assert t[r + k..r + k + |s'|] == t[r..r + |s|][k..];
    assert OccursAt(t, s', r + k);
  }

  lemma SliceOfSlice(t: string, r: nat, n: nat, k: nat, m: nat)
    requires r + n <= |t| && k + m <= n
    ensures t[r..r + n][k..k + m] == t[r + k..r + k + m]
  {
    var a, b := t[r..r + n][k..k + m], t[r + k..r + k + m];
    assert forall i :: 0 <= i < m ==> a[i] == t[r + k + i] == b[i];
  }

  lemma ContainsPart(t: string, s: string, a: string)
    requires Contains(t, s) && Contains(s, a)
    ensures Contains(t, a)
  {
    var r :| 0 <= r <= |t| && OccursAt(t, s, r);
    var k :| 0 <= k <= |s| && OccursAt(s, a, k);
    SliceOfSlice(t, r, |s|, k, |a|);
    assert OccursAt(t, a, r + k);
  }

  /** An indented sentinel holds no anchor that the patch spares. */
  lemma SentinelSpares(f: Feature, p: Patch, a: string, indent: string)
    requires Spares(f, p, a) && AllSpace(indent)
    ensures !Contains(SentinelFor(f, p, indent), a)
  {
    var s := SentinelFor(f, p, indent);
    if Contains(s, a) {
      assert p.insert + s == p.insert + s + "";
      ContainsMiddle(p.insert, s, "");
      ContainsPart(p.insert + s, s, a);
    }
  }

  /** One insertion, seen by a patch o: its anchor stays alone on its line, and if it was settled it still is. */
  lemma {:induction false} InsertKeeps(f: Feature, x: string, block: string, y: string, a: string, o: Patch)
    requires f.Valid() && GoodAnchor(o.anchor) && Spares(f, o, a)
    requires Gap(x, y) && !Contains(block, o.anchor) && block != "" && block[|block| - 1] == '\n'
    requires LastLine(x) != "" ==> GoodAnchor(a) && a <= y
    requires Lone(x + y, o.anchor)
    ensures Lone(x + block + y, o.anchor)
    ensures Settled(f, x + y, o) ==> Settled(f, x + block + y, o)
  {
    hide Core, Contains, OccursAt, Indent, AllSpace, Gap;
    var c, t := x + y, x + block + y;
    var q: nat :| LoneAt(c, o.anchor, q) && (Settled(f, c, o) ==> Contains(c, Indent(c, q) + Core(f, o)));
    var q' := LoneStays(x, block, y, o.anchor, q);
    if Settled(f, c, o) {
      LoneIsFirst(c, o.anchor, q);
      var s, s' := Indent(c, q) + Core(f, o), Indent(t, q') + Core(f, o);
      CoreIsLine(f, o, Indent(c, q));
      SentinelSpares(f, o, a, Indent(c, q));
      SentinelStays(x, block, y, s, a);
      assert IsSuffix(s', s);
      ContainsSuffix(t, s, s');
    }
  }

  lemma GapBefore(c: string, a: string, q: nat)
    requires LoneAt(c, a, q) && GoodAnchor(a)
    ensures q <= |c| && Gap(c[..q], c[q..]) && a <= c[q..]
  {
    OccursOnOneLine(c, a, q);
    LineStartRange(c, q);
    var x, ls := c[..q], LineStart(c, q);
    LineStartIs(x, q, ls);
    assert LastLine(x) == c[ls..q];
    assert c[q..][..|a|] == c[q..q + |a|];
  }

  lemma GapAfter(c: string, end: nat)
    requires end < |c| && c[end] == '\n'
    ensures Gap(c[..end + 1], c[end + 1..]) && LastLine(c[..end + 1]) == ""
  {
    LineStartIs(c[..end + 1], end + 1, end + 1);
  }

  lemma StillLone(c: string, a: string, q: nat)
    requires GoodAnchor(a) && LoneAt(c, a, q)
    ensures LoneAt(c + "\n", a, q) && Indent(c + "\n", q) == Indent(c, q)
  {
    var t := c + "\n";
    OccursOnOneLine(c, a, q);
    OccursInPrefix(c, t, a, q, |c|);
    assert t[|c|] == '\n';
    forall r | OccursAt(t, a, r) ensures q <= r {
      OccursOnOneLine(t, a, r);
      OccursInPrefix(c, t, a, r, |c|);
    }
    SameLineStart(c, t, q, |c|);
  }

  /** A newline at the very end of the file changes nothing for a patch. */
  lemma {:induction false} NewlineKeeps(f: Feature, c: string, o: Patch)
    requires GoodAnchor(o.anchor) && Lone(c, o.anchor)
    ensures Lone(c + "\n", o.anchor)
    ensures Settled(f, c, o) ==> Settled(f, c + "\n", o)
  {
    hide Core, Contains, Indent, LoneAt, GoodAnchor;
    var q: nat :| LoneAt(c, o.anchor, q) && (Settled(f, c, o) ==> Contains(c, Indent(c, q) + Core(f, o)));
    StillLone(c, o.anchor, q);
    if Settled(f, c, o) { ContainsFront(c, "\n", Indent(c, q) + Core(f, o)); }
  }

  lemma PatchedAfter(f: Feature, c: string, p: Patch, q: nat, c1: string, block: string)
    requires LoneAt(c, p.anchor, q) && GoodAnchor(p.anchor) && !p.before
    requires block == p.insert + SentinelFor(f, p, Indent(c, q)) && !Contains(c, SentinelFor(f, p, Indent(c, q)))
    requires c1 == if q + |p.anchor| == |c| then c + "\n" else c
    ensures Patched(f, c, p) == Ok(c1[..q + |p.anchor| + 1] + block + c1[q + |p.anchor| + 1..])
  {
    hide Core, Contains, Indent, OccursAt;
    LoneIsFirst(c, p.anchor, q);
    var end := q + |p.anchor|;
    assert c1[..end + 1] == c[..end] + "\n";
    if end < |c| { assert c[end..][1..] == c[end + 1..]; }
  }

  /** What one patch of a file does to another patch of it; a and b may be the same. */
  lemma {:induction false} PatchKeeps(f: Feature, c: string, p: Patch, o: Patch)
    requires f.Valid() && GoodAnchor(p.anchor) && GoodAnchor(o.anchor)
    requires Spares(f, p, o.anchor) && Spares(f, o, p.anchor)
    requires Lone(c, p.anchor) && Lone(c, o.anchor)
    ensures Patched(f, c, p).Ok? && Lone(Patched(f, c, p).value, o.anchor)
    ensures Settled(f, c, o) ==> Settled(f, Patched(f, c, p).value, o)
  {
    hide Core, Contains, OccursAt, LoneAt, Indent, AllSpace, Gap, Settled, Lone, Spares, GoodAnchor, LastLine;
    var q := LonePlace(c, p.anchor);
    if !Contains(c, SentinelFor(f, p, Indent(c, q))) {
      if p.before { BeforeKeeps(f, c, p, q, o); } else { AfterKeeps(f, c, p, q, o); }
    }
  }

  lemma LonePlace(c: string, a: string) returns (q: nat)
    requires Lone(c, a)
    ensures LoneAt(c, a, q) && IndexFrom(c, a, 0) == Some(q) && q + |a| <= |c| && AllSpace(Indent(c, q))
  {
    q :| LoneAt(c, a, q);
    LoneIsFirst(c, a, q);
  }

  lemma BlockSpares(f: Feature, p: Patch, indent: string, a: string)
    requires f.Valid() && GoodAnchor(p.anchor) && Spares(f, p, a) && AllSpace(indent)
    ensures var block := p.insert + SentinelFor(f, p, indent);
            block != "" && block[|block| - 1] == '\n' && !Contains(block, a)
  {
    hide Core, Contains, AllSpace;
    CoreIsLine(f, p, indent);
  }

  lemma BeforeKeeps(f: Feature, c: string, p: Patch, q: nat, o: Patch)
    requires f.Valid() && p.before && GoodAnchor(p.anchor) && GoodAnchor(o.anchor)
    requires Spares(f, p, o.anchor) && Spares(f, o, p.anchor)
    requires LoneAt(c, p.anchor, q) && IndexFrom(c, p.anchor, 0) == Some(q) && AllSpace(Indent(c, q)) && Lone(c, o.anchor)
    requires !Contains(c, SentinelFor(f, p, Indent(c, q)))
    ensures Patched(f, c, p).Ok? && Lone(Patched(f, c, p).value, o.anchor)
    ensures Settled(f, c, o) ==> Settled(f, Patched(f, c, p).value, o)
  {
    hide Core, Contains, OccursAt, LoneAt, Indent, AllSpace, Gap, Settled, Lone, Spares, GoodAnchor, LastLine;
    var block := p.insert + SentinelFor(f, p, Indent(c, q));
    BlockSpares(f, p, Indent(c, q), o.anchor);
    GapBefore(c, p.anchor, q);
    assert c[..q] + c[q..] == c;
    InsertKeeps(f, c[..q], block, c[q..], p.anchor, o);
  }

  lemma AfterKeeps(f: Feature, c: string, p: Patch, q: nat, o: Patch)
    requires f.Valid() && !p.before && GoodAnchor(p.anchor) && GoodAnchor(o.anchor)
    requires Spares(f, p, o.anchor) && Spares(f, o, p.anchor)
    requires LoneAt(c, p.anchor, q) && q + |p.anchor| <= |c| && AllSpace(Indent(c, q)) && Lone(c, o.anchor)
    requires !Contains(c, SentinelFor(f, p, Indent(c, q)))
    ensures Patched(f, c, p).Ok? && Lone(Patched(f, c, p).value, o.anchor)
    ensures Settled(f, c, o) ==> Settled(f, Patched(f, c, p).value, o)
  {
    hide Core, Contains, OccursAt, Indent, AllSpace, Gap, Settled, Lone, Spares, GoodAnchor, LastLine, Patched;
    var block := p.insert + SentinelFor(f, p, Indent(c, q));
    BlockSpares(f, p, Indent(c, q), o.anchor);
    var end := q + |p.anchor|;
    var c1 := if end == |c| then c + "\n" else c;
    NewlineKeeps(f, c, o);
    GapAfter(c1, end);
    assert c1[..end + 1] + c1[end + 1..] == c1;
    InsertKeeps(f, c1[..end + 1], block, c1[end + 1..], p.anchor, o);
    PatchedAfter(f, c, p, q, c1, block);
  }

  /** A patch that has been applied is settled. */
  lemma {:induction false} PatchSettles(f: Feature, c: string, p: Patch)
    requires f.Valid() && GoodAnchor(p.anchor) && Spares(f, p, p.anchor) && Lone(c, p.anchor)
    ensures Patched(f, c, p).Ok? && Settled(f, Patched(f, c, p).value, p)
  {
    hide Core, Contains, OccursAt, LoneAt, Indent, AllSpace, Gap, Lone, Spares, GoodAnchor, LastLine;
    var q := LonePlace(c, p.anchor);
    PatchKeeps(f, c, p, p);
    var next := Patched(f, c, p).value;
    var q' := LonePlace(next, p.anchor);
    if next == c {
      InsertionIsLonger(f, c, p, q);
    } else if p.before {
      BeforeSettles(f, c, p, q);
    } else {
      AfterIsIdempotent(f, c, p);
      InsertionIsLonger(f, next, p, q');
    }
  }

  lemma InsertionIsLonger(f: Feature, c: string, p: Patch, q: nat)
    requires IndexFrom(c, p.anchor, 0) == Some(q) && Patched(f, c, p) == Ok(c)
    ensures Contains(c, SentinelFor(f, p, Indent(c, q)))
  {
    hide Indent, Contains;
    assert SentinelFor(f, p, Indent(c, q)) != "";
  }

  lemma {:induction false} BeforeSettles(f: Feature, c: string, p: Patch, q: nat)
    requires f.Valid() && p.before && GoodAnchor(p.anchor) && Spares(f, p, p.anchor)
    requires LoneAt(c, p.anchor, q) && IndexFrom(c, p.anchor, 0) == Some(q) && AllSpace(Indent(c, q))
    requires !Contains(c, SentinelFor(f, p, Indent(c, q)))
    ensures Patched(f, c, p).Ok? && Settled(f, Patched(f, c, p).value, p)
  {
    hide Core, Contains, OccursAt, LoneAt, Indent, AllSpace, Gap, Lone, Spares, GoodAnchor, LastLine;
    var sentinel := SentinelFor(f, p, Indent(c, q));
    var block := p.insert + sentinel;
    BlockSpares(f, p, Indent(c, q), p.anchor);
    GapBefore(c, p.anchor, q);
    assert c[..q] + c[q..] == c;
    var q' := LoneStays(c[..q], block, c[q..], p.anchor, q);
    var next := c[..q] + block + c[q..];
    assert next == (c[..q] + p.insert) + sentinel + c[q..];
    ContainsMiddle(c[..q] + p.insert, sentinel, c[q..]);
    assert IsSuffix(Indent(next, q') + Core(f, p), sentinel);
    ContainsSuffix(next, sentinel, Indent(next, q') + Core(f, p));
  }

  /** What the patches of a feature, and the files before they were first applied, have to satisfy. */
  ghost predicate Wellbehaved(f: Feature, files: map<string, string>, ps: seq<Patch>) {
    (forall p :: p in ps ==> GoodAnchor(p.anchor) && (p.file in files ==> Lone(files[p.file], p.anchor))) &&
    forall p, o :: p in ps && o in ps && p.file == o.file ==> Spares(f, p, o.anchor)
  }

  ghost predicate SettledUpTo(f: Feature, files: map<string, string>, ps: seq<Patch>, n: nat)
    requires n <= |ps|
  {
    forall k :: 0 <= k < n && ps[k].file in files ==> Settled(f, files[ps[k].file], ps[k])
  }

  lemma {:induction false} OneMoreSettled(f: Feature, files: map<string, string>, ps: seq<Patch>, n: nat)
    requires f.Valid() && Wellbehaved(f, files, ps) && n < |ps| && ps[n].file in files
    requires SettledUpTo(f, files, ps, n)
    ensures Patched(f, files[ps[n].file], ps[n]).Ok?
    ensures var now := files[ps[n].file := Patched(f, files[ps[n].file], ps[n]).value];
            Wellbehaved(f, now, ps) && SettledUpTo(f, now, ps, n + 1)
  {
    hide Spares, Lone, Settled, GoodAnchor, Patched;
    var p := ps[n];
    assert p in ps;
    PatchSettles(f, files[p.file], p);
    var now := files[p.file := Patched(f, files[p.file], p).value];
    forall o | o in ps && o.file == p.file
      ensures Lone(now[o.file], o.anchor) && (Settled(f, files[o.file], o) ==> Settled(f, now[o.file], o))
    {
      PatchKeeps(f, files[p.file], p, o);
    }
    forall k | 0 <= k <= n && ps[k].file in now ensures Settled(f, now[ps[k].file], ps[k]) {
      assert ps[k] in ps;
    }
  }

  lemma {:induction false} AppliedAreSettled(f: Feature, files: map<string, string>, ps: seq<Patch>, n: nat, tolerate: bool)
    requires f.Valid() && Wellbehaved(f, files, ps) && n <= |ps|
    requires AllPatched(f, files, ps[..n], tolerate).Ok?
    ensures var now := AllPatched(f, files, ps[..n], tolerate).value;
            Wellbehaved(f, now, ps) && SettledUpTo(f, now, ps, n)
  {
    hide *;
    if n == 0 {
      assert ps[..0] == [];
      NothingPatched(f, files, tolerate);
      NothingSettled(f, files, ps);
    } else {
      assert ps[..n][..n - 1] == ps[..n - 1];
      OkAgain(f, files, ps[..n], tolerate);
      AppliedAreSettled(f, files, ps, n - 1, tolerate);
      var before := AllPatched(f, files, ps[..n - 1], tolerate).value;
      assert ps[..n][n - 1] == ps[n - 1];
      OneOk(f, before, ps[n - 1], tolerate);
      if ps[n - 1].file in before {
        OneMoreSettled(f, before, ps, n - 1);
      } else {
        NothingToSettle(f, before, ps, n - 1);
      }
    }
  }

  lemma NothingPatched(f: Feature, files: map<string, string>, tolerate: bool)
    ensures AllPatched(f, files, [], tolerate) == Ok(files)
  {}

  lemma NothingSettled(f: Feature, files: map<string, string>, ps: seq<Patch>)
    ensures SettledUpTo(f, files, ps, 0)
  {}

  lemma NothingToSettle(f: Feature, files: map<string, string>, ps: seq<Patch>, n: nat)
    requires n < |ps| && ps[n].file !in files && SettledUpTo(f, files, ps, n)
    ensures SettledUpTo(f, files, ps, n + 1)
  {
    hide Settled;
  }

  lemma {:induction false} SettledFilesStay(f: Feature, files: map<string, string>, ps: seq<Patch>, n: nat, tolerate: bool)
    requires n <= |ps| && SettledUpTo(f, files, ps, n)
    requires forall k :: 0 <= k < n && ps[k].file !in files ==> tolerate
    ensures AllPatched(f, files, ps[..n], tolerate) == Ok(files)
  {
    if n > 0 {
      hide Settled, Patched;
      var p := ps[n - 1];
      assert ps[..n][..n - 1] == ps[..n - 1];
      SettledFilesStay(f, files, ps, n - 1, tolerate);
      if p.file in files {
        assert Settled(f, files[p.file], p);
        SettledChangesNothing(f, files[p.file], p);
        assert files[p.file := files[p.file]] == files;
      }
    }
  }

  lemma OneOk(f: Feature, files: map<string, string>, p: Patch, tolerate: bool)
    requires PatchedFiles(f, files, p, tolerate).Ok?
    ensures p.file in files ==>
              Patched(f, files[p.file], p).Ok? &&
              PatchedFiles(f, files, p, tolerate).value == files[p.file := Patched(f, files[p.file], p).value]
    ensures p.file !in files ==> PatchedFiles(f, files, p, tolerate).value == files && tolerate
    ensures PatchedFiles(f, files, p, tolerate).value.Keys == files.Keys
  {
    hide Patched;
  }

  lemma OkAgain(f: Feature, files: map<string, string>, ps: seq<Patch>, tolerate: bool)
    requires ps != [] && AllPatched(f, files, ps, tolerate).Ok?
    ensures var before := AllPatched(f, files, ps[..|ps| - 1], tolerate);
            before.Ok? && AllPatched(f, files, ps, tolerate) == PatchedFiles(f, before.value, ps[|ps| - 1], tolerate)
  {
    hide PatchedFiles;
  }

  lemma {:induction false} OkNeedsTolerance(f: Feature, files: map<string, string>, ps: seq<Patch>, tolerate: bool, k: nat)
    requires AllPatched(f, files, ps, tolerate).Ok? && k < |ps| && ps[k].file !in files
    ensures tolerate
  {
    hide PatchedFiles, AllPatched;
    var n := |ps| - 1;
    OkAgain(f, files, ps, tolerate);
    if k < n {
      OkNeedsTolerance(f, files, ps[..n], tolerate, k);
    } else {
      var before := AllPatched(f, files, ps[..n], tolerate).value;
      KeysStay(f, files, ps[..n], tolerate);
      OneOk(f, before, ps[n], tolerate);
    }
  }

  lemma {:induction false} KeysStay(f: Feature, files: map<string, string>, ps: seq<Patch>, tolerate: bool)
    requires AllPatched(f, files, ps, tolerate).Ok?
    ensures AllPatched(f, files, ps, tolerate).value.Keys == files.Keys
  {
    if ps != [] {
      hide PatchedFiles, AllPatched;
      OkAgain(f, files, ps, tolerate);
      var before := AllPatched(f, files, ps[..|ps| - 1], tolerate).value;
      KeysStay(f, files, ps[..|ps| - 1], tolerate);
      OneOk(f, before, ps[|ps| - 1], tolerate);
    }
  }

  /**
   Re-applying. When every anchor, where it first occurs, is alone on its line, and nothing that is inserted
   holds an anchor of the same file, running the whole list again on its own output changes no file.
   */
  lemma {:induction false} RerunChangesNothing(f: Feature, files: map<string, string>, ps: seq<Patch>, tolerate: bool)
    requires f.Valid() && Wellbehaved(f, files, ps)
    requires AllPatched(f, files, ps, tolerate).Ok?
    ensures var out := AllPatched(f, files, ps, tolerate).value;
            AllPatched(f, out, ps, tolerate) == Ok(out)
  {
    hide *;
    assert ps[..|ps|] == ps;
    AppliedAreSettled(f, files, ps, |ps|, tolerate);
    var out := AllPatched(f, files, ps, tolerate).value;
    KeysStay(f, files, ps, tolerate);
    forall k | 0 <= k < |ps| && ps[k].file !in out ensures tolerate { OkNeedsTolerance(f, files, ps, tolerate, k); }
    SettledFilesStay(f, out, ps, |ps|, tolerate);
  }

  // ---------------------------------------------------------------- the first run

  /** The sentinel of a patch: a comment in the style of the anchor, with the hash of anchor and text. */
  ghost function SentinelText(f: Feature, p: Patch, indent: string): string {
    var mark := if exists i :: 0 <= i < |p.anchor| && p.anchor[i] == '#' then "#" else "//";
    indent + mark + " projx-feature: " + f.name + " " + f.hash(p.anchor + "|" + p.insert) + "\n"
  }

  ghost predicate IsSentinel(f: Feature, p: Patch, s: string) {
    exists indent :: AllSpace(indent) && s == SentinelText(f, p, indent)
  }

  /** Position r is behind nothing but an indent. */
  ghost predicate StartsLine(c: string, r: nat) {
    exists ls: nat :: ls <= r <= |c| && (ls == 0 || c[ls - 1] == '\n') && AllSpace(c[ls..r])
  }

  /** The text of the patch stands in the file, at the start of a line, and a sentinel of the patch behind it. */
  ghost predicate Inserted(f: Feature, c: string, p: Patch) {
    exists r: nat, s :: IsSentinel(f, p, s) && OccursAt(c, p.insert + s, r) && StartsLine(c, r)
  }

  /** No line of the file ends as the sentinel does. */
  ghost predicate Unmarked(f: Feature, c: string, p: Patch) {
    forall s :: IsSentinel(f, p, s) ==> !Contains(c + "\n", s)
  }

  /** The files hold no sentinel of the patches yet, nor do inserted texts, and the hashes of the patches of a file differ. */
  ghost predicate Fresh(f: Feature, files: map<string, string>, ps: seq<Patch>) {
    (forall p :: p in ps && p.file in files ==> Unmarked(f, files[p.file], p)) &&
    forall i, j :: 0 <= i < j < |ps| && ps[i].file == ps[j].file ==> Differ(f, ps[i], ps[j])
  }

  ghost predicate Differ(f: Feature, p: Patch, o: Patch) {
    f.hash(p.anchor + "|" + p.insert) != f.hash(o.anchor + "|" + o.insert) &&
    forall s :: IsSentinel(f, o, s) ==> !Contains(p.insert, s)
  }

  lemma MarkIs(p: Patch)
    ensures (if exists i :: 0 <= i < |p.anchor| && p.anchor[i] == '#' then "#" else "//") + " projx-feature: " ==
            (if '#' in p.anchor then "# " else "// ") + "projx-feature: "
  {
    assert '#' in p.anchor <==> exists i :: 0 <= i < |p.anchor| && p.anchor[i] == '#';
  }

  lemma Indented(indent: string, mark: string, k: string, name: string, blank: string, h: string, end: string)
    ensures indent + mark + k + name + blank + h + end == indent + (mark + k + name + blank + h + end)
  {}

  lemma {:induction false} SentinelTextIs(f: Feature, p: Patch, indent: string)
    ensures SentinelText(f, p, indent) == indent + Core(f, p)
  {
    MarkIs(p);
    var mark := if exists i :: 0 <= i < |p.anchor| && p.anchor[i] == '#' then "#" else "//";
    Indented(indent, mark, " projx-feature: ", f.name, " ", f.hash(p.anchor + "|" + p.insert), "\n");
  }

  lemma CoreIsSentinel(f: Feature, p: Patch, indent: string)
    requires AllSpace(indent)
    ensures IsSentinel(f, p, indent + Core(f, p))
  {
    SentinelTextIs(f, p, indent);
  }

  lemma SentinelIsCore(f: Feature, p: Patch, s: string)
    requires IsSentinel(f, p, s)
    ensures exists indent :: AllSpace(indent) && s == indent + Core(f, p)
  {
    hide Core, SentinelText;
    var indent :| AllSpace(indent) && s == SentinelText(f, p, indent);
    SentinelTextIs(f, p, indent);
  }

  lemma UnmarkedHasNoCore(f: Feature, c: string, p: Patch)
    ensures Unmarked(f, c, p) <==> !Contains(c + "\n", Core(f, p))
  {
    hide Core, Contains;
    assert AllSpace("") && "" + Core(f, p) == Core(f, p);
    CoreIsSentinel(f, p, "");
    forall s | IsSentinel(f, p, s) && Contains(c + "\n", s) ensures Contains(c + "\n", Core(f, p)) {
      SentinelIsCore(f, p, s);
      var indent :| AllSpace(indent) && s == indent + Core(f, p);
      assert IsSuffix(Core(f, p), s);
      ContainsSuffix(c + "\n", s, Core(f, p));
    }
  }

  /** After the insertion of a block that does not hold the core of a sentinel the core is in the file only if it was before. */
  lemma {:induction false} NewCore(x: string, block: string, y: string, core: string)
    requires Gap(x, y) && IsLine(core) && !JsSpace(core[0]) && block != "" && block[|block| - 1] == '\n'
    requires !Contains(x + y, core) && !Contains(block, core)
    ensures !Contains(x + block + y, core)
  {
    var t, ls := x + block + y, LineStart(x, |x|);
    forall i | ls <= i < |x| ensures JsSpace(t[i]) { assert t[i] == LastLine(x)[i - ls]; }
    assert forall i :: 0 <= i < |x| ==> t[i] == x[i];
    if Contains(t, core) {
      var r :| 0 <= r <= |t| && OccursAt(t, core, r);
      LineShape(t, core, r);
      LineStartRange(x, |x|);
      if r >= |x| + |block| {
        OccursBehind(x + block, y, core, r);
        OccursAfter(x, y, core, r - |x| - |block|);
      } else if r >= |x| {
        assert t[|x| + |block| - 1] == '\n';
        InBlock(x, block, y, core, r);
      } else if r + |core| <= |x| {
        OccursInPrefix(t, x + y, core, r, |x|);
      } else {
        assert false;
      }
    }
  }

  lemma {:induction false} OneMoreLine(c: string, core: string)
    requires IsLine(core) && |core| > 1 && !Contains(c + "\n", core)
    ensures !Contains(c + "\n" + "\n", core)
  {
    var t := c + "\n" + "\n";
    if Contains(t, core) {
      var r :| 0 <= r <= |t| && OccursAt(t, core, r);
      LineShape(t, core, r);
      assert t[|c|] == '\n';
      OccursInPrefix(t, c + "\n", core, r, |c| + 1);
    }
  }

  /** Both ends of a text: a core that ends it where another one does has the same hash. */
  lemma {:induction false} SameEndSameHash(t: string, a: string, h: string, b: string, g: string)
    requires IsSuffix(a + " " + h + "\n", t) && IsSuffix(b + " " + g + "\n", t) && ' ' !in h && ' ' !in g
    ensures h == g
  {
    EndsWith(t, a, h);
    EndsWith(t, b, g);
  }

  lemma EndsWith(t: string, a: string, h: string)
    requires IsSuffix(a + " " + h + "\n", t) && ' ' !in h
    ensures |t| >= |h| + 2 && t[|t| - 1 - |h|..|t| - 1] == h && t[|t| - 2 - |h|] == ' '
    ensures forall i :: |t| - 1 - |h| <= i < |t| - 1 ==> t[i] != ' '
  {
    var s := a + " " + h + "\n";
    var k := |t| - |s|;
    assert forall i :: 0 <= i < |s| ==> t[k + i] == t[k..][i] == s[i];
    assert s[|a|] == ' ' && s[|a| + 1..|s| - 1] == h;
    assert t[|t| - 1 - |h|..|t| - 1] == h;
    assert forall i :: |t| - 1 - |h| <= i < |t| - 1 ==> t[i] == t[|t| - 1 - |h|..|t| - 1][i - (|t| - 1 - |h|)];
  }

  lemma {:induction false} BlockLacksCore(f: Feature, p: Patch, o: Patch, indent: string)
    requires f.Valid() && '\n' !in p.anchor && '\n' !in o.anchor && AllSpace(indent)
    requires f.hash(p.anchor + "|" + p.insert) != f.hash(o.anchor + "|" + o.insert) && !Contains(p.insert, Core(f, o))
    ensures !Contains(p.insert + SentinelFor(f, p, indent), Core(f, o))
  {
    HashIsWord(f, p);
    HashIsWord(f, o);
    hide *;
    var sentinel := indent + Core(f, p);
    var block, core := p.insert + sentinel, Core(f, o);
    SentinelForIs(f, p, indent);
    NoIndent(core);
    CoreIsLine(f, p, indent);
    CoreIsLine(f, o, "");
    CoreParts(f, p);
    CoreParts(f, o);
    if Contains(block, core) {
      var r := Somewhere(block, core);
      LineEndsWhere(p.insert, sentinel, core, r);
      if r + |core| <= |p.insert| {
        InFront(p.insert, sentinel, core, r);
      } else {
        EndsAll(block, core, r);
        AtEnd(p.insert, indent, Core(f, p));
        SameEndSameHash(block, CoreStart(f, p), f.hash(p.anchor + "|" + p.insert), CoreStart(f, o), f.hash(o.anchor + "|" + o.insert));
      }
    }
  }

  lemma HashIsWord(f: Feature, p: Patch)
    requires f.Valid()
    ensures ' ' !in f.hash(p.anchor + "|" + p.insert)
  {}

  lemma SentinelForIs(f: Feature, p: Patch, indent: string)
    ensures SentinelFor(f, p, indent) == indent + Core(f, p)
  {}

  lemma NoIndent(s: string)
    ensures AllSpace("") && "" + s == s
  {}

  lemma InFront(x: string, y: string, s: string, r: nat)
    requires OccursAt(x + y, s, r) && r + |s| <= |x|
    ensures Contains(x, s)
  {
    OccursInPrefix(x + y, x, s, r, |x|);
  }

  lemma EndsAll(t: string, s: string, r: nat)
    requires OccursAt(t, s, r) && r + |s| == |t|
    ensures IsSuffix(s, t)
  {}

  lemma AtEnd(insert: string, indent: string, core: string)
    ensures IsSuffix(core, insert + (indent + core))
  {}

  function CoreStart(f: Feature, p: Patch): string {
    (if '#' in p.anchor then "# " else "// ") + "projx-feature: " + f.name
  }

  lemma CoreParts(f: Feature, p: Patch)
    ensures Core(f, p) == CoreStart(f, p) + " " + f.hash(p.anchor + "|" + p.insert) + "\n"
  {}

  lemma LineEndsWhere(insert: string, sentinel: string, core: string, r: nat)
    requires IsLine(sentinel) && IsLine(core) && OccursAt(insert + sentinel, core, r)
    ensures r + |core| <= |insert| || r + |core| == |insert + sentinel|
  {
    var t, e := insert + sentinel, r + |core| - 1;
    assert forall k :: |insert| <= k < |t| - 1 ==> t[k] == sentinel[..|sentinel| - 1][k - |insert|];
    LineShape(t, core, r);
  }

  /** A block that starts a line and holds no anchor of the insertion is not cut in two by it, and still starts a line. */
  lemma {:induction false} BlockStays(x: string, block: string, y: string, a: string, q: nat, b: string, r: nat)
    requires GoodAnchor(a) && block != "" && block[|block| - 1] == '\n' && b != "" && b[|b| - 1] == '\n' && !Contains(b, a)
    requires OccursAt(x + y, a, q) && (q == |x| || q + |a| + 1 == |x|)
    requires OccursAt(x + y, b, r) && StartsLine(x + y, r)
    ensures exists r': nat :: OccursAt(x + block + y, b, r') && StartsLine(x + block + y, r')
  {
    NotCut(x + y, a, q, |x|, b, r);
    OccursShort(x + y, b, r);
    hide *;
    StillOccurs(x, block, y, b, r);
    if r + |b| <= |x| { StartsAbove(x, block, y, r); } else { StartsBelow(x, block, y, r); }
  }

  lemma StartsAbove(x: string, block: string, y: string, r: nat)
    requires StartsLine(x + y, r) && r <= |x|
    ensures StartsLine(x + block + y, r)
  {
    var ls := LinePrefix(x + y, r);
    assert (x + block + y)[ls..r] == (x + y)[ls..r];
  }

  lemma StartsBelow(x: string, block: string, y: string, r: nat)
    requires StartsLine(x + y, r) && r >= |x| && block != "" && block[|block| - 1] == '\n'
    ensures StartsLine(x + block + y, r + |block|)
  {
    var c, t := x + y, x + block + y;
    var ls := LinePrefix(c, r);
    var from := if ls > |x| then ls else |x|;
    assert t[from + |block|..r + |block|] == c[from..r];
    assert t[from + |block| - 1] == '\n';
  }

  lemma LinePrefix(c: string, r: nat) returns (ls: nat)
    requires StartsLine(c, r)
    ensures ls <= r <= |c| && (ls == 0 || c[ls - 1] == '\n') && AllSpace(c[ls..r])
    ensures forall i :: ls <= i < r ==> JsSpace(c[i]) && c[i] != '\n'
  {
    ls :| ls <= r <= |c| && (ls == 0 || c[ls - 1] == '\n') && AllSpace(c[ls..r]);
    forall i | ls <= i < r ensures JsSpace(c[i]) && c[i] != '\n' { assert c[ls..r][i - ls] == c[i]; }
  }

  lemma NotCut(c: string, a: string, q: nat, n: nat, b: string, r: nat)
    requires GoodAnchor(a) && OccursAt(c, a, q) && (q == n || q + |a| + 1 == n)
    requires OccursAt(c, b, r) && StartsLine(c, r) && b != "" && b[|b| - 1] == '\n' && !Contains(b, a)
    ensures r + |b| <= n || r >= n
  {
    OccursOnOneLine(c, a, q);
    OccursShort(c, b, r);
    var ls := LinePrefix(c, r);
    if r < n < r + |b| {
      if r <= q {
        assert c[r + |b| - 1] == c[r..r + |b|][|b| - 1] == '\n';
        SliceOfSlice(c, r, |b|, q - r, |a|);
        assert OccursAt(b, a, q - r);
      } else {
        assert false;
      }
    }
  }

  /** What inserting a block of p does for another patch o of the file: its text stays, or it stays unmarked. */
  lemma {:induction false} InsertionSpares(f: Feature, x: string, block: string, y: string, a: string, q: nat, o: Patch)
    requires f.Valid() && GoodAnchor(a) && block != "" && block[|block| - 1] == '\n'
    requires OccursAt(x + y, a, q) && (q == |x| || q + |a| + 1 == |x|) && Spares(f, o, a) && '\n' !in o.anchor
    ensures Inserted(f, x + y, o) ==> Inserted(f, x + block + y, o)
  {
    if Inserted(f, x + y, o) {
      hide Core, Contains, OccursAt, StartsLine, GoodAnchor;
      var r: nat, s :| IsSentinel(f, o, s) && OccursAt(x + y, o.insert + s, r) && StartsLine(x + y, r);
      SentinelIsCore(f, o, s);
      var indent :| AllSpace(indent) && s == indent + Core(f, o);
      CoreIsLine(f, o, indent);
      BlockStays(x, block, y, a, q, o.insert + s, r);
    }
  }

  lemma {:induction false} StaysUnmarked(f: Feature, x: string, block: string, y: string, o: Patch)
    requires f.Valid() && Gap(x, y + "\n") && block != "" && block[|block| - 1] == '\n' && '\n' !in o.anchor
    requires Unmarked(f, x + y, o) && !Contains(block, Core(f, o))
    ensures Unmarked(f, x + block + y, o)
  {
    hide Core, Contains, Gap;
    assert AllSpace("") && "" + Core(f, o) == Core(f, o);
    CoreIsLine(f, o, "");
    UnmarkedHasNoCore(f, x + y, o);
    UnmarkedHasNoCore(f, x + block + y, o);
    assert x + y + "\n" == x + (y + "\n") && x + block + y + "\n" == x + block + (y + "\n");
    NewCore(x, block, y + "\n", Core(f, o));
  }

  /** The indent of what stands at q: the white space that its line begins with. */
  ghost predicate IsIndent(c: string, q: nat, indent: string) {
    (q < |c| && c[q] == '\n' && indent == "") ||
    exists ls: nat :: ls <= q <= |c| && (ls == 0 || c[ls - 1] == '\n') && '\n' !in c[ls..q] && indent <= c[ls..q] && AllSpace(indent) &&
                      (ls + |indent| == q || !JsSpace(c[ls + |indent|]))
  }

  lemma {:induction false} IndentIs(c: string, q: nat)
    requires q <= |c|
    ensures IsIndent(c, q, Indent(c, q)) && AllSpace(Indent(c, q))
  {
    LineStartRange(c, q);
    var ls := LineStart(c, q);
    if ls <= q {
      LeadingIs(c[ls..q]);
      assert forall i :: ls <= i < q ==> c[i] != '\n';
    } else {
      LineStartBehind(c, q);
    }
  }

  lemma {:induction false} LineStartBehind(c: string, q: nat)
    requires q <= |c| && LineStart(c, q) > q
    ensures q < |c| && c[q] == '\n'
  {
    if q > 0 && !(q < |c| && c[q] == '\n') { LineStartRange(c, q - 1); }
  }

  lemma {:induction false} LeadingIs(s: string)
    requires '\n' !in s
    ensures var r := LeadingSpace(s); r <= s && AllSpace(r) && (|r| == |s| || !JsSpace(s[|r|]))
  {
    if s != "" && JsSpace(s[0]) { LeadingIs(s[1..]); }
  }

  /** The file with a block put in front of the anchor at q, or on the lines after it. */
  function PutIn(c: string, p: Patch, q: nat, block: string): string
    requires q + |p.anchor| <= |c|
  {
    var end := q + |p.anchor|;
    if p.before then c[..q] + block + c[q..]
    else if end == |c| then c + "\n" + block
    else if c[end] == '\n' then c[..end + 1] + block + c[end + 1..]
    else c[..end] + "\n" + block + c[end..]
  }

  /** A patch whose sentinel is not in the file puts its text at the first anchor, its sentinel behind it. */
  lemma {:induction false} PatchInserts(f: Feature, c: string, p: Patch, q: nat)
    requires OccursAt(c, p.anchor, q) && (forall r :: OccursAt(c, p.anchor, r) ==> q <= r) && Unmarked(f, c, p)
    ensures q + |p.anchor| <= |c| && IsIndent(c, q, Indent(c, q))
    ensures Patched(f, c, p) == Ok(PutIn(c, p, q, p.insert + SentinelText(f, p, Indent(c, q))))
  {
    IndentIs(c, q);
    OccursShort(c, p.anchor, q);
    hide *;
    SentinelTextIs(f, p, Indent(c, q));
    UnmarkedHasNoCore(f, c, p);
    ContainsFront(c, "\n", Core(f, p));
    NoCoreNoSentinel(c, Indent(c, q), Core(f, p));
    PatchedIs(f, c, p, q, Indent(c, q) + Core(f, p));
  }

  lemma ContainsFront(c: string, rest: string, s: string)
    ensures Contains(c, s) ==> Contains(c + rest, s)
  {
    if Contains(c, s) {
      assert c + rest == "" + c + rest;
      ContainsMiddle("", c, rest);
      ContainsPart(c + rest, c, s);
    }
  }

  lemma PatchedIs(f: Feature, c: string, p: Patch, q: nat, sentinel: string)
    requires OccursAt(c, p.anchor, q) && forall r :: OccursAt(c, p.anchor, r) ==> q <= r
    requires sentinel == Indent(c, q) + Core(f, p) && !Contains(c, sentinel)
    ensures q + |p.anchor| <= |c| && Patched(f, c, p) == Ok(PutIn(c, p, q, p.insert + sentinel))
  {
    hide Core, Contains, Indent;
    assert IndexFrom(c, p.anchor, 0) == Some(q);
    AfterAnchor(c, q + |p.anchor|, p.insert + sentinel);
  }

  lemma AfterAnchor(c: string, end: nat, block: string)
    requires end <= |c|
    ensures end == |c| ==> c[..end] + "\n" + block + c[end..] == c + "\n" + block
    ensures end < |c| && c[end] == '\n' ==> c[..end] + "\n" + block + c[end..][1..] == c[..end + 1] + block + c[end + 1..]
  {
    if end < |c| && c[end] == '\n' { assert c[..end] + "\n" == c[..end + 1] && c[end..][1..] == c[end + 1..]; }
  }

  lemma {:induction false} AtGapBefore(c: string, p: Patch, q: nat, block: string) returns (x: string, y: string)
    requires p.before && GoodAnchor(p.anchor) && LoneAt(c, p.anchor, q)
    ensures q + |p.anchor| <= |c| && PutIn(c, p, q, block) == x + block + y && Gap(x, y + "\n")
    ensures x + y == c && q == |x| && StartsLine(x, |x|)
  {
    OccursOnOneLine(c, p.anchor, q);
    GapBefore(c, p.anchor, q);
    x, y := c[..q], c[q..];
    LineStartRange(c, q);
    var ls := LineStart(c, q);
    hide LineStart, GoodAnchor, OccursAt, AllSpace;
    assert x[ls..|x|] == c[ls..q];
    assert StartsLine(x, |x|);
  }

  lemma {:induction false} AtGapAfter(c: string, p: Patch, q: nat, block: string) returns (x: string, y: string)
    requires !p.before && GoodAnchor(p.anchor) && LoneAt(c, p.anchor, q)
    ensures q + |p.anchor| <= |c| && PutIn(c, p, q, block) == x + block + y && Gap(x, y + "\n")
    ensures x + y == c || x + y == c + "\n"
    ensures q + |p.anchor| + 1 == |x| && StartsLine(x, |x|)
  {
    OccursOnOneLine(c, p.anchor, q);
    var end := q + |p.anchor|;
    hide OccursAt, GoodAnchor;
    var c1 := if end == |c| then c + "\n" else c;
    x, y := c1[..end + 1], c1[end + 1..];
    assert x[end] == '\n';
    LineStartIs(x, end + 1, end + 1);
    assert AllSpace(x[|x|..|x|]);
    assert StartsLine(x, |x|);
  }

  /** The insertion as one at a gap of the file, or of the file with a newline more. */
  lemma {:induction false} AtGap(c: string, p: Patch, q: nat, block: string) returns (x: string, y: string)
    requires GoodAnchor(p.anchor) && LoneAt(c, p.anchor, q)
    ensures q + |p.anchor| <= |c| && PutIn(c, p, q, block) == x + block + y && Gap(x, y + "\n")
    ensures x + y == c || x + y == c + "\n"
    ensures OccursAt(x + y, p.anchor, q) && (q == |x| || q + |p.anchor| + 1 == |x|) && StartsLine(x, |x|)
  {
    FirstPlace(c, p.anchor, q);
    hide *;
    if p.before {
      x, y := AtGapBefore(c, p, q, block);
    } else {
      x, y := AtGapAfter(c, p, q, block);
    }
    if x + y == c + "\n" { OccursInPrefix(c, x + y, p.anchor, q, |c|); }
  }

  lemma StartsThere(x: string, rest: string)
    requires StartsLine(x, |x|)
    ensures StartsLine(x + rest, |x|)
  {
    var ls := LinePrefix(x, |x|);
    assert (x + rest)[ls..|x|] == x[ls..|x|];
  }

  lemma OneMoreNewline(f: Feature, c: string, o: Patch)
    requires f.Valid() && '\n' !in o.anchor
    ensures Inserted(f, c, o) ==> Inserted(f, c + "\n", o)
    ensures Unmarked(f, c, o) ==> Unmarked(f, c + "\n", o)
  {
    if Inserted(f, c, o) {
      var r: nat, s :| IsSentinel(f, o, s) && OccursAt(c, o.insert + s, r) && StartsLine(c, r);
      OccursShort(c, o.insert + s, r);
      OccursInPrefix(c, c + "\n", o.insert + s, r, |c|);
      var ls := LinePrefix(c, r);
      assert (c + "\n")[ls..r] == c[ls..r];
      assert StartsLine(c + "\n", r);
    }
    if Unmarked(f, c, o) {
      hide Core, Contains, Inserted;
      UnmarkedHasNoCore(f, c, o);
      UnmarkedHasNoCore(f, c + "\n", o);
      NoIndent(Core(f, o));
      CoreIsLine(f, o, "");
      LongCore(f, o);
      OneMoreLine(c, Core(f, o));
    }
  }

  lemma LongCore(f: Feature, p: Patch)
    ensures |Core(f, p)| > 1
  {}

  /** A patch that was not applied is applied: its text and its sentinel are in the file. */
  lemma {:induction false} PatchIsApplied(f: Feature, c: string, p: Patch)
    requires f.Valid() && GoodAnchor(p.anchor) && Lone(c, p.anchor) && Unmarked(f, c, p)
    ensures Patched(f, c, p).Ok? && Inserted(f, Patched(f, c, p).value, p)
  {
    hide Core, Contains, Indent, Patched, PutIn, Gap, LoneAt, SentinelText, StartsLine, OccursAt, Unmarked;
    var q := LonePlace(c, p.anchor);
    FirstPlace(c, p.anchor, q);
    PatchInserts(f, c, p, q);
    var sentinel := SentinelText(f, p, Indent(c, q));
    var x, y := AtGap(c, p, q, p.insert + sentinel);
    assert IsSentinel(f, p, sentinel);
    PutInIsInserted(f, p, x, y, sentinel);
  }

  lemma PutInIsInserted(f: Feature, p: Patch, x: string, y: string, sentinel: string)
    requires IsSentinel(f, p, sentinel) && StartsLine(x, |x|)
    ensures Inserted(f, x + (p.insert + sentinel) + y, p)
  {
    hide IsSentinel, StartsLine, OccursAt;
    var block := p.insert + sentinel;
    InTheMiddle(x, block, y);
    StartsThere(x, block + y);
    assert x + (block + y) == x + block + y;
  }

  lemma FirstPlace(c: string, a: string, q: nat)
    requires LoneAt(c, a, q)
    ensures OccursAt(c, a, q) && forall r :: OccursAt(c, a, r) ==> q <= r
  {}

  lemma InTheMiddle(x: string, s: string, y: string)
    ensures OccursAt(x + s + y, s, |x|)
  {
    assert (x + s + y)[|x|..|x| + |s|] == s;
  }

  /** What applying a patch does for another one: what it inserted stays, and what it did not insert does not appear. */
  lemma {:induction false} ApplyingSpares(f: Feature, c: string, p: Patch, o: Patch)
    requires f.Valid() && GoodAnchor(p.anchor) && GoodAnchor(o.anchor) && Lone(c, p.anchor) && Unmarked(f, c, p)
    ensures Patched(f, c, p).Ok?
    ensures Spares(f, o, p.anchor) && Inserted(f, c, o) ==> Inserted(f, Patched(f, c, p).value, o)
    ensures Unmarked(f, c, o) && Differ(f, p, o) ==> Unmarked(f, Patched(f, c, p).value, o)
  {
    hide *;
    var q := LonePlace(c, p.anchor);
    FirstPlace(c, p.anchor, q);
    PatchInserts(f, c, p, q);
    var indent := Indent(c, q);
    SentinelTextIs(f, p, indent);
    SentinelForIs(f, p, indent);
    OneLineAnchors(p.anchor, o.anchor);
    var block := p.insert + SentinelFor(f, p, indent);
    BlockEndsLine(f, p, indent);
    var x, y := AtGap(c, p, q, block);
    OneMoreNewline(f, c, o);
    if Spares(f, o, p.anchor) && Inserted(f, c, o) {
      InsertionSpares(f, x, block, y, p.anchor, q, o);
    }
    if Unmarked(f, c, o) && Differ(f, p, o) {
      NotInserted(f, p, o);
      BlockLacksCore(f, p, o, indent);
      StaysUnmarked(f, x, block, y, o);
    }
  }

  lemma NotInserted(f: Feature, p: Patch, o: Patch)
    requires Differ(f, p, o)
    ensures f.hash(p.anchor + "|" + p.insert) != f.hash(o.anchor + "|" + o.insert) && !Contains(p.insert, Core(f, o))
  {
    hide Core, Contains, IsSentinel;
    NoIndent(Core(f, o));
    CoreIsSentinel(f, o, "");
  }

  lemma OneLineAnchors(a: string, b: string)
    requires GoodAnchor(a) && GoodAnchor(b)
    ensures '\n' !in a && '\n' !in b
  {}

  lemma BlockEndsLine(f: Feature, p: Patch, indent: string)
    requires f.Valid() && '\n' !in p.anchor && AllSpace(indent)
    ensures var block := p.insert + SentinelFor(f, p, indent); block != "" && block[|block| - 1] == '\n'
  {
    CoreIsLine(f, p, indent);
  }

  ghost predicate InsertedUpTo(f: Feature, files: map<string, string>, ps: seq<Patch>, n: nat)
    requires n <= |ps|
  {
    (forall k :: 0 <= k < n && ps[k].file in files ==> Inserted(f, files[ps[k].file], ps[k])) &&
    forall k :: n <= k < |ps| && ps[k].file in files ==> Unmarked(f, files[ps[k].file], ps[k])
  }

  lemma {:induction false} OneMoreInserted(f: Feature, files: map<string, string>, now: map<string, string>, ps: seq<Patch>, n: nat)
    requires f.Valid() && Wellbehaved(f, now, ps) && Fresh(f, files, ps) && n < |ps| && ps[n].file in now && InsertedUpTo(f, now, ps, n)
    ensures Patched(f, now[ps[n].file], ps[n]).Ok?
    ensures InsertedUpTo(f, now[ps[n].file := Patched(f, now[ps[n].file], ps[n]).value], ps, n + 1)
  {
    hide Spares, Lone, Inserted, Unmarked, GoodAnchor, Patched, Contains, IsSentinel;
    var p, c := ps[n], now[ps[n].file];
    assert p in ps;
    PatchIsApplied(f, c, p);
    var next := now[p.file := Patched(f, c, p).value];
    forall k | 0 <= k < |ps| && ps[k].file in next
      ensures k <= n ==> Inserted(f, next[ps[k].file], ps[k])
      ensures k > n ==> Unmarked(f, next[ps[k].file], ps[k])
    {
      assert ps[k] in ps;
      if k != n && ps[k].file == p.file { ApplyingSpares(f, c, p, ps[k]); }
    }
  }

  lemma {:induction false} AppliedAreInserted(f: Feature, files: map<string, string>, ps: seq<Patch>, n: nat, tolerate: bool)
    requires f.Valid() && Wellbehaved(f, files, ps) && Fresh(f, files, ps) && n <= |ps|
    requires AllPatched(f, files, ps[..n], tolerate).Ok?
    ensures InsertedUpTo(f, AllPatched(f, files, ps[..n], tolerate).value, ps, n)
  {
    hide *;
    if n == 0 {
      assert ps[..0] == [];
      NothingPatched(f, files, tolerate);
      NothingInserted(f, files, ps);
    } else {
      assert ps[..n][..n - 1] == ps[..n - 1] && ps[..n][n - 1] == ps[n - 1];
      OkAgain(f, files, ps[..n], tolerate);
      AppliedAreInserted(f, files, ps, n - 1, tolerate);
      AppliedAreSettled(f, files, ps, n - 1, tolerate);
      var before := AllPatched(f, files, ps[..n - 1], tolerate).value;
      OneOk(f, before, ps[n - 1], tolerate);
      if ps[n - 1].file in before {
        OneMoreInserted(f, files, before, ps, n - 1);
      } else {
        NothingToInsert(f, before, ps, n - 1);
      }
    }
  }

  lemma NothingInserted(f: Feature, files: map<string, string>, ps: seq<Patch>)
    requires Fresh(f, files, ps)
    ensures InsertedUpTo(f, files, ps, 0)
  {
    hide Unmarked, Inserted, IsSentinel, Contains;
    assert forall k :: 0 <= k < |ps| ==> ps[k] in ps;
  }

  lemma NothingToInsert(f: Feature, files: map<string, string>, ps: seq<Patch>, n: nat)
    requires n < |ps| && ps[n].file !in files && InsertedUpTo(f, files, ps, n)
    ensures InsertedUpTo(f, files, ps, n + 1)
  {
    hide Inserted, Unmarked;
  }

  /**
   The first run. On files that hold no sentinel of the list yet, a run that succeeds leaves the text of every patch
   in its file, at the start of a line and with its own sentinel behind it, when the hashes of the patches of a file differ.
   */
  lemma {:induction false} FirstRunInsertsAll(f: Feature, files: map<string, string>, ps: seq<Patch>, tolerate: bool)
    requires f.Valid() && Wellbehaved(f, files, ps) && Fresh(f, files, ps)
    requires AllPatched(f, files, ps, tolerate).Ok?
    ensures var out := AllPatched(f, files, ps, tolerate).value;
            out.Keys == files.Keys && forall k :: 0 <= k < |ps| && ps[k].file in out ==> Inserted(f, out[ps[k].file], ps[k])
  {
    hide *;
    assert ps[..|ps|] == ps;
    AppliedAreInserted(f, files, ps, |ps|, tolerate);
    KeysStay(f, files, ps, tolerate);
    InsertedAll(f, AllPatched(f, files, ps, tolerate).value, ps);
  }

  /** A patch changes nothing if and only if its sentinel, with the indent of the first anchor, is in the file already. */
  lemma {:induction false} SkippedIff(f: Feature, c: string, p: Patch, q: nat)
    requires OccursAt(c, p.anchor, q) && forall r :: OccursAt(c, p.anchor, r) ==> q <= r
    ensures Patched(f, c, p) == Ok(c) <==> Contains(c, SentinelText(f, p, Indent(c, q)))
  {
    hide Indent, Contains, Core, SentinelText;
    SentinelTextIs(f, p, Indent(c, q));
    assert IndexFrom(c, p.anchor, 0) == Some(q);
    LongCore(f, p);
    var block, end := p.insert + SentinelFor(f, p, Indent(c, q)), q + |p.anchor|;
    if !Contains(c, SentinelFor(f, p, Indent(c, q))) {
      assert |c[..q] + block + c[q..]| == |c| + |block|;
      assert |Patched(f, c, p).value| > |c|;
    }
  }

  /** So a patch of the same hash, style and indent as an applied one is never inserted, and the run succeeds. */
  lemma {:induction false} SameHashIsSkipped(f: Feature, c: string, p: Patch, o: Patch, q: nat)
    requires OccursAt(c, o.anchor, q) && forall r :: OccursAt(c, o.anchor, r) ==> q <= r
    requires f.hash(p.anchor + "|" + p.insert) == f.hash(o.anchor + "|" + o.insert) && ('#' in p.anchor <==> '#' in o.anchor)
    requires Contains(c, SentinelText(f, p, Indent(c, q)))
    ensures Patched(f, c, o) == Ok(c)
  {
    hide Indent, Contains, Patched;
    SentinelTextIs(f, p, Indent(c, q));
    SentinelTextIs(f, o, Indent(c, q));
    SkippedIff(f, c, o, q);
  }

  lemma InsertedAll(f: Feature, files: map<string, string>, ps: seq<Patch>)
    requires InsertedUpTo(f, files, ps, |ps|)
    ensures forall k :: 0 <= k < |ps| && ps[k].file in files ==> Inserted(f, files[ps[k].file], ps[k])
  {
    hide Inserted, Unmarked;
  }

  // ---------------------------------------------------------------- a single 'before' patch

  /** The block that a 'before' patch puts in front of its anchor at q. */
  function BlockAt(f: Feature, c: string, p: Patch, q: nat): string {
    p.insert + (Indent(c, q) + Core(f, p))
  }

  /**
   Does the next run see the sentinel? It does when the block holds no anchor, or when the indent in front
   of the first one in it, as it stands in the file, is what the sentinel has in front of it: the end of
   the anchor's indent, where the inserted text ends its line.
   */
  ghost predicate SeenAgain(f: Feature, c: string, p: Patch, q: nat) {
    var block, indent := BlockAt(f, c, p, q), Indent(c, q);
    match IndexFrom(block, p.anchor, 0)
    case None => true
    case Some(j) => IsSuffix(Indent(indent + block, |indent| + j), indent + p.insert + indent)
  }

  lemma NotContained(t: string, s: string)
    requires !Contains(t, s)
    ensures forall r :: !OccursAt(t, s, r)
  {}

  lemma SpacesAt(t: string, indent: string, k: nat)
    requires AllSpace(indent) && k + |indent| <= |t| && t[k..k + |indent|] == indent
    ensures forall r :: k <= r < k + |indent| ==> JsSpace(t[r])
  {
    hide JsSpace;
    assert forall r :: k <= r < k + |indent| ==> t[r] == t[k..k + |indent|][r - k];
  }

  /** A line that starts with a visible character does not start in the indent, nor before it and reach beyond. */
  lemma CoreNotAbove(x: string, indent: string, rest: string, core: string, s: nat)
    requires IsLine(core) && !JsSpace(core[0]) && AllSpace(indent) && (x != "" ==> x[|x| - 1] == '\n')
    requires OccursAt(x + indent + rest, core, s) && s < |x| + |indent|
    ensures s + |core| <= |x| && OccursAt(x, core, s)
  {
    hide JsSpace;
    var t := x + indent + rest;
    LineShape(t, core, s);
    SpacesAt(t, indent, |x|);
    assert t[s] == t[s..s + |core|][0] == core[0];
    assert s < |x| && t[|x| - 1] == '\n';
    assert x[s..s + |core|] == t[s..s + |core|];
  }

  lemma OccursInFront(x: string, rest: string, core: string, s: nat)
    requires OccursAt(x, core, s)
    ensures OccursAt(x + rest, core, s)
  {
    assert (x + rest)[s..s + |core|] == x[s..s + |core|];
  }

  lemma OccursBehind(front: string, y: string, core: string, s: nat)
    requires s >= |front| && OccursAt(front + y, core, s)
    ensures OccursAt(y, core, s - |front|)
  {
    assert (front + y)[s..s + |core|] == y[s - |front|..s - |front| + |core|];
  }

  /** In the file with the block, the core of the sentinel stands only where the patch has put it. */
  lemma {:induction false} OnlyCore(x: string, indent: string, insert: string, core: string, y: string, s: nat)
    requires IsLine(core) && !JsSpace(core[0]) && AllSpace(indent) && '\n' !in indent
    requires !Contains(x + indent + y, core) && !Contains(insert, core) && (x != "" ==> x[|x| - 1] == '\n')
    requires OccursAt(x + indent + (insert + (indent + core)) + y, core, s)
    ensures s == |x| + |indent| + |insert| + |indent|
  {
    hide *;
    NotContained(x + indent + y, core);
    NotContained(insert, core);
    var rest := insert + (indent + core) + y;
    assert x + indent + (insert + (indent + core)) + y == x + indent + rest && x + (indent + y) == x + indent + y;
    if s < |x| + |indent| {
      CoreNotAbove(x, indent, rest, core, s);
      OccursInFront(x, indent + y, core, s);
    } else {
      OccursBehind(x + indent, rest, core, s);
      var r := s - |x| - |indent|;
      var tail := core + y;
      assert rest == insert + indent + tail;
      if r < |insert| + |indent| {
        CoreEndsInInsert(insert, indent, core, y, r);
      } else {
        OccursBehind(insert + indent, tail, core, r);
        NotWithinCore(core, y, r - |insert| - |indent|);
        if r > |insert| + |indent| {
          OccursBehind(core, y, core, r - |insert| - |indent|);
          var k := r - |insert| - |indent| - |core|;
          OccursAfter(x + indent, y, core, k);
        }
      }
    }
  }

  lemma NotWithinCore(core: string, y: string, r: nat)
    requires IsLine(core) && OccursAt(core + y, core, r)
    ensures r == 0 || r >= |core|
  {
    LineShape(core + y, core, r);
    assert (core + y)[|core| - 1] == '\n';
  }

  lemma OccursAfter(front: string, y: string, core: string, k: nat)
    requires OccursAt(y, core, k)
    ensures OccursAt(front + y, core, |front| + k)
  {
    assert (front + y)[|front| + k..|front| + k + |core|] == y[k..k + |core|];
  }

  lemma CoreEndsInInsert(insert: string, indent: string, core: string, y: string, r: nat)
    requires IsLine(core) && '\n' !in indent && OccursAt(insert + indent + (core + y), core, r) && r < |insert| + |indent|
    ensures r + |core| <= |insert| && OccursAt(insert, core, r)
  {
    var t, n := insert + indent + (core + y), |insert| + |indent|;
    assert forall k :: |insert| <= k < n ==> t[k] == indent[k - |insert|];
    assert forall k :: n <= k < n + |core| - 1 ==> t[k] == core[..|core| - 1][k - n];
    LineShape(t, core, r);
    assert insert[r..r + |core|] == t[r..r + |core|];
  }

  lemma SuffixBefore(t: string, front: string, indent: string, indent': string, core: string, r: nat)
    requires OccursAt(t, indent' + core, r) && '\n' !in indent' && (front != "" ==> front[|front| - 1] == '\n')
    requires r + |indent'| == |front| + |indent| && |front + indent| <= |t| && t[..|front + indent|] == front + indent
    ensures IsSuffix(indent', indent)
  {
    var s := indent' + core;
    assert t[r..r + |s|] == s;
    assert forall i :: 0 <= i < |indent'| ==> t[r + i] == s[i] == indent'[i];
    assert front != "" ==> t[|front| - 1] == (front + indent)[|front| - 1] == '\n';
    assert |indent'| <= |indent|;
    var k := |indent| - |indent'|;
    forall i | 0 <= i < |indent'| ensures indent[k + i] == indent'[i] { assert t[..|front + indent|][r + i] == indent[k + i]; }
  }

  /** The file as it is around the anchor. */
  lemma AroundAnchor(c: string, a: string, q: nat)
    requires LoneAt(c, a, q) && GoodAnchor(a)
    ensures var ls := LineStart(c, q);
            ls <= q <= |c| && Indent(c, q) == c[ls..q] && AllSpace(c[ls..q]) && (c[..ls] != "" ==> c[..ls][ls - 1] == '\n')
    ensures Gap(c[..q], c[q..]) && a <= c[q..]
  {
    hide LineStart, LeadingSpace, JsSpace, Gap, IndexFrom, AllSpace, Indent, OccursAt;
    LoneIsFirst(c, a, q);
    GapBefore(c, a, q);
    LineStartRange(c, q);
  }

  lemma CutTwice(c: string, ls: nat, q: nat)
    requires ls <= q <= |c|
    ensures c == c[..ls] + c[ls..q] + c[q..] && c[..q] == c[..ls] + c[ls..q]
  {}

  /** The first anchor of the file with the block is the first one of the block, with the indent it has there. */
  lemma {:induction false} FirstInBlock(x: string, indent: string, block: string, y: string, a: string, j: nat)
    requires GoodAnchor(a) && AllSpace(indent) && (x != "" ==> x[|x| - 1] == '\n')
    requires block != "" && block[|block| - 1] == '\n' && IndexFrom(block, a, 0) == Some(j)
    requires Gap(x + indent, y) && forall r :: OccursAt(x + indent + y, a, r) ==> |x| + |indent| <= r
    ensures var t := x + indent + block + y;
            IndexFrom(t, a, 0) == Some(|x| + |indent| + j) &&
            Indent(t, |x| + |indent| + j) == Indent(indent + block, |indent| + j)
  {
    var t, q := x + indent + block + y, |x| + |indent|;
    hide Indent, LineStart, JsSpace, Gap, AllSpace, OccursAt;
    OccursMoved(x + indent, block, y, a, j);
    var i := IndexFrom(t, a, 0).value;
    assert t == (x + indent) + (block + y);
    NoneBefore(x + indent, block, y, a, j, i);
    AnchorHead(block, a, j);
    MiddleIndent(x, indent + block, y, |indent| + j);
    hide *;
    assert x + (indent + block) + y == t;
  }

  lemma OccursMoved(x: string, block: string, y: string, a: string, j: nat)
    requires OccursAt(block, a, j)
    ensures OccursAt(x + block + y, a, |x| + j)
  {
    assert (x + block + y)[|x| + j..|x| + j + |a|] == block[j..j + |a|];
  }

  lemma AnchorHead(block: string, a: string, j: nat)
    requires GoodAnchor(a) && OccursAt(block, a, j)
    ensures j < |block| && block[j] != '\n'
  {
    assert block[j] == block[j..j + |a|][0] == a[0];
  }

  lemma NoneBefore(front: string, block: string, y: string, a: string, j: nat, i: nat)
    requires GoodAnchor(a) && block != "" && block[|block| - 1] == '\n' && IndexFrom(block, a, 0) == Some(j)
    requires Gap(front, y) && forall r :: OccursAt(front + y, a, r) ==> |front| <= r
    requires OccursAt(front + (block + y), a, i)
    ensures i >= |front| + j
  {
    FirstIsLeast(block, a, j);
    hide *;
    var rest := block + y;
    if i < |front| {
      NoStraddle(front, y, front + rest, a, i);
      OccursWithin(front, rest, a, i);
      OccursInFront(front, y, a, i);
    } else if i < |front| + j {
      OccursBehind(front, rest, a, i);
      InBlockOnly(block, y, a, j, i - |front|);
    }
  }

  lemma FirstIsLeast(t: string, s: string, j: nat)
    requires IndexFrom(t, s, 0) == Some(j)
    ensures OccursAt(t, s, j) && forall r :: 0 <= r < j ==> !OccursAt(t, s, r)
  {}

  lemma OccursWithin(front: string, rest: string, a: string, i: nat)
    requires OccursAt(front + rest, a, i) && i + |a| <= |front|
    ensures OccursAt(front, a, i)
  {
    assert front[i..i + |a|] == (front + rest)[i..i + |a|];
  }

  /** An anchor that starts before the last newline of a text ends before it. */
  lemma InBlockOnly(block: string, y: string, a: string, j: nat, i: nat)
    requires GoodAnchor(a) && block != "" && block[|block| - 1] == '\n' && OccursAt(block, a, j)
    requires OccursAt(block + y, a, i) && i < j
    ensures OccursAt(block, a, i)
  {
    hide JsSpace;
    OccursOnOneLine(block + y, a, i);
    OccursShort(block, a, j);
    assert (block + y)[|block| - 1] == '\n';
    OccursWithin(block, y, a, i);
  }

  lemma SliceInMiddle(x: string, mid: string, y: string, i: nat, j: nat)
    requires i <= j <= |mid|
    ensures (x + mid + y)[|x| + i..|x| + j] == mid[i..j]
  {
    assert (x + mid)[|x|..] == mid && (x + mid + y)[..|x + mid|] == x + mid;
  }

  lemma MiddleIndent(x: string, mid: string, y: string, k: nat)
    requires k < |mid| && mid[k] != '\n' && (x != "" ==> x[|x| - 1] == '\n')
    ensures Indent(x + mid + y, |x| + k) == Indent(mid, k)
  {
    hide LineStart, LeadingSpace;
    var t := x + mid + y;
    LineStartRange(mid, k);
    var ls := LineStart(mid, k);
    assert ls != k + 1;
    assert forall i :: |x| <= i < |x| + |mid| ==> t[i] == mid[i - |x|];
    assert |x| + ls > 0 ==> t[|x| + ls - 1] == '\n';
    LineStartIs(t, |x| + k, |x| + ls);
    SliceInMiddle(x, mid, y, ls, k);
  }

  /** A run leaves a file alone if and only if the sentinel with the indent of the first anchor is in it. */
  lemma RunIsIdleIff(f: Feature, t: string, p: Patch, i: nat)
    requires p.before && IndexFrom(t, p.anchor, 0) == Some(i)
    ensures i <= |t| && Patched(f, t, p).Ok? && (Patched(f, t, p) == Ok(t) <==> Contains(t, Indent(t, i) + Core(f, p)))
    ensures !Contains(t, Indent(t, i) + Core(f, p)) ==>
              Patched(f, t, p) == Ok(t[..i] + (p.insert + (Indent(t, i) + Core(f, p))) + t[i..])
  {
    OccursShort(t, p.anchor, i);
    hide Indent, Contains, IndexFrom;
    var sentinel := SentinelFor(f, p, Indent(t, i));
    assert |t[..i] + (p.insert + sentinel) + t[i..]| == |t| + |p.insert| + |sentinel| && sentinel != "";
  }

  lemma NoCoreNoSentinel(t: string, indent: string, core: string)
    requires !Contains(t, core)
    ensures !Contains(t, indent + core)
  {
    if Contains(t, indent + core) {
      assert IsSuffix(core, indent + core);
      ContainsSuffix(t, indent + core, core);
    }
  }

  /** An indent with the core behind it is in the file with the block exactly when it ends the indent that the patch wrote. */
  lemma {:induction false} SentinelIff(x: string, indent: string, insert: string, core: string, y: string, indent': string)
    requires IsLine(core) && !JsSpace(core[0]) && AllSpace(indent) && '\n' !in indent
    requires !Contains(x + indent + y, core) && !Contains(insert, core) && (x != "" ==> x[|x| - 1] == '\n')
    requires '\n' !in indent'
    ensures Contains(x + indent + (insert + (indent + core)) + y, indent' + core) <==> IsSuffix(indent', indent + insert + indent)
  {
    hide JsSpace, AllSpace, IsLine, IsSuffix, Contains, OccursAt;
    var t := x + indent + (insert + (indent + core)) + y;
    var lead := indent + insert + indent;
    assert t == x + (lead + core) + y && t[..|x + lead|] == x + lead;
    if IsSuffix(indent', lead) {
      ContainsMiddle(x, lead + core, y);
      LongerSuffix(indent', lead, core);
      ContainsSuffix(t, lead + core, indent' + core);
    }
    if Contains(t, indent' + core) {
      var r := Somewhere(t, indent' + core);
      CoreInside(t, indent', core, r);
      OnlyCore(x, indent, insert, core, y, r + |indent'|);
      SuffixBefore(t, x, lead, indent', core, r);
    }
  }

  lemma Somewhere(t: string, s: string) returns (r: nat)
    requires Contains(t, s)
    ensures OccursAt(t, s, r)
  {
    r :| r <= |t| && OccursAt(t, s, r);
  }

  lemma CoreInside(t: string, indent: string, core: string, r: nat)
    requires OccursAt(t, indent + core, r)
    ensures OccursAt(t, core, r + |indent|)
  {
    SliceOfSlice(t, r, |indent + core|, |indent|, |core|);
    assert (indent + core)[|indent|..|indent| + |core|] == core;
  }

  lemma LongerSuffix(indent': string, indent: string, core: string)
    requires IsSuffix(indent', indent)
    ensures IsSuffix(indent' + core, indent + core)
  {
    var k := |indent| - |indent'|;
    assert (indent + core)[k..] == indent[k..] + core;
  }

  lemma {:induction false} LeadingSpaceHasNoNewline(t: string, i: nat)
    requires i < |t| && t[i] != '\n'
    ensures '\n' !in Indent(t, i)
  {
    LineStartRange(t, i);
    if LineStart(t, i) <= i { LeadingIsPrefix(t[LineStart(t, i)..i]); }
  }

  lemma {:induction false} LeadingIsPrefix(s: string)
    ensures LeadingSpace(s) <= s
  {
    if s != "" && JsSpace(s[0]) { LeadingIsPrefix(s[1..]); }
  }

  /**
   A 'before' patch on its own output, exactly: in a file without its sentinel, the second run changes
   nothing if and only if the block holds no anchor or the first one in it has an indent that ends what
   stands in front of the sentinel.
   */
  lemma {:induction false} BeforeRerunIff(f: Feature, c: string, p: Patch, q: nat)
    requires f.Valid() && p.before && GoodAnchor(p.anchor) && LoneAt(c, p.anchor, q)
    requires !Contains(c, Core(f, p)) && !Contains(p.insert, Core(f, p))
    ensures Patched(f, c, p).Ok? && Patched(f, Patched(f, c, p).value, p).Ok?
    ensures Patched(f, Patched(f, c, p).value, p) == Patched(f, c, p) <==> SeenAgain(f, c, p, q)
  {
    hide *;
    FirstBefore(f, c, p, q);
    var block := BlockAt(f, c, p, q);
    if IndexFrom(block, p.anchor, 0).None? {
      NoAnchorInBlock(f, c, p, q);
    } else {
      AnchorInBlock(f, c, p, q, IndexFrom(block, p.anchor, 0).value);
    }
  }

  lemma FirstBefore(f: Feature, c: string, p: Patch, q: nat)
    requires p.before && LoneAt(c, p.anchor, q) && !Contains(c, Core(f, p))
    ensures q <= |c| && Patched(f, c, p) == Ok(c[..q] + BlockAt(f, c, p, q) + c[q..])
  {
    hide Indent, Core, Contains, IndexFrom, Patched;
    LoneIsFirst(c, p.anchor, q);
    NoCoreNoSentinel(c, Indent(c, q), Core(f, p));
    RunIsIdleIff(f, c, p, q);
  }

  lemma BlockIsLines(f: Feature, c: string, p: Patch, q: nat)
    requires f.Valid() && GoodAnchor(p.anchor) && LoneAt(c, p.anchor, q)
    ensures var block, core := BlockAt(f, c, p, q), Core(f, p);
            IsLine(core) && !JsSpace(core[0]) && block != "" && block[|block| - 1] == '\n'
  {
    hide Core, JsSpace, Indent, OccursAt, LineStart;
    assert AllSpace("") && "" + Core(f, p) == Core(f, p);
    CoreIsLine(f, p, "");
  }

  lemma NoAnchorInBlock(f: Feature, c: string, p: Patch, q: nat)
    requires f.Valid() && p.before && GoodAnchor(p.anchor) && LoneAt(c, p.anchor, q) && q <= |c|
    requires IndexFrom(BlockAt(f, c, p, q), p.anchor, 0).None?
    ensures var once := c[..q] + BlockAt(f, c, p, q) + c[q..]; Patched(f, once, p) == Ok(once)
    ensures SeenAgain(f, c, p, q)
  {
    SeenIs(f, c, p, q);
    var block, sentinel := BlockAt(f, c, p, q), Indent(c, q) + Core(f, p);
    assert block == p.insert + sentinel;
    BlockIsLines(f, c, p, q);
    GapBefore(c, p.anchor, q);
    hide *;
    var front, rest, once := c[..q], c[q..], c[..q] + block + c[q..];
    assert front + rest == c && once == (front + p.insert) + sentinel + rest;
    var q' := LoneStays(front, block, rest, p.anchor, q);
    ContainsMiddle(front + p.insert, sentinel, rest);
    LongerSuffix(Indent(once, q'), Indent(c, q), Core(f, p));
    ContainsSuffix(once, sentinel, Indent(once, q') + Core(f, p));
    LoneIsFirst(once, p.anchor, q');
    RunIsIdleIff(f, once, p, q');
  }

  lemma SeenIs(f: Feature, c: string, p: Patch, q: nat)
    ensures var block, indent := BlockAt(f, c, p, q), Indent(c, q);
            match IndexFrom(block, p.anchor, 0)
            case None => SeenAgain(f, c, p, q)
            case Some(j) => j <= |block| && (SeenAgain(f, c, p, q) <==> IsSuffix(Indent(indent + block, |indent| + j), indent + p.insert + indent))
  {
    var block := BlockAt(f, c, p, q);
    hide Indent, IndexFrom, Core, IsSuffix;
    if IndexFrom(block, p.anchor, 0).Some? { OccursShort(block, p.anchor, IndexFrom(block, p.anchor, 0).value); }
  }

  /** What the second run finds: the first anchor of the block, and the sentinel if the indents allow it. */
  lemma {:induction false} SecondLook(x: string, indent: string, insert: string, core: string, y: string, a: string, j: nat, t: string)
    requires GoodAnchor(a) && IsLine(core) && !JsSpace(core[0]) && AllSpace(indent) && '\n' !in indent
    requires !Contains(x + indent + y, core) && !Contains(insert, core) && (x != "" ==> x[|x| - 1] == '\n')
    requires Gap(x + indent, y) && forall r :: OccursAt(x + indent + y, a, r) ==> |x| + |indent| <= r
    requires IndexFrom(insert + (indent + core), a, 0) == Some(j) && t == x + indent + (insert + (indent + core)) + y
    ensures var block, i := insert + (indent + core), |x| + |indent| + j;
            IndexFrom(t, a, 0) == Some(i) && i <= |t| && j <= |block| &&
            (Contains(t, Indent(t, i) + core) <==> IsSuffix(Indent(indent + block, |indent| + j), indent + insert + indent))
  {
    hide *;
    var block := insert + (indent + core);
    FirstIsLeast(block, a, j);
    OccursShort(block, a, j);
    BlockEnds(insert, indent, core);
    FirstInBlock(x, indent, block, y, a, j);
    AnchorHead(block, a, j);
    Behind(indent, block, j);
    LeadingSpaceHasNoNewline(indent + block, |indent| + j);
    SentinelIff(x, indent, insert, core, y, Indent(indent + block, |indent| + j));
  }

  lemma BlockEnds(insert: string, indent: string, core: string)
    requires IsLine(core)
    ensures var block := insert + (indent + core); block != "" && block[|block| - 1] == '\n'
  {}

  lemma Behind(indent: string, block: string, j: nat)
    requires j < |block|
    ensures (indent + block)[|indent| + j] == block[j]
  {}

  lemma AnchorInBlock(f: Feature, c: string, p: Patch, q: nat, j: nat)
    requires f.Valid() && p.before && GoodAnchor(p.anchor) && LoneAt(c, p.anchor, q) && q <= |c|
    requires !Contains(c, Core(f, p)) && !Contains(p.insert, Core(f, p))
    requires IndexFrom(BlockAt(f, c, p, q), p.anchor, 0) == Some(j)
    ensures var once := c[..q] + BlockAt(f, c, p, q) + c[q..];
            Patched(f, once, p).Ok? && (Patched(f, once, p) == Ok(once) <==> SeenAgain(f, c, p, q))
  {
    BlockIsLines(f, c, p, q);
    AroundAnchor(c, p.anchor, q);
    CutTwice(c, LineStart(c, q), q);
    LoneIsLeast(c, p.anchor, q);
    hide *;
    var x, y, block := c[..LineStart(c, q)], c[q..], BlockAt(f, c, p, q);
    AnchorInCut(f, c, p, q, j, x, Indent(c, q), y, c[..q] + block + y);
  }

  lemma AnchorInCut(f: Feature, c: string, p: Patch, q: nat, j: nat, x: string, indent: string, y: string, once: string)
    requires p.before && GoodAnchor(p.anchor) && c == x + indent + y && indent == Indent(c, q) && q == |x| + |indent|
    requires IsLine(Core(f, p)) && !JsSpace(Core(f, p)[0]) && AllSpace(indent) && '\n' !in indent && (x != "" ==> x[|x| - 1] == '\n')
    requires !Contains(c, Core(f, p)) && !Contains(p.insert, Core(f, p))
    requires Gap(x + indent, y) && forall r :: OccursAt(c, p.anchor, r) ==> q <= r
    requires IndexFrom(BlockAt(f, c, p, q), p.anchor, 0) == Some(j) && once == x + indent + BlockAt(f, c, p, q) + y
    ensures Patched(f, once, p).Ok? && (Patched(f, once, p) == Ok(once) <==> SeenAgain(f, c, p, q))
  {
    BlockIs(f, c, p, q);
    hide *;
    SecondLook(x, indent, p.insert, Core(f, p), y, p.anchor, j, once);
    SeenIs(f, c, p, q);
    RunIsIdleIff(f, once, p, q + j);
  }

  lemma BlockIs(f: Feature, c: string, p: Patch, q: nat)
    ensures BlockAt(f, c, p, q) == p.insert + (Indent(c, q) + Core(f, p))
  {}

  lemma LoneIsLeast(c: string, a: string, q: nat)
    requires LoneAt(c, a, q)
    ensures forall r :: OccursAt(c, a, r) ==> q <= r
  {}

  /** So a patch that inserts its own anchor, indented more, before the anchor inserts it again. */
  lemma {:induction false} OwnAnchorInsertsTwice(f: Feature, p: Patch)
    requires f.Valid() && p.before && GoodAnchor(p.anchor) && p.insert == "  " + p.anchor + "\n"
    requires |Core(f, p)| > |p.insert|
    ensures var once := Patched(f, p.anchor, p);
            once.Ok? && Patched(f, once.value, p).Ok? && Patched(f, once.value, p) != once
  {
    var a := p.anchor;
    OwnAnchorAlone(a);
    OwnBlock(f, p);
    hide *;
    NoLongerInside(a, Core(f, p));
    NoLongerInside(p.insert, Core(f, p));
    InsertEnds(p);
    BeforeRerunIff(f, a, p, 0);
  }

  lemma NoLongerInside(t: string, s: string)
    requires |s| > |t|
    ensures !Contains(t, s)
  {}

  lemma InsertEnds(p: Patch)
    requires p.insert == "  " + p.anchor + "\n"
    ensures p.insert != "" && p.insert[|p.insert| - 1] == '\n' && |p.insert| > |p.anchor|
  {}

  lemma OwnAnchorAlone(a: string)
    requires GoodAnchor(a)
    ensures LoneAt(a, a, 0) && Indent(a, 0) == ""
  {
    assert OccursAt(a, a, 0) && LineStart(a, 0) == 0 && a[0..0] == "";
  }

  lemma OwnBlockIs(p: Patch, core: string)
    requires p.insert == "  " + p.anchor + "\n"
    ensures p.insert + ("" + core) == "  " + p.anchor + ("\n" + core)
    ensures (p.insert + ("" + core))[..2] == "  "
  {
    assert "" + core == core;
    assert "  " + p.anchor + "\n" + core == "  " + p.anchor + ("\n" + core);
  }

  /** In the block the anchor comes first with its two blanks. */
  lemma OwnBlock(f: Feature, p: Patch)
    requires GoodAnchor(p.anchor) && p.insert == "  " + p.anchor + "\n" && Indent(p.anchor, 0) == ""
    ensures !SeenAgain(f, p.anchor, p, 0)
  {
    var a, block := p.anchor, BlockAt(f, p.anchor, p, 0);
    BlockIs(f, a, p, 0);
    OwnBlockIs(p, Core(f, p));
    Itself(a);
    SeenIs(f, a, p, 0);
    InsertEnds(p);
    LineEndsBlanks(p.insert);
    hide *;
    OccursMoved("  ", a, "\n" + Core(f, p), a, 0);
    FirstAtTwo(block, a);
  }

  lemma LineEndsBlanks(s: string)
    requires s != "" && s[|s| - 1] == '\n'
    ensures !IsSuffix("  ", "" + s + "")
  {
    assert "" + s + "" == s;
    assert |s| >= 2 ==> s[|s| - 2..][1] == s[|s| - 1];
  }

  lemma Itself(a: string)
    ensures OccursAt(a, a, 0)
  {}

  lemma FirstAtTwo(block: string, a: string)
    requires GoodAnchor(a) && OccursAt(block, a, 2) && block[..2] == "  "
    ensures IndexFrom(block, a, 0) == Some(2) && Indent("" + block, 2) == "  "
  {
    hide LineStart, JsSpace;
    TwoBlanks();
    var i := IndexFrom(block, a, 0).value;
    OccursOnOneLine(block, a, i);
    OccursOnOneLine(block, a, 2);
    assert block[0] == block[..2][0] && block[1] == block[..2][1];
    assert i == 2;
    LineStartIs(block, 2, 0);
    assert block[0..2] == "  " && "" + block == block;
    LeadingSpaceIsAll("  ");
  }

  lemma TwoBlanks()
    ensures AllSpace("  ") && JsSpace(' ')
  {}
}
