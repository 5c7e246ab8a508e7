/**
 The template renderer of the scaffolder (cli/src/utils.ts).

 A template is a flat list of lines. Lines come here already classified: what the
 regular expressions of the program decide is the constructor of Line. Expressions
 are strings whose evaluation is a total function that the caller supplies.
 */
module Template {
  import opened Common
  import opened Strings

  datatype Line =
    | Text(text: string)
    | For(name: string, iter: string)
    | If(cond: string)
    | ElseIf(cond: string)
    | Else
    | Close
      // A `for (...)` that is not of the form `for (const x of xs)`: renderLines takes it
      // for text while findBlockEnd takes it for the start of a block.
    | OtherFor(text: string)

  type Env<V> = map<string, V>

  /** The evaluator: Boolean(evalExpr(..)), an iterable if it is an array, and `<%= %>` substitution. */
  datatype Evaluator<!V> = Evaluator(
    test: (string, Env<V>) -> bool,
    items: (string, Env<V>) -> Option<seq<V>>,
    text: (string, Env<V>) -> string)

  /** One open if-block: whether its current branch is live, and whether a branch has been taken. */
  datatype Frame = Frame(active: bool, matched: bool)

  predicate AllActive(stack: seq<Frame>) {
    forall k :: 0 <= k < |stack| ==> stack[k].active
  }

  // ---------------------------------------------------------------- the machine

  /** What one line does to the nesting depth that findBlockEnd counts. */
  function Shift(line: Line): int {
    match line
    case For(_, _) => 1
    case OtherFor(_) => 1
    case If(_) => 1
    case Close => -1
    case _ => 0
  }

  /** The index of the line that brings `depth` open blocks down to none. */
  function BlockEnd(lines: seq<Line>, depth: nat): (r: Option<nat>)
    requires depth > 0
    ensures r.Some? ==> r.value < |lines| && lines[r.value].Close?
  {
    if lines == [] then None
    else if lines[0].Close? && depth == 1 then Some(0)
    else
      match BlockEnd(lines[1..], depth + Shift(lines[0]))
      case None => None
      case Some(k) => Some(k + 1)
  }

  function Plus(k: Option<nat>, n: nat): Option<nat> {
    match k
    case None => None
    case Some(k) => Some(k + n)
  }

  lemma BlockEndAt(lines: seq<Line>, i: nat, depth: nat)
    requires depth > 0 && i < |lines|
    ensures Plus(BlockEnd(lines[i..], depth), i) ==
            if lines[i].Close? && depth == 1 then Some(i)
            else Plus(BlockEnd(lines[i + 1..], depth + Shift(lines[i])), i + 1)
  {
    assert lines[i..][1..] == lines[i + 1..];
  }

  predicate Opens(line: Line) {
    line.If? || line.For? || line.OtherFor?
  }

  /** How many blocks are open after the first n lines, when `depth` were open before. */
  function OpenAfter(lines: seq<Line>, n: nat, depth: int): int
    requires n <= |lines|
  {
    if n == 0 then depth
    else OpenAfter(lines, n - 1, depth) + (if Opens(lines[n - 1]) then 1 else 0) - (if lines[n - 1].Close? then 1 else 0)
  }

  lemma {:induction false} OpenAfterFirst(lines: seq<Line>, n: nat, depth: int)
    requires 0 < n <= |lines|
    ensures OpenAfter(lines, n, depth) == OpenAfter(lines[1..], n - 1, depth + Shift(lines[0]))
  {
    if n > 1 { OpenAfterFirst(lines, n - 1, depth); }
  }

  ghost predicate StillOpen(lines: seq<Line>, k: nat, depth: int)
    requires k <= |lines|
  {
    forall n :: 0 <= n <= k ==> OpenAfter(lines, n, depth) > 0
  }

  /** The end of the block is the first line after which no block is open any more. */
  lemma {:induction false} BlockEndIff(lines: seq<Line>, depth: nat, k: nat)
    requires depth > 0
    ensures BlockEnd(lines, depth) == Some(k) <==> k < |lines| && StillOpen(lines, k, depth) && OpenAfter(lines, k + 1, depth) == 0
  {
    BlockEndInside(lines, depth);
    if k < |lines| {
      OpenAfterFirst(lines, k + 1, depth);
      if k > 0 {
        StillOpenFirst(lines, k, depth);
        var d := depth + Shift(lines[0]);
        assert StillOpen(lines, k, depth) ==> OpenAfter(lines, 1, depth) > 0;
        if d > 0 { BlockEndIff(lines[1..], d, k - 1); }
      }
    }
  }

  lemma {:induction false} StillOpenFirst(lines: seq<Line>, k: nat, depth: int)
    requires 0 < k <= |lines| && depth > 0
    ensures StillOpen(lines, k, depth) <==> StillOpen(lines[1..], k - 1, depth + Shift(lines[0]))
  {
    var tail, d := lines[1..], depth + Shift(lines[0]);
    if StillOpen(tail, k - 1, d) {
      forall n | 0 <= n <= k ensures OpenAfter(lines, n, depth) > 0 {
        if n > 0 { OpenAfterFirst(lines, n, depth); }
      }
    }
    if StillOpen(lines, k, depth) {
      forall n | 0 <= n <= k - 1 ensures OpenAfter(tail, n, d) > 0 { OpenAfterFirst(lines, n + 1, depth); }
    }
  }

  lemma BlockEndInside(lines: seq<Line>, depth: nat)
    requires depth > 0
    ensures BlockEnd(lines, depth).Some? ==> BlockEnd(lines, depth).value < |lines|
  {}

  method FindBlockEnd(lines: seq<Line>, startIdx: nat) returns (r: Option<nat>)
    requires startIdx < |lines|
    ensures r == Plus(BlockEnd(lines[startIdx + 1..], 1), startIdx + 1)
    ensures r.Some? ==> startIdx < r.value < |lines| && lines[r.value].Close?
  {
    hide BlockEnd;
    var depth := 1;
    var i := startIdx + 1;
    while i < |lines|
      invariant startIdx < i <= |lines|
      invariant depth > 0
      invariant Plus(BlockEnd(lines[i..], depth), i) == Plus(BlockEnd(lines[startIdx + 1..], 1), startIdx + 1)
    {
      BlockEndAt(lines, i, depth);
      var line := lines[i];
      if line.If? || line.For? || line.OtherFor? {
        depth := depth + 1;
      } else if line.Close? {
        depth := depth - 1;
        if depth == 0 { return Some(i); }
      }
      i := i + 1;
    }
    return None;
  }

  /** The frame on top of the stack after an else-if whose condition is worth `test`. */
  function OnElseIf(stack: seq<Frame>, test: bool): seq<Frame> {
    if stack == [] then stack
    else
      var top := stack[|stack| - 1];
      stack[|stack| - 1 := if top.matched then top.(active := false) else Frame(test, test)]
  }

  function OnElse(stack: seq<Frame>): seq<Frame> {
    if stack == [] then stack
    else
      var top := stack[|stack| - 1];
      stack[|stack| - 1 := top.(active := !top.matched)]
  }

  /**
   The output lines from here to the end of `lines`, or None where the program throws
   "Unmatched template block".
   */
  function Run<V>(ev: Evaluator<V>, lines: seq<Line>, stack: seq<Frame>, env: Env<V>): Option<seq<string>>
    decreases |lines|, 0
  {
    if lines == [] then Some([])
    else
      match lines[0]
      case For(name, iter) =>
        (match BlockEnd(lines[1..], 1)
         case None => None
         case Some(k) =>
           var here := if AllActive(stack) then ForOutput(ev, name, iter, lines[1..][..k], env) else Some([]);
           Then(here, Run(ev, lines[1..][k + 1..], stack, env)))
      case If(c) => Run(ev, lines[1..], stack + [Frame(ev.test(c, env), ev.test(c, env))], env)
      case ElseIf(c) => Run(ev, lines[1..], OnElseIf(stack, ev.test(c, env)), env)
      case Else => Run(ev, lines[1..], OnElse(stack), env)
      case Close => Run(ev, lines[1..], if stack == [] then [] else stack[..|stack| - 1], env)
      case _ =>
        var here := if AllActive(stack) then [ev.text(lines[0].text, env)] else [];
        Then(Some(here), Run(ev, lines[1..], stack, env))
  }

  function Then(a: Option<seq<string>>, b: Option<seq<string>>): Option<seq<string>> {
    if a.None? || b.None? then None else Some(a.value + b.value)
  }

  function ForOutput<V>(ev: Evaluator<V>, name: string, iter: string, body: seq<Line>, env: Env<V>): Option<seq<string>>
    decreases |body|, |Items(ev, iter, env)| + 2
  {
    Passes(ev, name, Items(ev, iter, env), body, env)
  }

  /** The items a loop goes over: none when the value is not an array. */
  function Items<V>(ev: Evaluator<V>, iter: string, env: Env<V>): seq<V> {
    match ev.items(iter, env)
    case None => []
    case Some(items) => items
  }

  /** One pass a loop item; a pass whose text is empty adds no line. */
  function Passes<V>(ev: Evaluator<V>, name: string, items: seq<V>, body: seq<Line>, env: Env<V>): Option<seq<string>>
    decreases |body|, |items| + 1
  {
    if items == [] then Some([])
    else
      match Run(ev, body, [], env[name := items[0]])
      case None => None
      case Some(out) => Then(Some(Kept(Join(out, '\n'))), Passes(ev, name, items[1..], body, env))
  }

  function Kept(sub: string): seq<string> {
    if sub == "" then [] else [sub]
  }

  /** What the line at index i, with the stack as it is, outputs there and then. */
  function Here<V>(ev: Evaluator<V>, lines: seq<Line>, i: nat, stack: seq<Frame>, env: Env<V>): Option<seq<string>>
    requires i < |lines|
  {
    if !AllActive(stack) then Some([])
    else
      match lines[i]
      case For(name, iter) => if i < Next(lines, i) then ForOutput(ev, name, iter, lines[i + 1..Next(lines, i) - 1], env) else None
      case Text(s) => Some([ev.text(s, env)])
      case OtherFor(s) => Some([ev.text(s, env)])
      case _ => Some([])
  }

  /** The index at which the interpreter goes on after the line at index i; i itself when it throws. */
  function Next(lines: seq<Line>, i: nat): (n: nat)
    requires i < |lines|
    ensures n <= |lines|
    ensures lines[i].For? && n != i ==> i + 2 <= n
  {
    if !lines[i].For? then i + 1
    else
      match BlockEnd(lines[i + 1..], 1)
      case None => i
      case Some(k) => i + 1 + k + 1
  }

  function StackAfter<V>(ev: Evaluator<V>, line: Line, stack: seq<Frame>, env: Env<V>): seq<Frame> {
    match line
    case If(c) => stack + [Frame(ev.test(c, env), ev.test(c, env))]
    case ElseIf(c) => OnElseIf(stack, ev.test(c, env))
    case Else => OnElse(stack)
    case Close => if stack == [] then [] else stack[..|stack| - 1]
    case _ => stack
  }

  lemma RunStep<V>(ev: Evaluator<V>, lines: seq<Line>, i: nat, stack: seq<Frame>, env: Env<V>)
    requires i < |lines|
    ensures Next(lines, i) == i ==> Run(ev, lines[i..], stack, env).None?
    ensures Next(lines, i) != i ==>
              Run(ev, lines[i..], stack, env) ==
              Then(Here(ev, lines, i, stack, env), Run(ev, lines[Next(lines, i)..], StackAfter(ev, lines[i], stack, env), env))
  {
    var rest := lines[i..][1..];
    assert rest == lines[i + 1..];
    ThenNil(Run(ev, rest, StackAfter(ev, lines[i], stack, env), env));
    if lines[i].For? && Next(lines, i) != i {
      var k := BlockEnd(rest, 1).value;
      assert rest[..k] == lines[i + 1..Next(lines, i) - 1];
      assert rest[k + 1..] == lines[Next(lines, i)..];
    }
  }

  /** The inner loop of renderLines: one recursive call an item. */
  method RenderPasses<V>(ev: Evaluator<V>, name: string, items: seq<V>, body: seq<Line>, env: Env<V>)
    returns (r: Option<seq<string>>)
    ensures r == Passes(ev, name, items, body, env)
    decreases |body|, 1
  {
    var pushed: seq<string> := [];
    var j := 0;
    assert items[0..] == items;
    ThenNil(Passes(ev, name, items, body, env));
    while j < |items|
      invariant 0 <= j <= |items|
      invariant Passes(ev, name, items, body, env) == Then(Some(pushed), Passes(ev, name, items[j..], body, env))
    {
      assert items[j..][1..] == items[j + 1..];
      var sub := RenderLines(ev, body, env[name := items[j]]);
      if sub.None? { return None; }
      ThenAssoc(pushed, Kept(sub.value), Passes(ev, name, items[j + 1..], body, env));
      pushed := pushed + Kept(sub.value);
      j := j + 1;
    }
    assert items[|items|..] == [] && pushed + [] == pushed;
    return Some(pushed);
  }

  /** renderLines itself: the stack, the output and the index are updated in place. */
  method RenderLines<V>(ev: Evaluator<V>, lines: seq<Line>, env: Env<V>) returns (r: Option<string>)
    ensures r == match Run(ev, lines, [], env)
                 case None => None
                 case Some(out) => Some(Join(out, '\n'))
    decreases |lines|, 0
  {
    hide Run;
    var output: seq<string> := [];
    var stack: seq<Frame> := [];
    var i := 0;
    assert lines[0..] == lines;
    ThenNil(Run(ev, lines, [], env));
    while i < |lines|
      invariant 0 <= i <= |lines|
      invariant Run(ev, lines, [], env) == Then(Some(output), Run(ev, lines[i..], stack, env))
      decreases |lines| - i
    {
      ghost var was := output;
      assert was + [] == was;
      RunStep(ev, lines, i, stack, env);
      ghost var here := Here(ev, lines, i, stack, env);
      ghost var next, stack' := Next(lines, i), StackAfter(ev, lines[i], stack, env);
      if here.Some? { ThenAssoc(output, here.value, Run(ev, lines[next..], stack', env)); }
      match lines[i] {
        case For(name, iter) =>
          var end := FindBlockEnd(lines, i);
          if end.None? { return None; }
          assert next == end.value + 1;
          if AllActive(stack) {
            assert here == Passes(ev, name, Items(ev, iter, env), lines[i + 1..end.value], env);
            var iterable := ev.items(iter, env);
            if iterable.Some? {
              var subs := RenderPasses(ev, name, iterable.value, lines[i + 1..end.value], env);
              if subs.None? { return None; }
              output := output + subs.value;
            }
          }
          i := end.value;
        case If(c) =>
          var result := ev.test(c, env);
          stack := stack + [Frame(result, result)];
        case ElseIf(c) =>
          if |stack| > 0 {
            var top := stack[|stack| - 1];
            if top.matched {
              top := top.(active := false);
            } else {
              var result := ev.test(c, env);
              top := top.(active := result);
              if result { top := top.(matched := true); }
            }
            stack := stack[|stack| - 1 := top];
          }
        case Else =>
          if |stack| > 0 {
            var top := stack[|stack| - 1];
            stack := stack[|stack| - 1 := top.(active := !top.matched)];
          }
        case Close =>
          if |stack| > 0 { stack := stack[..|stack| - 1]; }
        case _ =>
          if AllActive(stack) {
            output := output + [ev.text(lines[i].text, env)];
          }
      }
      i := i + 1;
      assert here.Some? && output == was + here.value;
    }
    assert lines[|lines|..] == [] && output + [] == output;
    RunEnd(ev, stack, env);
    return Some(Join(output, '\n'));
  }

  lemma RunEnd<V>(ev: Evaluator<V>, stack: seq<Frame>, env: Env<V>)
    ensures Run(ev, [], stack, env) == Some([])
  {}

  lemma ThenAssoc(a: seq<string>, b: seq<string>, c: Option<seq<string>>)
    ensures Then(Some(a), Then(Some(b), c)) == Then(Some(a + b), c)
  {
    if c.Some? { assert a + (b + c.value) == (a + b) + c.value; }
  }

  // ---------------------------------------------------------------- block structure

  /** A well-nested template: a block, then what follows it on the same level. */
  datatype Tree =
    | Nil
    | TextLine(text: string, rest: Tree)
    | Choice(cond: string, body: Tree, alts: Alts, rest: Tree)
    | Loop(name: string, iter: string, body: Tree, rest: Tree)

  /** What may follow an if-branch: else-ifs, then at most one else. */
  datatype Alts =
    | NoElse
    | Otherwise(body: Tree)
    | Elsif(cond: string, body: Tree, more: Alts)

  function Print(t: Tree): seq<Line> {
    match t
    case Nil => []
    case TextLine(s, rest) => [Text(s)] + Print(rest)
    case Choice(_, _, _, rest) => PrintChoice(t) + Print(rest)
    case Loop(_, _, _, rest) => PrintLoop(t) + Print(rest)
  }

  function PrintChoice(t: Tree): seq<Line>
    requires t.Choice?
    decreases t, 0
  {
    [If(t.cond)] + Print(t.body) + PrintAlts(t.alts) + [Close]
  }

  function PrintLoop(t: Tree): seq<Line>
    requires t.Loop?
    decreases t, 0
  {
    [For(t.name, t.iter)] + Print(t.body) + [Close]
  }

  function PrintAlts(a: Alts): seq<Line> {
    match a
    case NoElse => []
    case Otherwise(body) => [Else] + Print(body)
    case Elsif(c, body, more) => [ElseIf(c)] + Print(body) + PrintAlts(more)
  }

  /** The direct reading of a tree: no stack, no scanning, dead branches never looked at. */
  function Meaning<V>(ev: Evaluator<V>, t: Tree, env: Env<V>): seq<string>
    decreases t, 1
  {
    match t
    case Nil => []
    case TextLine(s, rest) => [ev.text(s, env)] + Meaning(ev, rest, env)
    case Choice(c, body, alts, rest) =>
      (if ev.test(c, env) then Meaning(ev, body, env) else MeaningAlts(ev, alts, env)) + Meaning(ev, rest, env)
    case Loop(_, _, _, rest) => LoopMeaning(ev, t, env) + Meaning(ev, rest, env)
  }

  /** A loop over what is not an array says nothing. */
  function LoopMeaning<V>(ev: Evaluator<V>, t: Tree, env: Env<V>): seq<string>
    requires t.Loop?
    decreases t, 0
  {
    match ev.items(t.iter, env)
    case None => []
    case Some(items) => MeaningLoop(ev, t.name, items, t.body, env)
  }

  function MeaningAlts<V>(ev: Evaluator<V>, a: Alts, env: Env<V>): seq<string>
    decreases a, 0
  {
    match a
    case NoElse => []
    case Otherwise(body) => Meaning(ev, body, env)
    case Elsif(c, body, more) => if ev.test(c, env) then Meaning(ev, body, env) else MeaningAlts(ev, more, env)
  }

  /** The text of each pass, in order, as one line of the output; an empty text is none. */
  function MeaningLoop<V>(ev: Evaluator<V>, x: string, items: seq<V>, body: Tree, env: Env<V>): seq<string>
    decreases body, |items| + 1
  {
    if items == [] then []
    else
      var sub := Join(Meaning(ev, body, env[x := items[0]]), '\n');
      (if sub != "" then [sub] else []) + MeaningLoop(ev, x, items[1..], body, env)
  }

  // ---------------------------------------------------------------- the two agree

  function Later(k: nat, r: Option<nat>): Option<nat> {
    match r
    case None => None
    case Some(i) => Some(k + i)
  }

  lemma BlockEndStep(line: Line, rest: seq<Line>, depth: nat)
    requires depth > 0
    ensures BlockEnd([line] + rest, depth) ==
            if line.Close? && depth == 1 then Some(0) else Later(1, BlockEnd(rest, depth + Shift(line)))
  {
    assert ([line] + rest)[1..] == rest;
  }

  lemma Assoc3(a: seq<Line>, b: seq<Line>, c: seq<Line>)
    ensures (a + b) + c == a + (b + c)
  {}

  lemma Assoc4(a: seq<Line>, b: seq<Line>, c: seq<Line>, d: seq<Line>)
    ensures a + b + c + d == a + (b + (c + d))
  {}

  lemma Assoc5(a: seq<Line>, b: seq<Line>, c: seq<Line>, d: seq<Line>, e: seq<Line>)
    ensures a + b + c + d + e == a + (b + (c + (d + e)))
  {}

  /** Scanning over a well-nested block neither stops in it nor changes the depth. */
  lemma {:induction false} BlockEndSkips(t: Tree, rest: seq<Line>, depth: nat)
    requires depth > 0
    ensures BlockEnd(Print(t) + rest, depth) == Later(|Print(t)|, BlockEnd(rest, depth))
    decreases t, 1
  {
    hide BlockEnd;
    match t
    case Nil => assert Print(t) + rest == rest;
    case TextLine(s, next) =>
      Assoc3([Text(s)], Print(next), rest);
      BlockEndStep(Text(s), Print(next) + rest, depth);
      BlockEndSkips(next, rest, depth);
    case Choice(c, body, alts, next) =>
      Assoc3(PrintChoice(t), Print(next), rest);
      BlockEndSkipsChoice(t, Print(next) + rest, depth);
      BlockEndSkips(next, rest, depth);
    case Loop(x, e, body, next) =>
      Assoc3(PrintLoop(t), Print(next), rest);
      BlockEndSkipsLoop(t, Print(next) + rest, depth);
      BlockEndSkips(next, rest, depth);
  }

  lemma {:induction false} BlockEndSkipsLoop(t: Tree, rest: seq<Line>, depth: nat)
    requires t.Loop? && depth > 0
    ensures BlockEnd(PrintLoop(t) + rest, depth) == Later(|PrintLoop(t)|, BlockEnd(rest, depth))
    decreases t, 0
  {
    hide BlockEnd;
    var tail := [Close] + rest;
    Assoc4([For(t.name, t.iter)], Print(t.body), [Close], rest);
    BlockEndStep(For(t.name, t.iter), Print(t.body) + tail, depth);
    BlockEndSkips(t.body, tail, depth + 1);
    BlockEndStep(Close, rest, depth + 1);
  }

  lemma {:induction false} BlockEndSkipsChoice(t: Tree, rest: seq<Line>, depth: nat)
    requires t.Choice? && depth > 0
    ensures BlockEnd(PrintChoice(t) + rest, depth) == Later(|PrintChoice(t)|, BlockEnd(rest, depth))
    decreases t, 0
  {
    hide BlockEnd;
    var tail := [Close] + rest;
    Assoc5([If(t.cond)], Print(t.body), PrintAlts(t.alts), [Close], rest);
    BlockEndStep(If(t.cond), Print(t.body) + (PrintAlts(t.alts) + tail), depth);
    BlockEndSkips(t.body, PrintAlts(t.alts) + tail, depth + 1);
    BlockEndSkipsAlts(t.alts, tail, depth + 1);
    BlockEndStep(Close, rest, depth + 1);
  }

  lemma {:induction false} BlockEndSkipsAlts(a: Alts, rest: seq<Line>, depth: nat)
    requires depth > 0
    ensures BlockEnd(PrintAlts(a) + rest, depth) == Later(|PrintAlts(a)|, BlockEnd(rest, depth))
  {
    hide BlockEnd;
    match a
    case NoElse => assert PrintAlts(a) + rest == rest;
    case Otherwise(body) =>
      Assoc3([Else], Print(body), rest);
      BlockEndStep(Else, Print(body) + rest, depth);
      BlockEndSkips(body, rest, depth);
    case Elsif(c, body, more) =>
      var head, tail := Print(body), PrintAlts(more);
      Assoc4([ElseIf(c)], head, tail, rest);
      BlockEndStep(ElseIf(c), head + (tail + rest), depth);
      BlockEndSkips(body, tail + rest, depth);
      BlockEndSkipsAlts(more, rest, depth);
  }

  /** From just after a loop's opening line, findBlockEnd lands on the close of that very loop. */
  lemma {:induction false} BlockEndMatches(body: Tree, rest: seq<Line>)
    ensures BlockEnd(Print(body) + [Close] + rest, 1) == Some(|Print(body)|)
  {
    assert Print(body) + [Close] + rest == Print(body) + ([Close] + rest);
    BlockEndSkips(body, [Close] + rest, 1);
  }

  /** A well-nested block outputs its meaning when it is live and nothing when it is dead, and leaves the stack alone. */
  lemma {:induction false} RunTree<V>(ev: Evaluator<V>, t: Tree, rest: seq<Line>, stack: seq<Frame>, env: Env<V>)
    ensures Run(ev, Print(t) + rest, stack, env) ==
            Then(Some(if AllActive(stack) then Meaning(ev, t, env) else []), Run(ev, rest, stack, env))
    decreases t, 1
  {
    var after := Run(ev, rest, stack, env);
    ThenNil(after);
    match t
    case Nil => assert Print(t) + rest == rest;
    case TextLine(s, next) =>
      assert (Print(t) + rest)[1..] == Print(next) + rest;
      RunTree(ev, next, rest, stack, env);
      ThenAssoc([ev.text(s, env)], Meaning(ev, next, env), after);
    case Choice(c, body, alts, next) =>
      RunChoice(ev, t, Print(next) + rest, stack, env);
      Assoc3(PrintChoice(t), Print(next), rest);
      RunTree(ev, next, rest, stack, env);
      ThenAssoc(MeaningChoice(ev, t, env), Meaning(ev, next, env), after);
    case Loop(x, e, body, next) =>
      RunLoop(ev, t, Print(next) + rest, stack, env);
      Assoc3(PrintLoop(t), Print(next), rest);
      RunTree(ev, next, rest, stack, env);
      ThenAssoc(MeaningLoop(ev, x, Items(ev, e, env), body, env), Meaning(ev, next, env), after);
  }

  function MeaningChoice<V>(ev: Evaluator<V>, t: Tree, env: Env<V>): seq<string>
    requires t.Choice?
  {
    if ev.test(t.cond, env) then Meaning(ev, t.body, env) else MeaningAlts(ev, t.alts, env)
  }

  /** An if-chain up to its close: exactly one branch speaks, the first whose condition holds, or the else. */
  lemma {:induction false} RunChoice<V>(ev: Evaluator<V>, t: Tree, rest: seq<Line>, stack: seq<Frame>, env: Env<V>)
    requires t.Choice?
    ensures Run(ev, PrintChoice(t) + rest, stack, env) ==
            Then(Some(if AllActive(stack) then MeaningChoice(ev, t, env) else []), Run(ev, rest, stack, env))
    decreases t, 0
  {
    var test := ev.test(t.cond, env);
    var top := Frame(test, test);
    var lines := Print(t.body) + (PrintAlts(t.alts) + ([Close] + rest));
    Assoc5([If(t.cond)], Print(t.body), PrintAlts(t.alts), [Close], rest);
    assert ([If(t.cond)] + lines)[1..] == lines;
    RunTree(ev, t.body, PrintAlts(t.alts) + ([Close] + rest), stack + [top], env);
    RunAlts(ev, t.alts, rest, stack, top, env);
    Push(stack, top);
    var one := if AllActive(stack) && test then Meaning(ev, t.body, env) else [];
    var two := if AllActive(stack) && !test then MeaningAlts(ev, t.alts, env) else [];
    ThenAssoc(one, two, Run(ev, rest, stack, env));
    assert one + two == if AllActive(stack) then MeaningChoice(ev, t, env) else [];
  }

  /** What is left of an if-chain speaks only if no earlier branch was taken. */
  lemma {:induction false} RunAlts<V>(ev: Evaluator<V>, a: Alts, rest: seq<Line>, stack: seq<Frame>, top: Frame, env: Env<V>)
    ensures Run(ev, PrintAlts(a) + ([Close] + rest), stack + [top], env) ==
            Then(Some(if AllActive(stack) && !top.matched then MeaningAlts(ev, a, env) else []), Run(ev, rest, stack, env))
    decreases a, 1
  {
    match a
    case NoElse =>
      assert PrintAlts(a) + ([Close] + rest) == [Close] + rest;
      RunClose(ev, rest, stack, top, env);
      ThenNil(Run(ev, rest, stack, env));
    case Otherwise(body) =>
      var top' := top.(active := !top.matched);
      assert (PrintAlts(a) + ([Close] + rest))[1..] == Print(body) + ([Close] + rest);
      assert OnElse(stack + [top]) == stack + [top'];
      RunTree(ev, body, [Close] + rest, stack + [top'], env);
      RunClose(ev, rest, stack, top', env);
      Push(stack, top');
    case Elsif(c, body, more) => RunElseIf(ev, a, rest, stack, top, env);
  }

  lemma {:induction false} RunElseIf<V>(ev: Evaluator<V>, a: Alts, rest: seq<Line>, stack: seq<Frame>, top: Frame, env: Env<V>)
    requires a.Elsif?
    ensures Run(ev, PrintAlts(a) + ([Close] + rest), stack + [top], env) ==
            Then(Some(if AllActive(stack) && !top.matched then MeaningAlts(ev, a, env) else []), Run(ev, rest, stack, env))
    decreases a, 0
  {
    var test := ev.test(a.cond, env);
    var top' := if top.matched then top.(active := false) else Frame(test, test);
    var lines := Print(a.body) + (PrintAlts(a.more) + ([Close] + rest));
    Assoc4([ElseIf(a.cond)], Print(a.body), PrintAlts(a.more), [Close] + rest);
    assert ([ElseIf(a.cond)] + lines)[1..] == lines;
    assert OnElseIf(stack + [top], test) == stack + [top'];
    RunTree(ev, a.body, PrintAlts(a.more) + ([Close] + rest), stack + [top'], env);
    RunAlts(ev, a.more, rest, stack, top', env);
    Push(stack, top');
    var one := if AllActive(stack) && top'.active then Meaning(ev, a.body, env) else [];
    var two := if AllActive(stack) && !top'.matched then MeaningAlts(ev, a.more, env) else [];
    ThenAssoc(one, two, Run(ev, rest, stack, env));
    assert one + two == if AllActive(stack) && !top.matched then MeaningAlts(ev, a, env) else [];
  }

  lemma RunClose<V>(ev: Evaluator<V>, rest: seq<Line>, stack: seq<Frame>, top: Frame, env: Env<V>)
    ensures Run(ev, [Close] + rest, stack + [top], env) == Run(ev, rest, stack, env)
  {
    assert ([Close] + rest)[1..] == rest;
    assert (stack + [top])[..|stack|] == stack;
  }

  /** A loop up to its close: one pass an item when live; when dead its body is jumped over. */
  lemma {:induction false} RunLoop<V>(ev: Evaluator<V>, t: Tree, rest: seq<Line>, stack: seq<Frame>, env: Env<V>)
    requires t.Loop?
    ensures Run(ev, PrintLoop(t) + rest, stack, env) ==
            Then(Some(if AllActive(stack) then LoopMeaning(ev, t, env) else []),
                 Run(ev, rest, stack, env))
    decreases t, 0
  {
    var lines := Print(t.body) + [Close] + rest;
    assert PrintLoop(t) + rest == [For(t.name, t.iter)] + lines;
    assert ([For(t.name, t.iter)] + lines)[1..] == lines;
    BlockEndMatches(t.body, rest);
    assert lines[..|Print(t.body)|] == Print(t.body);
    assert lines[|Print(t.body)| + 1..] == rest;
    RunPasses(ev, t.name, Items(ev, t.iter, env), t.body, env);
  }

  lemma {:induction false} RunPasses<V>(ev: Evaluator<V>, x: string, items: seq<V>, body: Tree, env: Env<V>)
    ensures Passes(ev, x, items, Print(body), env) == Some(MeaningLoop(ev, x, items, body, env))
    decreases body, |items| + 2
  {
    if items != [] {
      var env' := env[x := items[0]];
      RunTree(ev, body, [], [], env');
      assert Print(body) + [] == Print(body);
      assert Meaning(ev, body, env') + [] == Meaning(ev, body, env');
      RunPasses(ev, x, items[1..], body, env);
    }
  }

  lemma Push(stack: seq<Frame>, top: Frame)
    ensures AllActive(stack + [top]) <==> AllActive(stack) && top.active
  {
    if AllActive(stack + [top]) {
      assert (stack + [top])[|stack|] == top;
      forall k | 0 <= k < |stack| ensures stack[k].active { assert (stack + [top])[k] == stack[k]; }
    }
  }

  lemma ThenNil(r: Option<seq<string>>)
    ensures Then(Some([]), r) == r
  {
    if r.Some? { assert [] + r.value == r.value; }
  }

  /** The main result: on every well-nested template the flat interpreter computes the direct reading. */
  lemma {:induction false} RenderIsMeaning<V>(ev: Evaluator<V>, t: Tree, env: Env<V>)
    ensures Run(ev, Print(t), [], env) == Some(Meaning(ev, t, env))
  {
    RunTree(ev, t, [], [], env);
    assert Print(t) + [] == Print(t);
    assert Meaning(ev, t, env) + [] == Meaning(ev, t, env);
  }

  // ---------------------------------------------------------------- when rendering throws

  ghost predicate Closed(lines: seq<Line>) {
    forall i :: 0 <= i < |lines| && lines[i].For? ==> BlockEnd(lines[i + 1..], 1).Some?
  }

  /** Where an outer block ends, a block opened inside it has already ended. */
  lemma {:induction false} InnerEndsFirst(s: seq<Line>, depth: nat, extra: nat)
    requires depth > 0 && extra > 0
    requires BlockEnd(s, depth + extra).Some?
    ensures BlockEnd(s, depth).Some? && BlockEnd(s, depth).value < BlockEnd(s, depth + extra).value
  {
    if !(s[0].Close? && depth == 1) {
      InnerEndsFirst(s[1..], depth + Shift(s[0]), extra);
    }
  }

  /** The end of a block depends only on the lines up to it. */
  lemma {:induction false} BlockEndCut(s: seq<Line>, depth: nat, m: nat)
    requires depth > 0 && m <= |s|
    requires BlockEnd(s, depth).Some? && BlockEnd(s, depth).value < m
    ensures BlockEnd(s[..m], depth) == BlockEnd(s, depth)
  {
    if !(s[0].Close? && depth == 1) {
      assert s[..m][1..] == s[1..][..m - 1];
      BlockEndCut(s[1..], depth + Shift(s[0]), m - 1);
    }
  }

  /** A block opened inside a block that ends at k is closed before k. */
  lemma {:induction false} InnerIsClosed(s: seq<Line>, depth: nat, i: nat)
    requires depth > 0 && BlockEnd(s, depth).Some? && i < BlockEnd(s, depth).value && s[i].For?
    ensures BlockEnd(s[i + 1..], 1).Some? && i + 1 + BlockEnd(s[i + 1..], 1).value < BlockEnd(s, depth).value
    decreases i
  {
    if i == 0 {
      InnerEndsFirst(s[1..], 1, depth);
    } else {
      assert s[1..][i..] == s[i + 1..];
      InnerIsClosed(s[1..], depth + Shift(s[0]), i - 1);
    }
  }

  lemma {:induction false} BodyIsClosed(s: seq<Line>)
    requires BlockEnd(s, 1).Some?
    ensures Closed(s[..BlockEnd(s, 1).value])
  {
    var k := BlockEnd(s, 1).value;
    var body := s[..k];
    forall i | 0 <= i < |body| && body[i].For? ensures BlockEnd(body[i + 1..], 1).Some? {
      InnerIsClosed(s, 1, i);
      BlockEndCut(s[i + 1..], 1, k - i - 1);
      assert body[i + 1..] == s[i + 1..][..k - i - 1];
    }
  }

  lemma {:induction false} ClosedRuns<V>(ev: Evaluator<V>, lines: seq<Line>, stack: seq<Frame>, env: Env<V>)
    requires Closed(lines)
    ensures Run(ev, lines, stack, env).Some?
    decreases |lines|, 0
  {
    if lines != [] {
      hide Run;
      var next := Next(lines, 0);
      assert lines[0..] == lines;
      RunStep(ev, lines, 0, stack, env);
      forall i | 0 <= i < |lines[next..]| && lines[next..][i].For? ensures BlockEnd(lines[next..][i + 1..], 1).Some? {
        assert lines[next + i].For? && lines[next..][i + 1..] == lines[next + i + 1..];
      }
      ClosedRuns(ev, lines[next..], StackAfter(ev, lines[0], stack, env), env);
      if lines[0].For? && AllActive(stack) {
        BodyIsClosed(lines[1..]);
        assert lines[1..next - 1] == lines[1..][..next - 2];
        ClosedPasses(ev, lines[0].name, Items(ev, lines[0].iter, env), lines[1..next - 1], env);
      }
    } else {
      RunEnd(ev, stack, env);
    }
  }

  lemma {:induction false} ClosedPasses<V>(ev: Evaluator<V>, name: string, items: seq<V>, body: seq<Line>, env: Env<V>)
    requires Closed(body)
    ensures Passes(ev, name, items, body, env).Some?
    decreases |body|, |items| + 1
  {
    if items != [] {
      ClosedRuns(ev, body, [], env[name := items[0]]);
      ClosedPasses(ev, name, items[1..], body, env);
    }
  }

  /**
   Rendering ends on every list of lines. It throws exactly when some `for` line has no matching
   close, whatever the expressions are worth and whether or not that line is in a dead branch.
   */
  lemma {:induction false} ThrowsIffUnclosed<V>(ev: Evaluator<V>, lines: seq<Line>, stack: seq<Frame>, env: Env<V>)
    ensures Run(ev, lines, stack, env).None? <==>
            exists i :: 0 <= i < |lines| && lines[i].For? && BlockEnd(lines[i + 1..], 1).None?
    decreases |lines|
  {
    if Closed(lines) {
      ClosedRuns(ev, lines, stack, env);
    } else {
      var i :| 0 <= i < |lines| && lines[i].For? && BlockEnd(lines[i + 1..], 1).None?;
      UnclosedThrows(ev, lines, i, stack, env);
    }
  }

  lemma {:induction false} UnclosedThrows<V>(ev: Evaluator<V>, lines: seq<Line>, i: nat, stack: seq<Frame>, env: Env<V>)
    requires i < |lines| && lines[i].For? && BlockEnd(lines[i + 1..], 1).None?
    ensures Run(ev, lines, stack, env).None?
    decreases |lines|
  {
    hide Run;
    var next := Next(lines, 0);
    assert lines[0..] == lines;
    RunStep(ev, lines, 0, stack, env);
    if next != 0 {
      if lines[0].For? && i < next {
        if i > 0 {
          assert lines[1..][i..] == lines[i + 1..];
          InnerIsClosed(lines[1..], 1, i - 1);
        }
        assert false;
      }
      assert lines[next..][i - next + 1..] == lines[i + 1..];
      UnclosedThrows(ev, lines[next..], i - next, StackAfter(ev, lines[0], stack, env), env);
    }
  }

  // ---------------------------------------------------------------- lines that are not well nested

  /** An else or else-if, with what its condition is worth: None is an else. */
  function OnBranches(top: Frame, branches: seq<Option<bool>>): Frame {
    if branches == [] then top
    else
      var was := [OnBranches(top, branches[..|branches| - 1])];
      match branches[|branches| - 1]
      case None => OnElse(was)[0]
      case Some(test) => OnElseIf(was, test)[0]
  }

  /**
   Any branches, also after an else: a branch was taken if some condition held so far; the present branch is live if
   no condition held before it and its own holds, if it has one.
   */
  lemma {:induction false} BranchIsLiveIff(test: bool, branches: seq<Option<bool>>)
    ensures var top, all := OnBranches(Frame(test, test), branches), [Some(test)] + branches;
            var n := |branches|;
            (top.matched <==> Some(true) in all) &&
            (top.active <==> Some(true) !in all[..n] && all[n] != Some(false))
  {
    var n, all := |branches|, [Some(test)] + branches;
    if n > 0 {
      BranchIsLiveIff(test, branches[..n - 1]);
      assert [Some(test)] + branches[..n - 1] == all[..n] && all == all[..n] + [all[n]];
    }
  }

  /** Without an open if-block an else, an else-if and a close do nothing. */
  lemma {:induction false} StrayLinesDoNothing<V>(ev: Evaluator<V>, line: Line, rest: seq<Line>, env: Env<V>)
    requires line.Else? || line.ElseIf? || line.Close?
    ensures Run(ev, [line] + rest, [], env) == Run(ev, rest, [], env)
  {
    assert ([line] + rest)[1..] == rest;
  }

  /** A `for` of another form is text to the interpreter, though it opens a block to the scan. */
  lemma {:induction false} OtherForIsText<V>(ev: Evaluator<V>, text: string, rest: seq<Line>, env: Env<V>)
    requires Run(ev, rest, [], env).Some?
    ensures Run(ev, [OtherFor(text)] + rest, [], env) == Some([ev.text(text, env)] + Run(ev, rest, [], env).value)
    ensures BlockEnd([OtherFor(text), Close], 1).None?
  {
    assert ([OtherFor(text)] + rest)[1..] == rest;
    assert [OtherFor(text), Close][1..] == [Close] && [Close][1..] == [];
  }

  // ---------------------------------------------------------------- what a loop adds

  function NonEmpty(texts: seq<string>): seq<string> {
    if texts == [] then [] else NonEmpty(texts[..|texts| - 1]) + (if texts[|texts| - 1] == "" then [] else [texts[|texts| - 1]])
  }

  function PassTexts<V>(ev: Evaluator<V>, x: string, items: seq<V>, body: Tree, env: Env<V>): seq<string> {
    seq(|items|, i requires 0 <= i < |items| => Join(Meaning(ev, body, env[x := items[i]]), '\n'))
  }

  lemma {:induction false} NonEmptyConcat(a: seq<string>, b: seq<string>)
    ensures NonEmpty(a + b) == NonEmpty(a) + NonEmpty(b)
  {
    if b == [] {
      assert a + b == a;
    } else {
      assert (a + b)[..|a + b| - 1] == a + b[..|b| - 1];
      NonEmptyConcat(a, b[..|b| - 1]);
    }
  }

  /** What is left out is the empty texts, and nothing else. */
  lemma {:induction false} NonEmptyKeeps(texts: seq<string>, text: string)
    ensures multiset(NonEmpty(texts))[text] == if text == "" then 0 else multiset(texts)[text]
  {
    if texts != [] {
      var n := |texts| - 1;
      NonEmptyKeeps(texts[..n], text);
      assert texts == texts[..n] + [texts[n]];
    }
  }

  /** The output of a loop: the texts of its passes, in order, with the empty ones left out. */
  lemma {:induction false} LoopIsPassTexts<V>(ev: Evaluator<V>, t: Tree, env: Env<V>)
    requires t.Loop?
    ensures Run(ev, PrintLoop(t), [], env) ==
            Some(match ev.items(t.iter, env)
                 case None => []
                 case Some(items) => NonEmpty(PassTexts(ev, t.name, items, t.body, env)))
  {
    hide PrintLoop, Run;
    assert PrintLoop(t) + [] == PrintLoop(t);
    RunLoop(ev, t, [], [], env);
    RunEnd(ev, [], env);
    assert LoopMeaning(ev, t, env) + [] == LoopMeaning(ev, t, env);
    if ev.items(t.iter, env).Some? { LoopTexts(ev, t.name, ev.items(t.iter, env).value, t.body, env); }
  }

  lemma OneText(text: string)
    ensures NonEmpty([]) == [] && NonEmpty([text]) == if text == "" then [] else [text]
  {
    assert [text][..0] == [];
  }

  lemma {:induction false} LoopTexts<V>(ev: Evaluator<V>, x: string, items: seq<V>, body: Tree, env: Env<V>)
    ensures MeaningLoop(ev, x, items, body, env) == NonEmpty(PassTexts(ev, x, items, body, env))
  {
    hide NonEmpty, Meaning, LoopMeaning, MeaningAlts, Join;
    OneText("");
    if items == [] {
      assert PassTexts(ev, x, items, body, env) == [];
    } else {
      var rest := PassTexts(ev, x, items[1..], body, env);
      LoopTexts(ev, x, items[1..], body, env);
      var texts := PassTexts(ev, x, items, body, env);
      assert texts == [texts[0]] + rest;
      NonEmptyConcat([texts[0]], rest);
      OneText(texts[0]);
    }
  }

  // ---------------------------------------------------------------- blank lines

  /** `replace(/\n{4,}/g, '\n\n\n')`, after `run` newlines: of a run of newlines the first three stay. */
  function Collapse(s: string, run: nat): string {
    if s == "" then ""
    else if s[0] != '\n' then [s[0]] + Collapse(s[1..], 0)
    else if run < 3 then "\n" + Collapse(s[1..], run + 1)
    else Collapse(s[1..], run)
  }

  /** render: the lines, then the collapsing of blank ones. */
  method Render<V>(ev: Evaluator<V>, lines: seq<Line>, env: Env<V>) returns (r: Option<string>)
    ensures r == match Run(ev, lines, [], env)
                 case None => None
                 case Some(out) => Some(Collapse(Join(out, '\n'), 0))
  {
    var text := RenderLines(ev, lines, env);
    if text.None? { return None; }
    return Some(Collapse(text.value, 0));
  }

  predicate HasFour(s: string) {
    exists i :: 0 <= i <= |s| - 4 && FourAt(s, i)
  }

  predicate FourAt(s: string, i: nat)
    requires i + 4 <= |s|
  {
    s[i] == '\n' && s[i + 1] == '\n' && s[i + 2] == '\n' && s[i + 3] == '\n'
  }

  function Newlines(n: nat): string {
    seq(n, i => '\n')
  }

  lemma {:induction false} CollapseKeeps(s: string, run: nat)
    requires run <= 3 && !HasFour(Newlines(run) + s)
    ensures Collapse(s, run) == s
  {
    var t := Newlines(run) + s;
    if s != "" {
      assert s == [s[0]] + s[1..];
      if s[0] == '\n' {
        assert run == 3 ==> FourAt(t, 0);
        assert Newlines(run + 1) + s[1..] == t;
        CollapseKeeps(s[1..], run + 1);
      } else {
        assert forall i: nat :: i + 4 <= |s| - 1 && FourAt(Newlines(0) + s[1..], i) ==> FourAt(t, run + 1 + i);
        CollapseKeeps(s[1..], 0);
      }
    }
  }

  lemma {:induction false} NoFourLeft(s: string, run: nat)
    requires run <= 3
    ensures !HasFour(Newlines(run) + Collapse(s, run))
  {
    if s != "" {
      if s[0] == '\n' {
        NoFourLeft(s[1..], if run < 3 then run + 1 else run);
        if run < 3 { assert Newlines(run) + ("\n" + Collapse(s[1..], run + 1)) == Newlines(run + 1) + Collapse(s[1..], run + 1); }
      } else {
        NoFourLeft(s[1..], 0);
        assert Newlines(0) + Collapse(s[1..], 0) == Collapse(s[1..], 0);
        FourAfterText(Newlines(run), s[0], Collapse(s[1..], 0));
      }
    }
  }

  lemma FourAfterText(front: string, c: char, rest: string)
    requires |front| <= 3 && c != '\n' && !HasFour(rest)
    ensures !HasFour(front + ([c] + rest))
  {
    var t := front + ([c] + rest);
    forall i: nat | i + 4 <= |t| ensures !FourAt(t, i) {
      if i > |front| {
        assert !FourAt(rest, i - |front| - 1);
      } else {
        assert t[|front|] == c;
      }
    }
  }

  /** What render returns has no four newlines in a row; a text without them is returned as it is, so rendering twice collapses nothing more. */
  lemma {:induction false} CollapsedIff(s: string)
    ensures Collapse(s, 0) == s <==> !HasFour(s)
    ensures Collapse(Collapse(s, 0), 0) == Collapse(s, 0)
  {
    assert Newlines(0) + s == s && Newlines(0) + Collapse(s, 0) == Collapse(s, 0);
    NoFourLeft(s, 0);
    if !HasFour(s) { CollapseKeeps(s, 0); }
    CollapseKeeps(Collapse(s, 0), 0);
  }

  function WithoutNewlines(s: string): string {
    if s == "" then "" else (if s[0] == '\n' then "" else [s[0]]) + WithoutNewlines(s[1..])
  }

  /** Nothing but newlines is dropped. */
  lemma {:induction false} OnlyNewlinesGo(s: string, run: nat)
    ensures WithoutNewlines(Collapse(s, run)) == WithoutNewlines(s)
  {
    if s != "" {
      OnlyNewlinesGo(s[1..], if s[0] != '\n' then 0 else if run < 3 then run + 1 else run);
    }
  }

  /** Each run of newlines is cut to three, whatever its length. */
  lemma {:induction false} RunIsCutToThree(n: nat, rest: string, run: nat)
    requires run <= 3 && (rest == "" || rest[0] != '\n')
    ensures Collapse(Newlines(n) + rest, run) == Newlines(if run + n < 3 then n else 3 - run) + Collapse(rest, 0)
  {
    var t := Newlines(n) + rest;
    if n == 0 {
      assert t == rest && Newlines(0) + Collapse(rest, 0) == Collapse(rest, 0);
    } else {
      assert t[1..] == Newlines(n - 1) + rest && t[0] == '\n';
      RunIsCutToThree(n - 1, rest, if run < 3 then run + 1 else run);
      if run < 3 { OneMoreNewline(if run + n < 3 then n else 3 - run, Collapse(rest, 0)); }
    }
  }

  lemma OneMoreNewline(k: nat, text: string)
    requires k > 0
    ensures "\n" + (Newlines(k - 1) + text) == Newlines(k) + text
  {
    assert "\n" + Newlines(k - 1) == Newlines(k);
  }
}
