/**
 The WHERE compiler of the admin panel (admin-panel/internal/browser/sql_builder.go).

 A compiled clause is kept as a term instead of text: the column it names and the numbers of
 its `$n` placeholders. Rows, values and the operators of the database are supplied by the caller.
 */
module SqlWhere {
  import opened Common
  import opened Strings
  import L = Like

  datatype Op =
    | Eq | Neq | Gt | Gte | Lt | Lte
    | ILike | StartsWith | EndsWith
    | IsNull | IsNotNull | In | Between | ContainsKey | Has
    | Unsupported(name: string)

  datatype Column = Column(name: string, udtName: string, nullable: bool)

  datatype Table = Table(columns: seq<Column>)

  datatype Filter = Filter(column: string, op: Op, values: seq<string>)

  datatype Error =
    | UnknownColumn(column: string)
    | NeedsValue(column: string, op: Op)
    | NotCoercible(column: string, raw: string)
    | UnsupportedOperator(op: Op)

  /** A bound argument: a coerced value, which may be NULL, or a plain string. */
  datatype Arg<V> = Value(v: Option<V>) | Str(s: string)

  /** A compiled condition; the numbers are placeholders. */
  datatype Clause =
    | NullTest(column: string, negated: bool)
    | Compare(column: string, op: Op, n: nat)
    | ILikeTest(column: string, n: nat)
    | InList(column: string, ns: seq<nat>)
    | BetweenTest(column: string, lo: nat, hi: nat)
    | KeyTest(column: string, n: nat)
    | AnyTest(n: nat, column: string)
    | AnyOf(alternatives: seq<Clause>)

  // ---------------------------------------------------------------- three-valued logic

  datatype Truth = Yes | No | Unknown

  function And3(a: Truth, b: Truth): (r: Truth)
    ensures r.Yes? <==> a.Yes? && b.Yes?
    ensures r.No? <==> a.No? || b.No?
  {
    if a.No? || b.No? then No else if a.Yes? && b.Yes? then Yes else Unknown
  }

  function Or3(a: Truth, b: Truth): (r: Truth)
    ensures r.Yes? <==> a.Yes? || b.Yes?
    ensures r.No? <==> a.No? && b.No?
  {
    if a.Yes? || b.Yes? then Yes else if a.No? && b.No? then No else Unknown
  }

  function Lift(b: bool): (r: Truth)
    ensures (r.Yes? <==> b) && (r.No? <==> !b)
  {
    if b then Yes else No
  }

  /**
   The database: the cell of a row in a column (None is NULL), the comparison operators on
   non-null values, `::text`, case folding, `?` on JSON, and membership in an array value.
   */
  datatype Database<!R, !V> = Database(
    cell: (R, string) -> Option<V>,
    compare: (Op, V, V) -> bool,
    text: V -> string,
    fold: char -> char,
    hasKey: (V, string) -> bool,
    hasElement: (V, string) -> Truth)

  function Compare3<R, V>(db: Database<R, V>, op: Op, a: Option<V>, b: Option<V>): (r: Truth)
    ensures r.Unknown? <==> a.None? || b.None?
    ensures a.Some? && b.Some? ==> (r.Yes? <==> db.compare(op, a.value, b.value))
  {
    if a.None? || b.None? then Unknown else Lift(db.compare(op, a.value, b.value))
  }

  /** A string test on a cell: unknown on NULL. */
  function OnText<R, V>(db: Database<R, V>, cell: Option<V>, test: string -> bool): (r: Truth)
    ensures r.Unknown? <==> cell.None?
    ensures cell.Some? ==> (r.Yes? <==> test(db.text(cell.value)))
  {
    if cell.None? then Unknown else Lift(test(db.text(cell.value)))
  }

  // ---------------------------------------------------------------- the meaning of what was compiled

  function ArgValue<V>(args: seq<Arg<V>>, n: nat): Option<V> {
    if 0 < n <= |args| && args[n - 1].Value? then args[n - 1].v else None
  }

  function ArgText<V>(args: seq<Arg<V>>, n: nat): string {
    if 0 < n <= |args| && args[n - 1].Str? then args[n - 1].s else ""
  }

  /** The truth of a compiled condition on a row, placeholder n standing for the n-th argument. */
  function Eval<R, V>(db: Database<R, V>, c: Clause, args: seq<Arg<V>>, row: R): Truth {
    match c
    case NullTest(col, negated) => Lift(db.cell(row, col).None? != negated)
    case Compare(col, op, n) => Compare3(db, op, db.cell(row, col), ArgValue(args, n))
    case ILikeTest(col, n) => OnText(db, db.cell(row, col), t => L.ILike(db.fold, ArgText(args, n), t))
    case InList(col, ns) => EvalIn(db, db.cell(row, col), ns, args)
    case BetweenTest(col, lo, hi) =>
      And3(Compare3(db, Gte, db.cell(row, col), ArgValue(args, lo)),
           Compare3(db, Lte, db.cell(row, col), ArgValue(args, hi)))
    case KeyTest(col, n) =>
      if db.cell(row, col).None? then Unknown else Lift(db.hasKey(db.cell(row, col).value, ArgText(args, n)))
    case AnyTest(n, col) =>
      if db.cell(row, col).None? then Unknown else db.hasElement(db.cell(row, col).value, ArgText(args, n))
    case AnyOf(alternatives) => EvalAny(db, alternatives, args, row)
  }

  function EvalIn<R, V>(db: Database<R, V>, cell: Option<V>, ns: seq<nat>, args: seq<Arg<V>>): Truth {
    if ns == [] then No else Or3(Compare3(db, Eq, cell, ArgValue(args, ns[0])), EvalIn(db, cell, ns[1..], args))
  }

  function EvalAny<R, V>(db: Database<R, V>, cs: seq<Clause>, args: seq<Arg<V>>, row: R): Truth {
    if cs == [] then No else Or3(Eval(db, cs[0], args, row), EvalAny(db, cs[1..], args, row))
  }

  /** `a AND b AND ..`; no WHERE at all keeps every row. */
  function EvalWhere<R, V>(db: Database<R, V>, cs: seq<Clause>, args: seq<Arg<V>>, row: R): Truth {
    if cs == [] then Yes else And3(Eval(db, cs[0], args, row), EvalWhere(db, cs[1..], args, row))
  }

  // ---------------------------------------------------------------- what the filters mean

  /** coerce: the argument a raw string stands for in a column; the value None is SQL NULL. */
  type Coerce<!V> = (Column, string) -> Option<Option<V>>

  predicate IsNamed(c: Column, name: string) {
    c.name == name
  }

  /** Column i is the first one with the name. */
  ghost predicate FirstNamed(t: Table, name: string, i: nat) {
    i < |t.columns| && IsNamed(t.columns[i], name) && forall j :: 0 <= j < i ==> !IsNamed(t.columns[j], name)
  }

  ghost predicate HasColumn(t: Table, name: string) {
    exists c :: c in t.columns && IsNamed(c, name)
  }

  ghost function ColumnNamed(t: Table, name: string): (c: Column)
    requires HasColumn(t, name)
    ensures exists i: nat :: FirstNamed(t, name, i) && c == t.columns[i]
  {
    FirstNamedExists(t, name, 0);
    var i: nat :| FirstNamed(t, name, i);
    t.columns[i]
  }

  lemma {:induction false} FirstNamedExists(t: Table, name: string, i: nat)
    requires HasColumn(t, name) && i <= |t.columns| && forall j :: 0 <= j < i ==> !IsNamed(t.columns[j], name)
    ensures exists k: nat :: FirstNamed(t, name, k)
    decreases |t.columns| - i
  {
    if i < |t.columns| && IsNamed(t.columns[i], name) { assert FirstNamed(t, name, i); }
    else if i < |t.columns| { FirstNamedExists(t, name, i + 1); }
  }

  function Coerced<V>(coerce: Coerce<V>, c: Column, raw: string): Option<V> {
    match coerce(c, raw)
    case None => None
    case Some(v) => v
  }

  /** The values that the operator needs are there. */
  predicate Enough(f: Filter) {
    match f.op
    case IsNull => true
    case IsNotNull => true
    case Between => |f.values| >= 2
    case _ => |f.values| >= 1
  }

  /** Value number i is one that has to be coerced. */
  predicate IsCoerced(op: Op, i: nat) {
    match op
    case In => true
    case Between => i < 2
    case Eq => i == 0
    case Neq => i == 0
    case Gt => i == 0
    case Gte => i == 0
    case Lt => i == 0
    case Lte => i == 0
    case _ => false
  }

  ghost predicate Complete(t: Table, f: Filter) {
    HasColumn(t, f.column) && Enough(f)
  }

  /** A filter that can be compiled: the caller can check it beforehand. */
  ghost predicate Compilable<V>(coerce: Coerce<V>, t: Table, f: Filter) {
    Complete(t, f) && !f.op.Unsupported? &&
    forall i :: 0 <= i < |f.values| && IsCoerced(f.op, i) ==> coerce(ColumnNamed(t, f.column), f.values[i]).Some?
  }

  /** What a filter says of a row, without placeholders, patterns or escaping. */
  function Meaning<R, V>(db: Database<R, V>, coerce: Coerce<V>, c: Column, f: Filter, row: R): Truth
    requires Enough(f)
  {
    var cell := db.cell(row, f.column);
    match f.op
    case IsNull => Lift(cell.None?)
    case IsNotNull => Lift(cell.Some?)
    case ILike => OnText(db, cell, t => Contains(L.Fold(db.fold, t), L.Fold(db.fold, f.values[0])))
    case StartsWith => OnText(db, cell, t => HasPrefix(L.Fold(db.fold, t), L.Fold(db.fold, f.values[0])))
    case EndsWith => OnText(db, cell, t => HasSuffix(L.Fold(db.fold, t), L.Fold(db.fold, f.values[0])))
    case In => OneOf(db, coerce, c, cell, f.values)
    case Between =>
      And3(Compare3(db, Gte, cell, Coerced(coerce, c, f.values[0])),
           Compare3(db, Lte, cell, Coerced(coerce, c, f.values[1])))
    case ContainsKey => if cell.None? then Unknown else Lift(db.hasKey(cell.value, f.values[0]))
    case Has => if cell.None? then Unknown else db.hasElement(cell.value, f.values[0])
    case Unsupported(_) => Unknown
    case _ => Compare3(db, f.op, cell, Coerced(coerce, c, f.values[0]))
  }

  function OneOf<R, V>(db: Database<R, V>, coerce: Coerce<V>, c: Column, cell: Option<V>, values: seq<string>): Truth {
    if values == [] then No
    else Or3(Compare3(db, Eq, cell, Coerced(coerce, c, values[0])), OneOf(db, coerce, c, cell, values[1..]))
  }

  predicate IsText(c: Column) {
    c.udtName in {"text", "citext", "varchar", "bpchar"}
  }

  /** The search in one column: the unescaped pattern. */
  function InColumn<R, V>(db: Database<R, V>, c: Column, search: string, row: R): Truth {
    OnText(db, db.cell(row, c.name), t => L.ILike(db.fold, "%" + search + "%", t))
  }

  /** The search says that some text column matches; with no text column it says nothing. */
  ghost function SearchMeaning<R, V>(db: Database<R, V>, t: Table, search: string, row: R): Truth {
    if search == "" || (forall c :: c in t.columns ==> !IsText(c)) then Yes
    else if exists c :: c in t.columns && IsText(c) && InColumn(db, c, search, row).Yes? then Yes
    else if forall c :: c in t.columns && IsText(c) ==> InColumn(db, c, search, row).No? then No
    else Unknown
  }

  ghost function AllMeanings<R, V>(db: Database<R, V>, coerce: Coerce<V>, t: Table, fs: seq<Filter>, row: R): Truth
    requires forall f :: f in fs ==> Complete(t, f)
  {
    if fs == [] then Yes
    else
      assert Complete(t, fs[0]);
      And3(Meaning(db, coerce, ColumnNamed(t, fs[0].column), fs[0], row), AllMeanings(db, coerce, t, fs[1..], row))
  }

  // ---------------------------------------------------------------- the compiler

  function Lookup(t: Table, name: string): Option<Column> {
    LookupIn(t.columns, name)
  }

  function LookupIn(cs: seq<Column>, name: string): Option<Column> {
    if cs == [] then None else if cs[0].name == name then Some(cs[0]) else LookupIn(cs[1..], name)
  }

  predicate IsComparison(op: Op) {
    op.Eq? || op.Neq? || op.Gt? || op.Gte? || op.Lt? || op.Lte?
  }

  /** How many values the operator needs. */
  function Arity(op: Op): nat {
    if op.IsNull? || op.IsNotNull? then 0 else if op.Between? then 2 else 1
  }

  /** The values that have to be coerced, in the order they are. */
  function ToCoerce(f: Filter): seq<string>
    requires |f.values| >= Arity(f.op)
  {
    if IsComparison(f.op) then f.values[..1]
    else if f.op.In? then f.values
    else if f.op.Between? then f.values[..2]
    else []
  }

  predicate Textish(c: Column) {
    c.udtName == "text" || c.udtName == "citext" || c.udtName == "varchar" || c.udtName == "bpchar"
  }

  function TextColumns(cs: seq<Column>): seq<Column> {
    if cs == [] then [] else (if Textish(cs[0]) then [cs[0]] else []) + TextColumns(cs[1..])
  }

  function CoerceAll<V>(coerce: Coerce<V>, c: Column, raws: seq<string>): Result<seq<Arg<V>>, Error> {
    if raws == [] then Ok([])
    else
      match coerce(c, raws[0])
      case None => Err(NotCoercible(c.name, raws[0]))
      case Some(v) =>
        Prepend([Value(v)], CoerceAll(coerce, c, raws[1..]))
  }

  function Prepend<A>(before: seq<A>, r: Result<seq<A>, Error>): Result<seq<A>, Error> {
    match r
    case Err(e) => Err(e)
    case Ok(rest) => Ok(before + rest)
  }

  function PrependBoth<A, B>(a: seq<A>, b: seq<B>, r: Result<(seq<A>, seq<B>), Error>): Result<(seq<A>, seq<B>), Error> {
    match r
    case Err(e) => Err(e)
    case Ok((as', bs)) => Ok((a + as', b + bs))
  }

  lemma PrependAssoc<A>(a: seq<A>, b: seq<A>, r: Result<seq<A>, Error>)
    ensures Prepend(a, Prepend(b, r)) == Prepend(a + b, r) && Prepend([], r) == r
  {
    if r.Ok? { assert a + (b + r.value) == a + b + r.value && [] + r.value == r.value; }
  }

  lemma PrependBothAssoc<A, B>(a: seq<A>, b: seq<B>, a': seq<A>, b': seq<B>, r: Result<(seq<A>, seq<B>), Error>)
    ensures PrependBoth(a, b, PrependBoth(a', b', r)) == PrependBoth(a + a', b + b', r) && PrependBoth([], [], r) == r
  {
    if r.Ok? {
      assert a + (a' + r.value.0) == a + a' + r.value.0 && [] + r.value.0 == r.value.0;
      assert b + (b' + r.value.1) == b + b' + r.value.1 && [] + r.value.1 == r.value.1;
    }
  }

  function Range(from: nat, n: nat): seq<nat> {
    seq(n, i requires 0 <= i => from + i)
  }

  function Pattern(op: Op, v: string): string {
    match op
    case StartsWith => L.EscapeLike(v) + "%"
    case EndsWith => "%" + L.EscapeLike(v)
    case _ => "%" + L.EscapeLike(v) + "%"
  }

  /** The clause of one filter and its arguments, the first of which will be placeholder idx. */
  function Compile<V>(coerce: Coerce<V>, c: Column, f: Filter, idx: nat): Result<(Clause, seq<Arg<V>>), Error> {
    if f.op.Unsupported? then Err(UnsupportedOperator(f.op))
    else if |f.values| < Arity(f.op) then Err(NeedsValue(f.column, f.op))
    else
      match CoerceAll(coerce, c, ToCoerce(f))
      case Err(e) => Err(e)
      case Ok(vs) =>
        match f.op
        case IsNull => Ok((NullTest(f.column, false), []))
        case IsNotNull => Ok((NullTest(f.column, true), []))
        case ContainsKey => Ok((KeyTest(f.column, idx), [Str(f.values[0])]))
        case Has => Ok((AnyTest(idx, f.column), [Str(f.values[0])]))
        case In => Ok((InList(f.column, Range(idx, |vs|)), vs))
        case Between => Ok((BetweenTest(f.column, idx, idx + 1), vs))
        case _ =>
          if IsComparison(f.op) then Ok((Compare(f.column, f.op, idx), vs))
          else Ok((ILikeTest(f.column, idx), [Str(Pattern(f.op, f.values[0]))]))
  }

  function CompileAll<V>(coerce: Coerce<V>, t: Table, fs: seq<Filter>, idx: nat)
    : Result<(seq<Clause>, seq<Arg<V>>), Error>
  {
    if fs == [] then Ok(([], []))
    else if Lookup(t, fs[0].column).None? then Err(UnknownColumn(fs[0].column))
    else
      match Compile(coerce, Lookup(t, fs[0].column).value, fs[0], idx)
      case Err(e) => Err(e)
      case Ok((clause, used)) =>
        PrependBoth([clause], used, CompileAll(coerce, t, fs[1..], idx + |used|))
  }

  function SearchTests(cs: seq<Column>, n: nat): seq<Clause> {
    if cs == [] then [] else [ILikeTest(cs[0].name, n)] + SearchTests(cs[1..], n)
  }

  /** The filters first, then the search, which uses one placeholder for all its columns. */
  function CompileQuery<V>(coerce: Coerce<V>, t: Table, fs: seq<Filter>, search: string)
    : Result<(seq<Clause>, seq<Arg<V>>), Error>
  {
    match CompileAll(coerce, t, fs, 1)
    case Err(e) => Err(e)
    case Ok((clauses, args)) =>
      var s := TrimSpace(search);
      if s == "" || TextColumns(t.columns) == [] then Ok((clauses, args))
      else Ok((clauses + [AnyOf(SearchTests(TextColumns(t.columns), |args| + 1))], args + [Str("%" + s + "%")]))
  }

  lemma CoerceFew<V>(coerce: Coerce<V>, c: Column, a: string, b: string)
    ensures CoerceAll(coerce, c, [a]) ==
            match coerce(c, a) case None => Err(NotCoercible(c.name, a)) case Some(v) => Ok([Value(v)])
    ensures coerce(c, a).Some? ==>
              CoerceAll(coerce, c, [a, b]) ==
              match coerce(c, b)
              case None => Err(NotCoercible(c.name, b))
              case Some(w) => Ok([Value(coerce(c, a).value), Value(w)])
    ensures coerce(c, a).None? ==> CoerceAll(coerce, c, [a, b]) == Err(NotCoercible(c.name, a))
  {
    assert [a][1..] == [] && [b][1..] == [] && [a, b][1..] == [b];
    if coerce(c, a).Some? { assert [Value(coerce(c, a).value)] + [] == [Value(coerce(c, a).value)]; }
    if coerce(c, b).Some? {
      assert [Value(coerce(c, b).value)] + [] == [Value(coerce(c, b).value)];
      assert CoerceAll(coerce, c, [b]) == Ok([Value(coerce(c, b).value)]);
    }
    if coerce(c, a).Some? && coerce(c, b).Some? {
      var v, w := coerce(c, a).value, coerce(c, b).value;
      assert [Value(v)] + [Value(w)] == [Value(v), Value(w)];
    }
  }

  /** The loop of the IN operator: a placeholder and a coerced argument a value. */
  method InPlaceholders<V>(coerce: Coerce<V>, col: Column, values: seq<string>, idx: nat)
    returns (r: Result<(seq<nat>, seq<Arg<V>>), Error>, next: nat)
    ensures match CoerceAll(coerce, col, values)
            case Err(e) => r == Err(e)
            case Ok(vs) => r == Ok((Range(idx, |values|), vs)) && |vs| == |values| && next == idx + |values|
  {
    var placeholders: seq<nat>, args: seq<Arg<V>> := [], [];
    next := idx;
    assert values[0..] == values;
    PrependAssoc([], [], CoerceAll(coerce, col, values));
    for i := 0 to |values|
      invariant next == idx + i && |args| == i && placeholders == Range(idx, i)
      invariant CoerceAll(coerce, col, values) == Prepend(args, CoerceAll(coerce, col, values[i..]))
    {
      assert values[i..][1..] == values[i + 1..];
      var val := coerce(col, values[i]);
      if val.None? { return Err(NotCoercible(col.name, values[i])), next; }
      placeholders := placeholders + [next];
      PrependAssoc(args, [Value(val.value)], CoerceAll(coerce, col, values[i + 1..]));
      args := args + [Value(val.value)];
      next := next + 1;
    }
    assert values[|values|..] == [] && args + [] == args;
    return Ok((placeholders, args)), next;
  }

  method BuildFilterClause<V>(coerce: Coerce<V>, col: Column, f: Filter, idx: nat)
    returns (r: Result<(Clause, seq<Arg<V>>), Error>, next: nat)
    ensures r == Compile(coerce, col, f, idx)
    ensures r.Ok? ==> next == idx + |r.value.1|
  {
    next := idx;
    match f.op {
      case IsNull => return Ok((NullTest(f.column, false), [])), next;
      case IsNotNull => return Ok((NullTest(f.column, true), [])), next;
      case ILike | StartsWith | EndsWith =>
        if |f.values| == 0 { return Err(NeedsValue(f.column, f.op)), next; }
        next := next + 1;
        return Ok((ILikeTest(f.column, idx), [Str(Pattern(f.op, f.values[0]))])), next;
      case In =>
        if |f.values| == 0 { return Err(NeedsValue(f.column, f.op)), next; }
        var list, after := InPlaceholders(coerce, col, f.values, idx);
        if list.Err? { return Err(list.error), next; }
        next := after;
        return Ok((InList(f.column, list.value.0), list.value.1)), next;
      case Between =>
        if |f.values| < 2 { return Err(NeedsValue(f.column, f.op)), next; }
        assert f.values[..2] == [f.values[0], f.values[1]];
        CoerceFew(coerce, col, f.values[0], f.values[1]);
        var lo := coerce(col, f.values[0]);
        if lo.None? { return Err(NotCoercible(col.name, f.values[0])), next; }
        var hi := coerce(col, f.values[1]);
        if hi.None? { return Err(NotCoercible(col.name, f.values[1])), next; }
        next := next + 2;
        return Ok((BetweenTest(f.column, idx, idx + 1), [Value(lo.value), Value(hi.value)])), next;
      case ContainsKey =>
        if |f.values| == 0 { return Err(NeedsValue(f.column, f.op)), next; }
        next := next + 1;
        return Ok((KeyTest(f.column, idx), [Str(f.values[0])])), next;
      case Has =>
        if |f.values| == 0 { return Err(NeedsValue(f.column, f.op)), next; }
        next := next + 1;
        return Ok((AnyTest(idx, f.column), [Str(f.values[0])])), next;
      case Unsupported(_) => return Err(UnsupportedOperator(f.op)), next;
      case _ =>
        if |f.values| == 0 { return Err(NeedsValue(f.column, f.op)), next; }
        assert f.values[..1] == [f.values[0]];
        var val := coerce(col, f.values[0]);
        if val.None? { return Err(NotCoercible(col.name, f.values[0])), next; }
        next := next + 1;
        CoerceFew(coerce, col, f.values[0], f.values[0]);
        return Ok((Compare(f.column, f.op, idx), [Value(val.value)])), next;
    }
  }

  /** buildWhere: clauses and arguments are appended to, and the placeholder counter is shared. */
  method BuildWhere<V>(coerce: Coerce<V>, t: Table, filters: seq<Filter>, search: string)
    returns (r: Result<(seq<Clause>, seq<Arg<V>>), Error>)
    ensures r == CompileQuery(coerce, t, filters, search)
  {
    hide Compile, TrimSpace, Lookup, TextColumns, SearchTests;
    var clauses: seq<Clause>, args: seq<Arg<V>> := [], [];
    var idx := 1;
    assert filters[0..] == filters;
    PrependBothAssoc([], [], clauses, args, CompileAll(coerce, t, filters, 1));
    for i := 0 to |filters|
      invariant idx == |args| + 1
      invariant CompileAll(coerce, t, filters, 1) == PrependBoth(clauses, args, CompileAll(coerce, t, filters[i..], idx))
    {
      assert filters[i..][1..] == filters[i + 1..];
      var col := Lookup(t, filters[i].column);
      if col.None? { return Err(UnknownColumn(filters[i].column)); }
      var c, next := BuildFilterClause(coerce, col.value, filters[i], idx);
      if c.Err? { return Err(c.error); }
      var (clause, used) := c.value;
      PrependBothAssoc(clauses, args, [clause], used, CompileAll(coerce, t, filters[i + 1..], next));
      clauses := clauses + [clause];
      args := args + used;
      idx := next;
    }
    assert filters[|filters|..] == [] && clauses + [] == clauses && args + [] == args;
    var s := TrimSpace(search);
    if s != "" {
      var cols := TextishColumns(t);
      if |cols| > 0 {
        var ors := SearchClauses(cols, idx);
        args := args + [Str("%" + s + "%")];
        idx := idx + 1;
        clauses := clauses + [AnyOf(ors)];
      }
    }
    return Ok((clauses, args));
  }

  /** One test a column, all on the same placeholder. */
  method SearchClauses(cols: seq<Column>, idx: nat) returns (ors: seq<Clause>)
    ensures ors == SearchTests(cols, idx)
  {
    ors := [];
    assert cols[0..] == cols;
    for i := 0 to |cols|
      invariant SearchTests(cols, idx) == ors + SearchTests(cols[i..], idx)
    {
      assert cols[i..][1..] == cols[i + 1..];
      ors := ors + [ILikeTest(cols[i].name, idx)];
    }
    assert cols[|cols|..] == [] && ors + [] == ors;
  }

  method TextishColumns(t: Table) returns (out: seq<Column>)
    ensures out == TextColumns(t.columns)
  {
    out := [];
    assert t.columns[0..] == t.columns;
    for i := 0 to |t.columns|
      invariant TextColumns(t.columns) == out + TextColumns(t.columns[i..])
    {
      assert t.columns[i..][1..] == t.columns[i + 1..];
      if Textish(t.columns[i]) { out := out + [t.columns[i]]; }
    }
    assert t.columns[|t.columns|..] == [] && out + [] == out;
  }

  // ---------------------------------------------------------------- compiling keeps the meaning

  lemma {:induction false} CoerceAllAt<V>(coerce: Coerce<V>, c: Column, raws: seq<string>)
    ensures var r := CoerceAll(coerce, c, raws);
            (r.Ok? <==> forall v :: v in raws ==> coerce(c, v).Some?) &&
            (r.Ok? ==> |r.value| == |raws| &&
                       forall i :: 0 <= i < |raws| ==> r.value[i] == Value(Coerced(coerce, c, raws[i])))
  {
    if raws != [] {
      CoerceAllAt(coerce, c, raws[1..]);
      assert forall v :: v in raws <==> v == raws[0] || v in raws[1..];
    }
  }

  lemma {:induction false} InListMeans<R, V>(db: Database<R, V>, coerce: Coerce<V>, c: Column, cell: Option<V>,
                                             values: seq<string>, idx: nat, args: seq<Arg<V>>)
    requires 0 < idx && idx - 1 + |values| <= |args|
    requires forall i :: 0 <= i < |values| ==> args[idx - 1 + i] == Value(Coerced(coerce, c, values[i]))
    ensures EvalIn(db, cell, Range(idx, |values|), args) == OneOf(db, coerce, c, cell, values)
  {
    if values != [] {
      assert args[idx - 1 + 0] == Value(Coerced(coerce, c, values[0]));
      assert Range(idx, |values|)[1..] == Range(idx + 1, |values| - 1);
      forall i | 0 <= i < |values[1..]| ensures args[idx + i] == Value(Coerced(coerce, c, values[1..][i])) {
        assert args[idx - 1 + (i + 1)] == Value(Coerced(coerce, c, values[i + 1]));
      }
      InListMeans(db, coerce, c, cell, values[1..], idx + 1, args);
    }
  }

  /** The pattern clauses mean prefix, suffix and substring. */
  lemma {:induction false} PatternMeans<R, V>(db: Database<R, V>, coerce: Coerce<V>, c: Column, f: Filter,
                                              args: seq<Arg<V>>, n: nat, row: R)
    requires L.FoldsLetters(db.fold)
    requires (f.op.ILike? || f.op.StartsWith? || f.op.EndsWith?) && |f.values| > 0
    requires 0 < n <= |args| && args[n - 1] == Str(Pattern(f.op, f.values[0]))
    ensures Eval(db, ILikeTest(f.column, n), args, row) == Meaning(db, coerce, c, f, row)
  {
    hide L.Matches, L.Fold, L.EscapeLike, L.ILike, Contains, HasPrefix, HasSuffix, OccursAt;
    var cell := db.cell(row, f.column);
    if cell.Some? { L.EscapedILike(db.fold, f.values[0], db.text(cell.value)); }
  }

  /** One clause says what its filter says, wherever its arguments sit in the whole list. */
  lemma {:induction false} ClauseMeans<R, V>(db: Database<R, V>, coerce: Coerce<V>, c: Column, f: Filter,
                                             before: seq<Arg<V>>, after: seq<Arg<V>>, row: R)
    requires L.FoldsLetters(db.fold)
    requires Compile(coerce, c, f, |before| + 1).Ok?
    ensures var (clause, used) := Compile(coerce, c, f, |before| + 1).value;
            Enough(f) &&
            Eval(db, clause, before + used + after, row) == Meaning(db, coerce, c, f, row)
  {
    var idx := |before| + 1;
    var (clause, used) := Compile(coerce, c, f, idx).value;
    var args := before + used + after;
    CoerceAllAt(coerce, c, ToCoerce(f));
    forall i | 0 <= i < |used| ensures args[idx - 1 + i] == used[i] {}
    ClauseMeansIn(db, coerce, c, f, idx, clause, used, args, row);
  }

  lemma {:induction false} ClauseMeansIn<R, V>(db: Database<R, V>, coerce: Coerce<V>, c: Column, f: Filter, idx: nat,
                                               clause: Clause, used: seq<Arg<V>>, args: seq<Arg<V>>, row: R)
    requires L.FoldsLetters(db.fold)
    requires idx > 0 && Compile(coerce, c, f, idx) == Ok((clause, used))
    requires idx - 1 + |used| <= |args| && forall i :: 0 <= i < |used| ==> args[idx - 1 + i] == used[i]
    ensures Enough(f) && Eval(db, clause, args, row) == Meaning(db, coerce, c, f, row)
  {
    CoerceAllAt(coerce, c, ToCoerce(f));
    if |used| > 0 { assert args[idx - 1] == used[0]; }
    if f.op.In? {
      InListMeans(db, coerce, c, db.cell(row, f.column), f.values, idx, args);
    } else if f.op.ILike? || f.op.StartsWith? || f.op.EndsWith? {
      PatternMeans(db, coerce, c, f, args, idx, row);
    } else if f.op.Between? {
      BetweenMeans(db, coerce, c, f, idx, used, args, row);
    } else if IsComparison(f.op) {
      assert used[0] == Value(Coerced(coerce, c, f.values[0]));
    }
  }

  lemma {:induction false} BetweenMeans<R, V>(db: Database<R, V>, coerce: Coerce<V>, c: Column, f: Filter, idx: nat,
                                              used: seq<Arg<V>>, args: seq<Arg<V>>, row: R)
    requires f.op.Between? && |f.values| >= 2 && idx > 0 && CoerceAll(coerce, c, f.values[..2]) == Ok(used)
    requires idx - 1 + |used| <= |args| && forall i :: 0 <= i < |used| ==> args[idx - 1 + i] == used[i]
    ensures Eval(db, BetweenTest(f.column, idx, idx + 1), args, row) == Meaning(db, coerce, c, f, row)
  {
    CoerceAllAt(coerce, c, f.values[..2]);
    assert args[idx - 1 + 0] == used[0] && args[idx - 1 + 1] == used[1];
  }

  lemma {:induction false} LookupIs(t: Table, name: string)
    ensures Lookup(t, name) == if HasColumn(t, name) then Some(ColumnNamed(t, name)) else None
  {
    LookupInIs(t.columns, name);
    if HasColumn(t, name) {
      var i: nat :| FirstNamed(t, name, i) && ColumnNamed(t, name) == t.columns[i];
      assert t.columns[i] in t.columns;
    }
  }

  lemma {:induction false} LookupInIs(cs: seq<Column>, name: string)
    ensures if forall c :: c in cs ==> !IsNamed(c, name) then LookupIn(cs, name) == None
            else exists i: nat :: FirstNamed(Table(cs), name, i) && LookupIn(cs, name) == Some(cs[i])
  {
    if cs != [] {
      LookupInIs(cs[1..], name);
      if IsNamed(cs[0], name) {
        assert FirstNamed(Table(cs), name, 0);
      } else if i: nat :| FirstNamed(Table(cs[1..]), name, i) && LookupIn(cs[1..], name) == Some(cs[1..][i]) {
        assert forall j :: 0 < j < |cs| ==> cs[j] == cs[1..][j - 1];
        assert FirstNamed(Table(cs), name, i + 1);
      }
    }
  }

  /** Which values are coerced, and how many are needed. */
  lemma {:induction false} CoercedValues<V>(coerce: Coerce<V>, c: Column, f: Filter)
    ensures !f.op.Unsupported? ==> (|f.values| >= Arity(f.op) <==> Enough(f))
    ensures |f.values| >= Arity(f.op) ==>
            ((forall v :: v in ToCoerce(f) ==> coerce(c, v).Some?) <==>
             (forall i :: 0 <= i < |f.values| && IsCoerced(f.op, i) ==> coerce(c, f.values[i]).Some?))
  {
    if |f.values| >= Arity(f.op) {
      var vs := ToCoerce(f);
      assert forall i :: 0 <= i < |f.values| && IsCoerced(f.op, i) ==> i < |vs| && vs[i] == f.values[i];
      assert forall i :: 0 <= i < |vs| ==> IsCoerced(f.op, i) && vs[i] == f.values[i];
    }
  }

  /** One filter compiles just when its column is known and it can be compiled for it. */
  lemma {:induction false} CompilesOne<V>(coerce: Coerce<V>, t: Table, f: Filter, idx: nat)
    ensures Compilable(coerce, t, f) <==> Lookup(t, f.column).Some? && Compile(coerce, Lookup(t, f.column).value, f, idx).Ok?
  {
    hide Lookup, IsCoerced, ToCoerce, Arity, Enough;
    LookupIs(t, f.column);
    if HasColumn(t, f.column) {
      var c := ColumnNamed(t, f.column);
      CoercedValues(coerce, c, f);
      if |f.values| >= Arity(f.op) { CoerceAllAt(coerce, c, ToCoerce(f)); }
    }
  }

  /** A filter compiles exactly when its operator is known, it has the values it needs and they can be coerced. */
  lemma {:induction false} CompilesIffCompilable<V>(coerce: Coerce<V>, t: Table, fs: seq<Filter>, idx: nat)
    ensures CompileAll(coerce, t, fs, idx).Ok? <==> forall f :: f in fs ==> Compilable(coerce, t, f)
  {
    if fs != [] {
      var f := fs[0];
      assert forall g :: g in fs <==> g == f || g in fs[1..];
      hide Compilable, Compile, Lookup;
      CompilesOne(coerce, t, f, idx);
      if Compilable(coerce, t, f) {
        var used := Compile(coerce, Lookup(t, f.column).value, f, idx).value.1;
        CompilesIffCompilable(coerce, t, fs[1..], idx + |used|);
      }
    }
  }

  /** The error of the first filter that cannot be compiled, and why. */
  ghost predicate IsErrorOf<V>(coerce: Coerce<V>, t: Table, f: Filter, e: Error) {
    match e
    case UnknownColumn(column) => column == f.column && !HasColumn(t, f.column)
    case UnsupportedOperator(op) => op == f.op && op.Unsupported? && HasColumn(t, f.column)
    case NeedsValue(column, op) => column == f.column && op == f.op && !op.Unsupported? && HasColumn(t, f.column) && !Enough(f)
    case NotCoercible(column, raw) =>
      column == f.column && !f.op.Unsupported? && Complete(t, f) &&
      exists i :: 0 <= i < |f.values| && raw == f.values[i] && IsCoerced(f.op, i) && coerce(ColumnNamed(t, f.column), raw).None? &&
                  forall j :: 0 <= j < i ==> coerce(ColumnNamed(t, f.column), f.values[j]).Some?
  }

  lemma {:induction false} FirstNotCoercible<V>(coerce: Coerce<V>, c: Column, raws: seq<string>) returns (i: nat)
    requires CoerceAll(coerce, c, raws).Err?
    ensures i < |raws| && CoerceAll(coerce, c, raws) == Err(NotCoercible(c.name, raws[i])) && coerce(c, raws[i]).None?
    ensures forall j :: 0 <= j < i ==> coerce(c, raws[j]).Some?
  {
    if coerce(c, raws[0]).None? {
      i := 0;
    } else {
      i := FirstNotCoercible(coerce, c, raws[1..]);
      assert forall j :: 0 <= j < i ==> raws[j + 1] == raws[1..][j];
      assert forall j :: 0 < j < i + 1 ==> raws[j] == raws[1..][j - 1];
      i := i + 1;
    }
  }

  lemma {:induction false} ErrorOfOne<V>(coerce: Coerce<V>, t: Table, f: Filter, idx: nat)
    requires HasColumn(t, f.column) && Compile(coerce, ColumnNamed(t, f.column), f, idx).Err?
    ensures IsErrorOf(coerce, t, f, Compile(coerce, ColumnNamed(t, f.column), f, idx).error)
  {
    var c := ColumnNamed(t, f.column);
    assert c.name == f.column;
    CoercedValues(coerce, c, f);
    if !f.op.Unsupported? && |f.values| >= Arity(f.op) {
      var i := FirstNotCoercible(coerce, c, ToCoerce(f));
      assert f.values[i] == ToCoerce(f)[i] && IsCoerced(f.op, i);
      assert forall j :: 0 <= j < i ==> f.values[j] == ToCoerce(f)[j];
    }
  }

  /** When a query does not compile, the error is that of the first filter that cannot be compiled. */
  lemma {:induction false} ErrorIsOfFirst<V>(coerce: Coerce<V>, t: Table, fs: seq<Filter>, idx: nat) returns (i: nat)
    requires CompileAll(coerce, t, fs, idx).Err?
    ensures i < |fs| && (forall j :: 0 <= j < i ==> Compilable(coerce, t, fs[j])) && !Compilable(coerce, t, fs[i])
    ensures IsErrorOf(coerce, t, fs[i], CompileAll(coerce, t, fs, idx).error)
  {
    var f := fs[0];
    CompilesOne(coerce, t, f, idx);
    LookupIs(t, f.column);
    hide Compile, Lookup, Compilable;
    if Compilable(coerce, t, f) {
      var used := Compile(coerce, ColumnNamed(t, f.column), f, idx).value.1;
      i := ErrorIsOfFirst(coerce, t, fs[1..], idx + |used|);
      assert forall j :: 0 < j < i + 1 ==> fs[j] == fs[1..][j - 1];
      i := i + 1;
    } else {
      i := 0;
      if HasColumn(t, f.column) { ErrorOfOne(coerce, t, f, idx); }
    }
  }

  /** buildWhere succeeds exactly on the queries whose filters can all be compiled; the search never fails. */
  lemma {:induction false} QueryCompilesIffCompilable<V>(coerce: Coerce<V>, t: Table, fs: seq<Filter>, search: string)
    ensures CompileQuery(coerce, t, fs, search).Ok? <==> forall f :: f in fs ==> Compilable(coerce, t, f)
  {
    CompilesIffCompilable(coerce, t, fs, 1);
  }

  /** The clauses together say what the filters together say. */
  lemma {:induction false} FiltersMean<R, V>(db: Database<R, V>, coerce: Coerce<V>, t: Table, fs: seq<Filter>,
                                             before: seq<Arg<V>>, after: seq<Arg<V>>, row: R)
    requires L.FoldsLetters(db.fold)
    requires CompileAll(coerce, t, fs, |before| + 1).Ok?
    ensures forall f :: f in fs ==> Complete(t, f)
    ensures var (clauses, args) := CompileAll(coerce, t, fs, |before| + 1).value;
            EvalWhere(db, clauses, before + args + after, row) == AllMeanings(db, coerce, t, fs, row)
  {
    hide Compile, Meaning, Eval;
    CompilesIffCompilable(coerce, t, fs, |before| + 1);
    if fs != [] {
      LookupIs(t, fs[0].column);
      var c := ColumnNamed(t, fs[0].column);
      var (clause, used) := Compile(coerce, c, fs[0], |before| + 1).value;
      var (rest, more) := CompileAll(coerce, t, fs[1..], |before + used| + 1).value;
      FiltersMean(db, coerce, t, fs[1..], before + used, after, row);
      ClauseMeans(db, coerce, c, fs[0], before, more + after, row);
      assert before + (used + more) + after == before + used + (more + after) == (before + used) + more + after;
      assert ([clause] + rest)[1..] == rest;
    }
  }

  /** Tests on one placeholder, one a column: some hold, all fail, or it is unknown. */
  lemma {:induction false} SearchMeans<R, V>(db: Database<R, V>, cs: seq<Column>, search: string, n: nat, args: seq<Arg<V>>, row: R)
    requires 0 < n <= |args| && args[n - 1] == Str("%" + search + "%")
    ensures var r := EvalAny(db, SearchTests(cs, n), args, row);
            (r.Yes? <==> exists c :: c in cs && InColumn(db, c, search, row).Yes?) &&
            (r.No? <==> forall c :: c in cs ==> InColumn(db, c, search, row).No?)
  {
    if cs != [] {
      assert SearchTests(cs, n)[1..] == SearchTests(cs[1..], n) && SearchTests(cs, n)[0] == ILikeTest(cs[0].name, n);
      assert Eval(db, ILikeTest(cs[0].name, n), args, row) == InColumn(db, cs[0], search, row);
      hide Eval, InColumn;
      SearchMeans(db, cs[1..], search, n, args, row);
      assert forall c :: c in cs <==> c == cs[0] || c in cs[1..];
    }
  }

  lemma {:induction false} TextColumnsAre(cs: seq<Column>)
    ensures forall c :: c in TextColumns(cs) <==> c in cs && IsText(c)
  {
    if cs != [] {
      TextColumnsAre(cs[1..]);
      assert forall c :: c in cs <==> c == cs[0] || c in cs[1..];
    }
  }

  lemma SearchIsMeaning<R, V>(db: Database<R, V>, t: Table, search: string, row: R, n: nat, args: seq<Arg<V>>)
    requires search != "" && TextColumns(t.columns) != [] && 0 < n <= |args| && args[n - 1] == Str("%" + search + "%")
    ensures EvalAny(db, SearchTests(TextColumns(t.columns), n), args, row) == SearchMeaning(db, t, search, row)
  {
    hide InColumn, IsText;
    var cols := TextColumns(t.columns);
    TextColumnsAre(t.columns);
    SearchMeans(db, cols, search, n, args, row);
    assert cols[0] in cols;
  }

  lemma EvalAnyOf<R, V>(db: Database<R, V>, cs: seq<Clause>, args: seq<Arg<V>>, row: R)
    ensures Eval(db, AnyOf(cs), args, row) == EvalAny(db, cs, args, row)
  {}

  lemma {:induction false} EvalWhereSnoc<R, V>(db: Database<R, V>, cs: seq<Clause>, c: Clause, args: seq<Arg<V>>, row: R)
    ensures EvalWhere(db, cs + [c], args, row) == And3(EvalWhere(db, cs, args, row), Eval(db, c, args, row))
  {
    if cs == [] {
      assert cs + [c] == [c] && [c][1..] == [];
    } else {
      assert (cs + [c])[1..] == cs[1..] + [c];
      EvalWhereSnoc(db, cs[1..], c, args, row);
    }
  }

  /**
   The main result: on every row the compiled WHERE clause, with the argument list that goes with it,
   has the truth value of "every filter holds and the search holds", NULLs included.
   */
  lemma {:induction false} WhereMeans<R, V>(db: Database<R, V>, coerce: Coerce<V>, t: Table, fs: seq<Filter>, search: string, row: R)
    requires L.FoldsLetters(db.fold)
    requires CompileQuery(coerce, t, fs, search).Ok?
    ensures forall f :: f in fs ==> Complete(t, f)
    ensures var (clauses, args) := CompileQuery(coerce, t, fs, search).value;
            EvalWhere(db, clauses, args, row) ==
            And3(AllMeanings(db, coerce, t, fs, row), SearchMeaning(db, t, TrimSpace(search), row))
  {
    hide CompileAll, Eval, Complete;
    TextColumnsAre(t.columns);
    var (clauses, args) := CompileAll(coerce, t, fs, 1).value;
    var s, cols := TrimSpace(search), TextColumns(t.columns);
    if s == "" || cols == [] {
      FiltersMean(db, coerce, t, fs, [], [], row);
      assert [] + args + [] == args;
    } else {
      var tail := [Str("%" + s + "%")];
      FiltersMean(db, coerce, t, fs, [], tail, row);
      assert [] + args + tail == args + tail;
      EvalAnyOf(db, SearchTests(cols, |args| + 1), args + tail, row);
      EvalWhereSnoc(db, clauses, AnyOf(SearchTests(cols, |args| + 1)), args + tail, row);
      SearchIsMeaning(db, t, s, row, |args| + 1, args + tail);
    }
  }

  // ---------------------------------------------------------------- the placeholders

  function Placeholders(c: Clause): seq<nat> {
    match c
    case NullTest(_, _) => []
    case Compare(_, _, n) => [n]
    case ILikeTest(_, n) => [n]
    case InList(_, ns) => ns
    case BetweenTest(_, lo, hi) => [lo, hi]
    case KeyTest(_, n) => [n]
    case AnyTest(n, _) => [n]
    case AnyOf(cs) => AllPlaceholders(cs)
  }

  function AllPlaceholders(cs: seq<Clause>): seq<nat> {
    if cs == [] then [] else Placeholders(cs[0]) + AllPlaceholders(cs[1..])
  }

  lemma {:induction false} FilterPlaceholders<V>(coerce: Coerce<V>, t: Table, fs: seq<Filter>, idx: nat)
    requires CompileAll(coerce, t, fs, idx).Ok?
    ensures var (clauses, args) := CompileAll(coerce, t, fs, idx).value;
            AllPlaceholders(clauses) == Range(idx, |args|)
  {
    if fs != [] {
      hide Compile, Lookup, Placeholders;
      var (clause, used) := Compile(coerce, Lookup(t, fs[0].column).value, fs[0], idx).value;
      ClausePlaceholders(coerce, Lookup(t, fs[0].column).value, fs[0], idx);
      FilterPlaceholders(coerce, t, fs[1..], idx + |used|);
      var (rest, more) := CompileAll(coerce, t, fs[1..], idx + |used|).value;
      RangeConcat(idx, |used|, |more|);
      assert ([clause] + rest)[1..] == rest;
      hide Range, CompileAll;
    }
  }

  lemma RangeConcat(idx: nat, m: nat, n: nat)
    ensures Range(idx, m) + Range(idx + m, n) == Range(idx, m + n)
  {}

  lemma {:induction false} ClausePlaceholders<V>(coerce: Coerce<V>, c: Column, f: Filter, idx: nat)
    requires Compile(coerce, c, f, idx).Ok?
    ensures var (clause, used) := Compile(coerce, c, f, idx).value;
            Placeholders(clause) == Range(idx, |used|)
  {
    CoerceAllAt(coerce, c, ToCoerce(f));
  }

  lemma AnyOfPlaceholders(cs: seq<Clause>)
    ensures Placeholders(AnyOf(cs)) == AllPlaceholders(cs)
  {}

  lemma {:induction false} SearchPlaceholders(cs: seq<Column>, n: nat)
    ensures |AllPlaceholders(SearchTests(cs, n))| == |cs|
    ensures forall m :: m in AllPlaceholders(SearchTests(cs, n)) ==> m == n
  {
    if cs != [] {
      assert SearchTests(cs, n)[1..] == SearchTests(cs[1..], n);
      SearchPlaceholders(cs[1..], n);
    }
  }

  lemma {:induction false} PlaceholdersSnoc(cs: seq<Clause>, c: Clause)
    ensures AllPlaceholders(cs + [c]) == AllPlaceholders(cs) + Placeholders(c)
  {
    if cs == [] {
      assert cs + [c] == [c] && [c][1..] == [];
    } else {
      assert (cs + [c])[1..] == cs[1..] + [c];
      PlaceholdersSnoc(cs[1..], c);
    }
  }

  lemma RangeHas(n: nat)
    ensures forall m :: m in Range(1, n) <==> 1 <= m <= n
  {
    forall m | 1 <= m <= n ensures m in Range(1, n) { assert Range(1, n)[m - 1] == m; }
  }

  /** The placeholders are exactly $1..$n for n arguments: in order, each once, but for the last one that all search columns share. */
  lemma {:induction false} PlaceholdersAreTheArguments<V>(coerce: Coerce<V>, t: Table, fs: seq<Filter>, search: string)
    requires CompileQuery(coerce, t, fs, search).Ok?
    ensures var (clauses, args) := CompileQuery(coerce, t, fs, search).value;
            var ns := AllPlaceholders(clauses);
            (forall n :: n in ns <==> 1 <= n <= |args|) &&
            (TrimSpace(search) == "" ==> ns == Range(1, |args|))
  {
    hide CompileAll, Placeholders;
    FilterPlaceholders(coerce, t, fs, 1);
    var (clauses, args) := CompileAll(coerce, t, fs, 1).value;
    var cols := TextColumns(t.columns);
    RangeHas(|args|);
    if TrimSpace(search) != "" && cols != [] {
      PlaceholdersSnoc(clauses, AnyOf(SearchTests(cols, |args| + 1)));
      AnyOfPlaceholders(SearchTests(cols, |args| + 1));
      SearchPlaceholders(cols, |args| + 1);
      assert AllPlaceholders(SearchTests(cols, |args| + 1))[0] in AllPlaceholders(SearchTests(cols, |args| + 1));
    }
  }
}
