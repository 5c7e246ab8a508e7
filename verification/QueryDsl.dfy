/** The URL query of the table browser (admin-panel/internal/browser/query_dsl.go). */
module QueryDsl {
  import opened Common
  import opened Strings
  import F = Form
  import N = Strconv

  type Values = F.Values

  datatype Filter = Filter(column: string, op: string, values: seq<string>)

  datatype SortKey = SortKey(column: string, desc: bool)

  datatype Query = Query(filters: seq<Filter>, search: string, sort: seq<SortKey>, offset: int, limit: int)

  /** url.Values.Get: the first value, or the empty string. */
  function Get(values: Values, key: string): string {
    if key in values && values[key] != [] then values[key][0] else ""
  }

  // ---------------------------------------------------------------- sort keys

  function ParseSortPart(raw: string): Option<SortKey> {
    var part := TrimSpace(raw);
    if part == "" then None
    else if part[0] == '-' then Some(SortKey(part[1..], true))
    else Some(SortKey(part, false))
  }

  function ParseSortParts(parts: seq<string>): seq<SortKey> {
    if parts == [] then []
    else (match ParseSortPart(parts[0]) case None => [] case Some(k) => [k]) + ParseSortParts(parts[1..])
  }

  function ParseSort(raw: string): seq<SortKey> {
    if raw == "" then [] else ParseSortParts(Split(raw, ','))
  }

  function PrintKey(k: SortKey): string {
    if k.desc then "-" + k.column else k.column
  }

  function PrintKeys(keys: seq<SortKey>): seq<string> {
    if keys == [] then [] else [PrintKey(keys[0])] + PrintKeys(keys[1..])
  }

  /** A sort key that can come out of the parser. */
  predicate GoodKey(k: SortKey) {
    ',' !in k.column && PrintKey(k) != "" && Trimmed(PrintKey(k)) && (!k.desc ==> k.column[0] != '-')
  }

  lemma ParsedKeyIsGood(raw: string)
    requires ',' !in raw && ParseSortPart(raw).Some?
    ensures GoodKey(ParseSortPart(raw).value)
  {
    TrimSpaceShape(raw);
    var part, k := TrimSpace(raw), ParseSortPart(raw).value;
    assert PrintKey(k) == part;
    assert forall c :: c in k.column ==> c in part;
  }

  lemma GoodKeyReadsBack(k: SortKey)
    requires GoodKey(k)
    ensures ParseSortPart(PrintKey(k)) == Some(k) && ',' !in PrintKey(k)
  {
    TrimmedStays(PrintKey(k));
  }

  lemma {:induction false} ParsedKeysAreGood(parts: seq<string>)
    requires forall p :: p in parts ==> ',' !in p
    ensures forall k :: k in ParseSortParts(parts) ==> GoodKey(k)
  {
    if parts != [] {
      assert parts[0] in parts;
      if ParseSortPart(parts[0]).Some? { ParsedKeyIsGood(parts[0]); }
      ParsedKeysAreGood(parts[1..]);
    }
  }

  lemma {:induction false} GoodKeysReadBack(keys: seq<SortKey>)
    requires forall k :: k in keys ==> GoodKey(k)
    ensures ParseSortParts(PrintKeys(keys)) == keys
    ensures forall p :: p in PrintKeys(keys) ==> ',' !in p && p != ""
  {
    if keys != [] {
      assert keys[0] in keys;
      GoodKeyReadsBack(keys[0]);
      GoodKeysReadBack(keys[1..]);
      assert PrintKeys(keys)[1..] == PrintKeys(keys[1..]);
    }
  }

  /** Parsing a sort parameter, printing it and parsing it again gives the same keys in the same order. */
  lemma {:induction false} SortRoundTrip(raw: string)
    ensures var keys := ParseSort(raw);
            ParseSort(Join(PrintKeys(keys), ',')) == keys && (keys != [] ==> Join(PrintKeys(keys), ',') != "")
  {
    var keys := ParseSort(raw);
    if raw != "" {
      SplitPartsLackSeparator(raw, ',');
      ParsedKeysAreGood(Split(raw, ','));
    }
    GoodKeysReadBack(keys);
    if keys != [] {
      assert PrintKeys(keys)[0] in PrintKeys(keys);
      SplitUndoesJoin(PrintKeys(keys), ',');
    }
  }

  // ---------------------------------------------------------------- filters

  function LastDot(s: string): int {
    if s == "" then -1 else if s[|s| - 1] == '.' then |s| - 1 else LastDot(s[..|s| - 1])
  }

  /** The column and operator a key stands for, if it is a filter key. */
  function FilterKey(key: string): Option<(string, string)> {
    if !("f." <= key) then None
    else
      var rest := key[2..];
      var dot := LastDot(rest);
      if dot < 1 || dot >= |rest| then None else Some((rest[..dot], rest[dot + 1..]))
  }

  function KeyOf(f: Filter): string {
    "f." + f.column + "." + f.op
  }

  function Composite(column: string, op: string): string {
    column + "|" + op
  }

  /** The filters so far, after one more key of the multimap has been visited. */
  function AddKey(fs: seq<Filter>, key: string, vs: seq<string>): seq<Filter> {
    match FilterKey(key)
    case None => fs
    case Some((column, op)) => AddTo(fs, column, op, vs)
  }

  /** Values go to the filter with the same composite; the first key with that composite names it. */
  function AddTo(fs: seq<Filter>, column: string, op: string, vs: seq<string>): seq<Filter> {
    if fs == [] then [Filter(column, op, vs)]
    else if Composite(fs[0].column, fs[0].op) == Composite(column, op) then [fs[0].(values := fs[0].values + vs)] + fs[1..]
    else [fs[0]] + AddTo(fs[1..], column, op, vs)
  }

  /** The filters that come of visiting the keys in the given order; Go's map order is any order. */
  function ParseFilters(values: Values, keys: seq<string>): seq<Filter>
    requires forall k :: k in keys ==> k in values
  {
    if keys == [] then []
    else
      var n := |keys| - 1;
      AddKey(ParseFilters(values, keys[..n]), keys[n], values[keys[n]])
  }

  function ParseOffset(v: string): int {
    if v == "" then 0
    else match N.ParseInt(v) case None => 0 case Some(n) => if n >= 0 then n else 0
  }

  function ParseLimit(v: string): int {
    if v == "" then 0
    else match N.ParseInt(v) case None => 0 case Some(n) => if n > 0 then n else 0
  }

  function Parse(values: Values, keys: seq<string>): Query
    requires forall k :: k in keys ==> k in values
  {
    Query(ParseFilters(values, keys), TrimSpace(Get(values, "q")), ParseSort(Get(values, "sort")),
          ParseOffset(Get(values, "offset")), ParseLimit(Get(values, "limit")))
  }

  /** The multimap that Encode builds before it is turned into a string. */
  function ToValues(q: Query): Values {
    AddFilters(Scalars(q), q.filters)
  }

  function Scalars(q: Query): Values {
    var m: Values := map[];
    var m := if q.search != "" then m["q" := [q.search]] else m;
    var m := if q.offset > 0 then m["offset" := [N.Itoa(q.offset)]] else m;
    var m := if q.limit > 0 then m["limit" := [N.Itoa(q.limit)]] else m;
    if q.sort != [] then m["sort" := [Join(PrintKeys(q.sort), ',')]] else m
  }

  function AddFilters(m: Values, fs: seq<Filter>): Values
    decreases |fs|
  {
    if fs == [] then m else AddFilters(AddValues(m, KeyOf(fs[0]), fs[0].values), fs[1..])
  }

  function AddValues(m: Values, key: string, vs: seq<string>): Values
    decreases |vs|
  {
    if vs == [] then m else AddValues(F.Add(m, key, vs[0]), key, vs[1..])
  }

  // ---------------------------------------------------------------- the program

  /** ParseQuery: the filters are gathered in a map and an order list, key by key. */
  method ParseQuery(values: Values, keys: seq<string>) returns (q: Query)
    requires F.Enumerates(keys, values)
    ensures q == Parse(values, keys)
  {
    var offset, limit := 0, 0;
    var v := Get(values, "offset");
    if v != "" {
      var n := N.ParseInt(v);
      if n.Some? && n.value >= 0 { offset := n.value; }
    }
    v := Get(values, "limit");
    if v != "" {
      var n := N.ParseInt(v);
      if n.Some? && n.value > 0 { limit := n.value; }
    }
    var sort := ReadSort(Get(values, "sort"));
    var filters := ReadFilters(values, keys);
    q := Query(filters, TrimSpace(Get(values, "q")), sort, offset, limit);
  }

  method ReadSort(raw: string) returns (sort: seq<SortKey>)
    ensures sort == ParseSort(raw)
  {
    hide TrimSpace, Split;
    sort := [];
    if raw == "" { return; }
    var parts := Split(raw, ',');
    assert parts[0..] == parts;
    for i := 0 to |parts|
      invariant ParseSortParts(parts) == sort + ParseSortParts(parts[i..])
    {
      assert parts[i..][1..] == parts[i + 1..];
      var part := TrimSpace(parts[i]);
      if part == "" { continue; }
      var desc := false;
      if part[0] == '-' {
        desc := true;
        part := part[1..];
      }
      sort := sort + [SortKey(part, desc)];
    }
    assert parts[|parts|..] == [] && sort + [] == sort;
  }

  method ReadFilters(values: Values, keys: seq<string>) returns (result: seq<Filter>)
    requires forall k :: k in keys ==> k in values
    ensures result == ParseFilters(values, keys)
  {
    hide Gathered, AddTo;
    var filters: map<string, Filter> := map[];
    var order: seq<string> := [];
    GatheredNothing();
    for i := 0 to |keys|
      invariant Gathered(filters, order, ParseFilters(values, keys[..i]))
    {
      var key := keys[i];
      ghost var fs := ParseFilters(values, keys[..i]);
      assert keys[..i + 1][..i] == keys[..i];
      if !("f." <= key) { continue; }
      var rest := key[2..];
      var dot := LastDot(rest);
      LastDotShape(rest);
      if dot < 1 { continue; }
      var column, op := rest[..dot], rest[dot + 1..];
      var composite := Composite(column, op);
      assert AddKey(fs, key, values[key]) == AddTo(fs, column, op, values[key]);
      ghost var was := filters;
      GatherOne(filters, order, fs, column, op, values[key]);
      if composite !in filters {
        filters := filters[composite := Filter(column, op, [])];
        order := order + [composite];
      }
      filters := filters[composite := filters[composite].(values := filters[composite].values + values[key])];
      assert filters == MapAfter(was, column, op, values[key]);
    }
    assert keys[..|keys|] == keys;
    result := InOrder(filters, order, ParseFilters(values, keys));
  }

  method InOrder(filters: map<string, Filter>, order: seq<string>, ghost fs: seq<Filter>) returns (result: seq<Filter>)
    requires Gathered(filters, order, fs)
    ensures result == fs
  {
    result := [];
    for i := 0 to |order|
      invariant result == fs[..i]
    {
      result := result + [filters[order[i]]];
    }
  }

  /** What the loop does with a filter key to its map. */
  function MapAfter(filters: map<string, Filter>, column: string, op: string, vs: seq<string>): map<string, Filter> {
    var c := Composite(column, op);
    var f := if c in filters then filters[c] else Filter(column, op, []);
    filters[c := f.(values := f.values + vs)]
  }

  function OrderAfter(filters: map<string, Filter>, order: seq<string>, column: string, op: string): seq<string> {
    if Composite(column, op) in filters then order else order + [Composite(column, op)]
  }

  lemma GatheredNothing()
    ensures Gathered(map[], [], [])
  {}

  lemma {:induction false} GatherOne(filters: map<string, Filter>, order: seq<string>, fs: seq<Filter>,
                                     column: string, op: string, vs: seq<string>)
    requires Gathered(filters, order, fs)
    ensures Gathered(MapAfter(filters, column, op, vs), OrderAfter(filters, order, column, op), AddTo(fs, column, op, vs))
  {
    hide Composite, AddTo;
    var j := AddToIs(fs, column, op, vs);
    var c := Composite(column, op);
    if j == |fs| {
      assert c !in order;
      assert [] + vs == vs;
    } else {
      assert order[j] == c;
    }
  }

  /** The map and the list together hold the filters fs. */
  ghost predicate Gathered(filters: map<string, Filter>, order: seq<string>, fs: seq<Filter>) {
    |order| == |fs| && DistinctComposites(fs) &&
    (forall i :: 0 <= i < |fs| ==> order[i] == CompositeOf(fs[i]) && order[i] in filters && filters[order[i]] == fs[i]) &&
    (forall c :: c in filters ==> c in order)
  }

  function CompositeOf(f: Filter): string {
    Composite(f.column, f.op)
  }

  ghost predicate DistinctComposites(fs: seq<Filter>) {
    forall i, j :: 0 <= i < j < |fs| ==> CompositeOf(fs[i]) != CompositeOf(fs[j])
  }

  /** AddTo updates the filter with that composite in place, or appends one. */
  lemma {:induction false} AddToIs(fs: seq<Filter>, column: string, op: string, vs: seq<string>) returns (j: nat)
    ensures j <= |fs| && forall i :: 0 <= i < j ==> CompositeOf(fs[i]) != Composite(column, op)
    ensures j < |fs| ==>
              CompositeOf(fs[j]) == Composite(column, op) &&
              AddTo(fs, column, op, vs) == fs[j := fs[j].(values := fs[j].values + vs)]
    ensures j == |fs| ==> AddTo(fs, column, op, vs) == fs + [Filter(column, op, vs)]
  {
    hide Composite;
    if fs == [] {
      j := 0;
    } else if CompositeOf(fs[0]) == Composite(column, op) {
      j := 0;
      assert [fs[0].(values := fs[0].values + vs)] + fs[1..] == fs[0 := fs[0].(values := fs[0].values + vs)];
    } else {
      assert Composite(fs[0].column, fs[0].op) != Composite(column, op);
      hide CompositeOf;
      var rest := fs[1..];
      var k := AddToIs(rest, column, op, vs);
      j := k + 1;
      assert fs == [fs[0]] + rest && AddTo(fs, column, op, vs) == [fs[0]] + AddTo(rest, column, op, vs);
      forall i | 0 <= i < j ensures CompositeOf(fs[i]) != Composite(column, op) {
        if i > 0 { assert fs[i] == rest[i - 1]; }
      }
    }
  }

  lemma {:induction false} LastDotShape(s: string)
    ensures -1 <= LastDot(s) < |s|
    ensures LastDot(s) >= 0 ==> s[LastDot(s)] == '.'
    ensures forall i :: LastDot(s) < i < |s| ==> s[i] != '.'
  {
    if s != "" && s[|s| - 1] != '.' { LastDotShape(s[..|s| - 1]); }
  }

  /** Encode up to the call of values.Encode: the multimap is filled in place. */
  method Encode(q: Query) returns (values: Values)
    ensures values == ToValues(q)
  {
    hide AddFilters, PrintKeys, N.Itoa, Join, KeyOf;
    values := map[];
    if q.search != "" { values := values["q" := [q.search]]; }
    if q.offset > 0 { values := values["offset" := [N.Itoa(q.offset)]]; }
    if q.limit > 0 { values := values["limit" := [N.Itoa(q.limit)]]; }
    if |q.sort| > 0 {
      var parts := SortParts(q.sort);
      values := values["sort" := [Join(parts, ',')]];
    }
    assert values == Scalars(q);
    values := EncodeFilters(values, q.filters);
  }

  method SortParts(keys: seq<SortKey>) returns (parts: seq<string>)
    ensures parts == PrintKeys(keys)
  {
    parts := [];
    assert keys[0..] == keys;
    for i := 0 to |keys|
      invariant PrintKeys(keys) == parts + PrintKeys(keys[i..])
    {
      assert keys[i..][1..] == keys[i + 1..];
      parts := parts + [if keys[i].desc then "-" + keys[i].column else keys[i].column];
    }
    assert keys[|keys|..] == [] && parts + [] == parts;
  }

  method EncodeFilters(m: Values, fs: seq<Filter>) returns (values: Values)
    ensures values == AddFilters(m, fs)
  {
    values := m;
    assert fs[0..] == fs;
    for i := 0 to |fs|
      invariant AddFilters(m, fs) == AddFilters(values, fs[i..])
    {
      var f := fs[i];
      assert fs[i..][1..] == fs[i + 1..];
      ghost var before := values;
      assert f.values[0..] == f.values;
      for j := 0 to |f.values|
        invariant AddValues(before, KeyOf(f), f.values) == AddValues(values, KeyOf(f), f.values[j..])
      {
        assert f.values[j..][1..] == f.values[j + 1..];
        values := F.Add(values, KeyOf(f), f.values[j]);
      }
      assert f.values[|f.values|..] == [];
    }
    assert fs[|fs|..] == [];
  }

  // ---------------------------------------------------------------- keys and filters correspond

  lemma {:induction false} LastDotOf(a: string, op: string)
    requires '.' !in op
    ensures LastDot(a + "." + op) == |a|
  {
    var s := a + "." + op;
    LastDotShape(s);
    assert s[|a|] == '.';
    assert forall i :: |a| < i < |s| ==> s[i] == op[i - |a| - 1];
    LastDotIsLast(s, |a|);
  }

  lemma {:induction false} LastDotIsLast(s: string, i: nat)
    requires i < |s| && s[i] == '.' && forall j :: i < j < |s| ==> s[j] != '.'
    ensures LastDot(s) == i
  {
    LastDotShape(s);
    if LastDot(s) < 0 { LastDotFinds(s, i); }
  }

  lemma {:induction false} LastDotFinds(s: string, i: nat)
    requires i < |s| && s[i] == '.'
    ensures LastDot(s) >= 0
  {
    if s[|s| - 1] != '.' { LastDotFinds(s[..|s| - 1], i); }
  }

  /** A filter that parsing can yield: dots may be in the column, never in the operator. */
  predicate GoodFilter(f: Filter) {
    f.column != "" && '.' !in f.op && f.values != []
  }

  lemma {:induction false} FilterKeyOfKeyOf(f: Filter)
    requires f.column != "" && '.' !in f.op
    ensures FilterKey(KeyOf(f)) == Some((f.column, f.op))
  {
    var rest := f.column + "." + f.op;
    assert KeyOf(f) == "f." + rest && KeyOf(f)[2..] == rest;
    LastDotOf(f.column, f.op);
    assert rest[..|f.column|] == f.column && rest[|f.column| + 1..] == f.op;
  }

  lemma {:induction false} FilterKeyShape(key: string)
    requires FilterKey(key).Some?
    ensures FilterKey(key).value.0 != "" && '.' !in FilterKey(key).value.1
  {
    LastDotShape(key[2..]);
  }

  lemma {:induction false} ParsedFiltersAreGood(values: Values, keys: seq<string>)
    requires forall k :: k in keys ==> k in values && values[k] != []
    ensures DistinctComposites(ParseFilters(values, keys))
    ensures forall f :: f in ParseFilters(values, keys) ==> GoodFilter(f)
  {
    if keys != [] {
      hide FilterKey, LastDot;
      var n := |keys| - 1;
      ParsedFiltersAreGood(values, keys[..n]);
      var fs, key := ParseFilters(values, keys[..n]), keys[n];
      assert key in keys;
      if FilterKey(key).Some? {
        FilterKeyShape(key);
        AddToKeepsGood(fs, FilterKey(key).value.0, FilterKey(key).value.1, values[key]);
      }
    }
  }

  lemma {:induction false} AddToKeepsGood(fs: seq<Filter>, column: string, op: string, vs: seq<string>)
    requires DistinctComposites(fs) && forall f :: f in fs ==> GoodFilter(f)
    requires column != "" && '.' !in op && vs != []
    ensures DistinctComposites(AddTo(fs, column, op, vs)) && forall f :: f in AddTo(fs, column, op, vs) ==> GoodFilter(f)
  {
    hide Composite;
    var j := AddToIs(fs, column, op, vs);
    if j < |fs| { assert fs[j] in fs; }
  }

  // ---------------------------------------------------------------- what Encode writes

  lemma {:induction false} AddValuesIs(m: Values, key: string, vs: seq<string>)
    requires vs != []
    ensures AddValues(m, key, vs) == m[key := (if key in m then m[key] else []) + vs]
    decreases |vs|
  {
    var had := if key in m then m[key] else [];
    assert [vs[0]] + vs[1..] == vs;
    if |vs| > 1 {
      AddValuesIs(F.Add(m, key, vs[0]), key, vs[1..]);
      assert had + [vs[0]] + vs[1..] == had + vs;
    } else {
      assert vs == [vs[0]];
    }
  }

  ghost predicate DistinctKeys(fs: seq<Filter>) {
    forall i, j :: 0 <= i < j < |fs| ==> KeyOf(fs[i]) != KeyOf(fs[j])
  }

  lemma {:induction false} GoodFiltersHaveDistinctKeys(fs: seq<Filter>)
    requires DistinctComposites(fs) && forall f :: f in fs ==> GoodFilter(f)
    ensures DistinctKeys(fs)
  {
    hide KeyOf, Composite;
    forall i, j | 0 <= i < j < |fs| ensures KeyOf(fs[i]) != KeyOf(fs[j]) {
      assert fs[i] in fs && fs[j] in fs;
      FilterKeyOfKeyOf(fs[i]);
      FilterKeyOfKeyOf(fs[j]);
    }
  }

  /** After the filters are added, each is under its own key, and what was there before is untouched. */
  lemma {:induction false} AddFiltersIs(m: Values, fs: seq<Filter>)
    requires DistinctKeys(fs) && forall f :: f in fs ==> f.values != [] && KeyOf(f) !in m
    ensures var r := AddFilters(m, fs);
            (forall k :: k in r <==> k in m || exists f :: f in fs && KeyOf(f) == k) &&
            (forall f :: f in fs ==> KeyOf(f) in r && r[KeyOf(f)] == f.values) &&
            (forall k :: k in m ==> r[k] == m[k])
    decreases |fs|
  {
    if fs != [] {
      hide KeyOf, AddValues;
      var f := fs[0];
      assert f in fs;
      AddValuesIs(m, KeyOf(f), f.values);
      assert [] + f.values == f.values;
      var m' := m[KeyOf(f) := f.values];
      forall g | g in fs[1..] ensures KeyOf(g) !in m' {
        var i :| 0 <= i < |fs[1..]| && fs[1..][i] == g;
        assert KeyOf(fs[0]) != KeyOf(fs[i + 1]);
      }
      AddFiltersIs(m', fs[1..]);
      assert forall g :: g in fs <==> g == f || g in fs[1..];
    }
  }

  // ---------------------------------------------------------------- parsing again

  /** The filters that stand alone under the filter keys among `keys`. */
  function AloneFilters(values: Values, keys: seq<string>): seq<Filter>
    requires forall k :: k in keys ==> k in values
  {
    if keys == [] then []
    else
      var n := |keys| - 1;
      AloneFilters(values, keys[..n]) +
      match FilterKey(keys[n]) case None => [] case Some((c, op)) => [Filter(c, op, values[keys[n]])]
  }

  /** Keys with different composites are never merged. */
  lemma {:induction false} ParseAlone(values: Values, keys: seq<string>)
    requires forall k :: k in keys ==> k in values
    requires DistinctComposites(AloneFilters(values, keys))
    ensures ParseFilters(values, keys) == AloneFilters(values, keys)
  {
    if keys != [] {
      hide FilterKey, Composite, AddTo;
      var n := |keys| - 1;
      var fs, all := AloneFilters(values, keys[..n]), AloneFilters(values, keys);
      assert forall i :: 0 <= i < |fs| ==> all[i] == fs[i];
      ParseAlone(values, keys[..n]);
      if FilterKey(keys[n]).Some? {
        var (c, op) := FilterKey(keys[n]).value;
        var j := AddToIs(fs, c, op, values[keys[n]]);
        assert all[|fs|] == Filter(c, op, values[keys[n]]);
        assert forall i :: 0 <= i < |fs| ==> CompositeOf(fs[i]) != CompositeOf(all[|fs|]);
      }
    }
  }

  lemma {:induction false} AloneFiltersFrom(values: Values, keys: seq<string>, f: Filter)
    requires forall k :: k in keys ==> k in values
    ensures f in AloneFilters(values, keys) <==>
            exists k :: k in keys && FilterKey(k) == Some((f.column, f.op)) && values[k] == f.values
  {
    if keys != [] {
      hide FilterKey;
      var n := |keys| - 1;
      AloneFiltersFrom(values, keys[..n], f);
      assert forall k :: k in keys <==> k == keys[n] || k in keys[..n];
    }
  }

  /** The filter that stands under a filter key. */
  function FilterAt(values: Values, key: string): Filter
    requires key in values && FilterKey(key).Some?
  {
    Filter(FilterKey(key).value.0, FilterKey(key).value.1, values[key])
  }

  /** Every filter key of the multimap is the key of one of the filters, which stands there with its values. */
  ghost predicate Carries(values: Values, fs: seq<Filter>) {
    forall k :: k in values && FilterKey(k).Some? ==> FilterAt(values, k) in fs && KeyOf(FilterAt(values, k)) == k
  }

  lemma {:induction false} AloneAreDistinct(values: Values, keys: seq<string>, fs: seq<Filter>)
    requires DistinctComposites(fs) && Carries(values, fs)
    requires forall k :: k in keys ==> k in values
    requires forall i, j :: 0 <= i < j < |keys| ==> keys[i] != keys[j]
    ensures DistinctComposites(AloneFilters(values, keys))
    ensures forall f :: f in AloneFilters(values, keys) ==> f in fs
  {
    if keys != [] {
      hide FilterKey, KeyOf, CompositeOf;
      var n := |keys| - 1;
      AloneAreDistinct(values, keys[..n], fs);
      var before := AloneFilters(values, keys[..n]);
      assert keys[n] in keys;
      if FilterKey(keys[n]).Some? {
        var g := FilterAt(values, keys[n]);
        forall e | e in before ensures CompositeOf(e) != CompositeOf(g) {
          AloneFiltersFrom(values, keys[..n], e);
          var k :| k in keys[..n] && FilterKey(k) == Some((e.column, e.op)) && values[k] == e.values;
          assert k in values && FilterAt(values, k) == e && k != keys[n];
          assert KeyOf(e) == k && KeyOf(g) == keys[n];
          assert e in fs && g in fs;
        }
        assert forall i :: 0 <= i < |before| ==> before[i] in before;
        assert AloneFilters(values, keys) == before + [g];
      }
    }
  }

  lemma {:induction false} CountOfDistinct(fs: seq<Filter>, f: Filter)
    requires DistinctComposites(fs)
    ensures multiset(fs)[f] == if f in fs then 1 else 0
  {
    if fs != [] {
      hide CompositeOf;
      var n := |fs| - 1;
      CountOfDistinct(fs[..n], f);
      assert fs == fs[..n] + [fs[n]];
      assert f in fs[..n] ==> CompositeOf(f) != CompositeOf(fs[n]);
    }
  }

  lemma {:induction false} SameFilters(a: seq<Filter>, b: seq<Filter>)
    requires DistinctComposites(a) && DistinctComposites(b) && forall f :: f in a <==> f in b
    ensures multiset(a) == multiset(b)
  {
    forall f: Filter ensures multiset(a)[f] == multiset(b)[f] {
      CountOfDistinct(a, f);
      CountOfDistinct(b, f);
    }
  }

  lemma ScalarKeysAreNoFilters(q: Query)
    ensures forall k :: k in Scalars(q) ==> k == "q" || k == "offset" || k == "limit" || k == "sort"
    ensures forall f: Filter :: KeyOf(f) !in Scalars(q)
  {
    forall f: Filter ensures KeyOf(f) !in Scalars(q) { assert KeyOf(f)[0] == 'f' && KeyOf(f)[1] == '.'; }
  }

  /** Whatever filters a query has, if they could have been parsed, they come back in some order. */
  lemma {:induction false} FiltersRoundTrip(q: Query, keys: seq<string>)
    requires DistinctComposites(q.filters) && forall f :: f in q.filters ==> GoodFilter(f)
    requires F.Enumerates(keys, ToValues(q))
    ensures multiset(ParseFilters(ToValues(q), keys)) == multiset(q.filters)
    ensures forall k :: k in Scalars(q) ==> k in ToValues(q) && ToValues(q)[k] == Scalars(q)[k]
    ensures forall k :: k in ToValues(q) ==> k in Scalars(q) || "f." <= k
  {
    hide FilterKey, KeyOf, Scalars, AddFilters, Composite;
    var fs, values := q.filters, ToValues(q);
    GoodFiltersHaveDistinctKeys(fs);
    ScalarKeysAreNoFilters(q);
    AddFiltersIs(Scalars(q), fs);
    KeysStartWithF();
    assert Carries(values, fs) by {
      forall k | k in values && FilterKey(k).Some? ensures FilterAt(values, k) in fs && KeyOf(FilterAt(values, k)) == k {
        if k in Scalars(q) { ScalarsAreNotFilterKeys(k); }
        var f :| f in fs && KeyOf(f) == k;
        FilterKeyOfKeyOf(f);
        assert FilterAt(values, k) == f;
      }
    }
    AloneAreDistinct(values, keys, fs);
    ParseAlone(values, keys);
    forall f ensures f in AloneFilters(values, keys) <==> f in fs {
      if f in fs {
        FilterKeyOfKeyOf(f);
        AloneFiltersFrom(values, keys, f);
        assert KeyOf(f) in keys;
      }
    }
    SameFilters(AloneFilters(values, keys), fs);
  }

  lemma ScalarsAreNotFilterKeys(k: string)
    requires k == "q" || k == "offset" || k == "limit" || k == "sort"
    ensures FilterKey(k).None? && !("f." <= k)
  {
    assert k[0] != 'f' && "f."[0] == 'f';
  }

  lemma KeysStartWithF()
    ensures forall f: Filter :: "f." <= KeyOf(f)
  {}

  /** The scalars are read back from the multimap as they were. */
  lemma {:induction false} ScalarsRoundTrip(values: Values, q: Query, q': Values)
    requires q.search == TrimSpace(Get(values, "q")) && q.sort == ParseSort(Get(values, "sort"))
    requires q.offset == ParseOffset(Get(values, "offset")) && q.limit == ParseLimit(Get(values, "limit"))
    requires forall k :: k in Scalars(q) ==> k in q' && q'[k] == Scalars(q)[k]
    requires forall k :: k in q' ==> k in Scalars(q) || "f." <= k
    ensures TrimSpace(Get(q', "q")) == q.search && ParseSort(Get(q', "sort")) == q.sort
    ensures ParseOffset(Get(q', "offset")) == q.offset && ParseLimit(Get(q', "limit")) == q.limit
  {
    hide TrimSpace, ParseSort, N.Itoa, N.ParseInt, Join;
    TrimSpaceShape(Get(values, "q"));
    TrimmedStays(q.search);
    SortRoundTrip(Get(values, "sort"));
    EmptySort();
    if q.offset > 0 {
      N.ParsedFits(Get(values, "offset"));
      N.ParseUndoesItoa(q.offset);
      N.ItoaShape(q.offset);
    }
    if q.limit > 0 {
      N.ParsedFits(Get(values, "limit"));
      N.ParseUndoesItoa(q.limit);
      N.ItoaShape(q.limit);
    }
    ScalarsAreNotFilterKeys("q");
    ScalarsAreNotFilterKeys("sort");
    ScalarsAreNotFilterKeys("offset");
    ScalarsAreNotFilterKeys("limit");
    assert "q" in q' <==> q.search != "";
    assert "sort" in q' <==> q.sort != [];
    assert "offset" in q' <==> q.offset > 0;
    assert "limit" in q' <==> q.limit > 0;
  }

  lemma EmptySort()
    ensures ParseSort("") == []
  {}

  /**
   The round trip. Parse any multimap without empty lists, in any order of its keys; encode the query
   as a string, its keys in any order; parse that string, again in any order. The second query is the
   first one up to the order of its filters.
   */
  lemma {:induction false} ParseEncodeParse(e: F.Encoding, values: Values, keys: seq<string>, written: seq<string>, keys': seq<string>)
    requires e.Valid()
    requires F.Enumerates(keys, values) && forall k :: k in values ==> values[k] != []
    requires F.Enumerates(written, ToValues(Parse(values, keys)))
    requires F.Enumerates(keys', F.Parse(e, F.EncodePairs(e, F.Pairs(ToValues(Parse(values, keys)), written))))
    ensures var q := Parse(values, keys);
            var q' := Parse(F.Parse(e, F.EncodePairs(e, F.Pairs(ToValues(q), written))), keys');
            q'.search == q.search && q'.sort == q.sort && q'.offset == q.offset && q'.limit == q.limit &&
            multiset(q'.filters) == multiset(q.filters)
  {
    hide F.EncodePairs, F.Pairs, F.Parse, ToValues, ParseFilters, Scalars;
    var q := Parse(values, keys);
    ParsedFiltersAreGood(values, keys);
    FiltersRoundTrip(q, written);
    NoEmptyLists(q);
    F.ParseUndoesEncode(e, ToValues(q), written);
    FiltersRoundTrip(q, keys');
    ScalarsRoundTrip(values, q, ToValues(q));
  }

  lemma {:induction false} NoEmptyLists(q: Query)
    requires DistinctComposites(q.filters) && forall f :: f in q.filters ==> GoodFilter(f)
    ensures forall k :: k in ToValues(q) ==> ToValues(q)[k] != []
  {
    hide KeyOf, AddFilters, Composite;
    GoodFiltersHaveDistinctKeys(q.filters);
    ScalarKeysAreNoFilters(q);
    AddFiltersIs(Scalars(q), q.filters);
  }

  // ---------------------------------------------------------------- the order of the map

  /** No two filter keys have the same composite. */
  ghost predicate NoCollision(values: Values) {
    forall k, l :: k in values && l in values && k != l && FilterKey(k).Some? && FilterKey(l).Some? ==>
      CompositeOf(FilterAt(values, k)) != CompositeOf(FilterAt(values, l))
  }

  lemma {:induction false} AloneWithoutCollision(values: Values, keys: seq<string>)
    requires NoCollision(values) && forall k :: k in keys ==> k in values
    requires forall i, j :: 0 <= i < j < |keys| ==> keys[i] != keys[j]
    ensures DistinctComposites(AloneFilters(values, keys))
  {
    if keys != [] {
      hide FilterKey, CompositeOf;
      var n := |keys| - 1;
      AloneWithoutCollision(values, keys[..n]);
      var before := AloneFilters(values, keys[..n]);
      assert keys[n] in keys;
      if FilterKey(keys[n]).Some? {
        var g := FilterAt(values, keys[n]);
        forall i | 0 <= i < |before| ensures CompositeOf(before[i]) != CompositeOf(g) {
          var e := before[i];
          assert e in before;
          AloneFiltersFrom(values, keys[..n], e);
          var k :| k in keys[..n] && FilterKey(k) == Some((e.column, e.op)) && values[k] == e.values;
          assert k in values && FilterAt(values, k) == e && k != keys[n];
        }
        assert AloneFilters(values, keys) == before + [g];
      }
    }
  }

  /** Without such a collision the order in which Go visits the map does not matter, up to the order of the filters. */
  lemma {:induction false} OrderDoesNotMatter(values: Values, keys: seq<string>, keys': seq<string>)
    requires NoCollision(values) && F.Enumerates(keys, values) && F.Enumerates(keys', values)
    ensures multiset(ParseFilters(values, keys)) == multiset(ParseFilters(values, keys'))
  {
    hide FilterKey, CompositeOf;
    AloneWithoutCollision(values, keys);
    AloneWithoutCollision(values, keys');
    ParseAlone(values, keys);
    ParseAlone(values, keys');
    forall f ensures f in AloneFilters(values, keys) <==> f in AloneFilters(values, keys') {
      AloneFiltersFrom(values, keys, f);
      AloneFiltersFrom(values, keys', f);
    }
    SameFilters(AloneFilters(values, keys), AloneFilters(values, keys'));
  }

  lemma {:induction false} AddToNamesFirst(fs: seq<Filter>, column: string, op: string, vs: seq<string>)
    requires DistinctComposites(fs)
    ensures var r := AddTo(fs, column, op, vs);
            DistinctComposites(r) && r != [] &&
            if fs == [] then (r[0].column, r[0].op) == (column, op) else (r[0].column, r[0].op) == (fs[0].column, fs[0].op)
  {
    hide Composite;
    var j := AddToIs(fs, column, op, vs);
  }

  /** The filters never share a composite, and the filter key visited first names the first of them. */
  lemma {:induction false} FirstKeyNamesFirst(values: Values, keys: seq<string>)
    requires forall k :: k in keys ==> k in values
    ensures var fs := ParseFilters(values, keys);
            DistinctComposites(fs) &&
            (keys != [] && FilterKey(keys[0]).Some? ==> fs != [] && (fs[0].column, fs[0].op) == FilterKey(keys[0]).value)
  {
    if keys != [] {
      hide FilterKey, Composite, AddTo;
      var n := |keys| - 1;
      FirstKeyNamesFirst(values, keys[..n]);
      var fs, key := ParseFilters(values, keys[..n]), keys[n];
      if FilterKey(key).Some? { AddToNamesFirst(fs, FilterKey(key).value.0, FilterKey(key).value.1, values[key]); }
      if n > 0 { assert keys[..n][0] == keys[0]; } else { assert ParseFilters(values, keys[..n]) == []; }
    }
  }

  /** A filter key is put together from its column and operator. */
  lemma {:induction false} KeyOfFilterKey(key: string)
    requires FilterKey(key).Some?
    ensures key == "f." + FilterKey(key).value.0 + "." + FilterKey(key).value.1
  {
    var rest := key[2..];
    LastDotShape(rest);
    var dot := LastDot(rest);
    assert key == "f." + rest && rest == rest[..dot] + "." + rest[dot + 1..];
  }

  /** With one it does: visiting either key first gives other filters, whatever comes after it. */
  lemma {:induction false} CollisionDependsOnOrder(values: Values, keys: seq<string>, keys': seq<string>)
    requires F.Enumerates(keys, values) && F.Enumerates(keys', values) && keys != [] && keys' != [] && keys[0] != keys'[0]
    requires FilterKey(keys[0]).Some? && FilterKey(keys'[0]).Some?
    requires CompositeOf(FilterAt(values, keys[0])) == CompositeOf(FilterAt(values, keys'[0]))
    ensures multiset(ParseFilters(values, keys)) != multiset(ParseFilters(values, keys'))
  {
    hide FilterKey, Composite, ParseFilters;
    FirstKeyNamesFirst(values, keys);
    FirstKeyNamesFirst(values, keys');
    KeyOfFilterKey(keys[0]);
    KeyOfFilterKey(keys'[0]);
    var a, b := ParseFilters(values, keys), ParseFilters(values, keys');
    assert CompositeOf(a[0]) == CompositeOf(b[0]) && a[0] != b[0];
    assert forall i :: 0 < i < |b| ==> CompositeOf(b[i]) != CompositeOf(b[0]);
    assert a[0] in multiset(a) && a[0] !in b;
  }

  lemma {:induction false} ListSet(s: set<string>) returns (keys: seq<string>)
    ensures (forall k :: k in keys <==> k in s) && forall i, j :: 0 <= i < j < |keys| ==> keys[i] != keys[j]
    decreases |s|
  {
    if s == {} {
      keys := [];
    } else {
      var k :| k in s;
      var rest := ListSet(s - {k});
      assert forall i :: 0 <= i < |rest| ==> rest[i] in rest;
      keys := [k] + rest;
    }
  }

  lemma {:induction false} EnumerationFrom(values: Values, k: string) returns (keys: seq<string>)
    requires k in values
    ensures F.Enumerates(keys, values) && keys != [] && keys[0] == k
  {
    var rest := ListSet(values.Keys - {k});
    assert forall i :: 0 <= i < |rest| ==> rest[i] in rest;
    keys := [k] + rest;
  }

  /** The filters are the same, up to their order, for all orders in which Go may visit the map if and only if no two keys collide. */
  lemma {:induction false} OrderDoesNotMatterIff(values: Values)
    ensures NoCollision(values) <==>
            forall keys, keys' :: F.Enumerates(keys, values) && F.Enumerates(keys', values) ==>
              multiset(ParseFilters(values, keys)) == multiset(ParseFilters(values, keys'))
  {
    hide FilterKey, CompositeOf, ParseFilters;
    if NoCollision(values) {
      forall keys, keys' | F.Enumerates(keys, values) && F.Enumerates(keys', values)
        ensures multiset(ParseFilters(values, keys)) == multiset(ParseFilters(values, keys'))
      {
        OrderDoesNotMatter(values, keys, keys');
      }
    } else {
      var k, l :| k in values && l in values && k != l && FilterKey(k).Some? && FilterKey(l).Some? &&
                  CompositeOf(FilterAt(values, k)) == CompositeOf(FilterAt(values, l));
      var keys := EnumerationFrom(values, k);
      var keys' := EnumerationFrom(values, l);
      CollisionDependsOnOrder(values, keys, keys');
    }
  }

  /** Keys do collide: a bar can be read as part of the column or of the operator. */
  lemma {:induction false} BarsCollide(a: string, b: string, c: string, v: seq<string>, w: seq<string>)
    requires a != "" && '.' !in b && '.' !in c
    ensures !NoCollision(map[KeyOf(Filter(a, b + "|" + c, v)) := v, KeyOf(Filter(a + "|" + b, c, w)) := w])
  {
    var f, g := Filter(a, b + "|" + c, v), Filter(a + "|" + b, c, w);
    var values := map[KeyOf(f) := v, KeyOf(g) := w];
    FilterKeyOfKeyOf(f);
    FilterKeyOfKeyOf(g);
    assert |f.column| != |g.column|;
    assert a + "|" + (b + "|" + c) == a + "|" + b + "|" + c;
    hide FilterKey, KeyOf;
    assert KeyOf(f) != KeyOf(g);
    assert FilterAt(values, KeyOf(f)) == f && FilterAt(values, KeyOf(g)) == g;
    assert CompositeOf(f) == CompositeOf(g);
  }

  // ---------------------------------------------------------------- the scalars

  /** The first value under a key, or nothing. */
  function FirstOf(values: Values, key: string): string {
    if key in values && values[key] != [] then values[key][0] else ""
  }

  /** Offset and limit are the numbers that are written, if they are not negative; anything else is zero. The search is trimmed. */
  lemma {:induction false} ScalarsAreRead(values: Values, keys: seq<string>, n: int)
    requires forall k :: k in keys ==> k in values
    ensures var q, offset, limit := Parse(values, keys), FirstOf(values, "offset"), FirstOf(values, "limit");
            (n > 0 ==> (q.offset == n <==> N.ParseInt(offset) == Some(n)) && (q.limit == n <==> N.ParseInt(limit) == Some(n))) &&
            q.offset >= 0 && q.limit >= 0 &&
            Trimmed(q.search) && exists front, back :: AllSpaces(front) && AllSpaces(back) && FirstOf(values, "q") == front + q.search + back
  {
    assert N.ParseInt("") == None;
    var front, back := TrimSpaceIs(FirstOf(values, "q"));
    assert AllSpaces(front) && AllSpaces(back);
  }

  // ---------------------------------------------------------------- what is read

  /** Commas separate the keys of a sort parameter. */
  lemma {:induction false} SortConcat(a: string, b: string)
    ensures ParseSort(a + "," + b) == ParseSort(a) + ParseSort(b)
  {
    SplitConcat(a, b, ',');
    PartsConcat(Split(a, ','), Split(b, ','));
    NoPart();
    assert a + [','] + b == a + "," + b && (a + "," + b)[|a|] == ',';
  }

  lemma {:induction false} PartsConcat(a: seq<string>, b: seq<string>)
    ensures ParseSortParts(a + b) == ParseSortParts(a) + ParseSortParts(b)
  {
    if a == [] {
      assert a + b == b;
    } else {
      assert (a + b)[1..] == a[1..] + b;
      PartsConcat(a[1..], b);
    }
  }

  lemma NoPart()
    ensures ParseSortParts(Split("", ',')) == []
  {
    assert TrimSpace("") == "";
    assert [""][1..] == [];
  }

  /** A part without a comma is a key, descending if it starts with a minus; white space around it is dropped, and a part of nothing else is no key. */
  lemma {:induction false} SortPartIs(front: string, part: string, back: string)
    requires AllSpaces(front) && AllSpaces(back) && Trimmed(part) && ',' !in part && ',' !in front && ',' !in back
    ensures ParseSort(front + part + back) ==
            if part == "" then [] else if part[0] == '-' then [SortKey(part[1..], true)] else [SortKey(part, false)]
  {
    var raw := front + part + back;
    TrimOnly(front, part, back);
    SplitWhole(raw, ',');
    assert [raw][1..] == [] && ParseSortParts([raw][1..]) == [];
    if part != "" { assert [SortKey(part, false)] + [] == [SortKey(part, false)] && [SortKey(part[1..], true)] + [] == [SortKey(part[1..], true)]; }
    if raw == "" { assert part == ""; }
  }

  /** The filter keys are those of the form f.column.op, with a column that is not empty and the last dot in front of the operator. */
  lemma {:induction false} FilterKeyIff(key: string, column: string, op: string)
    ensures FilterKey(key) == Some((column, op)) <==> key == "f." + column + "." + op && column != "" && '.' !in op
  {
    if FilterKey(key).Some? {
      FilterKeyShape(key);
      KeyOfFilterKey(key);
    }
    if key == "f." + column + "." + op && column != "" && '.' !in op { FilterKeyOfKeyOf(Filter(column, op, [])); }
  }

  ghost predicate HasComposite(key: string, composite: string) {
    exists column, op :: key == "f." + column + "." + op && column != "" && '.' !in op && composite == column + "|" + op
  }

  /** The values of all keys with a composite, in the order in which the keys are visited. */
  ghost function ValuesUnder(values: Values, keys: seq<string>, composite: string): seq<string>
    requires forall k :: k in keys ==> k in values
  {
    if keys == [] then []
    else ValuesUnder(values, keys[..|keys| - 1], composite) +
         (if HasComposite(keys[|keys| - 1], composite) then values[keys[|keys| - 1]] else [])
  }

  /** There is a filter for each composite that some key has, and its values are those of all keys that have it. */
  lemma {:induction false} FiltersAreGathered(values: Values, keys: seq<string>, composite: string)
    requires forall k :: k in keys ==> k in values
    ensures var fs := ParseFilters(values, keys);
            ((exists f :: f in fs && f.column + "|" + f.op == composite) <==> exists k :: k in keys && HasComposite(k, composite)) &&
            forall f :: f in fs && f.column + "|" + f.op == composite ==> f.values == ValuesUnder(values, keys, composite)
  {
    if keys != [] {
      hide FilterKey, AddTo, HasComposite;
      var n := |keys| - 1;
      var fs, key := ParseFilters(values, keys[..n]), keys[n];
      FiltersAreGathered(values, keys[..n], composite);
      FirstKeyNamesFirst(values, keys[..n]);
      CompositeOfKey(key, composite);
      assert forall k :: k in keys <==> k in keys[..n] || k == key;
      if FilterKey(key).Some? {
        var (column, op) := FilterKey(key).value;
        var j := AddToIs(fs, column, op, values[key]);
        var gs := AddTo(fs, column, op, values[key]);
        AddedOne(fs, gs, j, column, op, values[key], composite);
      }
      if !HasComposite(key, composite) { assert ValuesUnder(values, keys, composite) == ValuesUnder(values, keys[..n], composite); }
      if !exists k :: k in keys[..n] && HasComposite(k, composite) { NothingGathered(values, keys[..n], composite); }
    }
  }

  lemma {:induction false} NothingGathered(values: Values, keys: seq<string>, composite: string)
    requires forall k :: k in keys ==> k in values && !HasComposite(k, composite)
    ensures ValuesUnder(values, keys, composite) == []
  {
    if keys != [] { NothingGathered(values, keys[..|keys| - 1], composite); }
  }

  lemma CompositeOfKey(key: string, composite: string)
    ensures HasComposite(key, composite) <==> FilterKey(key).Some? && FilterKey(key).value.0 + "|" + FilterKey(key).value.1 == composite
  {
    hide FilterKey;
    if FilterKey(key).Some? { FilterKeyIff(key, FilterKey(key).value.0, FilterKey(key).value.1); }
    forall column, op | key == "f." + column + "." + op && column != "" && '.' !in op ensures FilterKey(key) == Some((column, op)) {
      FilterKeyIff(key, column, op);
    }
  }

  lemma AddedOne(fs: seq<Filter>, gs: seq<Filter>, j: nat, column: string, op: string, vs: seq<string>, composite: string)
    requires DistinctComposites(fs) && j <= |fs| && forall i :: 0 <= i < j ==> CompositeOf(fs[i]) != Composite(column, op)
    requires j < |fs| ==> CompositeOf(fs[j]) == Composite(column, op) && gs == fs[j := fs[j].(values := fs[j].values + vs)]
    requires j == |fs| ==> gs == fs + [Filter(column, op, vs)]
    ensures column + "|" + op != composite ==>
              forall f: Filter :: f.column + "|" + f.op == composite ==> (f in gs <==> f in fs)
    ensures column + "|" + op == composite ==>
              (exists f :: f in gs && f.column + "|" + f.op == composite) &&
              forall f :: f in gs && f.column + "|" + f.op == composite ==>
                if j < |fs| then f.values == fs[j].values + vs && fs[j] in fs && fs[j].column + "|" + fs[j].op == composite
                else f.values == vs && forall g :: g in fs ==> g.column + "|" + g.op != composite
  {
    assert forall f: Filter :: CompositeOf(f) == f.column + "|" + f.op;
    if j < |fs| {
      assert gs[j] in gs;
      assert forall f :: f in gs ==> exists i :: 0 <= i < |gs| && gs[i] == f;
      assert forall f :: f in fs ==> exists i :: 0 <= i < |fs| && fs[i] == f;
      assert forall i :: 0 <= i < |fs| && i != j ==> gs[i] == fs[i] && CompositeOf(fs[i]) != CompositeOf(fs[j]);
    } else {
      assert gs[|fs|] in gs;
      assert forall f :: f in gs <==> f in fs || f == Filter(column, op, vs);
    }
  }
}
