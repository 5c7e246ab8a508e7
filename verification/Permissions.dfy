/**
 Permission matching of the FastAPI service (fastapi/src/middlewares/_authz.py). What Python's
 str.strip, str.lower and str.isalnum do is supplied by the caller.
 */
module Permissions {
  import opened Common
  import opened Strings

  /** The string methods of Python that the code relies on. */
  datatype Python = Python(strip: string -> string, lower: string -> string, isAlnum: char -> bool) {
    /** isalnum is false of the punctuation of permissions and true of their letters; strip and lower leave them alone, and make no colons. */
    ghost predicate Valid() {
      !isAlnum('*') && !isAlnum(':') && !isAlnum('.') && !isAlnum(' ') &&
      (forall c :: 'a' <= c <= 'z' || '0' <= c <= '9' ==> isAlnum(c)) &&
      (forall s :: Clean(s) ==> strip(s) == s && lower(s) == s) &&
      (forall s :: NoColon(s) ==> NoColon(strip(s)) && NoColon(lower(s)))
    }
  }

  /** str.replace("-", "_") */
  function Underscored(s: string): string {
    if s == "" then "" else [if s[0] == '-' then '_' else s[0]] + Underscored(s[1..])
  }

  function NormalizeResource(py: Python, value: string): string {
    Underscored(py.lower(py.strip(value)))
  }

  /** str.split(sep, 1), when the separator occurs. */
  function Cut(s: string, sep: char): (r: (string, string))
    requires sep in s
    ensures s == r.0 + [sep] + r.1 && sep !in r.0
  {
    if s[0] == sep then ("", s[1..])
    else
      var (a, b) := Cut(s[1..], sep);
      ([s[0]] + a, b)
  }

  function NormalizePermission(py: Python, value: string): string {
    var permission := py.lower(py.strip(value));
    if permission == "" then ""
    else if ':' in permission then
      var (resource, rest) := Cut(permission, ':');
      NormalizeResource(py, resource) + ":" + py.strip(rest)
    else if '.' in permission then
      var (resource, rest) := Cut(permission, '.');
      NormalizeResource(py, resource) + ":" + py.strip(rest)
    else permission
  }

  predicate ValidResource(py: Python, value: string) {
    value != "" && (value == "*" || forall i :: 0 <= i < |value| ==> py.isAlnum(value[i]) || value[i] == '_')
  }

  predicate ValidAction(a: string) {
    a == "read" || a == "create" || a == "update" || a == "delete" || a == "*"
  }

  predicate ValidScope(s: string) {
    s == "one" || s == "all" || s == "*"
  }

  /** `action.scope` with both of them known. */
  predicate ValidMethod(m: string) {
    '.' in m && ValidAction(Cut(m, '.').0) && ValidScope(Cut(m, '.').1)
  }

  predicate ValidPermission(py: Python, value: string) {
    var permission := NormalizePermission(py, value);
    ':' in permission && ValidResource(py, Cut(permission, ':').0) && ValidMethod(Cut(permission, ':').1)
  }

  // ---------------------------------------------------------------- wildcard matching

  /** fnmatch for patterns whose only special character is the star. */
  predicate Glob(t: string, p: string)
    decreases |t| + |p|
  {
    if p == "" then t == ""
    else if p[0] == '*' then Glob(t, p[1..]) || (t != "" && Glob(t[1..], p))
    else t != "" && t[0] == p[0] && Glob(t[1..], p[1..])
  }

  /** _SAFE_PERMISSION_PATTERN */
  predicate Safe(s: string) {
    s != "" && forall i :: 0 <= i < |s| ==> SafeChar(s[i])
  }

  predicate SafeChar(c: char) {
    'a' <= c <= 'z' || '0' <= c <= '9' || c == '_' || c == '*' || c == ':' || c == '.' || c == ' '
  }

  predicate NoColon(s: string) {
    ':' !in s
  }

  /** Made of safe characters, none of them a blank. */
  predicate Clean(s: string) {
    forall i :: 0 <= i < |s| ==> SafeChar(s[i]) && s[i] != ' '
  }

  /** What _build_permission_candidates returns, in sorted order or not. */
  function Candidates(action: string, scope: string): seq<string> {
    [action + "." + scope, action + ".*", "*." + scope, "*.*"]
  }

  // ---------------------------------------------------------------- the program

  /** What the payload's permission map may hold for a resource. */
  datatype Methods = ListOf(methods: seq<string>) | Nothing | Flags(flags: seq<(string, bool)>) | Single(value: string)

  /** The method strings a map value stands for, before they are normalised. */
  function Listed(m: Methods): seq<string> {
    match m
    case ListOf(ms) => ms
    case Nothing => []
    case Flags(fs) => Enabled(fs)
    case Single(s) => [s]
  }

  function Enabled(fs: seq<(string, bool)>): seq<string> {
    if fs == [] then [] else (if fs[0].1 then [fs[0].0] else []) + Enabled(fs[1..])
  }

  function NormalizeMethod(py: Python, m: string): string {
    py.lower(py.strip(m))
  }

  /** The valid ones among them, normalised; duplicates stay, since only membership is ever asked. */
  function MethodsOf(py: Python, ms: seq<string>): seq<string> {
    if ms == [] then []
    else (if ValidMethod(NormalizeMethod(py, ms[0])) then [NormalizeMethod(py, ms[0])] else []) + MethodsOf(py, ms[1..])
  }

  function PermissionsOf(py: Python, raw: seq<string>): seq<string> {
    if raw == [] then []
    else (if ValidPermission(py, raw[0]) then [NormalizePermission(py, raw[0])] else []) + PermissionsOf(py, raw[1..])
  }

  /** The normalised map after the first entries: a later entry with the same normalised key replaces an earlier one. */
  function MapOf(py: Python, entries: seq<(string, Methods)>): map<string, seq<string>> {
    if entries == [] then map[]
    else
      var n := |entries| - 1;
      var before := MapOf(py, entries[..n]);
      var key := NormalizeResource(py, entries[n].0);
      if ValidResource(py, key) then before[key := MethodsOf(py, Listed(entries[n].1))] else before
  }

  /** _extract_permissions: the raw list filtered, the map filled entry by entry. */
  method ExtractPermissions(py: Python, raw: seq<string>, entries: seq<(string, Methods)>)
    returns (permissions: seq<string>, normalized: map<string, seq<string>>)
    ensures permissions == PermissionsOf(py, raw) && normalized == MapOf(py, entries)
  {
    hide ValidPermission, NormalizePermission, ValidResource, NormalizeResource, MethodsOf;
    permissions := [];
    assert raw[0..] == raw;
    for i := 0 to |raw|
      invariant PermissionsOf(py, raw) == permissions + PermissionsOf(py, raw[i..])
    {
      assert raw[i..][1..] == raw[i + 1..];
      if ValidPermission(py, raw[i]) { permissions := permissions + [NormalizePermission(py, raw[i])]; }
    }
    assert raw[|raw|..] == [] && permissions + [] == permissions;
    normalized := map[];
    for i := 0 to |entries|
      invariant normalized == MapOf(py, entries[..i])
    {
      assert entries[..i + 1][..i] == entries[..i];
      var resource := NormalizeResource(py, entries[i].0);
      if !ValidResource(py, resource) { continue; }
      var values := NormalizedValues(py, Listed(entries[i].1));
      normalized := normalized[resource := values];
    }
    assert entries[..|entries|] == entries;
  }

  method NormalizedValues(py: Python, ms: seq<string>) returns (values: seq<string>)
    ensures values == MethodsOf(py, ms)
  {
    hide ValidMethod;
    values := [];
    assert ms[0..] == ms;
    for i := 0 to |ms|
      invariant MethodsOf(py, ms) == values + MethodsOf(py, ms[i..])
    {
      assert ms[i..][1..] == ms[i + 1..];
      var m := NormalizeMethod(py, ms[i]);
      if ValidMethod(m) { values := values + [m]; }
    }
    assert ms[|ms|..] == [] && values + [] == values;
  }

  predicate MapGrants(m: map<string, seq<string>>, key: string, candidates: seq<string>) {
    key in m && ((exists c :: c in candidates && c in m[key]) || "*" in m[key])
  }

  /** Some safe listed permission matches, as a wildcard pattern, the resource with one of the candidates. */
  predicate ListGrants(resource: string, candidates: seq<string>, permissions: seq<string>) {
    exists p, c :: p in permissions && c in candidates && Safe(p) && Glob(resource + ":" + c, p)
  }

  /** _has_permission */
  predicate HasPermission(py: Python, resource: string, candidates: seq<string>, permissions: seq<string>,
                          m: map<string, seq<string>>) {
    var r := NormalizeResource(py, resource);
    MapGrants(m, r, candidates) || MapGrants(m, "*", candidates) || ListGrants(r, candidates, permissions)
  }

  // ---------------------------------------------------------------- grants

  /** What a permission gives: each part may be a star. */
  datatype Grant = Grant(resource: string, action: string, scope: string)

  predicate Covers(part: string, required: string) {
    part == required || part == "*"
  }

  predicate Gives(g: Grant, resource: string, action: string, scope: string) {
    Covers(g.resource, resource) && Covers(g.action, action) && Covers(g.scope, scope)
  }

  predicate KnownWords(g: Grant) {
    g.action in {"read", "create", "update", "delete", "*"} && g.scope in {"one", "all", "*"}
  }

  /** A resource as it is compared: trimmed, in lower case, with underscores for hyphens. */
  function Resource(py: Python, value: string): string {
    var s := py.lower(py.strip(value));
    seq(|s|, i requires 0 <= i < |s| => if s[i] == '-' then '_' else s[i])
  }

  predicate IsName(py: Python, s: string) {
    s == "*" || (s != "" && forall c :: c in s ==> py.isAlnum(c) || c == '_')
  }

  /** The two parts of a permission, around its first colon or, when it has none, its first dot. */
  predicate Parted(permission: string, resource: string, rest: string) {
    (permission == resource + ":" + rest && ':' !in resource) ||
    (':' !in permission && permission == resource + "." + rest && '.' !in resource)
  }

  /** A listed permission stands for this grant. */
  ghost predicate Denotes(py: Python, raw: string, g: Grant) {
    IsName(py, g.resource) && KnownWords(g) &&
    exists resource, rest :: Parted(py.lower(py.strip(raw)), resource, rest) && g.resource == Resource(py, resource) &&
                             py.strip(rest) == g.action + "." + g.scope
  }

  /** A method under a key of the map stands for this grant. */
  ghost predicate DenotesUnder(py: Python, key: string, m: string, g: Grant) {
    IsName(py, g.resource) && KnownWords(g) && g.resource == Resource(py, key) && py.lower(py.strip(m)) == g.action + "." + g.scope
  }

  /** The methods that count in a value of the map: of a map of flags those that are set. */
  ghost predicate Counts(value: Methods, m: string) {
    match value
    case ListOf(ms) => exists i :: 0 <= i < |ms| && ms[i] == m
    case Nothing => false
    case Flags(fs) => exists i :: 0 <= i < |fs| && fs[i] == (m, true)
    case Single(s) => s == m
  }

  /** A listed grant counts only if the character filter lets its resource through. */
  ghost predicate ListGives(py: Python, raw: seq<string>, resource: string, action: string, scope: string) {
    exists p, g :: p in raw && Denotes(py, p, g) && (g.resource == "*" || PlainName(g.resource)) && Gives(g, resource, action, scope)
  }

  ghost predicate ListNames(py: Python, raw: seq<string>, resource: string, action: string, scope: string) {
    exists p, g :: p in raw && Denotes(py, p, g) && Gives(g, resource, action, scope)
  }

  ghost predicate EntryGives(py: Python, e: (string, Methods), resource: string, action: string, scope: string) {
    exists m, g :: Counts(e.1, m) && DenotesUnder(py, e.0, m, g) && Gives(g, resource, action, scope)
  }

  /** No later entry of the map has the same key once normalised. */
  ghost predicate Live(py: Python, entries: seq<(string, Methods)>, i: nat)
    requires i < |entries|
  {
    forall j :: i < j < |entries| ==> Resource(py, entries[j].0) != Resource(py, entries[i].0)
  }

  /** Some grant of the payload, listed or in a map entry that no later one hides, gives what is required. */
  ghost predicate Granted(py: Python, raw: seq<string>, entries: seq<(string, Methods)>, resource: string, action: string, scope: string) {
    ListGives(py, raw, resource, action, scope) ||
    exists i: nat :: i < |entries| && Live(py, entries, i) && EntryGives(py, entries[i], resource, action, scope)
  }

  /** Some grant of the payload, wherever it stands, gives what is required. */
  ghost predicate GrantedSomewhere(py: Python, raw: seq<string>, entries: seq<(string, Methods)>, resource: string, action: string, scope: string) {
    ListNames(py, raw, resource, action, scope) ||
    exists i: nat :: i < |entries| && EntryGives(py, entries[i], resource, action, scope)
  }

  // ---------------------------------------------------------------- wildcards on separated parts

  lemma {:induction false} GlobLiteral(t: string, p: string)
    requires '*' !in p
    ensures Glob(t, p) <==> t == p
  {
    if p != "" && t != "" && t[0] == p[0] {
      GlobLiteral(t[1..], p[1..]);
      assert t == [t[0]] + t[1..] && p == [p[0]] + p[1..];
    }
  }

  lemma {:induction false} GlobStar(t: string)
    ensures Glob(t, "*")
  {
    assert "*"[1..] == "";
    if t != "" { GlobStar(t[1..]); }
  }

  /** A pattern with a separator matches only where the text has one, each part its own side of it. */
  lemma {:induction false} GlobCuts(t: string, p: string, q: string, sep: char) returns (k: nat)
    requires sep != '*' && Glob(t, p + [sep] + q)
    ensures k < |t| && t[k] == sep && Glob(t[..k], p) && Glob(t[k + 1..], q)
    decreases |t| + |p|
  {
    var r := p + [sep] + q;
    if p == "" {
      assert r[1..] == q;
      return 0;
    }
    assert r[1..] == p[1..] + [sep] + q;
    if p[0] == '*' && Glob(t, r[1..]) {
      k := GlobCuts(t, p[1..], q, sep);
    } else {
      k := GlobCuts(t[1..], if p[0] == '*' then p else p[1..], q, sep);
      assert t[1..][..k] == t[..k + 1][1..] && t[1..][k + 1..] == t[k + 2..];
      k := k + 1;
    }
  }

  /** And it matches whenever both parts do. */
  lemma {:induction false} GlobConcat(x: string, y: string, p: string, q: string)
    requires Glob(x, p) && Glob(y, q)
    ensures Glob(x + y, p + q)
    decreases |x| + |p|
  {
    if p == "" {
      assert x + y == y && p + q == q;
    } else {
      assert (p + q)[1..] == p[1..] + q;
      if x != "" { assert (x + y)[1..] == x[1..] + y; }
      if p[0] == '*' && Glob(x, p[1..]) {
        GlobConcat(x, y, p[1..], q);
      } else {
        GlobConcat(x[1..], y, if p[0] == '*' then p else p[1..], q);
      }
    }
  }

  // ---------------------------------------------------------------- one grant

  /** A known action and a known scope. */
  predicate Required(action: string, scope: string) {
    ValidAction(action) && action != "*" && ValidScope(scope) && scope != "*"
  }

  predicate PlainName(s: string) {
    s != "" && forall i :: 0 <= i < |s| ==> 'a' <= s[i] <= 'z' || '0' <= s[i] <= '9' || s[i] == '_'
  }

  /** What follows the colon at k reads like a method with this action. */
  predicate ReadsAs(resource: string, k: nat, action: string) {
    k < |resource| && resource[k] == ':' && HasPrefix(resource[k + 1..], action + ".")
  }

  /**
   Resources into which a star for the action, or one for the resource, reaches: what stands before the first colon
   is a name that a permission can have, or what stands after some colon reads like a method with another action.
   */
  ghost predicate Leaks(resource: string, action: string) {
    (':' in resource && PlainName(Cut(resource, ':').0)) ||
    exists k: nat, a :: ReadsAs(resource, k, a) && ValidAction(a) && a != "*" && a != action
  }

  lemma Words(a: string, s: string)
    requires ValidAction(a) && ValidScope(s)
    ensures ':' !in a && '.' !in a && ':' !in s && '.' !in s
    ensures (a != "*" ==> '*' !in a) && (s != "*" ==> '*' !in s)
    ensures Safe(a) && Safe(s) && Clean(a) && Clean(s)
  {}

  lemma PartMatches(t: string, part: string)
    requires part == "*" || '*' !in part
    ensures Glob(t, part) <==> Covers(part, t)
  {
    if part == "*" { GlobStar(t); } else { GlobLiteral(t, part); }
  }

  lemma {:induction false} CutIs(a: string, b: string, sep: char)
    requires sep !in a
    ensures sep in a + [sep] + b && Cut(a + [sep] + b, sep) == (a, b)
  {
    var s := a + [sep] + b;
    assert s[|a|] == sep;
    if a == "" {
      assert s[1..] == b;
    } else {
      assert s[1..] == a[1..] + [sep] + b;
      CutIs(a[1..], b, sep);
      assert a == [a[0]] + a[1..];
    }
  }

  /** The permission that a grant is printed as. */
  function Printed(g: Grant): string {
    g.resource + ":" + (g.action + "." + g.scope)
  }

  predicate GoodGrant(g: Grant) {
    (g.resource == "*" || '*' !in g.resource) && ':' !in g.resource && ValidAction(g.action) && ValidScope(g.scope)
  }

  lemma {:induction false} GrantMatches(resource: string, a: string, s: string, g: Grant)
    requires GoodGrant(g) && Covers(g.resource, resource) && Covers(g.action, a) && Covers(g.scope, s)
    ensures Glob(resource + ":" + (a + "." + s), Printed(g))
  {
    hide Glob;
    Words(g.action, g.scope);
    PartMatches(resource, g.resource);
    PartMatches(a, g.action);
    PartMatches(s, g.scope);
    GlobLiteral(".", ".");
    GlobLiteral(":", ":");
    GlobConcat(a, ".", g.action, ".");
    GlobConcat(a + ".", s, g.action + ".", g.scope);
    assert a + "." + s == a + ("." + s) && g.action + "." + g.scope == g.action + ("." + g.scope);
    GlobConcat(resource, ":", g.resource, ":");
    GlobConcat(resource + ":", a + "." + s, g.resource + ":", g.action + "." + g.scope);
  }

  /** Matching what follows the colon of a permission: the scope is the last part. */
  lemma {:induction false} MethodMatches(u: string, s: string, g: Grant) returns (j: nat)
    requires Glob(u + "." + s, g.action + "." + g.scope) && GoodGrant(g) && ValidScope(s)
    ensures j <= |u| && (u + ".")[j] == '.' && Glob(u[..j], g.action) && Covers(g.scope, s)
  {
    hide Glob;
    Words(g.action, g.scope);
    Words("*", s);
    var t := u + "." + s;
    j := GlobCuts(t, g.action, g.scope, '.');
    assert forall i :: |u| < i < |t| ==> t[i] == s[i - |u| - 1];
    assert t[..j] == u[..j];
    assert j < |u| ==> t[j + 1..][|u| - j - 1] == '.';
    assert t[|u| + 1..] == s;
    PartMatches(t[j + 1..], g.scope);
  }

  /** A candidate for a resource with a colon may match beyond it: then the method starts inside the resource. */
  lemma {:induction false} CandidateMatches(resource: string, a: string, s: string, g: Grant)
    requires ValidAction(a) && ValidScope(s) && GoodGrant(g) && Glob(resource + ":" + (a + "." + s), Printed(g))
    ensures Covers(g.scope, s)
    ensures (Covers(g.resource, resource) && Covers(g.action, a)) ||
            exists k: nat :: k < |resource| && resource[k] == ':' && Covers(g.resource, resource[..k]) &&
                             (g.action == "*" || ReadsAs(resource, k, g.action))
  {
    hide Glob;
    Words(a, s);
    Words(g.action, g.scope);
    var m, t := a + "." + s, resource + ":" + (a + "." + s);
    var k := GlobCuts(t, g.resource, g.action + "." + g.scope, ':');
    AfterColon(resource, m, k);
    PartMatches(t[..k], g.resource);
    if k == |resource| {
      EndsAtMethod(a, s, g);
    } else {
      StartsInside(resource[k + 1..], a, s, g);
    }
  }

  lemma EndsAtMethod(a: string, s: string, g: Grant)
    requires ValidAction(a) && ValidScope(s) && GoodGrant(g) && Glob(a + "." + s, g.action + "." + g.scope)
    ensures Covers(g.action, a) && Covers(g.scope, s)
  {
    hide Glob;
    Words(a, s);
    Words(g.action, g.scope);
    var j := MethodMatches(a, s, g);
    PartMatches(a[..j], g.action);
    assert a[..|a|] == a;
  }

  lemma {:induction false} StartsInside(r: string, a: string, s: string, g: Grant)
    requires ValidScope(s) && GoodGrant(g) && Glob(r + ":" + (a + "." + s), g.action + "." + g.scope)
    ensures Covers(g.scope, s) && (g.action == "*" || HasPrefix(r, g.action + "."))
  {
    hide Glob;
    Words(g.action, g.scope);
    var u := r + ":" + a;
    assert r + ":" + (a + "." + s) == u + "." + s;
    var j := MethodMatches(u, s, g);
    PartMatches(u[..j], g.action);
    if g.action != "*" { PrefixWithoutColon(r, ":" + a, g.action, j); assert u == r + (":" + a); }
  }

  lemma AfterColon(resource: string, m: string, k: nat)
    requires ':' !in m && k < |resource + ":" + m| && (resource + ":" + m)[k] == ':'
    ensures k <= |resource| && (resource + ":" + m)[..k] == resource[..k]
    ensures (resource + ":" + m)[k + 1..] == if k == |resource| then m else resource[k + 1..] + ":" + m
  {
    var t := resource + ":" + m;
    assert forall i :: |resource| < i < |t| ==> t[i] == m[i - |resource| - 1];
  }

  lemma PrefixWithoutColon(r: string, rest: string, a: string, j: nat)
    requires rest != "" && rest[0] == ':' && ':' !in a
    requires j <= |r + rest| && (r + rest + ".")[j] == '.' && (r + rest)[..j] == a
    ensures HasPrefix(r, a + ".")
  {
    assert (r + rest)[|r|] == ':';
    forall i | 0 <= i < j ensures (r + rest)[i] in a { assert (r + rest)[i] == a[i]; }
    assert r[0..|a + "."|] == a + ".";
  }

  lemma FirstColon(resource: string, k: nat)
    requires k < |resource| && resource[k] == ':' && ':' !in resource[..k]
    ensures ':' in resource && Cut(resource, ':').0 == resource[..k]
  {
    assert resource == resource[..k] + [':'] + resource[k + 1..];
    CutIs(resource[..k], resource[k + 1..], ':');
  }

  lemma {:induction false} MatchGives(resource: string, action: string, scope: string, a: string, s: string, g: Grant)
    requires Required(action, scope) && GoodGrant(g) && (g.resource == "*" || PlainName(g.resource)) && !Leaks(resource, action)
    requires (a == action || a == "*") && (s == scope || s == "*") && Glob(resource + ":" + (a + "." + s), Printed(g))
    ensures Gives(g, resource, action, scope)
  {
    hide Glob, ValidAction, ValidScope, Printed;
    assert ValidAction("*") && ValidScope("*") by { AnyIsValid(); }
    CandidateMatches(resource, a, s, g);
    if !(Covers(g.resource, resource) && Covers(g.action, a)) {
      var k: nat :| k < |resource| && resource[k] == ':' && Covers(g.resource, resource[..k]) &&
                    (g.action == "*" || ReadsAs(resource, k, g.action));
      if g.resource == resource[..k] { FirstColon(resource, k); }
    }
  }

  lemma AnyIsValid()
    ensures ValidAction("*") && ValidScope("*")
  {}

  /** Some candidate matches the printed grant if and only if the grant gives what is required. */
  lemma {:induction false} SomeCandidateMatches(resource: string, action: string, scope: string, g: Grant)
    requires Required(action, scope) && GoodGrant(g)
    ensures Gives(g, resource, action, scope) ==>
            exists c :: c in Candidates(action, scope) && Glob(resource + ":" + c, Printed(g))
    ensures !Leaks(resource, action) && (g.resource == "*" || PlainName(g.resource)) ==>
            (exists c :: c in Candidates(action, scope) && Glob(resource + ":" + c, Printed(g))) ==> Gives(g, resource, action, scope)
  {
    hide Glob, Candidates, Leaks, Printed, Gives;
    forall c | c in Candidates(action, scope) && Glob(resource + ":" + c, Printed(g)) && !Leaks(resource, action) &&
               (g.resource == "*" || PlainName(g.resource))
      ensures Gives(g, resource, action, scope)
    {
      InCandidates(c, action, scope);
      var a, s :| (a == action || a == "*") && (s == scope || s == "*") && c == a + "." + s;
      MatchGives(resource, action, scope, a, s, g);
    }
    if Gives(g, resource, action, scope) {
      InCandidates(action + "." + scope, action, scope);
      GivesCovers(g, resource, action, scope);
      GrantMatches(resource, action, scope, g);
    }
  }

  lemma GivesCovers(g: Grant, resource: string, action: string, scope: string)
    ensures Gives(g, resource, action, scope) <==> Covers(g.resource, resource) && Covers(g.action, action) && Covers(g.scope, scope)
  {}

  lemma SafeParts(a: string, b: string, c: char)
    requires b != "" && SafeChar(c)
    ensures Safe(a + [c] + b) && a != "" <==> Safe(a) && Safe(b)
  {
    var s := a + [c] + b;
    assert forall i :: 0 <= i < |a| ==> s[i] == a[i];
    assert forall i :: 0 <= i < |b| ==> s[|a| + 1 + i] == b[i];
  }

  /** The character filter lets through exactly the grants whose resource it lets through. */
  lemma {:induction false} SafeIffResource(g: Grant)
    requires GoodGrant(g) && g.resource != ""
    ensures Safe(Printed(g)) <==> Safe(g.resource)
  {
    hide Safe;
    Words(g.action, g.scope);
    SafeParts(g.action, g.scope, '.');
    SafeParts(g.resource, g.action + "." + g.scope, ':');
  }

  lemma {:induction false} UnderscoredIs(s: string)
    ensures |Underscored(s)| == |s| && forall i :: 0 <= i < |s| ==> Underscored(s)[i] == if s[i] == '-' then '_' else s[i]
  {
    if s != "" { UnderscoredIs(s[1..]); }
  }

  lemma NormalizedIsResource(py: Python, value: string)
    ensures NormalizeResource(py, value) == Resource(py, value)
  {
    UnderscoredIs(py.lower(py.strip(value)));
  }

  lemma ResourceHasNoColon(py: Python, value: string)
    requires py.Valid() && ':' !in value
    ensures ':' !in Resource(py, value)
  {
    assert NoColon(value) && NoColon(py.strip(value)) && NoColon(py.lower(py.strip(value)));
  }

  lemma ValidIsName(py: Python, s: string)
    ensures ValidResource(py, s) <==> IsName(py, s)
  {}

  lemma {:induction false} MethodIsKnown(m: string, g: Grant)
    ensures m == g.action + "." + g.scope && KnownWords(g) <==> ValidMethod(m) && g.action == Cut(m, '.').0 && g.scope == Cut(m, '.').1
  {
    if KnownWords(g) {
      Words(g.action, g.scope);
      CutIs(g.action, g.scope, '.');
    }
  }

  /** The colon of a normalised permission, and its parts. */
  lemma {:induction false} NormalizedParts(py: Python, raw: string, resource: string, rest: string)
    requires py.Valid() && Parted(py.lower(py.strip(raw)), resource, rest)
    ensures NormalizePermission(py, raw) == Resource(py, resource) + ":" + py.strip(rest)
    ensures ':' in NormalizePermission(py, raw) && Cut(NormalizePermission(py, raw), ':') == (Resource(py, resource), py.strip(rest))
  {
    hide Resource, NormalizeResource;
    var permission := py.lower(py.strip(raw));
    if permission == resource + ":" + rest && ':' !in resource { CutIs(resource, rest, ':'); } else { CutIs(resource, rest, '.'); }
    NormalizedIsResource(py, resource);
    assert ':' !in resource by { assert ':' in resource ==> ':' in permission; }
    ResourceHasNoColon(py, resource);
    CutIs(Resource(py, resource), py.strip(rest), ':');
  }

  /** A permission that stands for a grant is valid, and normalised to the grant as it is printed. */
  lemma {:induction false} DenotedIsValid(py: Python, raw: string, g: Grant)
    requires py.Valid() && Denotes(py, raw, g)
    ensures ValidPermission(py, raw) && NormalizePermission(py, raw) == Printed(g) && GoodGrant(g) && g.resource != ""
  {
    hide NormalizePermission, Parted, KnownWords, ValidMethod, ValidResource, IsName, Resource;
    var resource, rest :| Parted(py.lower(py.strip(raw)), resource, rest) && g.resource == Resource(py, resource) &&
                          py.strip(rest) == g.action + "." + g.scope;
    NormalizedParts(py, raw, resource, rest);
    MethodIsKnown(py.strip(rest), g);
    ValidIsName(py, g.resource);
    GoodNames(py, g);
  }

  lemma GoodNames(py: Python, g: Grant)
    requires py.Valid() && IsName(py, g.resource) && KnownWords(g)
    ensures GoodGrant(g) && g.resource != "" && (Safe(g.resource) <==> g.resource == "*" || PlainName(g.resource))
  {
    if Safe(g.resource) && g.resource != "*" {
      forall i | 0 <= i < |g.resource| ensures 'a' <= g.resource[i] <= 'z' || '0' <= g.resource[i] <= '9' || g.resource[i] == '_' {
        assert g.resource[i] in g.resource;
      }
    }
  }

  /** And every valid permission stands for a grant. */
  lemma {:induction false} ValidIsDenoted(py: Python, raw: string) returns (g: Grant)
    requires py.Valid() && ValidPermission(py, raw)
    ensures Denotes(py, raw, g)
  {
    hide Resource, ValidAction, ValidScope, ValidResource, IsName, KnownWords, NormalizePermission;
    var resource, rest := Parts(py, raw);
    NormalizedParts(py, raw, resource, rest);
    var m := py.strip(rest);
    g := Grant(Resource(py, resource), Cut(m, '.').0, Cut(m, '.').1);
    MethodIsKnown(m, g);
    ValidIsName(py, g.resource);
  }

  lemma Parts(py: Python, raw: string) returns (resource: string, rest: string)
    requires ':' in NormalizePermission(py, raw)
    ensures Parted(py.lower(py.strip(raw)), resource, rest)
  {
    hide NormalizeResource;
    var permission := py.lower(py.strip(raw));
    var parts := Cut(permission, if ':' in permission then ':' else '.');
    resource, rest := parts.0, parts.1;
  }

  lemma GrantIsListed(py: Python, raw: string, g: Grant)
    requires py.Valid() && Denotes(py, raw, g)
    ensures ValidPermission(py, raw) && NormalizePermission(py, raw) == Printed(g) && GoodGrant(g) && g.resource != ""
    ensures Safe(Printed(g)) <==> g.resource == "*" || PlainName(g.resource)
  {
    hide ValidPermission, NormalizePermission, Safe, PlainName, Printed, Parted, Resource;
    DenotedIsValid(py, raw, g);
    SafeIffResource(g);
    GoodNames(py, g);
  }

  lemma {:induction false} PermissionsOfHas(py: Python, raw: seq<string>, n: string)
    ensures n in PermissionsOf(py, raw) <==> exists p :: p in raw && ValidPermission(py, p) && NormalizePermission(py, p) == n
  {
    if raw != [] {
      hide ValidPermission, NormalizePermission;
      PermissionsOfHas(py, raw[1..], n);
      assert forall p :: p in raw <==> p == raw[0] || p in raw[1..];
    }
  }

  /**
   The listed permissions grant access, by wildcard matching, if one of their grants that passes the filter gives
   what is required; and only if, unless the resource leaks.
   */
  lemma {:induction false} ListGrantsIffGiven(py: Python, raw: seq<string>, resource: string, action: string, scope: string)
    requires py.Valid() && Required(action, scope)
    ensures ListGives(py, raw, resource, action, scope) ==> ListGrants(resource, Candidates(action, scope), PermissionsOf(py, raw))
    ensures !Leaks(resource, action) ==>
            ListGrants(resource, Candidates(action, scope), PermissionsOf(py, raw)) ==> ListGives(py, raw, resource, action, scope)
  {
    hide Glob, Safe, Candidates, Required, GoodGrant, Gives, ValidPermission, NormalizePermission, Leaks, Printed, PlainName, Denotes;
    var cs, ps := Candidates(action, scope), PermissionsOf(py, raw);
    if ListGrants(resource, cs, ps) {
      var n, c :| n in ps && c in cs && Safe(n) && Glob(resource + ":" + c, n);
      PermissionsOfHas(py, raw, n);
      var p :| p in raw && ValidPermission(py, p) && NormalizePermission(py, p) == n;
      var g := ValidIsDenoted(py, p);
      GrantIsListed(py, p, g);
      SomeCandidateMatches(resource, action, scope, g);
    }
    if ListGives(py, raw, resource, action, scope) {
      var p, g :| p in raw && Denotes(py, p, g) && (g.resource == "*" || PlainName(g.resource)) && Gives(g, resource, action, scope);
      GrantIsListed(py, p, g);
      SomeCandidateMatches(resource, action, scope, g);
      PermissionsOfHas(py, raw, NormalizePermission(py, p));
    }
  }

  /** For a resource that passes the filter every listed grant counts; for any other one only those with a star. */
  lemma {:induction false} FilterDropsIff(py: Python, raw: seq<string>, resource: string, action: string, scope: string)
    requires py.Valid()
    ensures Safe(resource) ==> (ListGives(py, raw, resource, action, scope) <==> ListNames(py, raw, resource, action, scope))
    ensures !Safe(resource) ==>
              (ListGives(py, raw, resource, action, scope) <==>
               exists p, g :: p in raw && Denotes(py, p, g) && g.resource == "*" && Gives(g, resource, action, scope))
  {
    hide Safe, PlainName, IsName, KnownWords, Parted, Resource;
    forall p, g | p in raw && Denotes(py, p, g) ensures Safe(g.resource) <==> g.resource == "*" || PlainName(g.resource) {
      GoodNames(py, g);
    }
    StarIsSafe();
  }

  lemma StarIsSafe()
    ensures Safe("*")
  {}

  // ---------------------------------------------------------------- the map

  lemma LiveBefore(py: Python, entries: seq<(string, Methods)>, i: nat)
    requires i < |entries| - 1
    ensures Live(py, entries, i) <==>
            Live(py, entries[..|entries| - 1], i) && Resource(py, entries[|entries| - 1].0) != Resource(py, entries[i].0)
  {
    hide Resource;
    var before := entries[..|entries| - 1];
    assert forall j :: 0 <= j < |before| ==> before[j] == entries[j];
  }

  /** Whatever the map holds comes from a live entry. */
  lemma {:induction false} KeyHasEntry(py: Python, entries: seq<(string, Methods)>, k: string)
    requires k in MapOf(py, entries)
    ensures ValidResource(py, k) &&
            exists i: nat :: i < |entries| && Resource(py, entries[i].0) == k && Live(py, entries, i)
  {
    hide Resource, ValidResource, MethodsOf, Listed;
    var n := |entries| - 1;
    NormalizedIsResource(py, entries[n].0);
    if Resource(py, entries[n].0) == k && ValidResource(py, k) {
      assert Live(py, entries, n);
    } else {
      KeyHasEntry(py, entries[..n], k);
      var i: nat :| i < n && Resource(py, entries[..n][i].0) == k && Live(py, entries[..n], i);
      LiveBefore(py, entries, i);
    }
  }

  /** A live entry with a valid key is what the map holds under that key. */
  lemma {:induction false} EntryIsInMap(py: Python, entries: seq<(string, Methods)>, i: nat)
    requires i < |entries| && Live(py, entries, i) && ValidResource(py, Resource(py, entries[i].0))
    ensures var k := Resource(py, entries[i].0);
            k in MapOf(py, entries) && MapOf(py, entries)[k] == MethodsOf(py, Listed(entries[i].1))
  {
    hide Resource, ValidResource, MethodsOf, Listed;
    var n := |entries| - 1;
    NormalizedIsResource(py, entries[n].0);
    if i < n {
      LiveBefore(py, entries, i);
      assert entries[..n][i] == entries[i];
      hide Live;
      EntryIsInMap(py, entries[..n], i);
    }
  }

  lemma {:induction false} MethodsOfHas(py: Python, ms: seq<string>, v: string)
    ensures v in MethodsOf(py, ms) <==> exists m :: m in ms && NormalizeMethod(py, m) == v && ValidMethod(v)
  {
    if ms != [] {
      hide NormalizeMethod, ValidMethod;
      MethodsOfHas(py, ms[1..], v);
      assert forall m :: m in ms <==> m == ms[0] || m in ms[1..];
    }
  }

  /** Two printed methods are the same string if and only if their parts are. */
  lemma {:induction false} SameParts(a: string, s: string, a': string, s': string)
    requires '.' !in a && '.' !in a'
    ensures a + "." + s == a' + "." + s' <==> a == a' && s == s'
  {
    CutIs(a, s, '.');
    CutIs(a', s', '.');
  }

  lemma InCandidates(v: string, action: string, scope: string)
    ensures v in Candidates(action, scope) <==>
            v == action + "." + scope || v == action + "." + "*" || v == "*" + "." + scope || v == "*" + "." + "*"
  {
    var cs := Candidates(action, scope);
    assert action + "." + "*" == action + ".*" && "*" + "." + scope == "*." + scope && "*" + "." + "*" == "*.*";
    assert cs[0] in cs && cs[1] in cs && cs[2] in cs && cs[3] in cs;
  }

  /** Being one of the candidates is having an action and a scope that cover the required ones. */
  lemma {:induction false} CandidateIsCover(v: string, action: string, scope: string)
    requires ValidMethod(v) && ValidAction(action) && ValidScope(scope)
    ensures v in Candidates(action, scope) <==> Covers(Cut(v, '.').0, action) && Covers(Cut(v, '.').1, scope)
  {
    hide ValidAction, ValidScope, Candidates;
    var (a, s) := Cut(v, '.');
    Words(action, scope);
    InCandidates(v, action, scope);
    hide Cut;
    SameParts(a, s, action, scope);
    SameParts(a, s, action, "*");
    SameParts(a, s, "*", scope);
    SameParts(a, s, "*", "*");
  }

  lemma {:induction false} EnabledCounts(fs: seq<(string, bool)>, m: string)
    ensures m in Enabled(fs) <==> exists i :: 0 <= i < |fs| && fs[i] == (m, true)
  {
    if fs != [] {
      EnabledCounts(fs[1..], m);
      assert forall i :: 0 < i < |fs| ==> fs[i] == fs[1..][i - 1];
      assert fs[0] == (m, true) <==> fs[0].0 == m && fs[0].1;
      if i :| 0 <= i < |fs[1..]| && fs[1..][i] == (m, true) { assert fs[i + 1] == (m, true); }
    }
  }

  /** The methods that a value stands for are those that count in it. */
  lemma {:induction false} ListedCounts(value: Methods, m: string)
    ensures m in Listed(value) <==> Counts(value, m)
  {
    if value.Flags? { EnabledCounts(value.flags, m); }
  }

  /** An entry gives what is required if and only if its key covers the resource and it lists a candidate. */
  lemma {:induction false} EntryGivesIff(py: Python, e: (string, Methods), resource: string, action: string, scope: string)
    requires Required(action, scope)
    ensures var k := Resource(py, e.0);
            EntryGives(py, e, resource, action, scope) <==>
            ValidResource(py, k) && Covers(k, resource) &&
            exists c :: c in Candidates(action, scope) && c in MethodsOf(py, Listed(e.1))
  {
    hide Resource, ValidResource, Listed, Candidates, ValidMethod, IsName, KnownWords, Counts;
    var k := Resource(py, e.0);
    ValidIsName(py, k);
    if EntryGives(py, e, resource, action, scope) {
      var m, g :| Counts(e.1, m) && DenotesUnder(py, e.0, m, g) && Gives(g, resource, action, scope);
      ListedCounts(e.1, m);
      MethodIsKnown(NormalizeMethod(py, m), g);
      MethodsOfHas(py, Listed(e.1), NormalizeMethod(py, m));
      CandidateIsCover(NormalizeMethod(py, m), action, scope);
    }
    if ValidResource(py, k) && Covers(k, resource) {
      forall c | c in Candidates(action, scope) && c in MethodsOf(py, Listed(e.1)) ensures EntryGives(py, e, resource, action, scope) {
        MethodsOfHas(py, Listed(e.1), c);
        var m :| m in Listed(e.1) && NormalizeMethod(py, m) == c && ValidMethod(c);
        CandidateIsCover(c, action, scope);
        ListedCounts(e.1, m);
        var g := Grant(k, Cut(c, '.').0, Cut(c, '.').1);
        MethodIsKnown(c, g);
        assert DenotesUnder(py, e.0, m, g) && Gives(g, resource, action, scope);
      }
    }
  }

  /** A bare star is never among the methods, since it has no scope. */
  lemma {:induction false} NoBareStar(py: Python, ms: seq<string>)
    ensures "*" !in MethodsOf(py, ms)
  {
    MethodsOfHas(py, ms, "*");
  }

  lemma {:induction false} MapGrantsIffGiven(py: Python, entries: seq<(string, Methods)>, resource: string, action: string, scope: string)
    requires Required(action, scope)
    ensures var m, cs := MapOf(py, entries), Candidates(action, scope);
            MapGrants(m, resource, cs) || MapGrants(m, "*", cs) <==>
            exists i: nat :: i < |entries| && Live(py, entries, i) && EntryGives(py, entries[i], resource, action, scope)
  {
    hide Resource, ValidResource, Listed, MethodsOf, Candidates, EntryGives, MapOf, Required, Live;
    var m, cs := MapOf(py, entries), Candidates(action, scope);
    forall k | Covers(k, resource) && MapGrants(m, k, cs)
      ensures exists i: nat :: i < |entries| && Live(py, entries, i) && EntryGives(py, entries[i], resource, action, scope)
    {
      KeyHasEntry(py, entries, k);
      var i: nat :| i < |entries| && Resource(py, entries[i].0) == k && Live(py, entries, i);
      EntryIsInMap(py, entries, i);
      NoBareStar(py, Listed(entries[i].1));
      EntryGivesIff(py, entries[i], resource, action, scope);
    }
    forall i: nat | i < |entries| && Live(py, entries, i) && EntryGives(py, entries[i], resource, action, scope)
      ensures MapGrants(m, resource, cs) || MapGrants(m, "*", cs)
    {
      EntryGivesIff(py, entries[i], resource, action, scope);
      EntryIsInMap(py, entries, i);
    }
  }

  /**
   Access is granted whenever some valid grant of the payload, listed or in a map entry that no later entry
   hides, has resource, action and scope each equal to the required one or a star; and only then, unless
   the resource leaks: wildcard matching of the four candidates adds nothing and loses nothing.
   */
  lemma {:induction false} AccessIffGranted(py: Python, raw: seq<string>, entries: seq<(string, Methods)>,
                                            resource: string, action: string, scope: string)
    requires py.Valid() && Required(action, scope)
    ensures Granted(py, raw, entries, Resource(py, resource), action, scope) ==>
            HasPermission(py, resource, Candidates(action, scope), PermissionsOf(py, raw), MapOf(py, entries))
    ensures !Leaks(Resource(py, resource), action) ==>
            HasPermission(py, resource, Candidates(action, scope), PermissionsOf(py, raw), MapOf(py, entries)) ==>
            Granted(py, raw, entries, Resource(py, resource), action, scope)
  {
    hide Resource, PermissionsOf, MapOf, Candidates, ListGives, EntryGives, ListGrants, MapGrants, Required, Live, Leaks;
    NormalizedIsResource(py, resource);
    ListGrantsIffGiven(py, raw, Resource(py, resource), action, scope);
    MapGrantsIffGiven(py, entries, Resource(py, resource), action, scope);
  }

  /** When the keys of the map stay distinct after normalisation and the resource passes the filter every grant of the payload counts. */
  lemma {:induction false} DistinctKeysCountAll(py: Python, raw: seq<string>, entries: seq<(string, Methods)>,
                                                resource: string, action: string, scope: string)
    requires py.Valid() && Required(action, scope)
    requires Safe(Resource(py, resource)) && !Leaks(Resource(py, resource), action)
    requires forall i, j :: 0 <= i < j < |entries| ==> Resource(py, entries[i].0) != Resource(py, entries[j].0)
    ensures HasPermission(py, resource, Candidates(action, scope), PermissionsOf(py, raw), MapOf(py, entries)) <==>
            GrantedSomewhere(py, raw, entries, Resource(py, resource), action, scope)
  {
    hide Resource, PermissionsOf, MapOf, Candidates, ListGives, ListNames, EntryGives, HasPermission, Required, Safe, Leaks;
    AccessIffGranted(py, raw, entries, resource, action, scope);
    FilterDropsIff(py, raw, Resource(py, resource), action, scope);
    assert forall i: nat :: i < |entries| ==> Live(py, entries, i);
  }

  /** Two keys that normalise alike: the later entry takes away whatever the earlier one granted. */
  lemma {:induction false} LaterKeyHidesEarlier(py: Python, key: string, key': string, ms: Methods)
    requires Resource(py, key) == Resource(py, key') && ValidResource(py, Resource(py, key))
    ensures MapOf(py, [(key, ms), (key', Nothing)]) == map[Resource(py, key) := []]
  {
    var entries := [(key, ms), (key', Nothing)];
    NormalizedIsResource(py, key);
    NormalizedIsResource(py, key');
    hide Resource, NormalizeResource;
    assert entries[..1] == [(key, ms)] && [(key, ms)][..0] == [];
    assert MapOf(py, entries[..1]).Keys == {Resource(py, key)};
  }

  // ---------------------------------------------------------------- a resource with a colon

  lemma {:induction false} GlobSkips(x: string, t: string, p: string)
    requires Glob(t, p)
    ensures Glob(x + t, "*" + p)
  {
    assert ("*" + p)[1..] == p;
    if x == "" { assert x + t == t; } else { assert (x + t)[1..] == x[1..] + t; GlobSkips(x[1..], t, p); }
  }

  /** A listed permission that is printed without blanks, capitals and hyphens is its own normal form. */
  lemma {:induction false} PlainGrantIsListed(py: Python, g: Grant)
    requires py.Valid() && (g.resource == "*" || PlainName(g.resource)) && ValidAction(g.action) && ValidScope(g.scope)
    ensures Denotes(py, Printed(g), g) && Safe(Printed(g))
  {
    hide ValidAction, ValidScope, Safe, PlainName, Resource, KnownWords, IsName;
    var m := g.action + "." + g.scope;
    Words(g.action, g.scope);
    PlainIsClean(g.resource);
    CleanConcat(g.action, '.', g.scope);
    CleanConcat(g.resource, ':', m);
    PlainIsResource(py, g.resource);
    assert KnownWords(g) by { WordsAreKnown(g); }
    assert Printed(g) == g.resource + [':'] + m && m == g.action + ['.'] + g.scope;
    hide Clean;
    assert Parted(Printed(g), g.resource, m);
  }

  lemma WordsAreKnown(g: Grant)
    requires ValidAction(g.action) && ValidScope(g.scope)
    ensures KnownWords(g)
  {}

  lemma PlainIsResource(py: Python, s: string)
    requires py.Valid() && (s == "*" || PlainName(s))
    ensures Resource(py, s) == s && IsName(py, s)
  {
    PlainIsClean(s);
  }

  lemma PlainIsClean(s: string)
    requires s == "*" || PlainName(s)
    ensures Clean(s) && s != "" && '-' !in s && ':' !in s
  {}

  lemma CleanConcat(a: string, c: char, b: string)
    requires Clean(a) && Clean(b) && SafeChar(c) && c != ' '
    ensures Clean(a + [c] + b) && Safe(a + [c] + b)
  {}

  /** A permission stands for one grant only. */
  lemma {:induction false} OneGrant(py: Python, raw: string, g: Grant, g': Grant)
    requires py.Valid() && Denotes(py, raw, g) && Denotes(py, raw, g')
    ensures g == g'
  {
    hide Denotes, ValidPermission, NormalizePermission;
    DenotedIsValid(py, raw, g);
    DenotedIsValid(py, raw, g');
    PrintedOnce(g, g');
  }

  lemma PrintedOnce(g: Grant, g': Grant)
    requires GoodGrant(g) && GoodGrant(g') && Printed(g) == Printed(g')
    ensures g == g'
  {
    Words(g.action, g.scope);
    Words(g'.action, g'.scope);
    CutIs(g.resource, g.action + "." + g.scope, ':');
    CutIs(g'.resource, g'.action + "." + g'.scope, ':');
    hide Cut;
    SameParts(g.action, g.scope, g'.action, g'.scope);
  }

  /** A payload with a single listed permission. */
  lemma {:induction false} OneListed(py: Python, g: Grant, resource: string, action: string, scope: string, c: string)
    requires py.Valid() && (g.resource == "*" || PlainName(g.resource)) && ValidAction(g.action) && ValidScope(g.scope)
    requires c in Candidates(action, scope) && Glob(Resource(py, resource) + ":" + c, Printed(g))
    requires !Gives(g, Resource(py, resource), action, scope)
    ensures HasPermission(py, resource, Candidates(action, scope), PermissionsOf(py, [Printed(g)]), MapOf(py, []))
    ensures !Granted(py, [Printed(g)], [], Resource(py, resource), action, scope)
  {
    hide Glob, Candidates, Resource, NormalizePermission, Safe, Printed, ValidPermission, Gives, Denotes, MapOf, PlainName;
    PlainGrantIsListed(py, g);
    var n := Printed(g);
    DenotedIsValid(py, n, g);
    NormalizedIsResource(py, resource);
    PermissionsOfHas(py, [n], n);
    forall g' | Denotes(py, n, g') ensures g' == g { OneGrant(py, n, g, g'); }
    assert n in [n];
  }

  /** A star for the action reaches into the resource: a grant on the name before the first colon gives access. */
  lemma {:induction false} StarReachesAcrossColon(py: Python, resource: string, action: string, scope: string)
    requires py.Valid() && Required(action, scope)
    requires ':' in Resource(py, resource) && PlainName(Cut(Resource(py, resource), ':').0)
    ensures var raw := [Cut(Resource(py, resource), ':').0 + ":*." + scope];
            HasPermission(py, resource, Candidates(action, scope), PermissionsOf(py, raw), MapOf(py, [])) &&
            !Granted(py, raw, [], Resource(py, resource), action, scope)
  {
    hide Resource, HasPermission, Granted, PermissionsOf, MapOf, Glob, Candidates, ValidAction, ValidScope, Cut;
    var r := Resource(py, resource);
    var (x, y) := Cut(r, ':');
    var g := Grant(x, "*", scope);
    assert ValidAction("*") by { AnyIsValid(); }
    Words(action, scope);
    assert x + ":*." + scope == Printed(g);
    StarSpans(x, y, action, scope);
    InCandidates(action + "." + scope, action, scope);
    OneListed(py, g, resource, action, scope, action + "." + scope);
  }

  lemma {:induction false} StarSpans(x: string, y: string, a: string, s: string)
    requires '*' !in x && '*' !in s
    ensures Glob((x + [':'] + y) + ":" + (a + "." + s), x + ":" + ("*" + "." + s))
  {
    hide Glob;
    var u, v := y + ":" + a, "." + s;
    GlobLiteral(v, v);
    GlobSkips(u, v, v);
    GlobLiteral(x + ":", x + ":");
    GlobConcat(x + ":", u + v, x + ":", "*" + v);
    assert (x + ":") + (u + v) == (x + [':'] + y) + ":" + (a + "." + s);
    assert (x + ":") + ("*" + v) == x + ":" + ("*" + "." + s);
  }

  /** A star for the resource stops short of the end: a grant for the action that the rest of the resource names gives access for another one. */
  lemma {:induction false} StarStopsInsideResource(py: Python, resource: string, action: string, scope: string, k: nat, a: string)
    requires py.Valid() && Required(action, scope)
    requires ReadsAs(Resource(py, resource), k, a) && ValidAction(a) && a != "*" && a != action
    ensures HasPermission(py, resource, Candidates(action, scope), PermissionsOf(py, ["*:" + a + ".*"]), MapOf(py, []))
    ensures !Granted(py, ["*:" + a + ".*"], [], Resource(py, resource), action, scope)
  {
    hide Resource, HasPermission, Granted, PermissionsOf, MapOf, Glob, Candidates, ValidAction, ValidScope;
    var r := Resource(py, resource);
    var g := Grant("*", a, "*");
    assert "*:" + a + ".*" == Printed(g) && "*:" + (a + "." + "*") == Printed(g);
    assert ValidScope("*") by { AnyIsValid(); }
    Words(a, "*");
    StarStops(r[..k], a, r[k + 1 + |a + "."|..] + ":" + (action + "." + scope));
    assert r[k + 1..] == (a + ".") + r[k + 1 + |a + "."|..];
    assert r == r[..k] + ":" + r[k + 1..];
    assert r + ":" + (action + "." + scope) == r[..k] + (":" + a + "." + (r[k + 1 + |a + "."|..] + ":" + (action + "." + scope)));
    InCandidates(action + "." + scope, action, scope);
    OneListed(py, g, resource, action, scope, action + "." + scope);
  }

  lemma {:induction false} StarStops(x: string, a: string, rest: string)
    requires '*' !in a
    ensures Glob(x + (":" + a + "." + rest), "*:" + (a + "." + "*"))
  {
    hide Glob;
    var literal := ":" + a + ".";
    GlobStar(rest);
    GlobLiteral(literal, literal);
    GlobConcat(literal, rest, literal, "*");
    GlobSkips(x, literal + rest, literal + "*");
    assert "*" + (literal + "*") == "*:" + (a + "." + "*");
  }

  /** The main result: for all payloads access is granted just when a grant gives it, if and only if the resource does not leak. */
  lemma {:induction false} AccessIsGrantedIffNoLeak(py: Python, resource: string, action: string, scope: string)
    requires py.Valid() && Required(action, scope)
    ensures (forall raw, entries ::
               HasPermission(py, resource, Candidates(action, scope), PermissionsOf(py, raw), MapOf(py, entries)) <==>
               Granted(py, raw, entries, Resource(py, resource), action, scope)) <==>
            !Leaks(Resource(py, resource), action)
  {
    hide Resource, HasPermission, Granted, PermissionsOf, MapOf, Candidates, Required, PlainName, ReadsAs;
    var r := Resource(py, resource);
    if Leaks(r, action) {
      if ':' in r && PlainName(Cut(r, ':').0) {
        StarReachesAcrossColon(py, resource, action, scope);
      } else {
        var k: nat, a :| ReadsAs(r, k, a) && ValidAction(a) && a != "*" && a != action;
        StarStopsInsideResource(py, resource, action, scope, k, a);
      }
    } else {
      forall raw, entries
        ensures HasPermission(py, resource, Candidates(action, scope), PermissionsOf(py, raw), MapOf(py, entries)) <==>
                Granted(py, raw, entries, r, action, scope)
      {
        AccessIffGranted(py, raw, entries, resource, action, scope);
      }
    }
  }

}
