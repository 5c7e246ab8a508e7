/**
 The cached service configuration (rust/src/serviceconfig.rs and its twin
 express/src/lib/service-config.ts).

 Each call gives up the cache lock between looking in the cache, reading the row and
 storing what it read, so a call is a sequence of steps and a run is any interleaving of
 the steps of any number of calls with each other, with the passing of time and with
 writes to the table that go around this code.
 */
module ConfigCache {
  import opened Common

  type Key = string

  datatype Entry<V> = Entry(value: V, expiresAt: nat)

  datatype Row<P> = Row(config: P, active: bool)

  /** Where a call stands: the step it will take next. */
  datatype Pc<V> =
    | Idle
    | AtCheck(key: Key)
    | AtFetch(key: Key)
    | AtInsert(key: Key, value: V)
    | AtWrite(key: Key, value: V)
    | AtDelete(key: Key)
    | AtInvalidate(key: Key)

  datatype State<V, P> = State(now: nat, table: map<Key, Row<P>>, cache: map<Key, Entry<V>>, pcs: map<nat, Pc<V>>)

  /** The time an entry lives, and the decoding of a stored payload, which may fail. */
  datatype Config<V, !P> = Config(ttl: nat, decrypt: P -> Option<V>)

  datatype Event<V, P> =
    | Tick(to: nat)
    | Start(t: nat, op: Pc<V>)
    | Cancel(t: nat)
    | Hit(t: nat)
    | Miss(t: nat)
    | Fetch(t: nat)
    | FetchFails(t: nat)
    | Insert(t: nat)
    | Write(t: nat, payload: P)
    | Delete(t: nat)
    | DeleteFails(t: nat)
    | Invalidate(t: nat)
    | InvalidateAll
    | Outside(key: Key, row: Option<Row<P>>)
  {
    /** The call that takes this step, if it is a step of a call. */
    function Actor(): Option<nat> {
      if Tick? || InvalidateAll? || Outside? then None else Some(t)
    }
  }

  function PcOf<V, P>(s: State<V, P>, t: nat): Pc<V> {
    if t in s.pcs then s.pcs[t] else Idle
  }

  function Goto<V, P>(s: State<V, P>, t: nat, pc: Pc<V>): State<V, P> {
    s.(pcs := s.pcs[t := pc])
  }

  /** The value of the active row under a key, as `SELECT .. WHERE is_active = true` and decrypt give it. */
  function Active<V, P>(c: Config<V, P>, s: State<V, P>, k: Key): Option<V> {
    if k in s.table && s.table[k].active then c.decrypt(s.table[k].config) else None
  }

  predicate Fresh<V, P>(s: State<V, P>, k: Key) {
    k in s.cache && s.cache[k].expiresAt > s.now
  }

  /** May the step be taken now? A set writes any payload that decrypts to the value being set. */
  ghost predicate Enabled<V, P>(c: Config<V, P>, s: State<V, P>, e: Event<V, P>) {
    match e
    case Tick(to) => s.now <= to
    case Start(t, op) => PcOf(s, t).Idle? && (op.AtCheck? || op.AtWrite? || op.AtDelete?)
    case Cancel(t) => true
    case Hit(t) => PcOf(s, t).AtCheck? && Fresh(s, PcOf(s, t).key)
    case Miss(t) => PcOf(s, t).AtCheck? && !Fresh(s, PcOf(s, t).key)
    case Fetch(t) => PcOf(s, t).AtFetch? && Active(c, s, PcOf(s, t).key).Some?
    case FetchFails(t) => PcOf(s, t).AtFetch? && Active(c, s, PcOf(s, t).key).None?
    case Insert(t) => PcOf(s, t).AtInsert?
    case Write(t, payload) => PcOf(s, t).AtWrite? && c.decrypt(payload) == Some(PcOf(s, t).value)
    case Delete(t) => PcOf(s, t).AtDelete? && PcOf(s, t).key in s.table
    case DeleteFails(t) => PcOf(s, t).AtDelete? && PcOf(s, t).key !in s.table
    case Invalidate(t) => PcOf(s, t).AtInvalidate?
    case InvalidateAll => true
    case Outside(_, _) => true
  }

  function Next<V, P>(c: Config<V, P>, s: State<V, P>, e: Event<V, P>): State<V, P>
    requires Enabled(c, s, e)
  {
    match e
    case Tick(to) => s.(now := to)
    case Start(t, op) => Goto(s, t, op)
    case Cancel(t) => Goto(s, t, Idle)
    case Hit(t) => Goto(s, t, Idle)
    case Miss(t) => Goto(s, t, AtFetch(PcOf(s, t).key))
    case Fetch(t) => Goto(s, t, AtInsert(PcOf(s, t).key, Active(c, s, PcOf(s, t).key).value))
    case FetchFails(t) => Goto(s, t, Idle)
    case Insert(t) => Goto(s.(cache := s.cache[PcOf(s, t).key := Entry(PcOf(s, t).value, s.now + c.ttl)]), t, Idle)
    case Write(t, payload) =>
      Goto(s.(table := s.table[PcOf(s, t).key := Row(payload, true)]), t, AtInvalidate(PcOf(s, t).key))
    case Delete(t) => Goto(s.(table := s.table - {PcOf(s, t).key}), t, AtInvalidate(PcOf(s, t).key))
    case DeleteFails(t) => Goto(s, t, Idle)
    case Invalidate(t) => Goto(s.(cache := s.cache - {PcOf(s, t).key}), t, Idle)
    case InvalidateAll => s.(cache := map[])
    case Outside(k, row) => s.(table := if row.Some? then s.table[k := row.value] else s.table - {k})
  }

  datatype Run<V, P> = Run(states: seq<State<V, P>>, events: seq<Event<V, P>>)

  ghost predicate StepAt<V, P>(c: Config<V, P>, r: Run<V, P>, i: nat)
    requires i < |r.events| < |r.states|
  {
    Enabled(c, r.states[i], r.events[i]) && r.states[i + 1] == Next(c, r.states[i], r.events[i])
  }

  /** Any interleaving, from any table, with an empty cache and no call under way. */
  ghost predicate IsRun<V, P>(c: Config<V, P>, r: Run<V, P>) {
    |r.states| == |r.events| + 1 &&
    r.states[0].cache == map[] && r.states[0].pcs == map[] &&
    forall i :: 0 <= i < |r.events| ==> StepAt(c, r, i)
  }

  /** What a step returns to the caller of get, with the key asked for. */
  function Returned<V, P>(s: State<V, P>, e: Event<V, P>): Option<(Key, V)> {
    match e
    case Hit(t) =>
      var pc := PcOf(s, t);
      if pc.AtCheck? && pc.key in s.cache then Some((pc.key, s.cache[pc.key].value)) else None
    case Insert(t) =>
      var pc := PcOf(s, t);
      if pc.AtInsert? then Some((pc.key, pc.value)) else None
    case _ => None
  }

  /** Does the step write the row under k? */
  predicate Writes<V, P>(s: State<V, P>, e: Event<V, P>, k: Key) {
    match e
    case Write(t, _) => PcOf(s, t).AtWrite? && PcOf(s, t).key == k
    case Delete(t) => PcOf(s, t).AtDelete? && PcOf(s, t).key == k
    case Outside(key, _) => key == k
    case _ => false
  }

  /** Does the step remove the entry under k from the cache? */
  predicate Drops<V, P>(s: State<V, P>, e: Event<V, P>, k: Key) {
    match e
    case Invalidate(t) => PcOf(s, t).AtInvalidate? && PcOf(s, t).key == k
    case InvalidateAll => true
    case _ => false
  }

  // ---------------------------------------------------------------- where values come from

  /** Step f is call t's read of the active value v under k, and t has taken no step since, up to step n. */
  ghost predicate Fetched<V(!new), P>(c: Config<V, P>, r: Run<V, P>, t: nat, k: Key, v: V, f: nat, n: nat)
    requires IsRun(c, r)
  {
    f < n <= |r.events| && r.events[f] == Fetch(t) && PcOf(r.states[f], t) == AtFetch(k) &&
    Active(c, r.states[f], k) == Some(v) &&
    forall j :: f < j < n ==> r.events[j].Actor() != Some(t)
  }

  /** Before step i, the entry under k is what call t read at step f and stored at step n, never dropped since. */
  ghost predicate CachedBy<V(!new), P>(c: Config<V, P>, r: Run<V, P>, k: Key, i: nat, t: nat, f: nat, n: nat)
    requires IsRun(c, r) && i <= |r.events| && k in r.states[i].cache
  {
    n < i && Fetched(c, r, t, k, r.states[i].cache[k].value, f, n) && r.events[n] == Insert(t) &&
    r.states[i].cache[k].expiresAt == r.states[n].now + c.ttl &&
    forall j :: n < j < i ==> !Drops(r.states[j], r.events[j], k)
  }

  lemma {:induction false} PendingValueWasFetched<V(!new), P>(c: Config<V, P>, r: Run<V, P>, i: nat, t: nat) returns (f: nat)
    requires IsRun(c, r) && i <= |r.events| && PcOf(r.states[i], t).AtInsert?
    ensures Fetched(c, r, t, PcOf(r.states[i], t).key, PcOf(r.states[i], t).value, f, i)
  {
    if i == 0 {
      assert false;
    } else {
      assert StepAt(c, r, i - 1);
      if r.events[i - 1].Actor() == Some(t) {
        f := i - 1;
      } else {
        f := PendingValueWasFetched(c, r, i - 1, t);
      }
    }
  }

  lemma {:induction false} EntryWasFetched<V(!new), P>(c: Config<V, P>, r: Run<V, P>, i: nat, k: Key)
    returns (t: nat, f: nat, n: nat)
    requires IsRun(c, r) && i <= |r.events| && k in r.states[i].cache
    ensures CachedBy(c, r, k, i, t, f, n)
  {
    if i == 0 {
      assert false;
    } else {
      var s, e := r.states[i - 1], r.events[i - 1];
      assert StepAt(c, r, i - 1);
      if e.Insert? && PcOf(s, e.t).key == k {
        t, n := e.t, i - 1;
        f := PendingValueWasFetched(c, r, n, t);
      } else {
        t, f, n := EntryWasFetched(c, r, i - 1, k);
      }
    }
  }

  lemma {:induction false} ActiveStays<V, P>(c: Config<V, P>, r: Run<V, P>, k: Key, i: nat, j: nat)
    requires IsRun(c, r) && i <= j <= |r.events|
    requires forall m :: i <= m < j ==> !Writes(r.states[m], r.events[m], k)
    ensures Active(c, r.states[j], k) == Active(c, r.states[i], k)
    decreases j
  {
    if i < j {
      assert StepAt(c, r, j - 1);
      ActiveStays(c, r, k, i, j - 1);
    }
  }

  /**
   Freshness. In every interleaving, what get returns was the active stored value when some get
   read it: either the returning get itself, or the get that cached it, which stored it at a step
   n less than ttl before now. So it was active less than ttl plus (the time that get took from
   its read to its insert) ago.
   */
  lemma {:induction false} ReturnedWasActive<V(!new), P>(c: Config<V, P>, r: Run<V, P>, i: nat, k: Key, v: V)
    returns (f: nat, n: nat, t: nat)
    requires IsRun(c, r) && i < |r.events| && Returned(r.states[i], r.events[i]) == Some((k, v))
    ensures f < i && Active(c, r.states[f], k) == Some(v)
    ensures r.events[i].Insert? ==> t == r.events[i].t && Fetched(c, r, t, k, v, f, i)
    ensures r.events[i].Hit? ==> f < n < i && Fetched(c, r, t, k, v, f, n) && r.events[n] == Insert(t)
    ensures r.events[i].Hit? ==>
              r.states[i].now - r.states[f].now < c.ttl + (r.states[n].now - r.states[f].now)
  {
    assert StepAt(c, r, i);
    t, n := 0, 0;
    if r.events[i].Insert? {
      t := r.events[i].t;
      f := PendingValueWasFetched(c, r, i, t);
    } else {
      t, f, n := EntryWasFetched(c, r, i, k);
    }
  }

  // ---------------------------------------------------------------- what a write makes visible

  /** Some get on k reads before step w and stores what it read after step d. */
  ghost predicate Straddles<V(!new), P>(c: Config<V, P>, r: Run<V, P>, k: Key, w: nat, d: nat, f: nat, n: nat, t: nat, v: V)
    requires IsRun(c, r)
  {
    f < w && d < n < |r.events| && Fetched(c, r, t, k, v, f, n) && r.events[n] == Insert(t)
  }

  /**
   Where a returned value comes from. Step w writes the row under k, step d > w drops k from the cache,
   and the row is not written again before step i. What get returns for k at step i is then what step w
   stored, or what some get read before w and stored after d.
   */
  lemma {:induction false} SeenOrStraddled<V(!new), P>(c: Config<V, P>, r: Run<V, P>, k: Key, w: nat, d: nat, i: nat, v: V)
    returns (f: nat, n: nat, t: nat)
    requires IsRun(c, r) && w < d < i < |r.events|
    requires Writes(r.states[w], r.events[w], k) && Drops(r.states[d], r.events[d], k)
    requires forall m :: w < m < i ==> !Writes(r.states[m], r.events[m], k)
    requires Returned(r.states[i], r.events[i]) == Some((k, v))
    ensures Active(c, r.states[w + 1], k) == Some(v) || (n <= i && Straddles(c, r, k, w, d, f, n, t, v))
  {
    assert StepAt(c, r, i);
    if r.events[i].Insert? {
      t, n := r.events[i].t, i;
      f := PendingValueWasFetched(c, r, i, t);
    } else {
      t, f, n := EntryWasFetched(c, r, i, k);
    }
    if f > w { ActiveStays(c, r, k, w + 1, f); }
  }

  /** A get that straddles returns, when it stores, what it stores. */
  lemma {:induction false} StraddlerReturns<V(!new), P>(c: Config<V, P>, r: Run<V, P>, k: Key, w: nat, d: nat, f: nat, n: nat, t: nat, v: V)
    requires IsRun(c, r) && Straddles(c, r, k, w, d, f, n, t, v)
    ensures Returned(r.states[n], r.events[n]) == Some((k, v))
  {
    assert StepAt(c, r, f);
    PcStays(c, r, t, f + 1, n);
  }

  /**
   Coherence. Step w writes the row under k, step d > w drops k from the cache, and the row is not
   written again before step e. All that get returns for k between d and e is what step w stored if and
   only if every get that reads before w and stores between d and e stores just that.
   */
  lemma {:induction false} WriteIsSeenIff<V(!new), P>(c: Config<V, P>, r: Run<V, P>, k: Key, w: nat, d: nat, e: nat)
    requires IsRun(c, r) && w < d < e <= |r.events|
    requires Writes(r.states[w], r.events[w], k) && Drops(r.states[d], r.events[d], k)
    requires forall m :: w < m < e ==> !Writes(r.states[m], r.events[m], k)
    ensures (forall i, v :: d < i < e && Returned(r.states[i], r.events[i]) == Some((k, v)) ==>
               Active(c, r.states[w + 1], k) == Some(v)) <==>
            (forall f: nat, n: nat, t, v :: n < e && Straddles(c, r, k, w, d, f, n, t, v) ==>
               Active(c, r.states[w + 1], k) == Some(v))
  {
    assert |r.states| == |r.events| + 1;
    hide Writes, Drops, Active, Returned, Fetched, IsRun;
    if forall i, v :: d < i < e && Returned(r.states[i], r.events[i]) == Some((k, v)) ==> Active(c, r.states[w + 1], k) == Some(v) {
      forall f: nat, n: nat, t, v | n < e && Straddles(c, r, k, w, d, f, n, t, v) ensures Active(c, r.states[w + 1], k) == Some(v) {
        StraddlerReturns(c, r, k, w, d, f, n, t, v);
      }
    }
    if forall f: nat, n: nat, t, v :: n < e && Straddles(c, r, k, w, d, f, n, t, v) ==> Active(c, r.states[w + 1], k) == Some(v) {
      forall i, v | d < i < e && Returned(r.states[i], r.events[i]) == Some((k, v)) ensures Active(c, r.states[w + 1], k) == Some(v) {
        var f, n, t := SeenOrStraddled(c, r, k, w, d, i, v);
      }
    }
  }

  /** The same for a set: until the next write no get fails, and all of them return the value that was set under just that condition. */
  lemma {:induction false} SetIsSeenIff<V(!new), P>(c: Config<V, P>, r: Run<V, P>, k: Key, w: nat, d: nat, e: nat, t: nat, value: V)
    requires IsRun(c, r) && w < d < e <= |r.events|
    requires r.events[w].Write? && r.events[w].t == t && PcOf(r.states[w], t) == AtWrite(k, value)
    requires r.events[d] == Invalidate(t) && forall m :: w < m < d ==> r.events[m].Actor() != Some(t)
    requires forall m :: w < m < e ==> !Writes(r.states[m], r.events[m], k)
    ensures (forall i, v :: d < i < e && Returned(r.states[i], r.events[i]) == Some((k, v)) ==> v == value) <==>
            (forall f: nat, n: nat, u, v :: n < e && Straddles(c, r, k, w, d, f, n, u, v) ==> v == value)
    ensures forall i :: d < i < e && r.events[i].FetchFails? ==> PcOf(r.states[i], r.events[i].t) != AtFetch(k)
  {
    SetWrites(c, r, k, w, d, t, value);
    forall i | d < i < e && r.events[i].FetchFails? ensures PcOf(r.states[i], r.events[i].t) != AtFetch(k) {
      ActiveStays(c, r, k, w + 1, i);
      assert StepAt(c, r, i);
    }
    hide Writes, Drops, Active, Returned, Fetched, IsRun, Straddles;
    WriteIsSeenIff(c, r, k, w, d, e);
  }

  lemma SetWrites<V(!new), P>(c: Config<V, P>, r: Run<V, P>, k: Key, w: nat, d: nat, t: nat, value: V)
    requires IsRun(c, r) && w < d < |r.events|
    requires r.events[w].Write? && r.events[w].t == t && PcOf(r.states[w], t) == AtWrite(k, value)
    requires r.events[d] == Invalidate(t) && forall m :: w < m < d ==> r.events[m].Actor() != Some(t)
    ensures Active(c, r.states[w + 1], k) == Some(value)
    ensures Writes(r.states[w], r.events[w], k) && Drops(r.states[d], r.events[d], k)
  {
    assert StepAt(c, r, w);
    PcStays(c, r, t, w + 1, d);
  }

  lemma {:induction false} PcStays<V, P>(c: Config<V, P>, r: Run<V, P>, t: nat, i: nat, j: nat)
    requires IsRun(c, r) && i <= j <= |r.events|
    requires forall m :: i <= m < j ==> r.events[m].Actor() != Some(t)
    ensures PcOf(r.states[j], t) == PcOf(r.states[i], t)
    decreases j
  {
    if i < j {
      assert StepAt(c, r, j - 1);
      PcStays(c, r, t, i, j - 1);
    }
  }

  /** And for a delete: until the next write no get finds the row, and none returns a value if and only if no get that reads before stores after. */
  lemma {:induction false} DeleteIsSeenIff<V(!new), P>(c: Config<V, P>, r: Run<V, P>, k: Key, w: nat, d: nat, e: nat, t: nat)
    requires IsRun(c, r) && w < d < e <= |r.events|
    requires r.events[w] == Delete(t) && PcOf(r.states[w], t) == AtDelete(k)
    requires r.events[d] == Invalidate(t) && forall m :: w < m < d ==> r.events[m].Actor() != Some(t)
    requires forall m :: w < m < e ==> !Writes(r.states[m], r.events[m], k)
    ensures (forall i, v :: d < i < e ==> Returned(r.states[i], r.events[i]) != Some((k, v))) <==>
            (forall f: nat, n: nat, u, v :: n < e ==> !Straddles(c, r, k, w, d, f, n, u, v))
    ensures forall i :: d < i < e && r.events[i].Fetch? ==> PcOf(r.states[i], r.events[i].t) != AtFetch(k)
  {
    DeleteWrites(c, r, k, w, d, t);
    forall i | d < i < e && r.events[i].Fetch? ensures PcOf(r.states[i], r.events[i].t) != AtFetch(k) {
      ActiveStays(c, r, k, w + 1, i);
      assert StepAt(c, r, i);
    }
    hide Writes, Drops, Active, Returned, Fetched, IsRun, Straddles;
    WriteIsSeenIff(c, r, k, w, d, e);
  }

  lemma DeleteWrites<V(!new), P>(c: Config<V, P>, r: Run<V, P>, k: Key, w: nat, d: nat, t: nat)
    requires IsRun(c, r) && w < d < |r.events|
    requires r.events[w] == Delete(t) && PcOf(r.states[w], t) == AtDelete(k)
    requires r.events[d] == Invalidate(t) && forall m :: w < m < d ==> r.events[m].Actor() != Some(t)
    ensures Active(c, r.states[w + 1], k) == None
    ensures Writes(r.states[w], r.events[w], k) && Drops(r.states[d], r.events[d], k)
  {
    assert StepAt(c, r, w);
    PcStays(c, r, t, w + 1, d);
  }

  function Last<V, P>(r: Run<V, P>): State<V, P>
    requires |r.states| > 0
  {
    r.states[|r.states| - 1]
  }

  ghost function Extend<V, P>(c: Config<V, P>, r: Run<V, P>, e: Event<V, P>): (r': Run<V, P>)
    requires IsRun(c, r) && Enabled(c, Last(r), e)
    ensures IsRun(c, r') && Last(r') == Next(c, Last(r), e) && r'.events == r.events + [e] && r.states <= r'.states
  {
    var r' := Run(r.states + [Next(c, Last(r), e)], r.events + [e]);
    assert forall i :: 0 <= i < |r.events| ==> StepAt(c, r, i) && StepAt(c, r', i);
    r'
  }

  // ---------------------------------------------------------------- calls on their own

  /** What the steps in between have in common: call t took them all, and then is done. */
  ghost predicate RanAlone<V(!new), P>(c: Config<V, P>, r: Run<V, P>, r': Run<V, P>, t: nat)
    requires IsRun(c, r) && IsRun(c, r')
  {
    r.states <= r'.states && r.events <= r'.events && |r'.events| > |r.events| && PcOf(Last(r'), t).Idle? &&
    forall i :: |r.events| <= i < |r'.events| ==> r'.events[i].Actor() == Some(t)
  }

  /** The answer of a get that runs on its own: the entry if it has not expired, or else the active value, which it stores, or else a failure. */
  ghost predicate Answers<V(!new), P>(c: Config<V, P>, s: State<V, P>, k: Key, result: Option<V>, s': State<V, P>) {
    var live := k in s.cache && s.now < s.cache[k].expiresAt;
    result == (if live then Some(s.cache[k].value)
               else if k in s.table && s.table[k].active then c.decrypt(s.table[k].config) else None) &&
    s'.now == s.now && s'.table == s.table &&
    s'.cache == if live || result.None? then s.cache else s.cache[k := Entry(result.value, s.now + c.ttl)]
  }

  lemma GetHits<V(!new), P>(c: Config<V, P>, r: Run<V, P>, t: nat, k: Key) returns (r': Run<V, P>, e: Event<V, P>)
    requires IsRun(c, r) && PcOf(Last(r), t).Idle? && Fresh(Last(r), k)
    ensures IsRun(c, r') && RanAlone(c, r, r', t) && r'.events[|r'.events| - 1] == e
    ensures Returned(r'.states[|r'.events| - 1], e) == Some((k, Last(r).cache[k].value))
    ensures Answers(c, Last(r), k, Some(Last(r).cache[k].value), Last(r'))
  {
    e := Hit(t);
    r' := Extend(c, Extend(c, r, Start(t, AtCheck(k))), e);
  }

  lemma GetFails<V(!new), P>(c: Config<V, P>, r: Run<V, P>, t: nat, k: Key) returns (r': Run<V, P>, e: Event<V, P>)
    requires IsRun(c, r) && PcOf(Last(r), t).Idle? && !Fresh(Last(r), k) && Active(c, Last(r), k).None?
    ensures IsRun(c, r') && RanAlone(c, r, r', t) && r'.events[|r'.events| - 1] == e
    ensures Returned(r'.states[|r'.events| - 1], e) == None && Answers(c, Last(r), k, None, Last(r'))
  {
    e := FetchFails(t);
    var r1 := Extend(c, r, Start(t, AtCheck(k)));
    r' := Extend(c, Extend(c, r1, Miss(t)), e);
  }

  lemma GetStores<V(!new), P>(c: Config<V, P>, r: Run<V, P>, t: nat, k: Key) returns (r': Run<V, P>, e: Event<V, P>)
    requires IsRun(c, r) && PcOf(Last(r), t).Idle? && !Fresh(Last(r), k) && Active(c, Last(r), k).Some?
    ensures IsRun(c, r') && RanAlone(c, r, r', t) && r'.events[|r'.events| - 1] == e
    ensures Returned(r'.states[|r'.events| - 1], e) == Some((k, Active(c, Last(r), k).value))
    ensures Answers(c, Last(r), k, Active(c, Last(r), k), Last(r'))
  {
    e := Insert(t);
    r' := Extend(c, MissedGet(c, r, t, k), e);
  }

  lemma {:induction false} GetAlone<V(!new), P>(c: Config<V, P>, r: Run<V, P>, t: nat, k: Key) returns (r': Run<V, P>, result: Option<V>)
    requires IsRun(c, r) && PcOf(Last(r), t).Idle?
    ensures IsRun(c, r') && RanAlone(c, r, r', t) && Answers(c, Last(r), k, result, Last(r'))
    ensures Returned(r'.states[|r'.events| - 1], r'.events[|r'.events| - 1]) == match result case None => None case Some(v) => Some((k, v))
  {
    hide Answers, RanAlone, Returned, Fresh, Active, StepAt;
    var e: Event<V, P>;
    if Fresh(Last(r), k) {
      HasEntry(Last(r), k);
      r', e := GetHits(c, r, t, k);
      result := Some(Last(r).cache[k].value);
    } else if Active(c, Last(r), k).None? {
      r', e := GetFails(c, r, t, k);
      result := None;
    } else {
      r', e := GetStores(c, r, t, k);
      result := Active(c, Last(r), k);
    }
  }

  lemma HasEntry<V, P>(s: State<V, P>, k: Key)
    requires Fresh(s, k)
    ensures k in s.cache
  {}

  /** A delete that runs on its own: row and entry are gone, or there was no row and it fails. */
  lemma {:induction false} DeleteAlone<V(!new), P>(c: Config<V, P>, r: Run<V, P>, t: nat, k: Key) returns (r': Run<V, P>)
    requires IsRun(c, r) && PcOf(Last(r), t).Idle?
    ensures IsRun(c, r') && RanAlone(c, r, r', t)
    ensures var s, s' := Last(r), Last(r');
            s'.now == s.now && s'.table == s.table - {k} && s'.cache == if k in s.table then s.cache - {k} else s.cache
  {
    var r1 := Extend(c, r, Start(t, AtDelete(k)));
    if k in Last(r).table {
      var r2 := Extend(c, r1, Delete(t));
      r' := Extend(c, r2, Invalidate(t));
    } else {
      r' := Extend(c, r1, DeleteFails(t));
      assert Last(r).table - {k} == Last(r).table;
    }
  }

  /** A set that runs on its own: the row holds the new payload, and the entry is gone. */
  lemma {:induction false} SetAlone<V(!new), P>(c: Config<V, P>, r: Run<V, P>, t: nat, k: Key, payload: P) returns (r': Run<V, P>)
    requires IsRun(c, r) && PcOf(Last(r), t).Idle? && c.decrypt(payload).Some?
    ensures IsRun(c, r') && RanAlone(c, r, r', t)
    ensures var s, s' := Last(r), Last(r');
            s'.now == s.now && s'.table == s.table[k := Row(payload, true)] && s'.cache == s.cache - {k}
  {
    r' := WholeSet(c, r, t, k, payload);
  }

  /** What a call does next is settled: no two steps of it, other than a start, a write or being cancelled, are possible at once. */
  lemma {:induction false} NextStepIsSettled<V, P>(c: Config<V, P>, s: State<V, P>, e: Event<V, P>, e': Event<V, P>)
    requires Enabled(c, s, e) && Enabled(c, s, e') && e.Actor().Some? && e.Actor() == e'.Actor()
    requires !e.Cancel? && !e'.Cancel?
    ensures e == e' || (e.Start? && e'.Start?) || (e.Write? && e'.Write?)
  {}

  /** At any point time may pass, a call may be cancelled, the cache be emptied and the row be written from outside; nothing else changes. */
  lemma {:induction false} Interruptions<V(!new), P>(c: Config<V, P>, r: Run<V, P>, t: nat, k: Key, row: Option<Row<P>>, to: nat)
    requires IsRun(c, r)
    ensures var s := Last(r);
            (Enabled(c, s, Tick(to)) <==> to >= s.now) && (to >= s.now ==> Next(c, s, Tick(to)) == s.(now := to)) &&
            Enabled(c, s, Cancel(t)) && Next(c, s, Cancel(t)) == s.(pcs := s.pcs[t := Idle]) &&
            Enabled(c, s, InvalidateAll) && Next(c, s, InvalidateAll) == State(s.now, s.table, map[], s.pcs) &&
            Enabled(c, s, Outside(k, row)) && Next(c, s, Outside(k, row)).cache == s.cache &&
            Next(c, s, Outside(k, row)).table - {k} == s.table - {k} &&
            (row.Some? <==> k in Next(c, s, Outside(k, row)).table) &&
            (row.Some? ==> Next(c, s, Outside(k, row)).table[k] == row.value)
  {}

  /** A get that misses and has read the row, but not yet stored it. */
  ghost function MissedGet<V, P>(c: Config<V, P>, r: Run<V, P>, t: nat, k: Key): (r': Run<V, P>)
    requires IsRun(c, r) && PcOf(Last(r), t).Idle? && !Fresh(Last(r), k) && Active(c, Last(r), k).Some?
    ensures IsRun(c, r') && r'.events == r.events + [Start(t, AtCheck(k)), Miss(t), Fetch(t)]
    ensures r.states <= r'.states && PcOf(r'.states[|r.states| + 1], t) == AtFetch(k)
    ensures r'.states[|r.states| + 1].table == Last(r).table
    ensures Last(r') == Goto(Last(r), t, AtInsert(k, Active(c, Last(r), k).value))
  {
    var r1 := Extend(c, r, Start(t, AtCheck(k)));
    var r2 := Extend(c, r1, Miss(t));
    Extend(c, r2, Fetch(t))
  }

  /** A whole set. */
  ghost function WholeSet<V, P>(c: Config<V, P>, r: Run<V, P>, t: nat, k: Key, payload: P): (r': Run<V, P>)
    requires IsRun(c, r) && PcOf(Last(r), t).Idle? && c.decrypt(payload).Some?
    ensures IsRun(c, r')
    ensures r'.events == r.events + [Start(t, AtWrite(k, c.decrypt(payload).value)), Write(t, payload), Invalidate(t)]
    ensures r.states <= r'.states && PcOf(r'.states[|r.states| + 1], t) == AtInvalidate(k)
    ensures var s := Last(r);
            Last(r') == Goto(s.(table := s.table[k := Row(payload, true)], cache := s.cache - {k}), t, Idle)
  {
    var r1 := Extend(c, r, Start(t, AtWrite(k, c.decrypt(payload).value)));
    var r2 := Extend(c, r1, Write(t, payload));
    Extend(c, r2, Invalidate(t))
  }

  lemma InsertStores<V, P>(c: Config<V, P>, s: State<V, P>, t: nat, k: Key, v: V)
    requires PcOf(s, t) == AtInsert(k, v)
    ensures Enabled(c, s, Insert(t))
    ensures Next(c, s, Insert(t)) == Goto(s.(cache := s.cache[k := Entry(v, s.now + c.ttl)]), t, Idle)
  {}

  /** A get reads, and a set runs from start to end. */
  lemma Overtaken<V(!new), P>(c: Config<V, P>, k: Key, before: P, after: P) returns (r: Run<V, P>)
    requires c.decrypt(before).Some? && c.decrypt(after).Some?
    ensures IsRun(c, r) && |r.events| == 6 && r.events[2] == Fetch(1)
    ensures r.events[4] == Write(2, after) && r.events[5] == Invalidate(2)
    ensures Last(r).cache == map[] && Last(r).now == 0 && Active(c, Last(r), k) == c.decrypt(after)
    ensures PcOf(Last(r), 1) == AtInsert(k, c.decrypt(before).value) && PcOf(Last(r), 3).Idle?
  {
    hide StepAt, MissedGet, WholeSet, Extend, Enabled, Next;
    var r0 := Run([State(0, map[k := Row(before, true)], map[], map[])], []);
    var r1 := MissedGet(c, r0, 1, k);
    r := WholeSet(c, r1, 2, k, after);
  }

  /** After that the get stores what it read. */
  lemma Race<V(!new), P>(c: Config<V, P>, k: Key, before: P, after: P) returns (r: Run<V, P>)
    requires c.decrypt(before).Some? && c.decrypt(after).Some?
    ensures IsRun(c, r) && |r.events| == 7
    ensures r.events[2] == Fetch(1) && r.events[6] == Insert(1)
    ensures r.events[4] == Write(2, after) && r.events[5] == Invalidate(2)
    ensures Last(r).cache == map[k := Entry(c.decrypt(before).value, c.ttl)] && Last(r).now == 0
    ensures PcOf(Last(r), 3).Idle? && Active(c, Last(r), k) == c.decrypt(after)
  {
    hide Enabled, Next, StepAt, Extend;
    var r2 := Overtaken(c, k, before, after);
    InsertStores(c, Last(r2), 1, k, c.decrypt(before).value);
    r := Extend(c, r2, Insert(1));
  }

  /**
   Such a get exists: one that reads before the write and inserts after the invalidation
   makes a later get return the overwritten value although the set has completed.
   */
  lemma {:induction false} LateInsertHidesSet<V(!new), P>(c: Config<V, P>, k: Key, before: P, after: P)
    returns (r: Run<V, P>)
    requires c.ttl > 0 && c.decrypt(before).Some? && c.decrypt(after).Some?
    ensures IsRun(c, r) && |r.events| == 9
    ensures r.events[2] == Fetch(1) && r.events[6] == Insert(1)
    ensures r.events[4] == Write(2, after) && r.events[5] == Invalidate(2)
    ensures r.events[7] == Start(3, AtCheck(k))
    ensures Active(c, r.states[8], k) == c.decrypt(after)
    ensures Returned(r.states[8], r.events[8]) == Some((k, c.decrypt(before).value))
  {
    var r1 := Race(c, k, before, after);
    var r2 := Extend(c, r1, Start(3, AtCheck(k)));
    r := Extend(c, r2, Hit(3));
  }
}
