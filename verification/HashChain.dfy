/**
 The write-audit log of the admin panel (admin-panel/internal/audit/audit.go). Strings are
 sequences of bytes; the hash is a function that the caller supplies.
 */
module HashChain {
  import opened Common

  const NUL: string := "\0"

  /** What a row hash covers; the values are JSON text, None where the program has a nil map. */
  datatype Content = Content(schema: string, table: string, record: string, action: string,
                             oldValue: Option<string>, newValue: Option<string>)

  datatype Row = Row(performedBy: int, content: Content, prevHash: Option<string>, rowHash: string)

  function OrEmpty(o: Option<string>): string {
    if o.Some? then o.value else ""
  }

  /** The bytes fed to the hasher by computeHash. */
  function Message(prev: Option<string>, c: Content): string {
    OrEmpty(prev) + c.schema + NUL + (c.table + NUL + (c.record + NUL + (c.action + NUL +
    (OrEmpty(c.oldValue) + NUL + OrEmpty(c.newValue)))))
  }

  /** The bytes in order: the last hash, then the fields, the schema right behind it and the others each behind a NUL; nothing for what is nil. */
  lemma {:induction false} MessageIs(prev: Option<string>, c: Content)
    ensures prev.Some? ==>
              Message(prev, c) == prev.value + c.schema + "\0" + c.table + "\0" + c.record + "\0" + c.action + "\0" +
                                  (match c.oldValue case None => "" case Some(v) => v) + "\0" +
                                  (match c.newValue case None => "" case Some(v) => v)
    ensures prev.None? ==> Message(prev, c) == Message(Some(""), c)
  {
    var o, n := OrEmpty(c.oldValue), OrEmpty(c.newValue);
    var p := OrEmpty(prev) + c.schema + "\0";
    assert p + (c.table + "\0" + (c.record + "\0" + (c.action + "\0" + (o + "\0" + n)))) ==
           p + c.table + "\0" + c.record + "\0" + c.action + "\0" + o + "\0" + n;
  }

  function PrevHash(rows: seq<Row>, i: nat): Option<string>
    requires i <= |rows|
  {
    if i == 0 then None else Some(rows[i - 1].rowHash)
  }

  /** Row i links to the one before it and carries the hash of its content. */
  predicate Linked(hash: string -> string, rows: seq<Row>, i: nat)
    requires i < |rows|
  {
    rows[i].prevHash == PrevHash(rows, i) && rows[i].rowHash == hash(Message(rows[i].prevHash, rows[i].content))
  }

  /** The chain checks out. */
  ghost predicate Verifies(hash: string -> string, rows: seq<Row>) {
    forall i :: 0 <= i < |rows| ==> Linked(hash, rows, i)
  }

  lemma VerifiesMore(hash: string -> string, rows: seq<Row>, row: Row)
    requires Verifies(hash, rows)
    requires row.prevHash == PrevHash(rows, |rows|) && row.rowHash == hash(Message(row.prevHash, row.content))
    ensures Verifies(hash, rows + [row])
  {
    hide Message;
    forall i | 0 <= i < |rows| + 1 ensures Linked(hash, rows + [row], i) {
      assert i < |rows| ==> Linked(hash, rows, i);
    }
  }

  /** An entry as it is handed to Log: its values are not yet encoded. */
  datatype Entry<V> = Entry(performedBy: int, schema: string, table: string, record: string, action: string,
                            oldValue: Option<V>, newValue: Option<V>)

  /** encodeJSON: nil stays nil, and encoding may fail. */
  function EncodeJson<V>(marshal: V -> Option<string>, v: Option<V>): Result<Option<string>, ()> {
    match v
    case None => Ok(None)
    case Some(x) => match marshal(x) case None => Err(()) case Some(json) => Ok(Some(json))
  }

  class Logger<!V> {
    const hash: string -> string
    const marshal: V -> Option<string>
    var rows: seq<Row>

    constructor (hash: string -> string, marshal: V -> Option<string>)
      ensures this.hash == hash && this.marshal == marshal && rows == [] && Verifies(hash, rows)
    {
      this.hash := hash;
      this.marshal := marshal;
      rows := [];
    }

    /** Appends a row linked to the last one, in one serializable transaction; a value that cannot be encoded logs nothing. */
    method Log(e: Entry<V>) returns (r: Result<(), ()>)
      modifies this`rows
      ensures r.Ok? <==> (e.oldValue.Some? ==> marshal(e.oldValue.value).Some?) && (e.newValue.Some? ==> marshal(e.newValue.value).Some?)
      ensures r.Err? ==> rows == old(rows)
      ensures r.Ok? ==>
                var content := Content(e.schema, e.table, e.record, e.action,
                                       if e.oldValue.Some? then marshal(e.oldValue.value) else None,
                                       if e.newValue.Some? then marshal(e.newValue.value) else None);
                var prev := PrevHash(old(rows), |old(rows)|);
                rows == old(rows) + [Row(e.performedBy, content, prev, hash(Message(prev, content)))]
      ensures old(Verifies(hash, rows)) ==> Verifies(hash, rows)
    {
      hide Verifies, Message;
      var oldJson := EncodeJson(marshal, e.oldValue);
      if oldJson.Err? { return Err(()); }
      var newJson := EncodeJson(marshal, e.newValue);
      if newJson.Err? { return Err(()); }
      var prevHash := if rows == [] then None else Some(rows[|rows| - 1].rowHash);
      var content := Content(e.schema, e.table, e.record, e.action, oldJson.value, newJson.value);
      var rowHash := hash(Message(prevHash, content));
      if Verifies(hash, rows) { VerifiesMore(hash, rows, Row(e.performedBy, content, prevHash, rowHash)); }
      rows := rows + [Row(e.performedBy, content, prevHash, rowHash)];
      return Ok(());
    }
  }

  // ---------------------------------------------------------------- messages can be taken apart

  predicate NulFree(s: string) {
    '\0' !in s
  }

  /** What the database and the JSON encoder guarantee of a row. */
  predicate Clean(c: Content) {
    NulFree(c.schema) && |c.schema| < 64 && NulFree(c.table) && NulFree(c.record) && NulFree(c.action) &&
    NulFree(OrEmpty(c.oldValue)) && c.oldValue != Some("") && c.newValue != Some("")
  }

  /** A hex digest of 64 characters. */
  ghost predicate HexDigest(hash: string -> string) {
    forall x :: |hash(x)| == 64 && NulFree(hash(x))
  }

  lemma {:induction false} FieldSplits(a: string, x: string, b: string, y: string)
    requires NulFree(a) && NulFree(b) && a + NUL + x == b + NUL + y
    ensures a == b && x == y
  {
    var s := a + NUL + x;
    assert s[|a|] == '\0' && s[|b|] == '\0';
    assert s[..|a|] == a && s[..|b|] == b && s[|a| + 1..] == x && s[|b| + 1..] == y;
  }

  lemma {:induction false} MessageDetermines(p: Option<string>, c: Content, p': Option<string>, c': Content)
    requires Clean(c) && Clean(c') && Message(p, c) == Message(p', c')
    requires p.Some? ==> |p.value| == 64 && NulFree(p.value)
    requires p'.Some? ==> |p'.value| == 64 && NulFree(p'.value)
    ensures p == p' && c == c'
  {
    var v, v' := OrEmpty(c.oldValue) + NUL + OrEmpty(c.newValue), OrEmpty(c'.oldValue) + NUL + OrEmpty(c'.newValue);
    var w, w' := c.action + NUL + v, c'.action + NUL + v';
    var x, x' := c.record + NUL + w, c'.record + NUL + w';
    var y, y' := c.table + NUL + x, c'.table + NUL + x';
    var h, h' := OrEmpty(p) + c.schema, OrEmpty(p') + c'.schema;
    FieldSplits(h, y, h', y');
    FieldSplits(c.table, x, c'.table, x');
    FieldSplits(c.record, w, c'.record, w');
    FieldSplits(c.action, v, c'.action, v');
    FieldSplits(OrEmpty(c.oldValue), OrEmpty(c.newValue), OrEmpty(c'.oldValue), OrEmpty(c'.newValue));
    HeadSplits(p, c.schema, p', c'.schema);
  }

  /** A link and a short schema name cannot be taken for a first row with a long one. */
  lemma HeadSplits(p: Option<string>, s: string, p': Option<string>, s': string)
    requires |s| < 64 && |s'| < 64 && OrEmpty(p) + s == OrEmpty(p') + s'
    requires (p.Some? ==> |p.value| == 64) && (p'.Some? ==> |p'.value| == 64)
    ensures p == p' && s == s'
  {
    var h := OrEmpty(p) + s;
    assert |h| == |OrEmpty(p)| + |s|;
    assert h[..|OrEmpty(p)|] == OrEmpty(p) && h[|OrEmpty(p)|..] == s;
    assert h[..|OrEmpty(p')|] == OrEmpty(p') && h[|OrEmpty(p')|..] == s';
  }

  // ---------------------------------------------------------------- the last hash fixes the log

  function MessageAt(rows: seq<Row>, i: nat): string
    requires i < |rows|
  {
    Message(rows[i].prevHash, rows[i].content)
  }

  /** Two rows, one of each log, whose messages differ and hash to the same digest. */
  ghost predicate Collide(hash: string -> string, a: seq<Row>, b: seq<Row>, i: nat, j: nat) {
    i < |a| && j < |b| && MessageAt(a, i) != MessageAt(b, j) && hash(MessageAt(a, i)) == hash(MessageAt(b, j))
  }

  /** The same writes in the same number and order. */
  ghost predicate SameWrites(a: seq<Row>, b: seq<Row>) {
    |a| == |b| && forall i :: 0 <= i < |a| ==> a[i].content == b[i].content && a[i].rowHash == b[i].rowHash
  }

  /**
   Tamper evidence: two logs that verify and end in the same row hash record the same writes, in
   the same number and order, or else they hold two messages that the hash confuses. So without
   such a collision no row can be changed, added, dropped or moved without the log failing to verify
   or ending in another hash.
   */
  lemma {:induction false} LastHashFixesLog(hash: string -> string, a: seq<Row>, b: seq<Row>)
    requires HexDigest(hash) && Verifies(hash, a) && Verifies(hash, b)
    requires forall i :: 0 <= i < |a| ==> Clean(a[i].content)
    requires forall i :: 0 <= i < |b| ==> Clean(b[i].content)
    requires a != [] && b != [] && a[|a| - 1].rowHash == b[|b| - 1].rowHash
    ensures SameWrites(a, b) || exists i: nat, j: nat :: Collide(hash, a, b, i, j)
  {
    hide Message, Clean, Verifies;
    var m, n := |a| - 1, |b| - 1;
    LinkShape(hash, a, m);
    LinkShape(hash, b, n);
    if MessageAt(a, m) != MessageAt(b, n) {
      assert Collide(hash, a, b, m, n);
    } else {
      MessageDetermines(a[m].prevHash, a[m].content, b[n].prevHash, b[n].content);
      if m > 0 {
        PrefixVerifies(hash, a, m);
        PrefixVerifies(hash, b, n);
        LastHashFixesLog(hash, a[..m], b[..n]);
        if SameWrites(a[..m], b[..n]) {
          forall i | 0 <= i < |a| ensures a[i].content == b[i].content && a[i].rowHash == b[i].rowHash {
            if i < m { assert a[..m][i] == a[i] && b[..n][i] == b[i]; }
          }
        } else {
          var i: nat, j: nat :| Collide(hash, a[..m], b[..n], i, j);
          assert Collide(hash, a, b, i, j);
        }
      }
    }
  }

  lemma LinkShape(hash: string -> string, rows: seq<Row>, i: nat)
    requires HexDigest(hash) && Verifies(hash, rows) && i < |rows|
    ensures rows[i].prevHash == PrevHash(rows, i) && rows[i].rowHash == hash(Message(rows[i].prevHash, rows[i].content))
    ensures rows[i].prevHash.Some? ==> |rows[i].prevHash.value| == 64 && NulFree(rows[i].prevHash.value)
  {
    hide Message;
    assert Linked(hash, rows, i);
    if i > 0 { assert Linked(hash, rows, i - 1); }
  }

  lemma PrefixVerifies(hash: string -> string, rows: seq<Row>, n: nat)
    requires Verifies(hash, rows) && n <= |rows|
    ensures Verifies(hash, rows[..n])
  {
    hide Message;
    forall i | 0 <= i < n ensures Linked(hash, rows[..n], i) { assert Linked(hash, rows, i); }
  }

  /** Who performed a write is not covered: the column can be rewritten and nothing shows. */
  lemma {:induction false} PerformerIsNotCovered(hash: string -> string, rows: seq<Row>, i: nat, who: int)
    requires Verifies(hash, rows) && i < |rows|
    ensures var forged := rows[i := rows[i].(performedBy := who)];
            Verifies(hash, forged) && forged[|rows| - 1].rowHash == rows[|rows| - 1].rowHash
  {
    var forged := rows[i := rows[i].(performedBy := who)];
    hide Message;
    forall j | 0 <= j < |forged| ensures Linked(hash, forged, j) {
      assert Linked(hash, rows, j);
      assert PrevHash(forged, j) == PrevHash(rows, j);
    }
  }

  /** The limit on the schema name is needed: a link moved into the schema name gives the same bytes. */
  lemma {:induction false} LongSchemaIsAmbiguous(link: string, c: Content)
    ensures Message(Some(link), c) == Message(None, c.(schema := link + c.schema))
  {
    assert link + c.schema == "" + (link + c.schema);
  }

  // ---------------------------------------------------------------- what the columns keep

  /** The row as it is read back: the value columns are JSONB, which keeps values and not the text that was hashed. */
  function ReadBack(jsonb: string -> string, row: Row): Row {
    row.(content := row.content.(oldValue := Kept(jsonb, row.content.oldValue), newValue := Kept(jsonb, row.content.newValue)))
  }

  function Kept(jsonb: string -> string, value: Option<string>): Option<string> {
    if value.None? then None else Some(jsonb(value.value))
  }

  function AllReadBack(jsonb: string -> string, rows: seq<Row>): seq<Row> {
    seq(|rows|, i requires 0 <= i < |rows| => ReadBack(jsonb, rows[i]))
  }

  /**
   A log that verifies as it was hashed verifies as it is read back if and only if each row hashes the same
   both ways; and then, short of a collision, the columns have kept every value's text.
   */
  lemma {:induction false} ReadBackVerifiesIff(hash: string -> string, jsonb: string -> string, rows: seq<Row>)
    requires HexDigest(hash) && Verifies(hash, rows)
    requires forall i :: 0 <= i < |rows| ==> Clean(rows[i].content) && Clean(ReadBack(jsonb, rows[i]).content)
    ensures var back := AllReadBack(jsonb, rows);
            (Verifies(hash, back) <==> forall i :: 0 <= i < |rows| ==> hash(MessageAt(back, i)) == hash(MessageAt(rows, i))) &&
            (Verifies(hash, back) ==> back == rows || exists i: nat, j: nat :: Collide(hash, back, rows, i, j))
  {
    hide Message, Clean, Kept;
    var back := AllReadBack(jsonb, rows);
    forall i | 0 <= i < |rows| ensures Linked(hash, back, i) <==> hash(MessageAt(back, i)) == hash(MessageAt(rows, i)) {
      assert Linked(hash, rows, i) && PrevHash(back, i) == PrevHash(rows, i);
    }
    if Verifies(hash, back) && !exists i: nat, j: nat :: Collide(hash, back, rows, i, j) {
      forall i | 0 <= i < |rows| ensures back[i] == rows[i] {
        assert Linked(hash, back, i) && !Collide(hash, back, rows, i, i);
        LinkShape(hash, rows, i);
        MessageDetermines(back[i].prevHash, back[i].content, rows[i].prevHash, rows[i].content);
      }
    }
  }

  const COMPACT := "{\"a\":1}"
  const SPACED := "{\"a\": 1}"

  /** What JSONB gives back for one text: a blank stands after the colon. */
  function WithBlank(text: string): string {
    if text == COMPACT then SPACED else text
  }

  /** That is enough: a log with such a value does not verify as it is read back, unless by a collision of the hash. */
  lemma {:induction false} BlankAfterColonBreaks(hash: string -> string, rows: seq<Row>, i: nat)
    requires HexDigest(hash) && Verifies(hash, rows) && forall k :: 0 <= k < |rows| ==> Clean(rows[k].content)
    requires i < |rows| && rows[i].content.newValue == Some(COMPACT)
    ensures var back := AllReadBack(WithBlank, rows);
            Verifies(hash, back) ==> exists k: nat, j: nat :: Collide(hash, back, rows, k, j)
  {
    var back := AllReadBack(WithBlank, rows);
    assert |COMPACT| != |SPACED|;
    assert back[i].content.newValue == Some(SPACED);
    hide Message, HexDigest, Verifies;
    forall k | 0 <= k < |rows| ensures Clean(ReadBack(WithBlank, rows[k]).content) { assert Clean(rows[k].content); }
    ReadBackVerifiesIff(hash, WithBlank, rows);
  }
}
