/**
 How a service configuration is stored: base64 of iv, tag and ciphertext. The Rust service
 (rust/src/serviceconfig.rs) has its cipher join ciphertext and tag, the Express service
 (express/src/lib/crypto.ts) gets them apart; both read and write the same table.
 */
module Envelope {
  import opened Common

  type Bytes = seq<bv8>

  const IV_LEN := 12
  const TAG_LEN := 16

  /**
   AES-256-GCM with the ciphertext and the tag apart, base64 and UTF-8. The lenient decoders are those
   of Buffer.from and Buffer.toString, which never fail.
   */
  datatype Primitives = Primitives(
    seal: (Bytes, Bytes, Bytes) -> (Bytes, Bytes),
    open: (Bytes, Bytes, Bytes, Bytes) -> Option<Bytes>,
    toBase64: Bytes -> string,
    fromBase64: string -> Option<Bytes>,
    lenientBase64: string -> Bytes,
    toUtf8: string -> Bytes,
    fromUtf8: Bytes -> Option<string>,
    lenientUtf8: Bytes -> string)
  {
    /** The tag has its length, opening accepts exactly what sealing gives, and the decoders undo the encoders. */
    ghost predicate Valid() {
      (forall k, iv, m :: |seal(k, iv, m).1| == 16) &&
      (forall k, iv, ct, tag, m :: open(k, iv, ct, tag) == Some(m) <==> seal(k, iv, m) == (ct, tag)) &&
      (forall b :: fromBase64(toBase64(b)) == Some(b)) &&
      (forall s :: fromBase64(s).Some? ==> lenientBase64(s) == fromBase64(s).value) &&
      (forall s, b :: fromUtf8(b) == Some(s) <==> toUtf8(s) == b) &&
      (forall b :: fromUtf8(b).Some? ==> lenientUtf8(b) == fromUtf8(b).value)
    }

    /** The cipher of the Rust service: ciphertext, then tag. */
    function SealJoined(key: Bytes, iv: Bytes, message: Bytes): Bytes {
      seal(key, iv, message).0 + seal(key, iv, message).1
    }

    function OpenJoined(key: Bytes, iv: Bytes, sealed: Bytes): Option<Bytes> {
      if |sealed| < TAG_LEN then None
      else open(key, iv, sealed[..|sealed| - TAG_LEN], sealed[|sealed| - TAG_LEN..])
    }
  }

  datatype Error = NotBase64 | TooShort | NotAuthentic | NotUtf8

  /** The bytes that both services store. */
  function Layout(p: Primitives, key: Bytes, iv: Bytes, plaintext: string): Bytes {
    var (ct, tag) := p.seal(key, iv, p.toUtf8(plaintext));
    iv + tag + ct
  }

  /** encrypt of the Rust service; the iv is drawn by the caller. Its check for a sealed text shorter than the tag cannot fail. */
  method EncryptJoined(p: Primitives, key: Bytes, iv: Bytes, plaintext: string) returns (r: Result<string, Error>)
    requires p.Valid()
    ensures r == Ok(p.toBase64(Layout(p, key, iv, plaintext)))
  {
    var sealed := p.SealJoined(key, iv, p.toUtf8(plaintext));
    assert |sealed| >= TAG_LEN;
    var split := |sealed| - TAG_LEN;
    var ct, tag := sealed[..split], sealed[split..];
    var out: Bytes := [];
    out := out + iv;
    out := out + tag;
    out := out + ct;
    assert (ct, tag) == p.seal(key, iv, p.toUtf8(plaintext)) && out == iv + tag + ct;
    return Ok(p.toBase64(out));
  }

  /** decrypt of the Rust service. */
  method DecryptJoined(p: Primitives, key: Bytes, payload: string) returns (r: Result<string, Error>)
    ensures r == ReadStrictly(p, key, payload)
  {
    var decoded := p.fromBase64(payload);
    if decoded.None? { return Err(NotBase64); }
    var buf := decoded.value;
    if |buf| < IV_LEN + TAG_LEN { return Err(TooShort); }
    var iv, tag, ct := buf[..IV_LEN], buf[IV_LEN..IV_LEN + TAG_LEN], buf[IV_LEN + TAG_LEN..];
    var sealed: Bytes := [];
    sealed := sealed + ct;
    sealed := sealed + tag;
    assert sealed[..|sealed| - TAG_LEN] == ct && sealed[|sealed| - TAG_LEN..] == tag;
    var pt := p.OpenJoined(key, iv, sealed);
    if pt.None? { return Err(NotAuthentic); }
    var text := p.fromUtf8(pt.value);
    return if text.None? then Err(NotUtf8) else Ok(text.value);
  }

  /** encryptString of the Express service. */
  method EncryptDetached(p: Primitives, key: Bytes, iv: Bytes, plaintext: string) returns (payload: string)
    ensures payload == p.toBase64(Layout(p, key, iv, plaintext))
  {
    var (ct, tag) := p.seal(key, iv, p.toUtf8(plaintext));
    return p.toBase64(iv + tag + ct);
  }

  /** decryptString of the Express service. */
  method DecryptDetached(p: Primitives, key: Bytes, payload: string) returns (r: Result<string, Error>)
    ensures r == ReadLeniently(p, key, payload)
  {
    var buf := p.lenientBase64(payload);
    if |buf| < IV_LEN + TAG_LEN { return Err(TooShort); }
    var pt := p.open(key, buf[..IV_LEN], buf[IV_LEN + TAG_LEN..], buf[IV_LEN..IV_LEN + TAG_LEN]);
    if pt.None? { return Err(NotAuthentic); }
    return Ok(p.lenientUtf8(pt.value));
  }

  /** What is sealed in stored bytes: iv, tag, ciphertext. */
  function Unseal(p: Primitives, key: Bytes, buf: Bytes): Result<Bytes, Error> {
    if |buf| < IV_LEN + TAG_LEN then Err(TooShort)
    else
      match p.open(key, buf[..IV_LEN], buf[IV_LEN + TAG_LEN..], buf[IV_LEN..IV_LEN + TAG_LEN])
      case None => Err(NotAuthentic)
      case Some(message) => Ok(message)
  }

  function ReadStrictly(p: Primitives, key: Bytes, payload: string): Result<string, Error> {
    match p.fromBase64(payload)
    case None => Err(NotBase64)
    case Some(buf) =>
      match Unseal(p, key, buf)
      case Err(e) => Err(e)
      case Ok(message) => match p.fromUtf8(message) case None => Err(NotUtf8) case Some(text) => Ok(text)
  }

  function ReadLeniently(p: Primitives, key: Bytes, payload: string): Result<string, Error> {
    match Unseal(p, key, p.lenientBase64(payload))
    case Err(e) => Err(e)
    case Ok(message) => Ok(p.lenientUtf8(message))
  }

  /** Stored bytes unseal to a message exactly when they are an iv with the tag and the ciphertext of that message. */
  lemma {:induction false} UnsealIff(p: Primitives, key: Bytes, buf: Bytes, message: Bytes)
    requires p.Valid()
    ensures Unseal(p, key, buf) == Ok(message) <==>
            exists iv :: |iv| == 12 && buf == iv + p.seal(key, iv, message).1 + p.seal(key, iv, message).0
  {
    hide Primitives.Valid;
    if Unseal(p, key, buf) == Ok(message) {
      var iv, tag, ct := buf[..IV_LEN], buf[IV_LEN..IV_LEN + TAG_LEN], buf[IV_LEN + TAG_LEN..];
      SealOpens(p, key, iv, ct, tag, message);
      assert buf == iv + tag + ct;
    }
    forall iv | |iv| == 12 && buf == iv + p.seal(key, iv, message).1 + p.seal(key, iv, message).0
      ensures Unseal(p, key, buf) == Ok(message)
    {
      var (ct, tag) := p.seal(key, iv, message);
      SealOpens(p, key, iv, ct, tag, message);
      assert buf[..IV_LEN] == iv && buf[IV_LEN..IV_LEN + TAG_LEN] == tag && buf[IV_LEN + TAG_LEN..] == ct;
    }
  }

  lemma SealOpens(p: Primitives, key: Bytes, iv: Bytes, ct: Bytes, tag: Bytes, message: Bytes)
    requires p.Valid()
    ensures p.open(key, iv, ct, tag) == Some(message) <==> p.seal(key, iv, message) == (ct, tag)
    ensures |p.seal(key, iv, message).1| == TAG_LEN
  {}

  /** What either service stores both services read back, with the same key. */
  lemma {:induction false} EachReadsTheOther(p: Primitives, key: Bytes, iv: Bytes, plaintext: string)
    requires p.Valid() && |iv| == 12
    ensures var payload := p.toBase64(Layout(p, key, iv, plaintext));
            ReadStrictly(p, key, payload) == Ok(plaintext) && ReadLeniently(p, key, payload) == Ok(plaintext)
  {
    var message := p.toUtf8(plaintext);
    assert p.fromUtf8(message) == Some(plaintext);
    UnsealIff(p, key, Layout(p, key, iv, plaintext), message);
  }

  /** The Rust service reads exactly what decodes to the stored form of some plaintext. */
  lemma {:induction false} StrictReadsOnlySealed(p: Primitives, key: Bytes, payload: string, plaintext: string)
    requires p.Valid()
    ensures ReadStrictly(p, key, payload) == Ok(plaintext) <==>
            exists iv :: |iv| == 12 && p.fromBase64(payload) == Some(Layout(p, key, iv, plaintext))
  {
    var message := p.toUtf8(plaintext);
    assert p.fromUtf8(message) == Some(plaintext);
    if p.fromBase64(payload).Some? { UnsealIff(p, key, p.fromBase64(payload).value, message); }
  }

  /** The Express service reads whatever the Rust service reads, as the same text. */
  lemma {:induction false} LenientReadsNoLess(p: Primitives, key: Bytes, payload: string, plaintext: string)
    requires p.Valid() && ReadStrictly(p, key, payload) == Ok(plaintext)
    ensures ReadLeniently(p, key, payload) == Ok(plaintext)
  {
    assert p.fromUtf8(Unseal(p, key, p.fromBase64(payload).value).value) == Some(plaintext);
  }

  /** Why stored bytes do not open: fewer than an iv and a tag, or not the stored form of any message. */
  lemma {:induction false} UnsealFailsIff(p: Primitives, key: Bytes, buf: Bytes)
    requires p.Valid()
    ensures Unseal(p, key, buf) == Err(TooShort) <==> |buf| < 28
    ensures Unseal(p, key, buf) == Err(NotAuthentic) <==>
            |buf| >= 28 && forall iv, m :: |iv| == 12 ==> buf != iv + p.seal(key, iv, m).1 + p.seal(key, iv, m).0
    ensures Unseal(p, key, buf) != Err(NotBase64) && Unseal(p, key, buf) != Err(NotUtf8)
  {
    hide Primitives.Valid;
    forall iv, m | |iv| == 12 && buf == iv + p.seal(key, iv, m).1 + p.seal(key, iv, m).0
      ensures Unseal(p, key, buf) == Ok(m) && |buf| >= 28
    {
      SealOpens(p, key, iv, p.seal(key, iv, m).0, p.seal(key, iv, m).1, m);
      UnsealIff(p, key, buf, m);
    }
    if Unseal(p, key, buf).Ok? { UnsealIff(p, key, buf, Unseal(p, key, buf).value); }
  }

  /** The Rust service names the first thing that is wrong; the Express service, whose decoders never fail, only the two in the middle. */
  lemma {:induction false} FirstErrorIsNamed(p: Primitives, key: Bytes, payload: string)
    requires p.Valid()
    ensures var r, buf := ReadStrictly(p, key, payload), p.fromBase64(payload);
            (r == Err(NotBase64) <==> buf.None?) &&
            (buf.Some? ==> forall e :: e == TooShort || e == NotAuthentic ==> (r == Err(e) <==> Unseal(p, key, buf.value) == Err(e))) &&
            (r == Err(NotUtf8) <==> buf.Some? && Unseal(p, key, buf.value).Ok? && p.fromUtf8(Unseal(p, key, buf.value).value).None?)
    ensures var r, stored := ReadLeniently(p, key, payload), Unseal(p, key, p.lenientBase64(payload));
            (r.Ok? <==> stored.Ok?) && (r.Err? ==> r.error == stored.error)
  {
    if p.fromBase64(payload).Some? { UnsealFailsIff(p, key, p.fromBase64(payload).value); }
  }
}
