/** The cryptographic and encoding primitives, kept abstract: each is a function value, and
    `Lawful` states the only laws the proofs rely on. */
module Crypto {
  import opened Wrappers
  import opened Text

  const KEY_SIZE: nat := 32
  const TAG_SIZE: nat := 16

  /** cipher.AEAD keyed with one key: seal(nonce, plain, aad), open(nonce, ciphertext, aad). */
  datatype Aead = Aead(nonceSize: nat, seal: (Bytes, Bytes, Bytes) -> Bytes,
      open: (Bytes, Bytes, Bytes) -> Option<Bytes>)

  ghost predicate LawfulAead(a: Aead) {
    && 1 <= a.nonceSize <= 32
    && forall n, p, aad :: |n| == a.nonceSize ==>
         |a.seal(n, p, aad)| == |p| + TAG_SIZE && a.open(n, a.seal(n, p, aad), aad) == Some(p)
  }

  /** What was sealed with one associated text opens with no other: an ideal that real ciphers come close to. */
  ghost predicate Authentic(a: Aead) {
    forall n, p, aad, other :: |n| == a.nonceSize && other != aad ==> a.open(n, a.seal(n, p, aad), other) == None
  }

  /** A registered cipher suite; `aead` is its New for a key of the right size. */
  datatype Suite = Suite(aead: Bytes -> Aead, clearNonceTopBit: bool)

  ghost predicate LawfulSuite(s: Suite) {
    forall key :: LawfulAead(s.aead(key))
  }

  /** The two records the barrier keeps as JSON (the keyring's versions as decimal keys). */
  datatype StoreMeta = StoreMeta(version: int, cipher: Bytes)
  datatype KeyringDoc = KeyringDoc(active: nat, keys: map<nat, Bytes>, pathKey: Bytes)

  datatype Toolkit = Toolkit(
    suites: map<Bytes, Suite>,                                   // registered cipher suites by name
    hmac: (Bytes, Bytes) -> Bytes,                               // HMAC-SHA-256(key, message)
    base64: Bytes -> Bytes, unbase64: Bytes -> Option<Bytes>,    // base64url, section 5 of RFC 4648
    metaJson: StoreMeta -> Bytes, parseMeta: Bytes -> Option<StoreMeta>,
    ringJson: KeyringDoc -> Bytes, parseRing: Bytes -> Option<KeyringDoc>)

  ghost predicate Lawful(t: Toolkit) {
    && (forall name :: name in t.suites ==> LawfulSuite(t.suites[name]))
    && (forall k, m :: |t.hmac(k, m)| == 32)
    && (forall x :: t.unbase64(t.base64(x)) == Some(x) && SlashFree(t.base64(x)) && |t.base64(x)| >= |x|)
    && (forall m :: t.parseMeta(t.metaJson(m)) == Some(m))
    && (forall d :: t.parseRing(t.ringJson(d)) == Some(d))
  }

  /** Ascii text as bytes. */
  function Ascii(s: string): (b: Bytes)
    ensures |b| == |s|
  {
    seq(|s|, i requires 0 <= i < |s| => (s[i] as int) % 256)
  }

  function ClearTop(n: Bytes): (m: Bytes)
    ensures |m| == |n|
  {
    if n == [] then n else n[0 := n[0] % 128]
  }

  /** Suite.seal: nonce || ciphertext || tag under a random nonce; no result for a key of the wrong size. */
  function SuiteSeal(s: Suite, key: Bytes, random: Bytes, plain: Bytes, aad: Bytes): Option<Bytes>
    requires |random| >= s.aead(key).nonceSize
  {
    if |key| != KEY_SIZE then None
    else
      var a := s.aead(key);
      var drawn := random[..a.nonceSize];
      var nonce := if s.clearNonceTopBit then ClearTop(drawn) else drawn;
      Some(nonce + a.seal(nonce, plain, aad))
  }

  function SuiteOpen(s: Suite, key: Bytes, data: Bytes, aad: Bytes): Option<Bytes> {
    if |key| != KEY_SIZE then None
    else
      var a := s.aead(key);
      if |data| < a.nonceSize then None
      else a.open(data[..a.nonceSize], data[a.nonceSize..], aad)
  }

  /** Sealed data begins with its nonce, the top bit of which is clear where the suite wants that, and opens with no
      other associated text. */
  lemma SealedShape(s: Suite, key: Bytes, random: Bytes, plain: Bytes, aad: Bytes, other: Bytes)
    requires LawfulSuite(s) && |random| >= s.aead(key).nonceSize && |key| == KEY_SIZE
    ensures var c := SuiteSeal(s, key, random, plain, aad);
            && c.Some? && |c.value| == s.aead(key).nonceSize + |plain| + 16
            && (s.clearNonceTopBit ==> c.value[0] < 128)
            && (!s.clearNonceTopBit ==> c.value[..s.aead(key).nonceSize] == random[..s.aead(key).nonceSize])
            && (Authentic(s.aead(key)) && other != aad ==> SuiteOpen(s, key, c.value, other) == None)
  {
    var a := s.aead(key);
    assert LawfulAead(a);
    var c := SuiteSeal(s, key, random, plain, aad).value;
    var nonce := c[..a.nonceSize];
    assert c[a.nonceSize..] == a.seal(nonce, plain, aad);
  }

  lemma SealOpens(s: Suite, key: Bytes, random: Bytes, plain: Bytes, aad: Bytes)
    requires LawfulSuite(s) && |random| >= s.aead(key).nonceSize && |key| == KEY_SIZE
    ensures var c := SuiteSeal(s, key, random, plain, aad);
            c.Some? && SuiteOpen(s, key, c.value, aad) == Some(plain)
  {
    var a := s.aead(key);
    assert LawfulAead(a);
    var c := SuiteSeal(s, key, random, plain, aad).value;
    var nonce := c[..a.nonceSize];
    assert c[a.nonceSize..] == a.seal(nonce, plain, aad);
  }
}
