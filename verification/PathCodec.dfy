/** internal/barrier/paths.go: deterministic encryption of storage keys, segment by segment. */
module PathCodecs {
  import opened Wrappers
  import opened Text
  import opened Crypto

  /** "barrier/": keys below it are needed before unsealing and stay in the clear. */
  const RESERVED: Bytes := Ascii("barrier/")

  predicate Reserved(key: Bytes) {
    RESERVED <= key
  }

  lemma ReservedShape()
    ensures |RESERVED| == 8 && RESERVED[7] == SLASH && forall i :: 0 <= i < 7 ==> RESERVED[i] != SLASH
  {
    var s := "barrier/";
    assert s[0] == 'b' && s[1] == 'a' && s[2] == 'r' && s[3] == 'r' && s[4] == 'i' && s[5] == 'e' && s[6] == 'r'
        && s[7] == '/';
  }

  datatype PathCodec = PathCodec(aead: Aead, mac: Bytes, top: bool)

  /** newPathCodec: the encryption and MAC keys are derived from the path key. */
  function NewPathCodec(t: Toolkit, s: Suite, pathKey: Bytes): PathCodec {
    PathCodec(s.aead(t.hmac(pathKey, Ascii("tuck/path/enc"))), t.hmac(pathKey, Ascii("tuck/path/mac")),
        s.clearNonceTopBit)
  }

  ghost predicate Sound(t: Toolkit, c: PathCodec) {
    Lawful(t) && LawfulAead(c.aead)
  }

  /** The keyed hash of (parent, segment), cut to the nonce size. */
  function Nonce(t: Toolkit, c: PathCodec, parent: Bytes, seg: Bytes): Bytes {
    var h := t.hmac(c.mac, parent + [0] + seg);
    var n := if |h| >= c.aead.nonceSize then h[..c.aead.nonceSize] else h;
    if c.top then ClearTop(n) else n
  }

  function SealSegment(t: Toolkit, c: PathCodec, parent: Bytes, seg: Bytes): Bytes {
    if seg == [] then []
    else
      var n := Nonce(t, c, parent, seg);
      t.base64(n + c.aead.seal(n, seg, parent))
  }

  function OpenSegment(t: Toolkit, c: PathCodec, parent: Bytes, part: Bytes): Option<Bytes> {
    if part == [] then Some([])
    else match t.unbase64(part)
      case None => None
      case Some(raw) =>
        if |raw| < c.aead.nonceSize then None
        else c.aead.open(raw[..c.aead.nonceSize], raw[c.aead.nonceSize..], parent)
  }

  lemma SegmentRoundTrip(t: Toolkit, c: PathCodec, parent: Bytes, seg: Bytes)
    requires Sound(t, c)
    ensures var e := SealSegment(t, c, parent, seg);
            && OpenSegment(t, c, parent, e) == Some(seg) && SlashFree(e)
            && (seg == [] <==> e == []) && (seg != [] ==> |e| > 7)
  {
    if seg != [] {
      var n := Nonce(t, c, parent, seg);
      var raw := n + c.aead.seal(n, seg, parent);
      assert |n| == c.aead.nonceSize;
      assert raw[..c.aead.nonceSize] == n && raw[c.aead.nonceSize..] == c.aead.seal(n, seg, parent);
      assert t.unbase64(t.base64(raw)) == Some(raw) && |t.base64(raw)| >= |raw|;
    }
  }

  /** A stored segment moved to another directory does not open there. */
  lemma MovedSegmentFails(t: Toolkit, c: PathCodec, parent: Bytes, other: Bytes, seg: Bytes)
    requires Sound(t, c) && Authentic(c.aead) && seg != [] && other != parent
    ensures OpenSegment(t, c, other, SealSegment(t, c, parent, seg)) == None
  {
    var n := Nonce(t, c, parent, seg);
    var raw := n + c.aead.seal(n, seg, parent);
    SegmentRoundTrip(t, c, parent, seg);
    assert |n| == c.aead.nonceSize;
    assert raw[..c.aead.nonceSize] == n && raw[c.aead.nonceSize..] == c.aead.seal(n, seg, parent);
    assert t.unbase64(t.base64(raw)) == Some(raw);
  }

  // ---- segment lists ----

  /** The stored segments: each is sealed under the stored path of its parents. */
  function SealAll(t: Toolkit, c: PathCodec, segs: seq<Bytes>): (parts: seq<Bytes>)
    ensures |parts| == |segs|
  {
    if segs == [] then []
    else
      var parts := SealAll(t, c, segs[..|segs| - 1]);
      parts + [SealSegment(t, c, Join(parts), segs[|segs| - 1])]
  }

  lemma {:induction false} SealAllPrefix(t: Toolkit, c: PathCodec, segs: seq<Bytes>, d: nat)
    requires d <= |segs|
    ensures SealAll(t, c, segs)[..d] == SealAll(t, c, segs[..d])
  {
    hide SealSegment;
    if d < |segs| {
      var init := segs[..|segs| - 1];
      SealAllPrefix(t, c, init, d);
      assert init[..d] == segs[..d];
    } else {
      assert segs[..d] == segs;
    }
  }

  /** Part i is segment i sealed under the joined parts before it. */
  lemma {:induction false} SealAllAt(t: Toolkit, c: PathCodec, segs: seq<Bytes>, i: nat)
    requires i < |segs|
    ensures var parts := SealAll(t, c, segs);
            parts[i] == SealSegment(t, c, Join(parts[..i]), segs[i])
  {
    hide SealSegment, Join;
    SealAllPrefix(t, c, segs, i + 1);
    SealAllPrefix(t, c, segs, i);
    assert segs[..i + 1][..i] == segs[..i];
    assert SealAll(t, c, segs)[..i + 1][i] == SealAll(t, c, segs)[i];
  }

  lemma {:induction false} SealAllParts(t: Toolkit, c: PathCodec, segs: seq<Bytes>, i: nat)
    requires Sound(t, c) && i < |segs|
    ensures var parts := SealAll(t, c, segs);
            && SlashFree(parts[i]) && (segs[i] == [] <==> parts[i] == []) && (parts[i] != [] ==> |parts[i]| > 7)
            && OpenSegment(t, c, Join(parts[..i]), parts[i]) == Some(segs[i])
  {
    hide SealSegment, OpenSegment, Join, SealAll;
    SealAllAt(t, c, segs, i);
    SegmentRoundTrip(t, c, Join(SealAll(t, c, segs)[..i]), segs[i]);
  }

  lemma {:induction false} SealAllInjective(t: Toolkit, c: PathCodec, a: seq<Bytes>, b: seq<Bytes>)
    requires Sound(t, c) && SealAll(t, c, a) == SealAll(t, c, b)
    ensures a == b
  {
    hide SealSegment, OpenSegment, Join, SealAll;
    forall i | 0 <= i < |a|
      ensures a[i] == b[i]
    {
      SealAllParts(t, c, a, i);
      SealAllParts(t, c, b, i);
    }
  }

  // ---- keys ----

  function Encode(t: Toolkit, c: PathCodec, key: Bytes): Bytes {
    if Reserved(key) then key else Join(SealAll(t, c, Segments(key)))
  }

  /** All parts opened under their stored parents; None as soon as one does not open. */
  function OpenAll(t: Toolkit, c: PathCodec, parts: seq<Bytes>, n: nat): Option<seq<Bytes>>
    requires n <= |parts|
  {
    if n == 0 then Some([])
    else match (OpenAll(t, c, parts, n - 1), OpenSegment(t, c, Join(parts[..n - 1]), parts[n - 1]))
      case (Some(out), Some(seg)) => Some(out + [seg])
      case _ => None
  }

  function Decode(t: Toolkit, c: PathCodec, stored: Bytes): Option<Bytes> {
    if Reserved(stored) then Some(stored)
    else
      var parts := Segments(stored);
      match OpenAll(t, c, parts, |parts|)
      case None => None
      case Some(out) => Some(Join(out))
  }

  lemma {:induction false} OpenAllSealed(t: Toolkit, c: PathCodec, segs: seq<Bytes>, n: nat)
    requires Sound(t, c) && n <= |segs|
    ensures OpenAll(t, c, SealAll(t, c, segs), n) == Some(segs[..n])
  {
    hide OpenSegment, SealAll, Join;
    if n != 0 {
      OpenAllSealed(t, c, segs, n - 1);
      SealAllParts(t, c, segs, n - 1);
      assert segs[..n - 1] + [segs[n - 1]] == segs[..n];
    }
  }

  /** The segments of an encoded key are the sealed segments of the key. */
  lemma {:induction false} EncodedSegments(t: Toolkit, c: PathCodec, key: Bytes)
    requires Sound(t, c) && !Reserved(key)
    ensures Segments(Encode(t, c, key)) == SealAll(t, c, Segments(key))
  {
    hide SealAll, Segments, Join;
    var segs := Segments(key);
    forall i | 0 <= i < |segs|
      ensures SlashFree(SealAll(t, c, segs)[i])
    {
      SealAllParts(t, c, segs, i);
    }
    SegmentsOfJoin(SealAll(t, c, segs));
  }

  /** A key outside "barrier/" is never stored inside it. */
  lemma EncodeStaysOutside(t: Toolkit, c: PathCodec, key: Bytes)
    requires Sound(t, c)
    ensures Reserved(Encode(t, c, key)) <==> Reserved(key)
  {
    hide SealAll, Segments, Encode;
    if Reserved(key) {
      assert Encode(t, c, key) == key by { EncodeReserved(t, c, key); }
    } else {
      EncodedSegments(t, c, key);
      SealAllParts(t, c, Segments(key), 0);
      if Reserved(Encode(t, c, key)) {
        FirstReservedSegment(Encode(t, c, key));
      }
    }
  }

  lemma EncodeReserved(t: Toolkit, c: PathCodec, key: Bytes)
    requires Reserved(key)
    ensures Encode(t, c, key) == key
  {}

  lemma {:induction false} FirstReservedSegment(key: Bytes)
    requires Reserved(key)
    ensures |Segments(key)[0]| == 7
  {
    ReservedShape();
    var d, rest := RESERVED[..7], key[8..];
    assert key == d + [SLASH] + rest by {
      assert RESERVED == d + [SLASH];
      assert key[..8] == RESERVED;
    }
    SegmentsOfCons(d, rest);
  }

  /** decode(encode(key)) = key for every key, empty segments included. */
  lemma DecodeEncode(t: Toolkit, c: PathCodec, key: Bytes)
    requires Sound(t, c)
    ensures Decode(t, c, Encode(t, c, key)) == Some(key)
  {
    hide SealAll, Segments, Join, OpenAll;
    EncodeStaysOutside(t, c, key);
    if !Reserved(key) {
      var segs := Segments(key);
      EncodedSegments(t, c, key);
      OpenAllSealed(t, c, segs, |segs|);
      assert segs[..|segs|] == segs;
      JoinSegments(key);
    }
  }

  lemma EncodeInjective(t: Toolkit, c: PathCodec, a: Bytes, b: Bytes)
    requires Sound(t, c) && Encode(t, c, a) == Encode(t, c, b)
    ensures a == b
  {
    hide Encode, Decode;
    DecodeEncode(t, c, a);
    DecodeEncode(t, c, b);
  }

  /** Stored keys below an encoded directory are exactly the keys below that directory. */
  lemma {:induction false} EncodedDirectory(t: Toolkit, c: PathCodec, dirs: seq<Bytes>, key: Bytes)
    requires Sound(t, c) && |dirs| >= 1 && forall i :: 0 <= i < |dirs| ==> SlashFree(dirs[i])
    requires var dir := Join(dirs + [[]]); !Reserved(dir)
    ensures var dir := Join(dirs + [[]]);
            Encode(t, c, dir) <= Encode(t, c, key) <==> dir <= key
  {
    hide SealAll, Segments, Join, Encode;
    var dir := Join(dirs + [[]]);
    SegmentsOfJoin(dirs + [[]]);
    var sealed := SealAll(t, c, dirs);
    forall i | 0 <= i < |dirs|
      ensures SlashFree(sealed[i])
    {
      SealAllParts(t, c, dirs, i);
    }
    assert Encode(t, c, dir) == Join(sealed + [[]]) by { EncodedDir(t, c, dirs); }
    DirectoryPrefix(sealed, Encode(t, c, key));
    DirectoryPrefix(dirs, key);
    if Reserved(key) {
      EncodeReserved(t, c, key);
      EncodeStaysOutside(t, c, dir);
      if dir <= key {
        AboveReserved(dirs, key);
      }
      if Join(sealed + [[]]) <= key {
        AboveReserved(sealed, key);
      }
    } else {
      EncodedSegments(t, c, key);
      var segs, d := Segments(key), |dirs|;
      if |segs| > d {
        SealAllPrefix(t, c, segs, d);
        if SealAll(t, c, segs)[..d] == sealed {
          SealAllInjective(t, c, segs[..d], dirs);
        }
      }
    }
  }

  lemma {:induction false} EncodedDir(t: Toolkit, c: PathCodec, dirs: seq<Bytes>)
    requires Sound(t, c) && |dirs| >= 1 && forall i :: 0 <= i < |dirs| ==> SlashFree(dirs[i])
    requires !Reserved(Join(dirs + [[]]))
    ensures Encode(t, c, Join(dirs + [[]])) == Join(SealAll(t, c, dirs) + [[]])
  {
    hide Segments, Join, SealSegment;
    SegmentsOfJoin(dirs + [[]]);
    assert (dirs + [[]])[..|dirs|] == dirs;
    SegmentRoundTrip(t, c, Join(SealAll(t, c, dirs)), []);
  }

  lemma {:induction false} DirectoryLength(dirs: seq<Bytes>)
    requires |dirs| >= 1
    ensures |Join(dirs + [[]])| >= |dirs[0]| + 1
  {
    assert (dirs + [[]])[1..] == dirs[1..] + [[]];
  }

  lemma PrefixExtends(p: Bytes, dir: Bytes, key: Bytes)
    requires p <= key && dir <= key && |p| <= |dir|
    ensures p <= dir
  {}

  /** A directory that holds a reserved key is itself reserved. */
  lemma {:induction false} AboveReserved(dirs: seq<Bytes>, key: Bytes)
    requires |dirs| >= 1 && forall i :: 0 <= i < |dirs| ==> SlashFree(dirs[i])
    requires Reserved(key) && Join(dirs + [[]]) <= key
    ensures Reserved(Join(dirs + [[]]))
  {
    hide Segments, Join;
    DirectoryPrefix(dirs, key);
    FirstReservedSegment(key);
    assert dirs[0] == Segments(key)[..|dirs|][0];
    DirectoryLength(dirs);
    ReservedShape();
    PrefixExtends(RESERVED, Join(dirs + [[]]), key);
  }

  // ---- listing ----

  /** The stored prefix listKeys scans for a logical prefix. */
  function ScanPrefix(t: Toolkit, c: PathCodec, prefix: Bytes): Bytes {
    var dir := prefix[..AfterLastSlash(prefix)];
    if Reserved(prefix) then prefix
    else if dir != [] then Encode(t, c, dir)
    else []
  }

  /** The scan misses no key that starts with the prefix, even when it ends in a partial segment. */
  lemma ScanMissesNothing(t: Toolkit, c: PathCodec, prefix: Bytes, key: Bytes)
    requires Sound(t, c) && prefix <= key
    ensures ScanPrefix(t, c, prefix) <= Encode(t, c, key)
  {
    hide Encode, Segments, Join, Reserved;
    var dir := prefix[..AfterLastSlash(prefix)];
    if Reserved(prefix) {
      ReservedExtends(prefix, key);
      EncodeReserved(t, c, key);
    } else if dir != [] {
      var init := dir[..|dir| - 1];
      assert dir == init + [SLASH];
      SegmentsOfDirectory(init);
      JoinSegments(dir);
      if Reserved(dir) {
        ReservedExtends(dir, prefix);
      }
      EncodedDirectory(t, c, Segments(init), key);
      assert dir <= key;
    }
  }

  lemma ReservedExtends(prefix: Bytes, key: Bytes)
    requires Reserved(prefix) && prefix <= key
    ensures Reserved(key)
  {}

  // ---- the loops of the source ----

  method EncodeKey(t: Toolkit, c: PathCodec, key: Bytes) returns (stored: Bytes)
    ensures stored == Encode(t, c, key)
  {
    hide SealSegment, Join, Segments;
    if Reserved(key) {
      return key;
    }
    var segs := Segments(key);
    var parts: seq<Bytes> := [];
    for i := 0 to |segs|
      invariant parts == SealAll(t, c, segs[..i])
    {
      assert segs[..i + 1][..i] == segs[..i];
      parts := parts + [SealSegment(t, c, Join(parts), segs[i])];
    }
    assert segs[..|segs|] == segs;
    return Join(parts);
  }

  method DecodeKey(t: Toolkit, c: PathCodec, stored: Bytes) returns (key: Option<Bytes>)
    ensures key == Decode(t, c, stored)
  {
    hide OpenSegment, Join, Segments;
    if Reserved(stored) {
      return Some(stored);
    }
    var parts := Segments(stored);
    var out: seq<Bytes> := [];
    for i := 0 to |parts|
      invariant OpenAll(t, c, parts, i) == Some(out)
    {
      var seg := OpenSegment(t, c, Join(parts[..i]), parts[i]);
      if seg.None? {
        StaysClosed(t, c, parts, i + 1, |parts|);
        return None;
      }
      out := out + [seg.value];
    }
    return Some(Join(out));
  }

  lemma {:induction false} StaysClosed(t: Toolkit, c: PathCodec, parts: seq<Bytes>, i: nat, n: nat)
    requires i <= n <= |parts| && OpenAll(t, c, parts, i) == None
    ensures OpenAll(t, c, parts, n) == None
  {
    hide OpenSegment, Join;
    if i < n {
      StaysClosed(t, c, parts, i, n - 1);
    }
  }
}
