/** internal/namespace: names, and the storage prefix of each. */
module Namespaces {
  import opened Text

  const TILDE: Byte := 126
  const HYPHEN: Byte := 45
  const MAX_NAME_SEGMENTS := 4
  const MAX_NAME_LENGTH := 128

  /** "root" */
  function Root(): Bytes { [114, 111, 111, 116] }

  /** "ns/" */
  function NsPrefix(): Bytes { [110, 115, SLASH] }

  /** "sys/namespaces/" */
  function RecordPrefix(): Bytes { [115, 121, 115, SLASH, 110, 97, 109, 101, 115, 112, 97, 99, 101, 115, SLASH] }

  predicate LowerOrDigit(c: Byte) {
    97 <= c <= 122 || 48 <= c <= 57
  }

  /** One segment: a letter or digit, then letters, digits and hyphens; never "root". */
  predicate SegmentOk(seg: Bytes) {
    seg != Root() && seg != [] && LowerOrDigit(seg[0]) && forall i :: 0 <= i < |seg| ==>
        LowerOrDigit(seg[i]) || seg[i] == HYPHEN
  }

  predicate ValidName(name: Bytes) {
    && |name| <= MAX_NAME_LENGTH
    && |Segments(name)| <= MAX_NAME_SEGMENTS
    && forall seg :: seg in Segments(name) ==> SegmentOk(seg)
  }

  method ValidateName(name: Bytes) returns (ok: bool)
    ensures ok <==> ValidName(name)
    ensures ok ==> name != [] && name != Root() && TILDE !in name
  {
    if ValidName(name) {
      ValidNamesArePlain(name);
    }
    if |name| > MAX_NAME_LENGTH {
      return false;
    }
    var segments := Segments(name);
    if |segments| > MAX_NAME_SEGMENTS {
      return false;
    }
    for i := 0 to |segments|
      invariant forall j :: 0 <= j < i ==> SegmentOk(segments[j])
    {
      if !SegmentOk(segments[i]) {
        assert segments[i] in Segments(name);
        return false;
      }
    }
    return true;
  }

  lemma {:induction false} JoinedBytes(parts: seq<Bytes>, c: Byte)
    requires c in Join(parts)
    ensures c == SLASH || exists part :: part in parts && c in part
    decreases |parts|
  {
    if |parts| > 1 && c !in parts[0] && c != SLASH {
      JoinedBytes(parts[1..], c);
      var part :| part in parts[1..] && c in part;
      assert part in parts;
    } else if c != SLASH {
      assert parts[0] in parts;
    }
  }

  /** A valid name is not one of the two root names and has no tilde. */
  lemma ValidNamesArePlain(name: Bytes)
    requires ValidName(name)
    ensures name != [] && name != Root() && TILDE !in name
  {
    JoinSegments(name);
    forall c | c in name
      ensures c == SLASH || c == HYPHEN || LowerOrDigit(c)
    {
      JoinedBytes(Segments(name), c);
      if c != SLASH {
        var part :| part in Segments(name) && c in part;
        assert SegmentOk(part);
      }
    }
    if SlashFree(name) {
      SegmentsOfPlain(name);
      assert SegmentOk(name);
    }
  }

  // ---- storage prefixes ----

  function ReplaceAll(s: Bytes, from: Byte, to: Byte): (r: Bytes)
    ensures |r| == |s|
  {
    seq(|s|, i requires 0 <= i < |s| => if s[i] == from then to else s[i])
  }

  function StoragePrefix(ns: Bytes): Bytes {
    if ns == [] || ns == Root() then [] else NsPrefix() + ReplaceAll(ns, SLASH, TILDE) + [SLASH]
  }

  /** The first slash after "ns/" ends the encoded name, whatever follows. */
  lemma PrefixDeterminesEncoding(a: Bytes, b: Bytes, rest: Bytes)
    requires a !in {[], Root()} && b !in {[], Root()}
    requires StoragePrefix(a) <= StoragePrefix(b) + rest
    ensures ReplaceAll(a, SLASH, TILDE) == ReplaceAll(b, SLASH, TILDE)
  {
    var ea, eb := ReplaceAll(a, SLASH, TILDE), ReplaceAll(b, SLASH, TILDE);
    var s := StoragePrefix(b) + rest;
    assert s[3 + |eb|] == SLASH && s[3 + |ea|] == SLASH;
    assert forall i :: 0 <= i < |eb| ==> s[3 + i] == eb[i];
    assert forall i :: 0 <= i < |ea| ==> s[3 + i] == StoragePrefix(a)[3 + i] == ea[i];
    assert ea == s[3..3 + |ea|] && eb == s[3..3 + |eb|];
  }

  lemma EncodingInjective(a: Bytes, b: Bytes)
    requires TILDE !in a && TILDE !in b && ReplaceAll(a, SLASH, TILDE) == ReplaceAll(b, SLASH, TILDE)
    ensures a == b
  {
    var e := ReplaceAll(a, SLASH, TILDE);
    forall i | 0 <= i < |a|
      ensures a[i] == b[i]
    {
      assert e[i] == ReplaceAll(b, SLASH, TILDE)[i];
    }
  }

  /** No two valid names share a key: neither prefix begins the other, nor anything under it. */
  lemma PrefixesDisjoint(a: Bytes, b: Bytes, key: Bytes)
    requires ValidName(a) && ValidName(b) && a != b
    ensures !(StoragePrefix(a) <= StoragePrefix(b) + key)
  {
    ValidNamesArePlain(a);
    ValidNamesArePlain(b);
    if StoragePrefix(a) <= StoragePrefix(b) + key {
      PrefixDeterminesEncoding(a, b, key);
      EncodingInjective(a, b);
    }
  }

  /** Some valid namespace other than `name` keeps its data under name's prefix. */
  ghost predicate SharesPrefix(name: Bytes) {
    exists m :: ValidName(m) && m != name && Overlaps(name, m)
  }

  ghost predicate Overlaps(a: Bytes, b: Bytes) {
    exists key :: StoragePrefix(a) <= StoragePrefix(b) + key
  }

  /** Two prefixes either have no key in common or are the same. */
  lemma OverlapIsEquality(a: Bytes, b: Bytes)
    requires a !in {[], Root()} && b !in {[], Root()}
    ensures Overlaps(a, b) <==> StoragePrefix(a) == StoragePrefix(b)
  {
    if Overlaps(a, b) {
      var key :| StoragePrefix(a) <= StoragePrefix(b) + key;
      PrefixDeterminesEncoding(a, b, key);
    }
    if StoragePrefix(a) == StoragePrefix(b) {
      assert StoragePrefix(a) <= StoragePrefix(b) + [];
    }
  }

  /** An unvalidated name shares its prefix with another namespace exactly when it has a tilde and becomes a valid
      name once its tildes are slashes. */
  lemma SharesPrefixIff(name: Bytes)
    requires name !in {[], Root()}
    ensures SharesPrefix(name) <==> TILDE in name && ValidName(ReplaceAll(name, TILDE, SLASH))
  {
    var slashed := ReplaceAll(name, TILDE, SLASH);
    if TILDE in name && ValidName(slashed) {
      ValidNamesArePlain(slashed);
      assert ReplaceAll(slashed, SLASH, TILDE) == ReplaceAll(name, SLASH, TILDE);
      assert StoragePrefix(name) <= StoragePrefix(slashed) + [];
      assert Overlaps(name, slashed);
    }
    if SharesPrefix(name) {
      var m :| ValidName(m) && m != name && Overlaps(name, m);
      var key :| StoragePrefix(name) <= StoragePrefix(m) + key;
      ValidNamesArePlain(m);
      PrefixDeterminesEncoding(name, m, key);
      if TILDE !in name {
        EncodingInjective(name, m);
      }
      forall i | 0 <= i < |name|
        ensures slashed[i] == m[i]
      {
        assert ReplaceAll(name, SLASH, TILDE)[i] == ReplaceAll(m, SLASH, TILDE)[i];
      }
      assert slashed == m;
    }
  }

  /** "a~b" is no namespace, yet its prefix is that of "a/b". */
  lemma TildeExample()
    ensures !ValidName([97, TILDE, 98]) && ValidName([97, SLASH, 98])
    ensures StoragePrefix([97, TILDE, 98]) == StoragePrefix([97, SLASH, 98])
  {
    var t: Bytes := [97, TILDE, 98];
    if ValidName(t) {
      ValidNamesArePlain(t);
    }
    SegmentsOfCons([97], [98]);
    SegmentsOfPlain([98]);
    assert [97] + [SLASH] + [98] == [97, SLASH, 98];
  }
}
