/** Byte strings as the source sees them, and the "/"-separated segments of storage keys
    (strings.Split, strings.Join and strings.HasPrefix with "/"). */
module Text {
  type Byte = x: int | 0 <= x < 256
  type Bytes = seq<Byte>

  const SLASH: Byte := 47

  predicate SlashFree(s: Bytes) {
    SLASH !in s
  }

  /** strings.Split(s, "/"). */
  function Segments(s: Bytes): (r: seq<Bytes>)
    ensures |r| >= 1
    ensures forall i :: 0 <= i < |r| ==> SlashFree(r[i])
  {
    if s == [] then [[]]
    else
      var r := Segments(s[1..]);
      if s[0] == SLASH then [[]] + r else [[s[0]] + r[0]] + r[1..]
  }

  /** strings.Join(parts, "/"). */
  function Join(parts: seq<Bytes>): Bytes {
    if |parts| == 0 then []
    else if |parts| == 1 then parts[0]
    else parts[0] + [SLASH] + Join(parts[1..])
  }

  lemma {:induction false} JoinSegments(s: Bytes)
    ensures Join(Segments(s)) == s
  {
    if s != [] {
      JoinSegments(s[1..]);
      var r := Segments(s[1..]);
      if s[0] == SLASH {
        assert Segments(s)[1..] == r;
      } else {
        var head := [s[0]] + r[0];
        assert Segments(s) == [head] + r[1..];
        assert Segments(s)[1..] == r[1..];
        if |r| > 1 {
          assert head + [SLASH] + Join(r[1..]) == [s[0]] + (r[0] + [SLASH] + Join(r[1..]));
        }
      }
    }
  }

  lemma {:induction false} SegmentsOfPlain(d: Bytes)
    requires SlashFree(d)
    ensures Segments(d) == [d]
  {
    if d != [] {
      SegmentsOfPlain(d[1..]);
      assert [d[0]] + d[1..] == d;
    }
  }

  lemma {:induction false} SegmentsOfCons(d: Bytes, rest: Bytes)
    requires SlashFree(d)
    ensures Segments(d + [SLASH] + rest) == [d] + Segments(rest)
  {
    var s := d + [SLASH] + rest;
    if d == [] {
      assert s[1..] == rest;
    } else {
      SegmentsOfCons(d[1..], rest);
      assert s[1..] == d[1..] + [SLASH] + rest;
      assert [d[0]] + d[1..] == d;
      assert ([d[1..]] + Segments(rest))[1..] == Segments(rest);
    }
  }

  lemma {:induction false} SegmentsOfJoin(parts: seq<Bytes>)
    requires |parts| >= 1 && forall i :: 0 <= i < |parts| ==> SlashFree(parts[i])
    ensures Segments(Join(parts)) == parts
  {
    if |parts| == 1 {
      SegmentsOfPlain(parts[0]);
    } else {
      SegmentsOfJoin(parts[1..]);
      SegmentsOfCons(parts[0], Join(parts[1..]));
      assert [parts[0]] + parts[1..] == parts;
    }
  }

  lemma {:induction false} PrefixSplits(dirs: seq<Bytes>, key: Bytes)
    requires |dirs| >= 1 && (forall i :: 0 <= i < |dirs| ==> SlashFree(dirs[i])) && Join(dirs + [[]]) <= key
    ensures |Segments(key)| > |dirs| && Segments(key)[..|dirs|] == dirs
  {
    var d, tail := dirs[0], dirs[1..];
    assert (dirs + [[]])[1..] == tail + [[]];
    var rest := key[|d| + 1..];
    assert key == d + [SLASH] + rest;
    SegmentsOfCons(d, rest);
    if tail != [] {
      PrefixSplits(tail, rest);
    }
    assert Segments(key)[..|dirs|] == [d] + Segments(rest)[..|tail|];
  }

  lemma {:induction false} PrefixJoins(dirs: seq<Bytes>, segs: seq<Bytes>)
    requires 1 <= |dirs| < |segs| && segs[..|dirs|] == dirs
    ensures Join(dirs + [[]]) <= Join(segs)
  {
    var tail := dirs[1..];
    assert (dirs + [[]])[1..] == tail + [[]];
    assert segs[0] == segs[..|dirs|][0];
    if tail != [] {
      assert segs[1..][..|tail|] == segs[..|dirs|][1..];
      PrefixJoins(tail, segs[1..]);
    }
  }

  /** A directory prefix "d1/d2/.../" is a prefix of a key exactly when the key's segments start
      with d1, d2, ... and at least one more segment follows. */
  lemma {:induction false} DirectoryPrefix(dirs: seq<Bytes>, key: Bytes)
    requires |dirs| >= 1 && forall i :: 0 <= i < |dirs| ==> SlashFree(dirs[i])
    ensures Join(dirs + [[]]) <= key <==>
            |Segments(key)| > |dirs| && Segments(key)[..|dirs|] == dirs
  {
    hide Join, Segments;
    if Join(dirs + [[]]) <= key {
      PrefixSplits(dirs, key);
    }
    if |Segments(key)| > |dirs| && Segments(key)[..|dirs|] == dirs {
      PrefixJoins(dirs, Segments(key));
      JoinSegments(key);
    }
  }

  /** strings.LastIndexByte(s, '/') + 1. */
  function AfterLastSlash(s: Bytes): (n: nat)
    ensures n <= |s| && (n > 0 ==> s[n - 1] == SLASH)
  {
    if s == [] then 0 else if s[|s| - 1] == SLASH then |s| else AfterLastSlash(s[..|s| - 1])
  }

  lemma {:induction false} SegmentsOfDirectory(s: Bytes)
    ensures Segments(s + [SLASH]) == Segments(s) + [[]]
  {
    if s != [] {
      SegmentsOfDirectory(s[1..]);
      assert (s + [SLASH])[1..] == s[1..] + [SLASH];
    } else {
      assert ([] + [SLASH])[1..] == [];
    }
  }

  // ---- byte-wise order (sort.Strings) ----

  predicate LexLe(a: Bytes, b: Bytes) {
    a == [] || (b != [] && (a[0] < b[0] || (a[0] == b[0] && LexLe(a[1..], b[1..]))))
  }

  lemma {:induction false} LexTotal(a: Bytes, b: Bytes)
    ensures LexLe(a, b) || LexLe(b, a)
  {
    if a != [] && b != [] && a[0] == b[0] {
      LexTotal(a[1..], b[1..]);
    }
  }

  lemma {:induction false} LexTransitive(a: Bytes, b: Bytes, c: Bytes)
    requires LexLe(a, b) && LexLe(b, c)
    ensures LexLe(a, c)
  {
    if a != [] && a[0] == b[0] && b[0] == c[0] {
      LexTransitive(a[1..], b[1..], c[1..]);
    }
  }

  ghost predicate Sorted(s: seq<Bytes>) {
    forall i, j :: 0 <= i < j < |s| ==> LexLe(s[i], s[j])
  }

  function Insert(x: Bytes, s: seq<Bytes>): seq<Bytes> {
    if s == [] then [x]
    else if LexLe(x, s[0]) then [x] + s
    else [s[0]] + Insert(x, s[1..])
  }

  lemma {:induction false} InsertAdds(x: Bytes, s: seq<Bytes>)
    ensures multiset(Insert(x, s)) == multiset(s) + multiset{x}
  {
    if s != [] {
      assert s == [s[0]] + s[1..];
      InsertAdds(x, s[1..]);
    }
  }

  lemma {:induction false} InsertSorts(x: Bytes, s: seq<Bytes>)
    requires Sorted(s)
    ensures Sorted(Insert(x, s))
  {
    if s == [] {
    } else if LexLe(x, s[0]) {
      forall j | 0 < j < |s|
        ensures LexLe(x, s[j])
      {
        LexTransitive(x, s[0], s[j]);
      }
    } else {
      var r := Insert(x, s[1..]);
      InsertSorts(x, s[1..]);
      LexTotal(x, s[0]);
      InsertAdds(x, s[1..]);
      forall j | 0 <= j < |r|
        ensures LexLe(s[0], r[j])
      {
        assert r[j] in multiset(r);
      }
    }
  }

  /** sort.Strings. */
  function Sort(s: seq<Bytes>): (r: seq<Bytes>)
    ensures Sorted(r) && multiset(r) == multiset(s)
  {
    if s == [] then []
    else
      assert s == [s[0]] + s[1..];
      var r := Sort(s[1..]);
      InsertSorts(s[0], r);
      InsertAdds(s[0], r);
      Insert(s[0], r)
  }
}
