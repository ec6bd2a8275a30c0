/** internal/kvv2: the name a secret's path stands for, path.Clean of the path with a slash in front. */
module KvPaths {
  import opened KvSpec
  import opened Text

  /** "." and ".." */
  const DOT: Bytes := [46]
  const DOT_DOT: Bytes := [46, 46]

  predicate Ordinary(seg: Bytes) {
    seg != [] && seg != DOT && seg != DOT_DOT
  }

  /** Empty segments and "." go, ".." takes the segment before it along, if there is one. */
  function Resolve(segs: seq<Bytes>): (r: seq<Bytes>)
    ensures forall s :: s in r ==> s in segs && Ordinary(s)
  {
    if segs == [] then []
    else
      var init, last := Resolve(segs[..|segs| - 1]), segs[|segs| - 1];
      if last == DOT_DOT then (if init == [] then [] else init[..|init| - 1])
      else if Ordinary(last) then init + [last]
      else init
  }

  function Clean(path: Bytes): Bytes {
    Join(Resolve(Segments(path)))
  }

  lemma {:induction false} ResolveOrdinary(segs: seq<Bytes>)
    requires forall s :: s in segs ==> Ordinary(s)
    ensures Resolve(segs) == segs
    decreases |segs|
  {
    if segs != [] {
      ResolveOrdinary(segs[..|segs| - 1]);
      assert segs == segs[..|segs| - 1] + [segs[|segs| - 1]];
    }
  }

  /** A cleaned path has only ordinary segments, or none. */
  lemma {:induction false} CleanSegments(path: Bytes)
    ensures var segs := Resolve(Segments(path));
            if segs == [] then Clean(path) == [] else Segments(Clean(path)) == segs
  {
    var segs := Resolve(Segments(path));
    if segs != [] {
      forall i | 0 <= i < |segs|
        ensures SlashFree(segs[i])
      {
        assert segs[i] in segs && segs[i] in Segments(path);
      }
      SegmentsOfJoin(segs);
    }
  }

  /** Cleaning twice is cleaning once. */
  lemma CleanTwice(path: Bytes)
    ensures Clean(Clean(path)) == Clean(path)
  {
    CleanSegments(path);
    var segs := Resolve(Segments(path));
    if segs == [] {
      var none: seq<Bytes> := [[]];
      assert Segments([]) == none && none[..0] == [];
    } else {
      ResolveOrdinary(segs);
    }
  }

  /** Two paths share a key exactly when they stand for one name, and a data key only for one version of it. */
  lemma SharedKeysIff(p: Bytes, v: nat, q: Bytes, w: nat)
    ensures DataKey(Clean(p), v) == DataKey(Clean(q), w) <==> Clean(p) == Clean(q) && v == w
    ensures MetaKey(Clean(p)) == MetaKey(Clean(q)) <==> Clean(p) == Clean(q)
    ensures MetaKey(Clean(p)) != DataKey(Clean(q), w)
  {
    hide Clean, DataKey, MetaKey;
    KeysApart(Clean(p), Clean(q), w);
    if DataKey(Clean(p), v) == DataKey(Clean(q), w) {
      DataKeyInjective(Clean(p), v, Clean(q), w);
    }
    if MetaKey(Clean(p)) == MetaKey(Clean(q)) {
      MetaKeyInjective(Clean(p), Clean(q));
    }
  }
}
