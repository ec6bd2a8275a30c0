/** internal/kvv2 as values: the keys of a secret, its metadata, and the history they stand for. */
module KvSpec {
  import opened KvCustom
  import opened Text
  import opened Wrappers

  /** "kv2/meta/" and "kv2/data/" */
  const META_PREFIX: Bytes := [107, 118, 50, SLASH, 109, 101, 116, 97, SLASH]
  const DATA_PREFIX: Bytes := [107, 118, 50, SLASH, 100, 97, 116, 97, SLASH]
  const DEFAULT_MAX := 10
  const MAX_VERSIONS_LIMIT := 1000

  datatype VerMeta = VerMeta(deleted: bool, destroyed: bool)

  /** maxVersions 0 keeps every version. */
  datatype KvMeta = KvMeta(current: nat, oldest: nat, maxVersions: int, casRequired: bool, versions: map<nat, VerMeta>,
                             custom: Custom)

  datatype KvValue = MetaValue(meta: KvMeta) | DataValue(bytes: Bytes)

  type Data = map<Bytes, KvValue>

  datatype Defaults = Defaults(maxVersions: int, casRequired: bool)

  datatype KvError = CasRequired | CasMismatch | InvalidMetadata | VersionNotFound | VersionDestroyed
                   | DataMissing | StorageFailed

  // ---- keys (paths are already cleaned) ----

  function Decimal(n: nat): (s: Bytes)
    ensures |s| >= 1 && SlashFree(s)
  {
    var digit: Bytes := [48 + n % 10];
    if n < 10 then digit else Decimal(n / 10) + digit
  }

  lemma {:induction false} DecimalInjective(m: nat, n: nat)
    requires Decimal(m) == Decimal(n)
    ensures m == n
    decreases m
  {
    var a, b := Decimal(m), Decimal(n);
    assert a[|a| - 1] == b[|b| - 1];
    assert m % 10 == n % 10;
    assert m < 10 <==> |a| == 1;
    assert n < 10 <==> |b| == 1;
    if m >= 10 {
      assert a[..|a| - 1] == Decimal(m / 10);
      assert b[..|b| - 1] == Decimal(n / 10);
      DecimalInjective(m / 10, n / 10);
    }
  }

  function MetaKey(p: Bytes): Bytes { META_PREFIX + p }

  function DataKey(p: Bytes, v: nat): Bytes { DATA_PREFIX + p + [SLASH] + Decimal(v) }

  lemma MetaKeyInjective(p: Bytes, q: Bytes)
    requires MetaKey(p) == MetaKey(q)
    ensures p == q
  {
    assert p == MetaKey(p)[|META_PREFIX|..];
    assert q == MetaKey(q)[|META_PREFIX|..];
  }

  lemma KeysApart(p: Bytes, q: Bytes, v: nat)
    ensures MetaKey(p) != DataKey(q, v)
  {
    assert MetaKey(p)[4] == 109;
    assert DataKey(q, v)[4] == 100;
  }

  /** Text after the last slash is determined: so are the path and the version. */
  lemma LastSlash(a: Bytes, b: Bytes, x: Bytes, y: Bytes)
    requires SlashFree(x) && SlashFree(y) && a + [SLASH] + x == b + [SLASH] + y
    ensures a == b && x == y
  {
    var s := a + [SLASH] + x;
    assert s[|a|] == SLASH && s[|b|] == SLASH;
    assert forall i :: |a| < i < |s| ==> s[i] == x[i - |a| - 1];
    assert forall i :: |b| < i < |s| ==> s[i] == y[i - |b| - 1];
    assert |a| == |b|;
    assert a == s[..|a|] && b == s[..|b|];
    assert x == s[|a| + 1..] && y == s[|b| + 1..];
  }

  lemma DataKeyInjective(p: Bytes, v: nat, q: Bytes, w: nat)
    requires DataKey(p, v) == DataKey(q, w)
    ensures p == q && v == w
  {
    LastSlash(DATA_PREFIX + p, DATA_PREFIX + q, Decimal(v), Decimal(w));
    assert p == (DATA_PREFIX + p)[|DATA_PREFIX|..];
    assert q == (DATA_PREFIX + q)[|DATA_PREFIX|..];
    DecimalInjective(v, w);
  }

  // ---- metadata against the history ----

  /** The versions tracked are exactly oldest..current; destroyed ones stay so. */
  ghost predicate MetaOk(m: KvMeta, history: seq<Bytes>, destroyed: set<nat>) {
    && m.current == |history|
    && (if m.current == 0 then m.oldest == 0 && m.versions == map[]
        else 1 <= m.oldest <= m.current && forall v :: v in m.versions <==> m.oldest <= v <= m.current)
    && (forall v :: v in destroyed ==> 1 <= v <= m.current && (v in m.versions ==> m.versions[v].destroyed))
  }

  function MetaOf(data: Data, p: Bytes): Option<KvMeta> {
    if MetaKey(p) in data && data[MetaKey(p)].MetaValue? then Some(data[MetaKey(p)].meta) else None
  }

  /** Version v of p is referenced and not destroyed. */
  predicate Referenced(data: Data, p: Bytes, v: nat) {
    MetaOf(data, p).Some? && v in MetaOf(data, p).value.versions && !MetaOf(data, p).value.versions[v].destroyed
  }

  /** What is stored for p agrees with the bytes written since p was last deleted. */
  ghost predicate PathOk(data: Data, p: Bytes, history: seq<Bytes>, destroyed: set<nat>) {
    && (MetaKey(p) in data ==> data[MetaKey(p)].MetaValue?)
    && (match MetaOf(data, p)
        case Some(m) => MetaOk(m, history, destroyed)
        case None => history == [] && destroyed == {})
    && (forall v :: Referenced(data, p, v) && DataKey(p, v) in data ==>
        data[DataKey(p, v)] == DataValue(history[v - 1]))
  }

  /** Every referenced version that was not destroyed has its data. */
  ghost predicate Complete(data: Data, p: Bytes) {
    forall v :: Referenced(data, p, v) ==> DataKey(p, v) in data && data[DataKey(p, v)].DataValue?
  }

  /** No data is stored that nothing refers to. */
  ghost predicate Tidy(data: Data, p: Bytes) {
    forall v :: DataKey(p, v) in data ==> Referenced(data, p, v)
  }

  /** Keys that belong to p. */
  ghost predicate Owned(p: Bytes, k: Bytes) {
    k == MetaKey(p) || exists v :: k == DataKey(p, v)
  }

  /** Two states differ only in keys of p. */
  ghost predicate OnlyPath(before: Data, after: Data, p: Bytes) {
    forall k :: !Owned(p, k) ==> (k in before <==> k in after) && (k in before ==> before[k] == after[k])
  }

  lemma OtherPathsKeep(before: Data, after: Data, p: Bytes, q: Bytes, history: seq<Bytes>, destroyed: set<nat>)
    requires OnlyPath(before, after, p) && q != p
    ensures PathOk(before, q, history, destroyed) ==> PathOk(after, q, history, destroyed)
    ensures Complete(before, q) ==> Complete(after, q)
    ensures MetaOf(after, q) == MetaOf(before, q)
  {
    KeysNotOwned(p, q);
  }

  lemma KeysNotOwned(p: Bytes, q: Bytes)
    requires q != p
    ensures !Owned(p, MetaKey(q)) && forall v :: !Owned(p, DataKey(q, v))
  {
    if MetaKey(q) == MetaKey(p) {
      MetaKeyInjective(q, p);
    }
    forall v ensures MetaKey(q) != DataKey(p, v) { KeysApart(q, p, v); }
    forall v
      ensures !Owned(p, DataKey(q, v))
    {
      KeysApart(p, q, v);
      forall w
        ensures DataKey(q, v) != DataKey(p, w)
      {
        if DataKey(q, v) == DataKey(p, w) {
          DataKeyInjective(q, v, p, w);
        }
      }
    }
  }

  // ---- reading ----

  datatype Found = Never | Hidden(version: nat) | Value(bytes: Bytes, version: nat)

  function ReadResult(data: Data, p: Bytes, version: int): Result<Found, KvError> {
    match MetaOf(data, p)
    case None => Success(Never)
    case Some(m) =>
      if m.current == 0 then Success(Never)
      else
        var v := if version == 0 then m.current else version;
        if v !in m.versions then Failure(VersionNotFound)
        else if m.versions[v].destroyed then Failure(VersionDestroyed)
        else if m.versions[v].deleted then Success(Hidden(v))
        else if DataKey(p, v) in data && data[DataKey(p, v)].DataValue?
            then Success(Value(data[DataKey(p, v)].bytes, v))
        else Failure(DataMissing)
  }

  /** A value that is read is the one written under that number, and never a destroyed one. */
  lemma ReadsWhatWasWritten(data: Data, p: Bytes, version: int, history: seq<Bytes>, destroyed: set<nat>)
    requires PathOk(data, p, history, destroyed)
    ensures match ReadResult(data, p, version)
            case Success(Value(bytes, v)) =>
              && 1 <= v <= |history| && bytes == history[v - 1] && v !in destroyed
              && (version != 0 ==> v == version) && (version == 0 ==> v == |history|)
            case _ => true
  {
    var m := MetaOf(data, p);
    if m.Some? && m.value.current != 0 {
      var v := if version == 0 then m.value.current else version;
      assert v in m.value.versions && !m.value.versions[v].destroyed ==> Referenced(data, p, v);
    }
  }

  /** On complete storage a version can be read exactly when it is tracked and neither deleted nor destroyed. */
  lemma ReadableIff(data: Data, p: Bytes, v: nat, history: seq<Bytes>, destroyed: set<nat>)
    requires PathOk(data, p, history, destroyed) && Complete(data, p) && v != 0
    ensures ReadResult(data, p, v) == Success(Value(if 1 <= v <= |history| then history[v - 1] else [], v)) <==>
              MetaOf(data, p).Some? && v in MetaOf(data, p).value.versions
                  && MetaOf(data, p).value.versions[v] == VerMeta(false, false)
  {
    var m := MetaOf(data, p);
    if m.Some? && v in m.value.versions {
      assert Referenced(data, p, v) <==> !m.value.versions[v].destroyed;
    }
  }

  // ---- all paths together ----

  type Histories = map<Bytes, seq<Bytes>>
  type Destroyed = map<Bytes, set<nat>>

  function HistoryOf(h: Histories, p: Bytes): seq<Bytes> {
    if p in h then h[p] else []
  }

  function DestroyedOf(d: Destroyed, p: Bytes): set<nat> {
    if p in d then d[p] else {}
  }

  ghost predicate AllOk(data: Data, h: Histories, d: Destroyed) {
    forall q :: PathOk(data, q, HistoryOf(h, q), DestroyedOf(d, q))
  }

  ghost predicate AllComplete(data: Data) {
    forall q :: Complete(data, q)
  }

  lemma StepKeepsAll(before: Data, after: Data, p: Bytes, h: Histories, d: Destroyed, history: seq<Bytes>,
      destroyed: set<nat>)
    requires AllOk(before, h, d) && OnlyPath(before, after, p) && PathOk(after, p, history, destroyed)
    ensures AllOk(after, h[p := history], d[p := destroyed])
    ensures AllComplete(before) && Complete(after, p) ==> AllComplete(after)
  {
    hide PathOk, Complete, OnlyPath;
    var h', d' := h[p := history], d[p := destroyed];
    forall q
      ensures PathOk(after, q, HistoryOf(h', q), DestroyedOf(d', q))
    {
      if q != p {
        assert PathOk(before, q, HistoryOf(h, q), DestroyedOf(d, q));
        OtherPathsKeep(before, after, p, q, HistoryOf(h, q), DestroyedOf(d, q));
      }
    }
    assert AllOk(after, h', d');
    forall q | q != p
      ensures Complete(before, q) ==> Complete(after, q)
    {
      OtherPathsKeep(before, after, p, q, [], {});
    }
  }

  ghost predicate AllTidy(data: Data) {
    forall q :: Tidy(data, q)
  }

  lemma TidyStep(before: Data, after: Data, p: Bytes)
    requires AllTidy(before) && OnlyPath(before, after, p) && Tidy(after, p)
    ensures AllTidy(after)
  {
    forall q | q != p
      ensures Tidy(after, q)
    {
      KeysNotOwned(p, q);
      assert Tidy(before, q);
    }
  }

  // ---- single storage steps on one path ----

  /** Writing or deleting the data of a version nobody refers to changes nothing that matters. */
  lemma DataStep(data: Data, after: Data, p: Bytes, v: nat, history: seq<Bytes>, destroyed: set<nat>)
    requires PathOk(data, p, history, destroyed) && !Referenced(data, p, v)
    requires after == data - {DataKey(p, v)} || (DataKey(p, v) in after
              && after == data[DataKey(p, v) := after[DataKey(p, v)]])
    ensures PathOk(after, p, history, destroyed) && MetaOf(after, p) == MetaOf(data, p)
    ensures Complete(data, p) ==> Complete(after, p)
  {
    KeysApart(p, p, v);
    forall w | w != v
      ensures DataKey(p, w) != DataKey(p, v)
    {
      if DataKey(p, w) == DataKey(p, v) {
        DataKeyInjective(p, w, p, v);
      }
    }
  }
}
