/** internal/wrapping as values: records and counters in one key space. */
module WrappingSpec {
  import opened Sequences

  const STORAGE_PREFIX := "sys/wrapping/"
  const STATS_KEY := "sys/wrapping-stats"
  const TOKEN_PREFIX := "tuck_wrap_"
  const ACCESSOR_PREFIX := "tuck_wacc_"

  /** In seconds. */
  const DEFAULT_TTL := 5 * 60
  const MAX_TTL := 24 * 60 * 60

  datatype Stats = Stats(wrapped: nat, unwrapped: nat, expired: nat, revoked: nat)
  datatype Counter = Wrapped | Unwrapped | Expired | Revoked

  /** Broken stands for an entry whose JSON does not parse. */
  datatype Value = Record(payload: string, createdAt: int, expiresAt: int) | Counters(stats: Stats) | Broken

  datatype WrapError = NotFound | HasExpired | Storage

  type Data = map<string, Value>

  function KeyOf(id: string): string { STORAGE_PREFIX + id }

  function TokenOf(id: string): string { TOKEN_PREFIX + id }

  /** The bare id, or "" when the token lacks its prefix. */
  function TokenId(token: string): string {
    if TOKEN_PREFIX <= token then token[|TOKEN_PREFIX|..] else ""
  }

  function Lifetime(ttl: int): int {
    var t := if ttl == 0 then DEFAULT_TTL else ttl;
    if t > MAX_TTL then MAX_TTL else t
  }

  function Bumped(s: Stats, c: Counter): Stats {
    match c
    case Wrapped => s.(wrapped := s.wrapped + 1)
    case Unwrapped => s.(unwrapped := s.unwrapped + 1)
    case Expired => s.(expired := s.expired + 1)
    case Revoked => s.(revoked := s.revoked + 1)
  }

  function StoredStats(data: Data): Stats {
    if STATS_KEY in data && data[STATS_KEY].Counters? then data[STATS_KEY].stats else Stats(0, 0, 0, 0)
  }

  function Counted(data: Data, c: Counter): Data {
    data[STATS_KEY := Counters(Bumped(StoredStats(data), c))]
  }

  /** One record gone and one counter up. */
  function Dropped(data: Data, key: string, c: Counter): Data {
    Counted(data - {key}, c)
  }

  // ---- conservation ----

  function LiveKeys(data: Data): set<string> {
    set k | k in data && STORAGE_PREFIX <= k
  }

  /** Every capsule ever wrapped is unwrapped, expired, revoked or still there. */
  predicate Balanced(data: Data) {
    var s := StoredStats(data);
    s.wrapped == s.unwrapped + s.expired + s.revoked + |LiveKeys(data)|
  }

  lemma StatsKeyApart()
    ensures !(STORAGE_PREFIX <= STATS_KEY)
  {
    assert STORAGE_PREFIX[12] != STATS_KEY[12];
  }

  lemma CountedKeys(data: Data, c: Counter)
    ensures LiveKeys(Counted(data, c)) == LiveKeys(data)
    ensures StoredStats(Counted(data, c)) == Bumped(StoredStats(data), c)
  {
    StatsKeyApart();
  }

  lemma WrapBalances(data: Data, id: string, rec: Value)
    requires Balanced(data) && KeyOf(id) !in data
    ensures Balanced(Counted(data[KeyOf(id) := rec], Wrapped))
  {
    var put := data[KeyOf(id) := rec];
    StatsKeyApart();
    CountedKeys(put, Wrapped);
    assert LiveKeys(put) == LiveKeys(data) + {KeyOf(id)};
    assert StoredStats(put) == StoredStats(data);
  }

  lemma DropBalances(data: Data, key: string, c: Counter)
    requires Balanced(data) && key in LiveKeys(data) && c != Wrapped
    ensures Balanced(Dropped(data, key, c))
  {
    StatsKeyApart();
    CountedKeys(data - {key}, c);
    assert LiveKeys(data - {key}) == LiveKeys(data) - {key};
    assert StoredStats(data - {key}) == StoredStats(data);
  }

  // ---- single use ----

  /** Records hold what was wrapped under their id, and no id that was spent has a record. */
  ghost predicate Tracked(data: Data, issued: map<string, string>, spent: seq<string>) {
    && (STATS_KEY in data ==> data[STATS_KEY].Counters?)
    && (forall k :: k in LiveKeys(data) ==> k[|STORAGE_PREFIX|..] in issued && k[|STORAGE_PREFIX|..] !in spent)
    && (forall k :: k in LiveKeys(data) && data[k].Record? ==> data[k].payload == issued[k[|STORAGE_PREFIX|..]])
    && (forall id :: id in spent ==> id in issued)
    && Distinct(spent)
  }

  lemma WrapTracked(data: Data, issued: map<string, string>, spent: seq<string>, id: string, rec: Value)
    requires Tracked(data, issued, spent) && id !in issued && rec.Record?
    ensures Tracked(data[KeyOf(id) := rec], issued[id := rec.payload], spent)
    ensures KeyOf(id) !in data
  {
    StatsKeyApart();
    assert KeyOf(id)[|STORAGE_PREFIX|..] == id;
    assert KeyOf(id) in data ==> KeyOf(id) in LiveKeys(data);
    forall k | k in LiveKeys(data) && k != KeyOf(id)
      ensures k[|STORAGE_PREFIX|..] != id
    {
      assert k == STORAGE_PREFIX + k[|STORAGE_PREFIX|..];
    }
  }

  lemma DeleteTracked(data: Data, issued: map<string, string>, spent: seq<string>, key: string)
    requires Tracked(data, issued, spent)
    ensures Tracked(data - {key}, issued, spent)
  {}

  lemma SpendTracked(data: Data, issued: map<string, string>, spent: seq<string>, id: string)
    requires Tracked(data, issued, spent) && KeyOf(id) in data && data[KeyOf(id)].Record?
    ensures id in issued && id !in spent && data[KeyOf(id)].payload == issued[id]
    ensures Tracked(data - {KeyOf(id)}, issued, spent + [id])
  {
    assert KeyOf(id)[|STORAGE_PREFIX|..] == id && KeyOf(id) in LiveKeys(data);
    forall k | k in LiveKeys(data) && k != KeyOf(id)
      ensures k[|STORAGE_PREFIX|..] != id
    {
      assert k == STORAGE_PREFIX + k[|STORAGE_PREFIX|..];
    }
  }
}
