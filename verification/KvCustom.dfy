/** internal/kvv2: the user's own key/value data on a secret. */
module KvCustom {
  import opened Text
  import opened Wrappers

  const MAX_PAIRS := 64
  const MAX_KEY := 128
  const MAX_VALUE := 512

  type Custom = map<Bytes, Bytes>

  /** Absent fields leave things as they are; a None value deletes its key. */
  datatype MetaUpdate = MetaUpdate(
    maxVersions: Option<int>,
    casRequired: Option<bool>,
    custom: Option<map<Bytes, Option<Bytes>>>,
    replace: bool)

  function Lookup(m: Custom, k: Bytes): Option<Bytes> {
    if k in m then Some(m[k]) else None
  }

  /** What the update names decides; elsewhere the old data stays unless it is replaced. */
  function EntryAfter(was: Custom, update: map<Bytes, Option<Bytes>>, replace: bool, k: Bytes): Option<Bytes> {
    if k in update then update[k] else if replace then None else Lookup(was, k)
  }

  function Merged(was: Custom, update: map<Bytes, Option<Bytes>>, replace: bool): Custom {
    map k | k in was.Keys + update.Keys && EntryAfter(was, update, replace, k).Some? ::
      EntryAfter(was, update, replace, k).value
  }

  method Merge(was: Custom, update: map<Bytes, Option<Bytes>>, replace: bool) returns (next: Custom)
    ensures next == Merged(was, update, replace)
  {
    next := if replace then map[] else was;
    ghost var base := next;
    var todo := update.Keys;
    while todo != {}
      invariant todo <= update.Keys
      invariant forall k :: Lookup(next, k) == if k in update && k !in todo then update[k] else Lookup(base, k)
      decreases |todo|
    {
      var k :| k in todo;
      todo := todo - {k};
      if update[k].None? {
        next := next - {k};
      } else {
        next := next[k := update[k].value];
      }
    }
    SameEntries(next, was, update, replace);
  }

  lemma SameEntries(next: Custom, was: Custom, update: map<Bytes, Option<Bytes>>, replace: bool)
    requires forall k :: Lookup(next, k) == EntryAfter(was, update, replace, k)
    ensures next == Merged(was, update, replace)
  {
    forall k
      ensures k in next <==> k in Merged(was, update, replace)
      ensures k in next ==> next[k] == Merged(was, update, replace)[k]
    {
      assert Lookup(next, k) == EntryAfter(was, update, replace, k);
    }
  }

  /** Valid UTF-8 without control characters; which bytes are valid UTF-8 is left open. */
  predicate PlainText(utf8: Bytes -> bool, s: Bytes) {
    utf8(s) && forall i :: 0 <= i < |s| ==> 0x20 <= s[i] != 0x7f
  }

  predicate FinePair(utf8: Bytes -> bool, k: Bytes, v: Bytes) {
    1 <= |k| <= MAX_KEY && |v| <= MAX_VALUE && PlainText(utf8, k) && PlainText(utf8, v)
  }

  predicate FineCustom(utf8: Bytes -> bool, m: Custom) {
    |m| <= MAX_PAIRS && forall k :: k in m ==> FinePair(utf8, k, m[k])
  }

  method IsPlainText(utf8: Bytes -> bool, s: Bytes) returns (ok: bool)
    ensures ok <==> PlainText(utf8, s)
  {
    if !utf8(s) {
      return false;
    }
    for i := 0 to |s|
      invariant forall j :: 0 <= j < i ==> 0x20 <= s[j] != 0x7f
    {
      if s[i] < 0x20 || s[i] == 0x7f {
        return false;
      }
    }
    return true;
  }

  method ValidateCustom(utf8: Bytes -> bool, m: Custom) returns (ok: bool)
    ensures ok <==> FineCustom(utf8, m)
  {
    if |m| > MAX_PAIRS {
      return false;
    }
    var todo := m.Keys;
    while todo != {}
      invariant todo <= m.Keys && forall k :: k in m && k !in todo ==> FinePair(utf8, k, m[k])
      decreases |todo|
    {
      var k :| k in todo;
      todo := todo - {k};
      if k == [] || |k| > MAX_KEY || |m[k]| > MAX_VALUE {
        return false;
      }
      var fineKey := IsPlainText(utf8, k);
      var fineValue := IsPlainText(utf8, m[k]);
      if !fineKey || !fineValue {
        return false;
      }
    }
    return true;
  }
}
