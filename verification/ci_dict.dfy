/** `Dictionary<string, V>` built with `StringComparer.OrdinalIgnoreCase`,
    as the WinForms resource generator uses it
    (packages/lucide-winforms/scripts/Program.cs, lines 49-50, 56 and 104).
    Entries are kept in insertion order, which is the order the dictionary
    enumerates them in when nothing is removed; no two keys are equal ignoring
    case. */
module CiDict {
  import opened Wrappers
  import opened Ordering

  datatype Entry<V> = Entry(key: string, value: V)

  type Dict<V> = seq<Entry<V>>

  /** Key equality of the dictionary's comparer. */
  predicate SameKey(a: string, b: string) {
    Same(OrdinalIgnoreCase, a, b)
  }

  predicate UniqueKeys<V>(d: Dict<V>) {
    forall i, j | 0 <= i < j < |d| :: !SameKey(d[i].key, d[j].key)
  }

  /** The keys in enumeration order. */
  function Keys<V>(d: Dict<V>): (ks: seq<string>)
    ensures |ks| == |d|
    ensures forall i | 0 <= i < |d| :: ks[i] == d[i].key
  {
    seq(|d|, i requires 0 <= i < |d| => d[i].key)
  }

  /** Position of the entry whose key matches `k`, ignoring case. */
  function Find<V>(d: Dict<V>, k: string): (r: Option<nat>)
    ensures r.None? <==> forall i | 0 <= i < |d| :: !SameKey(d[i].key, k)
    ensures r.Some? ==> r.value < |d| && SameKey(d[r.value].key, k)
    ensures r.Some? ==> forall i | 0 <= i < r.value :: !SameKey(d[i].key, k)
  {
    if |d| == 0 then None
    else if SameKey(d[0].key, k) then Some(0)
    else match Find(d[1..], k)
      case None => None
      case Some(i) => Some(i + 1)
  }

  /** In a dictionary with unique keys, the matching entry is the only one. */
  lemma FindUnique<V>(d: Dict<V>, k: string, i: nat)
    requires UniqueKeys(d) && i < |d| && SameKey(d[i].key, k)
    ensures Find(d, k) == Some(i)
  {
    var j := Find(d, k).value;
    if j != i {
      assert j < i;
      assert SameKey(d[j].key, d[i].key);
    }
  }

  /** `TryGetValue` */
  function Get<V>(d: Dict<V>, k: string): (r: Option<V>)
    ensures r.None? <==> forall i | 0 <= i < |d| :: !SameKey(d[i].key, k)
    ensures UniqueKeys(d) ==> forall i | 0 <= i < |d| && SameKey(d[i].key, k) :: r == Some(d[i].value)
  {
    assert UniqueKeys(d) ==> forall i | 0 <= i < |d| && SameKey(d[i].key, k) :: Find(d, k) == Some(i) by {
      if UniqueKeys(d) {
        forall i | 0 <= i < |d| && SameKey(d[i].key, k) ensures Find(d, k) == Some(i) {
          FindUnique(d, k, i);
        }
      }
    }
    match Find(d, k)
    case None => None
    case Some(i) => Some(d[i].value)
  }

  /** The indexer `d[k] = v`: an entry whose key matches keeps its place and
      its spelling of the key and takes the new value; otherwise a new entry
      is appended. */
  function Put<V>(d: Dict<V>, k: string, v: V): (r: Dict<V>)
    requires UniqueKeys(d)
    ensures UniqueKeys(r)
    ensures forall k' :: Get(r, k') == if SameKey(k', k) then Some(v) else Get(d, k')
    ensures Get(d, k).Some? ==> Keys(r) == Keys(d)
    ensures Get(d, k).None? ==> Keys(r) == Keys(d) + [k]
    ensures forall j | 0 <= j < |d| && !SameKey(d[j].key, k) :: r[j] == d[j]
    ensures forall j | 0 <= j < |r| && SameKey(r[j].key, k) :: r[j].value == v
  {
    match Find(d, k)
    case Some(i) =>
      PutExisting(d, i, k, v);
      d[i := Entry(d[i].key, v)]
    case None =>
      PutNew(d, k, v);
      d + [Entry(k, v)]
  }

  /** Lookup sees only the keys. */
  lemma FindByKeys<V>(d: Dict<V>, e: Dict<V>, k: string)
    requires Keys(d) == Keys(e)
    ensures Find(d, k) == Find(e, k)
  {
    assert |d| == |e|;
    assert forall i | 0 <= i < |d| :: d[i].key == Keys(d)[i] == e[i].key;
    FindDetermined(d, e, k);
  }

  /** `Find` is determined by which positions match. */
  lemma FindDetermined<V>(d: Dict<V>, e: Dict<V>, k: string)
    requires |d| == |e|
    requires forall i | 0 <= i < |d| :: SameKey(d[i].key, k) == SameKey(e[i].key, k)
    ensures Find(d, k) == Find(e, k)
  {
    match Find(d, k)
    case None =>
    case Some(i) => FindFirst(e, k, i);
  }

  /** The first matching position is the one `Find` returns. */
  lemma FindFirst<V>(d: Dict<V>, k: string, i: nat)
    requires i < |d| && SameKey(d[i].key, k)
    requires forall j | 0 <= j < i :: !SameKey(d[j].key, k)
    ensures Find(d, k) == Some(i)
  {
    assert Find(d, k).Some?;
    var v := Find(d, k).value;
    assert !(v < i);
    assert !(i < v);
  }

  /** Keys that agree position by position keep keys unique. */
  lemma SameKeysUnique<V, W>(d: Dict<V>, e: Dict<W>)
    requires UniqueKeys(d) && Keys(d) == Keys(e)
    ensures UniqueKeys(e)
  {
    forall i, j | 0 <= i < j < |e| ensures !SameKey(e[i].key, e[j].key) {
      assert Keys(d)[i] == e[i].key && Keys(d)[j] == e[j].key;
    }
  }

  lemma PutExisting<V>(d: Dict<V>, i: nat, k: string, v: V)
    requires UniqueKeys(d) && Find(d, k) == Some(i)
    ensures var r := d[i := Entry(d[i].key, v)];
      && UniqueKeys(r) && Keys(r) == Keys(d)
      && (forall k' :: Get(r, k') == if SameKey(k', k) then Some(v) else Get(d, k'))
      && (forall j | 0 <= j < |r| && SameKey(r[j].key, k) :: r[j].value == v)
  {
    var r := d[i := Entry(d[i].key, v)];
    assert Keys(r) == Keys(d);
    SameKeysUnique(d, r);
    forall k' ensures Get(r, k') == if SameKey(k', k) then Some(v) else Get(d, k') {
      PutExistingGet(d, i, k, v, k');
    }
    forall j | 0 <= j < |r| && SameKey(r[j].key, k) ensures r[j].value == v {
      FindUnique(d, k, j);
    }
  }

  lemma PutExistingGet<V>(d: Dict<V>, i: nat, k: string, v: V, k': string)
    requires UniqueKeys(d) && Find(d, k) == Some(i)
    ensures Get(d[i := Entry(d[i].key, v)], k') == if SameKey(k', k) then Some(v) else Get(d, k')
  {
    var r := d[i := Entry(d[i].key, v)];
    assert Keys(r) == Keys(d);
    FindByKeys(r, d, k');
    match Find(d, k')
    case None =>
    case Some(j) =>
      if SameKey(k', k) {
        FindUnique(d, k, j);
      } else {
        assert j != i;
      }
  }

  lemma FindAppend<V>(d: Dict<V>, e: Entry<V>, k: string)
    ensures Find(d + [e], k) == if Find(d, k).Some? then Find(d, k) else if SameKey(e.key, k) then Some(|d|) else None
  {
    var r := d + [e];
    assert forall j | 0 <= j < |d| :: r[j] == d[j];
    assert r[|d|] == e;
    match Find(d, k)
    case Some(i) => FindFirst(r, k, i);
    case None =>
      if SameKey(e.key, k) {
        FindFirst(r, k, |d|);
      } else {
        assert forall j | 0 <= j < |r| :: !SameKey(r[j].key, k);
      }
  }

  lemma PutNew<V>(d: Dict<V>, k: string, v: V)
    requires UniqueKeys(d) && Find(d, k).None?
    ensures var r := d + [Entry(k, v)];
      && UniqueKeys(r) && Keys(r) == Keys(d) + [k]
      && (forall k' :: Get(r, k') == if SameKey(k', k) then Some(v) else Get(d, k'))
      && (forall j | 0 <= j < |r| && SameKey(r[j].key, k) :: r[j].value == v)
  {
    var r := d + [Entry(k, v)];
    assert Keys(r) == Keys(d) + [k];
    PutNewUnique(d, k, v);
    forall k' ensures Get(r, k') == if SameKey(k', k) then Some(v) else Get(d, k') {
      PutNewGet(d, k, v, k');
    }
  }

  lemma PutNewUnique<V>(d: Dict<V>, k: string, v: V)
    requires UniqueKeys(d) && Find(d, k).None?
    ensures UniqueKeys(d + [Entry(k, v)])
    ensures forall j | 0 <= j < |d| :: !SameKey((d + [Entry(k, v)])[j].key, k)
  {
    var r := d + [Entry(k, v)];
    assert forall j | 0 <= j < |d| :: r[j] == d[j];
  }

  lemma PutNewGet<V>(d: Dict<V>, k: string, v: V, k': string)
    requires Find(d, k).None?
    ensures Get(d + [Entry(k, v)], k') == if SameKey(k', k) then Some(v) else Get(d, k')
  {
    var r := d + [Entry(k, v)];
    FindAppend(d, Entry(k, v), k');
    match Find(d, k')
    case None =>
    case Some(j) =>
      assert r[j] == d[j];
  }

  /** A later write to a matching key wins. */
  lemma PutPut<V>(d: Dict<V>, k: string, k2: string, v: V, v2: V)
    requires UniqueKeys(d) && SameKey(k, k2)
    ensures Get(Put(Put(d, k, v), k2, v2), k) == Some(v2)
  {
    var d1 := Put(d, k, v);
    var d2 := Put(d1, k2, v2);
    var i := Find(d2, k2).value;
    assert SameKey(d2[i].key, k);
    FindUnique(d2, k, i);
  }
}
