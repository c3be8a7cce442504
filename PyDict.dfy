/**
 * A Python `dict` as the credit parser uses it: its items in insertion
 * order.  Assigning to a key that is already present replaces the value
 * in place; a new key goes to the end.
 */
module PyDict {
  import opened PyText

  datatype Dict<K, V> = Dict(items: seq<(K, V)>)

  /** `{}`. */
  function Empty<K, V>(): (d: Dict<K, V>)
    ensures |d.items| == 0
  {
    Dict([])
  }

  /** No key appears twice. */
  predicate Valid<K(==), V>(d: Dict<K, V>)
  {
    forall i, j :: 0 <= i < j < |d.items| ==> d.items[i].0 != d.items[j].0
  }

  /** The position of key `k` among the items from index `i` on. */
  function SlotFrom<K(==), V>(items: seq<(K, V)>, k: K, i: nat): (r: Option<nat>)
    requires i <= |items|
    ensures r.Some? ==> i <= r.value < |items| && items[r.value].0 == k
    decreases |items| - i
  {
    if i == |items| then None
    else if items[i].0 == k then Some(i)
    else SlotFrom(items, k, i + 1)
  }

  /** The position of key `k`, if it is present. */
  function Slot<K(==), V>(d: Dict<K, V>, k: K): (r: Option<nat>)
    ensures r.Some? ==> r.value < |d.items| && d.items[r.value].0 == k
  {
    SlotFrom(d.items, k, 0)
  }

  /** `SlotFrom` finds no key before the one it names, and `None` means absent. */
  lemma {:induction false} SlotFromFirst<K, V>(items: seq<(K, V)>, k: K, i: nat)
    requires i <= |items|
    ensures SlotFrom(items, k, i).Some? ==> forall j :: i <= j < SlotFrom(items, k, i).value ==> items[j].0 != k
    ensures SlotFrom(items, k, i).None? ==> forall j :: i <= j < |items| ==> items[j].0 != k
    decreases |items| - i
  {
    if i < |items| && items[i].0 != k {
      SlotFromFirst(items, k, i + 1);
    }
  }

  /** `k in d`. */
  predicate HasKey<K(==), V>(d: Dict<K, V>, k: K)
  {
    Slot(d, k).Some?
  }

  /** A key is present exactly when some item carries it. */
  lemma HasKeyIff<K, V>(d: Dict<K, V>, k: K)
    ensures HasKey(d, k) <==> exists i :: 0 <= i < |d.items| && d.items[i].0 == k
  {
    SlotFromFirst(d.items, k, 0);
  }

  /** `d.get(k)`. */
  function Get<K(==), V>(d: Dict<K, V>, k: K): (r: Option<V>)
    ensures r.Some? <==> HasKey(d, k)
  {
    match Slot(d, k)
    case Some(i) => Some(d.items[i].1)
    case None => None
  }

  /** `d[k] = v`. */
  function Put<K(==), V>(d: Dict<K, V>, k: K, v: V): (r: Dict<K, V>)
    ensures |r.items| == if HasKey(d, k) then |d.items| else |d.items| + 1
  {
    match Slot(d, k)
    case Some(i) => Dict(d.items[i := (k, v)])
    case None => Dict(d.items + [(k, v)])
  }

  /** The keys in insertion order: `list(d)`. */
  function Keys<K, V>(d: Dict<K, V>): (r: seq<K>)
    ensures |r| == |d.items|
    ensures forall i :: 0 <= i < |r| ==> r[i] == d.items[i].0
  {
    seq(|d.items|, i requires 0 <= i < |d.items| => d.items[i].0)
  }

  /** The values in insertion order: `list(d.values())`. */
  function Values<K, V>(d: Dict<K, V>): (r: seq<V>)
    ensures |r| == |d.items|
    ensures forall i :: 0 <= i < |r| ==> r[i] == d.items[i].1
  {
    seq(|d.items|, i requires 0 <= i < |d.items| => d.items[i].1)
  }

  /** Assignment keeps the keys distinct. */
  lemma PutValid<K, V>(d: Dict<K, V>, k: K, v: V)
    requires Valid(d)
    ensures Valid(Put(d, k, v))
  {
    SlotFromFirst(d.items, k, 0);
  }

  /** After `d[k] = v`, `d[k]` is `v` and every other key keeps its value. */
  lemma GetPut<K, V>(d: Dict<K, V>, k: K, v: V, k': K)
    requires Valid(d)
    ensures Get(Put(d, k, v), k') == if k' == k then Some(v) else Get(d, k')
  {
    var r := Put(d, k, v);
    PutValid(d, k, v);
    SlotFromFirst(d.items, k, 0);
    SlotFromFirst(d.items, k', 0);
    SlotFromFirst(r.items, k', 0);
    var sr, sd := Slot(r, k'), Slot(d, k');
    if k' != k {
      if sd.Some? {
        assert r.items[sd.value] == d.items[sd.value];
        SlotUnique(r, k', sr.value, sd.value);
      }
    } else {
      var j := if Slot(d, k).Some? then Slot(d, k).value else |d.items|;
      assert r.items[j] == (k, v);
      SlotUnique(r, k, sr.value, j);
    }
  }

  /** In a valid dict a key sits at one position only. */
  lemma SlotUnique<K, V>(d: Dict<K, V>, k: K, i: nat, j: nat)
    requires Valid(d) && i < |d.items| && j < |d.items|
    requires d.items[i].0 == k && d.items[j].0 == k
    ensures i == j
  {
  }

  /** A present key keeps its place; a new key is appended. */
  lemma PutKeys<K, V>(d: Dict<K, V>, k: K, v: V)
    ensures Keys(Put(d, k, v)) == if HasKey(d, k) then Keys(d) else Keys(d) + [k]
  {
  }

  /** `k in d` holds exactly when `k` is in `list(d)`. */
  lemma HasKeyInKeys<K, V>(d: Dict<K, V>, k: K)
    ensures HasKey(d, k) <==> k in Keys(d)
  {
    HasKeyIff(d, k);
    if k in Keys(d) {
      var i :| 0 <= i < |Keys(d)| && Keys(d)[i] == k;
      assert d.items[i].0 == k;
    }
  }

  /** In a valid dict the value stored at a position is what its key looks up. */
  lemma GetItem<K, V>(d: Dict<K, V>, i: nat)
    requires Valid(d) && i < |d.items|
    ensures Get(d, d.items[i].0) == Some(d.items[i].1)
  {
    var k := d.items[i].0;
    HasKeyIff(d, k);
    SlotUnique(d, k, Slot(d, k).value, i);
  }

  /** Every item after `d[k] = v` is the new item or the item that was at that place. */
  lemma PutItem<K, V>(d: Dict<K, V>, k: K, v: V, i: nat)
    requires i < |Put(d, k, v).items|
    ensures Put(d, k, v).items[i] == (k, v) || (i < |d.items| && Put(d, k, v).items[i] == d.items[i])
  {
  }
}
