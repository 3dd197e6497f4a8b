/**
 * A PHP array with string keys: an ordered dictionary. Assigning to a key
 * that is already present replaces its value in place; assigning to a new
 * key appends it at the end. Iteration follows that order.
 */
module PhpArray {
  import opened Wrappers

  type Entries<V> = seq<(string, V)>

  predicate HasKey<V>(m: Entries<V>, k: string) {
    exists i :: 0 <= i < |m| && m[i].0 == k
  }

  ghost predicate UniqueKeys<V>(m: Entries<V>) {
    forall i, j :: 0 <= i < j < |m| ==> m[i].0 != m[j].0
  }

  /** Position of `k` in `m`, if any. */
  function Find<V>(m: Entries<V>, k: string): (r: Option<nat>)
    ensures r.Some? ==> r.value < |m| && m[r.value].0 == k
    ensures r.Some? ==> forall i :: 0 <= i < r.value ==> m[i].0 != k
    ensures r.None? <==> !HasKey(m, k)
  {
    if m == [] then None
    else if m[0].0 == k then Some(0)
    else match Find(m[1..], k)
      case None => None
      case Some(i) => Some(i + 1)
  }

  /** `$m[$k]`, or None where PHP reports an undefined index. */
  function Get<V>(m: Entries<V>, k: string): (r: Option<V>)
    ensures r.Some? <==> HasKey(m, k)
  {
    match Find(m, k)
    case None => None
    case Some(i) => Some(m[i].1)
  }

  /** `$m[$k] = $v`; what it does to the array is stated by `PutSpec`. */
  function Put<V>(m: Entries<V>, k: string, v: V): Entries<V> {
    match Find(m, k)
    case None => m + [(k, v)]
    case Some(i) => m[i := (k, v)]
  }

  /**
   * After `$m[$k] = $v`, `k` holds `v` and every other key what it held; an
   * existing key keeps its position, a new one is appended at the end.
   */
  lemma PutSpec<V>(m: Entries<V>, k: string, v: V)
    ensures Get(Put(m, k, v), k) == Some(v)
    ensures forall k' :: k' != k ==> Get(Put(m, k, v), k') == Get(m, k')
    ensures HasKey(m, k) ==> |Put(m, k, v)| == |m| && forall i :: 0 <= i < |m| ==> Put(m, k, v)[i].0 == m[i].0
    ensures !HasKey(m, k) ==> Put(m, k, v) == m + [(k, v)]
    ensures UniqueKeys(m) ==> UniqueKeys(Put(m, k, v))
  {
    var r := Put(m, k, v);
    match Find(m, k)
    case None =>
      assert Find(r, k) == Some(|m|) by { FindInExtension(m, k, v); }
      forall k' | k' != k ensures Get(r, k') == Get(m, k') {
        FindInExtension(m, k, v);
        var f := Find(m, k');
        if f.Some? {
          assert r[f.value] == m[f.value];
        }
      }
    case Some(i) =>
      assert Find(r, k) == Some(i) by { FindAfterUpdate(m, i, k, v, k); }
      forall k' | k' != k ensures Get(r, k') == Get(m, k') {
        FindAfterUpdate(m, i, k, v, k');
        var f := Find(m, k');
        if f.Some? {
          assert f.value != i;
          assert r[f.value] == m[f.value];
        }
      }
  }

  /** The lookups after `$m[$k] = $v`: k gives v, every other key what it gave before. */
  lemma PutGet<V>(m: Entries<V>, k: string, v: V)
    ensures Get(Put(m, k, v), k) == Some(v)
    ensures forall k' :: k' != k ==> Get(Put(m, k, v), k') == Get(m, k')
  {
    PutSpec(m, k, v);
  }

  /** `$m[$k] = $v` leaves every other key's value alone. */
  lemma PutOther<V>(m: Entries<V>, k: string, v: V, k': string)
    requires k' != k
    ensures Get(Put(m, k, v), k') == Get(m, k')
  {
    PutSpec(m, k, v);
  }

  /** `$m[$k] = $v` keeps keys unique. */
  lemma PutUnique<V>(m: Entries<V>, k: string, v: V)
    requires UniqueKeys(m)
    ensures UniqueKeys(Put(m, k, v))
  {
    PutSpec(m, k, v);
  }

  lemma {:induction false} FindInExtension<V>(m: Entries<V>, k: string, v: V)
    ensures !HasKey(m, k) ==> Find(m + [(k, v)], k) == Some(|m|)
    ensures forall k' :: k' != k ==> Find(m + [(k, v)], k') == Find(m, k')
  {
    var r := m + [(k, v)];
    if m != [] {
      FindInExtension(m[1..], k, v);
      assert r[1..] == m[1..] + [(k, v)];
    }
  }

  lemma {:induction false} FindAfterUpdate<V>(m: Entries<V>, i: nat, k: string, v: V, k': string)
    requires i < |m| && m[i].0 == k
    ensures Find(m[i := (k, v)], k') == Find(m, k')
  {
    if i > 0 {
      FindAfterUpdate(m[1..], i - 1, k, v, k');
      assert m[i := (k, v)][1..] == m[1..][i - 1 := (k, v)];
    }
  }

  /** In an array with unique keys, the entry at position `i` is what `Get` finds for its key. */
  lemma GetAt<V>(m: Entries<V>, i: nat)
    requires UniqueKeys(m) && i < |m|
    ensures Get(m, m[i].0) == Some(m[i].1)
  {
    var f := Find(m, m[i].0);
    assert f.Some?;
    assert f.value == i;
  }
}
