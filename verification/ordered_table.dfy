/** A string-keyed table that remembers insertion order, as a Python `dict`
    and a JavaScript plain object do: overwriting a key keeps its position,
    deleting removes it, and a new key goes to the end. Both command tables
    of the terminal framework are such tables; their help listings follow
    this order. */
module OrderedTable {
  import opened Wrappers

  datatype Table<V> = Table(entries: seq<(string, V)>)

  function Empty<V>(): Table<V> { Table([]) }

  function Keys<V>(t: Table<V>): (ks: seq<string>)
    ensures |ks| == |t.entries|
    ensures forall i :: 0 <= i < |ks| ==> ks[i] == t.entries[i].0
  {
    seq(|t.entries|, i requires 0 <= i < |t.entries| => t.entries[i].0)
  }

  function Values<V>(t: Table<V>): (vs: seq<V>)
    ensures |vs| == |t.entries|
    ensures forall i :: 0 <= i < |vs| ==> vs[i] == t.entries[i].1
  {
    seq(|t.entries|, i requires 0 <= i < |t.entries| => t.entries[i].1)
  }

  predicate UniqueKeys<V>(t: Table<V>) {
    forall i, j :: 0 <= i < j < |t.entries| ==> t.entries[i].0 != t.entries[j].0
  }

  /** Position of the first entry with key `k`. */
  function Find<V>(es: seq<(string, V)>, k: string): (r: Option<nat>)
    ensures r.Some? ==> r.value < |es| && es[r.value].0 == k
    ensures r.Some? ==> forall j :: 0 <= j < r.value ==> es[j].0 != k
    ensures r.None? <==> forall j :: 0 <= j < |es| ==> es[j].0 != k
  {
    if es == [] then None
    else if es[0].0 == k then Some(0)
    else match Find(es[1..], k)
      case None =>
        assert forall j :: 1 <= j < |es| ==> es[j].0 == es[1..][j - 1].0;
        None
      case Some(i) => Some(i + 1)
  }

  lemma FindFirst<V>(es: seq<(string, V)>, k: string, i: nat)
    requires i < |es| && es[i].0 == k
    requires forall j :: 0 <= j < i ==> es[j].0 != k
    ensures Find(es, k) == Some(i)
  {
    assert Find(es, k).Some?;
  }

  predicate Has<V>(t: Table<V>, k: string) {
    Find(t.entries, k).Some?
  }

  function Get<V>(t: Table<V>, k: string): Option<V> {
    match Find(t.entries, k)
    case None => None
    case Some(i) => Some(t.entries[i].1)
  }

  /** `d[k] = v` / `obj[k] = v`. */
  function Put<V>(t: Table<V>, k: string, v: V): Table<V> {
    match Find(t.entries, k)
    case None => Table(t.entries + [(k, v)])
    case Some(i) => Table(t.entries[i := (k, v)])
  }

  /** `del d[k]` / `delete obj[k]` when the key is present; otherwise nothing. */
  function Remove<V>(t: Table<V>, k: string): Table<V> {
    match Find(t.entries, k)
    case None => t
    case Some(i) => Table(t.entries[..i] + t.entries[i + 1..])
  }

  /** Writing a key makes it readable, leaves every other key as it was, and
      keeps the keys unique. */
  lemma PutGet<V>(t: Table<V>, k: string, v: V, k2: string)
    requires UniqueKeys(t)
    ensures UniqueKeys(Put(t, k, v))
    ensures Get(Put(t, k, v), k) == Some(v)
    ensures k2 != k ==> Get(Put(t, k, v), k2) == Get(t, k2)
  {
    match Find(t.entries, k) {
      case None => AppendGet(t, k, v, k2);
      case Some(i) => ReplaceGet(t, k, v, k2, i);
    }
  }

  lemma AppendGet<V>(t: Table<V>, k: string, v: V, k2: string)
    requires UniqueKeys(t) && Find(t.entries, k).None?
    ensures UniqueKeys(Table(t.entries + [(k, v)]))
    ensures Get(Table(t.entries + [(k, v)]), k) == Some(v)
    ensures k2 != k ==> Get(Table(t.entries + [(k, v)]), k2) == Get(t, k2)
  {
    var es := t.entries + [(k, v)];
    assert es[|t.entries|] == (k, v);
    FindFirst(es, k, |t.entries|);
    match Find(t.entries, k2) {
      case None =>
      case Some(j) =>
        assert es[j] == t.entries[j];
        FindFirst(es, k2, j);
    }
  }

  lemma ReplaceGet<V>(t: Table<V>, k: string, v: V, k2: string, i: nat)
    requires UniqueKeys(t) && Find(t.entries, k) == Some(i)
    ensures UniqueKeys(Table(t.entries[i := (k, v)]))
    ensures Get(Table(t.entries[i := (k, v)]), k) == Some(v)
    ensures k2 != k ==> Get(Table(t.entries[i := (k, v)]), k2) == Get(t, k2)
  {
    var es := t.entries[i := (k, v)];
    FindFirst(es, k, i);
    if k2 != k {
      match Find(t.entries, k2) {
        case None =>
          assert forall j :: 0 <= j < |es| ==> es[j].0 != k2;
        case Some(j) =>
          assert j != i;
          FindFirst(es, k2, j);
      }
    }
  }


  /** Writing a key never changes what another key reads, even in a table
      with repeated keys, since only the first entry of a key is read. */
  lemma PutOther<V>(t: Table<V>, k: string, v: V, k2: string)
    requires k2 != k
    ensures Get(Put(t, k, v), k2) == Get(t, k2)
  {
    var t2 := Put(t, k, v);
    match Find(t.entries, k) {
      case None =>
        match Find(t.entries, k2) {
          case None =>
            assert forall j :: 0 <= j < |t2.entries| ==> t2.entries[j].0 != k2;
          case Some(j) => FindFirst(t2.entries, k2, j);
        }
      case Some(i) =>
        match Find(t.entries, k2) {
          case None =>
            assert forall j :: 0 <= j < |t2.entries| ==> t2.entries[j].0 != k2;
          case Some(j) => FindFirst(t2.entries, k2, j);
        }
    }
  }

  /** `PutOther` for every other key at once. */
  lemma PutOthers<V>(t: Table<V>, k: string, v: V)
    ensures forall k2 :: k2 != k ==> Get(Put(t, k, v), k2) == Get(t, k2)
  {
    forall k2 | k2 != k ensures Get(Put(t, k, v), k2) == Get(t, k2) {
      PutOther(t, k, v, k2);
    }
  }

  /** Writing a key makes it readable, whatever else the table holds. */
  lemma PutSelf<V>(t: Table<V>, k: string, v: V)
    ensures Get(Put(t, k, v), k) == Some(v)
  {
    match Find(t.entries, k) {
      case None => FindFirst(Put(t, k, v).entries, k, |t.entries|);
      case Some(i) => FindFirst(Put(t, k, v).entries, k, i);
    }
  }

  /** Overwriting keeps the key order; a new key is appended. */
  lemma PutKeys<V>(t: Table<V>, k: string, v: V)
    ensures Has(t, k) ==> Keys(Put(t, k, v)) == Keys(t)
    ensures !Has(t, k) ==> Keys(Put(t, k, v)) == Keys(t) + [k]
  {}

  lemma RemoveAt<V>(es: seq<(string, V)>, i: nat)
    requires i < |es|
    ensures |es[..i] + es[i + 1..]| == |es| - 1
    ensures forall j :: 0 <= j < i ==> (es[..i] + es[i + 1..])[j] == es[j]
    ensures forall j :: i < j < |es| ==> (es[..i] + es[i + 1..])[j - 1] == es[j]
  {}

  /** Removing a key keeps the keys unique and leaves the key absent. */
  lemma RemoveAbsent<V>(t: Table<V>, k: string)
    requires UniqueKeys(t)
    ensures UniqueKeys(Remove(t, k))
    ensures !Has(Remove(t, k), k)
    ensures !Has(t, k) ==> Remove(t, k) == t
  {
    match Find(t.entries, k) {
      case None =>
      case Some(i) =>
        RemoveAt(t.entries, i);
        var es := Remove(t, k).entries;
        forall j | 0 <= j < |es| ensures es[j].0 != k {
          if j >= i { assert es[(j + 1) - 1] == t.entries[j + 1]; }
        }
    }
  }

  /** Removing a key leaves every other key as it was. */
  lemma RemoveOther<V>(t: Table<V>, k: string, k2: string)
    requires UniqueKeys(t)
    requires k2 != k
    ensures Get(Remove(t, k), k2) == Get(t, k2)
  {
    match Find(t.entries, k) {
      case None =>
      case Some(i) =>
        RemoveAt(t.entries, i);
        var es := Remove(t, k).entries;
        match Find(t.entries, k2) {
          case None =>
            forall j | 0 <= j < |es| ensures es[j].0 != k2 {
              if j >= i { assert es[(j + 1) - 1] == t.entries[j + 1]; }
            }
          case Some(j) =>
            if j < i {
              FindFirst(es, k2, j);
            } else {
              assert es[j - 1] == t.entries[j];
              forall m | 0 <= m < j - 1 ensures es[m].0 != k2 {
                if m >= i { assert es[(m + 1) - 1] == t.entries[m + 1]; }
              }
              FindFirst(es, k2, j - 1);
            }
        }
    }
  }

  /** Removing a key from a table with unique keys leaves it unique and
      without that key, every other key reading as before; removing an
      absent key changes nothing. */
  lemma RemoveSpec<V>(t: Table<V>, k: string)
    ensures UniqueKeys(t) ==> UniqueKeys(Remove(t, k)) && !Has(Remove(t, k), k)
    ensures !Has(t, k) ==> Remove(t, k) == t
    ensures UniqueKeys(t) ==> forall k2 :: k2 != k ==> Get(Remove(t, k), k2) == Get(t, k2)
  {
    if UniqueKeys(t) {
      RemoveAbsent(t, k);
      forall k2 | k2 != k ensures Get(Remove(t, k), k2) == Get(t, k2) {
        RemoveOther(t, k, k2);
      }
    }
  }

  /** The remaining keys keep their relative order. */
  lemma RemoveKeys<V>(t: Table<V>, k: string)
    ensures Has(t, k) ==> exists i :: 0 <= i < |t.entries| && Keys(Remove(t, k)) == Keys(t)[..i] + Keys(t)[i + 1..]
  {
    match Find(t.entries, k)
    case None =>
    case Some(i) =>
      assert Keys(Remove(t, k)) == Keys(t)[..i] + Keys(t)[i + 1..];
  }
}
