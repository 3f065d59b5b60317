/**
 * Python values as the SDK hands them over, and Python's dict as an
 * ordered list of entries: a dict remembers the order in which its keys
 * were first inserted, and the update expression below depends on it.
 */
module Dicts {
  import opened Wrappers
  import opened Errors

  /** A dict: its entries in insertion order. A real dict has distinct keys (UniqueKeys). */
  type Dict<V> = seq<(string, V)>

  /** The JSON-like values of SDK requests and responses (numbers are whole numbers here). */
  datatype Value =
    | Null
    | Bool(b: bool)
    | Num(n: int)
    | Str(s: string)
    | List(elems: seq<Value>)
    | Map(entries: Dict<Value>)

  /** Python truthiness: None, False, 0 and empty strings and containers are false. */
  predicate Truthy(v: Value) {
    match v
    case Null => false
    case Bool(b) => b
    case Num(n) => n != 0
    case Str(s) => s != []
    case List(xs) => xs != []
    case Map(es) => es != []
  }

  /** "None or empty": None, an empty string or an empty container (0 and False are kept). */
  predicate IsNoneOrEmpty(v: Value) {
    match v
    case Null => true
    case Str(s) => s == []
    case List(xs) => xs == []
    case Map(es) => es == []
    case _ => false
  }

  function Keys<V>(d: Dict<V>): (ks: seq<string>)
    ensures |ks| == |d|
    ensures forall i :: 0 <= i < |d| ==> ks[i] == d[i].0
  {
    seq(|d|, i requires 0 <= i < |d| => d[i].0)
  }

  /** a is b with some elements left out: the rest kept, in their order. */
  predicate Subsequence<T(==)>(a: seq<T>, b: seq<T>)
    decreases |b|
  {
    || a == []
    || (&& b != []
        && ((a[0] == b[0] && Subsequence(a[1..], b[1..])) || Subsequence(a, b[1..])))
  }

  predicate UniqueKeys<V>(d: Dict<V>) {
    forall i, j :: 0 <= i < j < |d| ==> d[i].0 != d[j].0
  }

  /**
   * `d.get(k)`: the value of the first entry under k, if there is one
   * (GetMissing, GetFound and GetAt relate it to the entries).
   */
  function Get<V>(d: Dict<V>, k: string): Option<V> {
    if d == [] then None
    else if d[0].0 == k then Some(d[0].1)
    else Get(d[1..], k)
  }

  /** Get finds nothing exactly when k is not among the keys. */
  lemma {:induction false} GetMissing<V>(d: Dict<V>, k: string)
    ensures Get(d, k).None? <==> k !in Keys(d)
  {
    if d != [] {
      GetMissing(d[1..], k);
      assert Keys(d) == [d[0].0] + Keys(d[1..]);
    }
  }

  /** What Get finds is the value of an entry under k. */
  lemma GetFound<V>(d: Dict<V>, k: string)
    ensures Get(d, k).Some? ==> (k, Get(d, k).value) in d
  {
  }

  /** With distinct keys, every entry is what Get finds under its key. */
  lemma {:induction false} GetAt<V>(d: Dict<V>, i: nat)
    requires UniqueKeys(d) && i < |d|
    ensures Get(d, d[i].0) == Some(d[i].1)
  {
    if i > 0 {
      assert d[0].0 != d[i].0;
      assert d[1..][i - 1] == d[i];
      GetAt(d[1..], i - 1);
    }
  }

  /**
   * `d[k]`: the value of an entry under k, or a KeyError when no entry has
   * k; in a dict with distinct keys, the value of the only such entry.
   */
  function Subscript<V>(d: Dict<V>, k: string): (r: Result<V, Error>)
    ensures r.Ok? <==> k in Keys(d)
    ensures r.Ok? ==> (k, r.value) in d
    ensures r.Err? ==> r.error == KeyError(k)
    ensures UniqueKeys(d) ==> forall i :: 0 <= i < |d| && d[i].0 == k ==> r == Ok(d[i].1)
  {
    GetMissing(d, k);
    GetFound(d, k);
    assert UniqueKeys(d) ==> forall i :: 0 <= i < |d| && d[i].0 == k ==> Get(d, k) == Some(d[i].1) by {
      if UniqueKeys(d) {
        forall i | 0 <= i < |d| && d[i].0 == k ensures Get(d, k) == Some(d[i].1) {
          GetAt(d, i);
        }
      }
    }
    match Get(d, k)
    case Some(v) => Ok(v)
    case None => Err(KeyError(k))
  }

  /** Where the value Get finds sits among the entries. */
  lemma {:induction false} GetIndex<V>(d: Dict<V>, k: string) returns (i: nat)
    requires Get(d, k).Some?
    ensures i < |d| && d[i] == (k, Get(d, k).value)
  {
    if d[0].0 == k {
      i := 0;
    } else {
      var j := GetIndex(d[1..], k);
      i := j + 1;
    }
  }

  /** `d[k] = v`: an existing key keeps its place and takes the new value; a new key goes last. */
  function Assign<V>(d: Dict<V>, k: string, v: V): Dict<V> {
    if d == [] then [(k, v)]
    else if d[0].0 == k then [(k, v)] + d[1..]
    else [d[0]] + Assign(d[1..], k, v)
  }

  lemma {:induction false} AssignGet<V>(d: Dict<V>, k: string, v: V, k': string)
    ensures Get(Assign(d, k, v), k') == if k' == k then Some(v) else Get(d, k')
  {
    if d != [] && d[0].0 != k {
      AssignGet(d[1..], k, v, k');
      assert ([d[0]] + Assign(d[1..], k, v))[1..] == Assign(d[1..], k, v);
    } else if d != [] {
      assert ([(k, v)] + d[1..])[1..] == d[1..];
    }
  }

  lemma KeysCons<V>(e: (string, V), d: Dict<V>)
    ensures Keys([e] + d) == [e.0] + Keys(d)
  {
  }

  lemma {:induction false} AssignKeys<V>(d: Dict<V>, k: string, v: V)
    ensures Keys(Assign(d, k, v)) == if k in Keys(d) then Keys(d) else Keys(d) + [k]
  {
    if d == [] {
      assert Keys(Assign(d, k, v)) == [k];
    } else {
      KeysCons(d[0], d[1..]);
      assert [d[0]] + d[1..] == d;
      var tail := Keys(d[1..]);
      assert Keys(d) == [d[0].0] + tail;
      if d[0].0 == k {
        KeysCons((k, v), d[1..]);
        assert k in Keys(d);
      } else {
        KeysCons(d[0], Assign(d[1..], k, v));
        AssignKeys(d[1..], k, v);
        assert Keys(Assign(d, k, v)) == [d[0].0] + Keys(Assign(d[1..], k, v));
        if k in tail {
          assert k in Keys(d);
        } else {
          assert k !in Keys(d);
          assert [d[0].0] + (tail + [k]) == ([d[0].0] + tail) + [k];
        }
      }
    }
  }

  lemma {:induction false} AssignUnique<V>(d: Dict<V>, k: string, v: V)
    requires UniqueKeys(d)
    ensures UniqueKeys(Assign(d, k, v))
  {
    if d != [] && d[0].0 != k {
      var t := Assign(d[1..], k, v);
      AssignUnique(d[1..], k, v);
      AssignKeys(d[1..], k, v);
      forall j | 0 <= j < |t| ensures d[0].0 != t[j].0 {
        assert t[j].0 == Keys(t)[j];
        assert d[0].0 !in Keys(d[1..]);
      }
    }
  }

  /** `{**a, **b}`: the entries of a, then each entry of b assigned in turn. */
  function Merge<V>(a: Dict<V>, b: Dict<V>): Dict<V>
    decreases |b|
  {
    if b == [] then a else Merge(Assign(a, b[0].0, b[0].1), b[1..])
  }

  /** On a key of b the merge holds b's value; on any other key, a's (or nothing). */
  lemma {:induction false} MergeGet<V>(a: Dict<V>, b: Dict<V>, k: string)
    requires UniqueKeys(b)
    ensures Get(Merge(a, b), k) == if Get(b, k).Some? then Get(b, k) else Get(a, k)
    decreases |b|
  {
    if b != [] {
      MergeGet(Assign(a, b[0].0, b[0].1), b[1..], k);
      AssignGet(a, b[0].0, b[0].1, k);
      if k == b[0].0 {
        GetMissing(b[1..], k);
      }
    }
  }

  lemma {:induction false} MergeUnique<V>(a: Dict<V>, b: Dict<V>)
    requires UniqueKeys(a)
    ensures UniqueKeys(Merge(a, b))
    decreases |b|
  {
    if b != [] {
      AssignUnique(a, b[0].0, b[0].1);
      MergeUnique(Assign(a, b[0].0, b[0].1), b[1..]);
    }
  }

  /** The keys of a keep their order at the front of the merge. */
  lemma {:induction false} MergeKeepsOrder<V>(a: Dict<V>, b: Dict<V>)
    ensures Keys(a) <= Keys(Merge(a, b))
    decreases |b|
  {
    if b != [] {
      AssignKeys(a, b[0].0, b[0].1);
      MergeKeepsOrder(Assign(a, b[0].0, b[0].1), b[1..]);
    }
  }
}
