/** A Python dict as an association list. Iteration follows insertion order,
    and assigning to an existing key keeps that key's position. */
module Assoc {
  import opened Wrappers

  datatype Entry<V> = Entry(name: string, value: V)

  /** The dict invariant: no key occurs twice. */
  predicate UniqueKeys<V>(m: seq<Entry<V>>) {
    forall i, j :: 0 <= i < j < |m| ==> m[i].name != m[j].name
  }

  /** `d.keys()`, in iteration order. */
  function Names<V>(m: seq<Entry<V>>): (r: seq<string>)
    ensures |r| == |m|
    ensures forall i :: 0 <= i < |m| ==> r[i] == m[i].name
  {
    seq(|m|, i requires 0 <= i < |m| => m[i].name)
  }

  /** `d.values()`, in iteration order. */
  function Values<V>(m: seq<Entry<V>>): (r: seq<V>)
    ensures |r| == |m|
    ensures forall i :: 0 <= i < |m| ==> r[i] == m[i].value
  {
    seq(|m|, i requires 0 <= i < |m| => m[i].value)
  }

  /** `d.get(n)`: the value stored under `n`, if any. */
  function Lookup<V>(m: seq<Entry<V>>, n: string): (r: Option<V>)
    ensures r.None? <==> n !in Names(m)
    ensures r.Some? ==> exists i :: 0 <= i < |m| && m[i] == Entry(n, r.value)
  {
    if |m| == 0 then None
    else if m[0].name == n then Some(m[0].value)
    else
      var r := Lookup(m[1..], n);
      assert Names(m) == [m[0].name] + Names(m[1..]);
      assert r.Some? ==> exists i :: 0 <= i < |m| && m[i] == Entry(n, r.value) by {
        if r.Some? {
          var i :| 0 <= i < |m[1..]| && m[1..][i] == Entry(n, r.value);
          assert m[i + 1] == Entry(n, r.value);
        }
      }
      r
  }

  /** Position of the key `n`, if present. */
  function IndexOf<V>(m: seq<Entry<V>>, n: string): (r: Option<nat>)
    ensures r.None? <==> n !in Names(m)
    ensures r.Some? ==> r.value < |m| && m[r.value].name == n
    ensures r.Some? ==> forall j :: 0 <= j < r.value ==> m[j].name != n
  {
    if |m| == 0 then None
    else if m[0].name == n then Some(0)
    else
      assert Names(m) == [m[0].name] + Names(m[1..]);
      match IndexOf(m[1..], n)
      case None => None
      case Some(i) => Some(i + 1)
  }

  /** `d[n] = v`: an existing key keeps its position and takes the new
      value; a new key goes to the end. */
  function Put<V>(m: seq<Entry<V>>, n: string, v: V): (r: seq<Entry<V>>)
    ensures n !in Names(m) ==> r == m + [Entry(n, v)]
    ensures n in Names(m) ==> Names(r) == Names(m)
    ensures UniqueKeys(m) ==> UniqueKeys(r)
    ensures UniqueKeys(m) && n in Names(m) ==>
              forall i :: 0 <= i < |m| ==> r[i] == (if m[i].name == n then Entry(n, v) else m[i])
  {
    match IndexOf(m, n)
    case None =>
      var r := m + [Entry(n, v)];
      assert Names(r) == Names(m) + [n];
      r
    case Some(i) => m[i := Entry(n, v)]
  }

  /** In a dict, each key looks up to the value stored beside it. */
  lemma LookupAt<V>(m: seq<Entry<V>>, i: nat)
    requires UniqueKeys(m) && i < |m|
    ensures Lookup(m, m[i].name) == Some(m[i].value)
  {
    var r := Lookup(m, m[i].name);
    assert m[i].name in Names(m);
    var j :| 0 <= j < |m| && m[j] == Entry(m[i].name, r.value);
  }

  /** Storing `v` under `n` makes `n` look up to `v` and leaves every other
      key's value alone. */
  lemma LookupPut<V>(m: seq<Entry<V>>, n: string, v: V, k: string)
    requires UniqueKeys(m)
    ensures Lookup(Put(m, n, v), k) == if k == n then Some(v) else Lookup(m, k)
  {
    var r := Put(m, n, v);
    if k == n {
      if n in Names(m) {
        var i := IndexOf(m, n).value;
        LookupAt(r, i);
      } else {
        LookupAt(r, |m|);
      }
    } else if k in Names(m) {
      var j :| 0 <= j < |m| && Names(m)[j] == k;
      LookupAt(m, j);
      LookupAt(r, j);
    } else {
      assert k !in Names(r) by {
        if n !in Names(m) {
          assert Names(r) == Names(m) + [n];
        }
      }
    }
  }

  /** The dict obtained by assigning every record of `o` in turn, starting
      from an empty dict. */
  function Replay<V>(o: seq<Entry<V>>): (r: seq<Entry<V>>)
    ensures UniqueKeys(r)
  {
    if |o| == 0 then []
    else Put(Replay(o[..|o| - 1]), o[|o| - 1].name, o[|o| - 1].value)
  }

  /** The keys of a replayed dict are exactly the names that occur in the
      records, and there are no more keys than records. */
  lemma {:induction false} ReplayNames<V>(o: seq<Entry<V>>)
    ensures forall n :: n in Names(Replay(o)) <==> n in Names(o)
    ensures |Replay(o)| <= |o|
  {
    if |o| > 0 {
      var init := o[..|o| - 1];
      var last := o[|o| - 1];
      ReplayNames(init);
      assert Names(o) == Names(init) + [last.name];
      if last.name !in Names(Replay(init)) {
        assert Names(Replay(o)) == Names(Replay(init)) + [last.name];
      }
    }
  }

  /** The value a replayed dict holds for a name is the value of the last
      record with that name. */
  lemma {:induction false} LastWriteWins<V>(o: seq<Entry<V>>, i: nat)
    requires i < |o|
    requires forall j :: i < j < |o| ==> o[j].name != o[i].name
    ensures Lookup(Replay(o), o[i].name) == Some(o[i].value)
  {
    var last := o[|o| - 1];
    var init := o[..|o| - 1];
    LookupPut(Replay(init), last.name, last.value, o[i].name);
    if i < |o| - 1 {
      LastWriteWins(init, i);
    }
  }

  /** A name that occurs in no record is absent from the replayed dict. */
  lemma AbsentNameNotReplayed<V>(o: seq<Entry<V>>, n: string)
    requires forall i :: 0 <= i < |o| ==> o[i].name != n
    ensures Lookup(Replay(o), n) == None
  {
    ReplayNames(o);
  }

  /** `a` occurs in `b` in order, possibly with gaps. */
  predicate IsSubsequence<T(==)>(a: seq<T>, b: seq<T>)
    decreases |b|
  {
    if |b| == 0 then |a| == 0
    else (|a| > 0 && a[0] == b[0] && IsSubsequence(a[1..], b[1..])) || IsSubsequence(a, b[1..])
  }
}
