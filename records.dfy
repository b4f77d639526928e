/** A plain JavaScript object used as a dictionary (`Record<string, V>`): its own
    string keys in insertion order, each key at most once. */
module Records {
  import opened Wrappers

  type Record<V> = seq<(string, V)>

  /** `Object.keys(r)` */
  function Keys<V>(r: Record<V>): (ks: seq<string>)
    ensures |ks| == |r|
    ensures forall i :: 0 <= i < |r| ==> ks[i] == r[i].0
  {
    seq(|r|, i requires 0 <= i < |r| => r[i].0)
  }

  /** `Object.values(r)` */
  function Values<V>(r: Record<V>): (vs: seq<V>)
    ensures |vs| == |r|
    ensures forall i :: 0 <= i < |r| ==> vs[i] == r[i].1
  {
    seq(|r|, i requires 0 <= i < |r| => r[i].1)
  }

  /** The set of keys of `r`. */
  function KeySet<V>(r: Record<V>): set<string> {
    set i | 0 <= i < |r| :: r[i].0
  }

  /** No key occurs twice: what every JavaScript object guarantees. */
  predicate UniqueKeys<V>(r: Record<V>) {
    forall i, j :: 0 <= i < j < |r| ==> r[i].0 != r[j].0
  }

  /** The position of key `k` in `r`, or `|r|` when `k` is not a key. */
  function Find<V>(r: Record<V>, k: string): (i: nat)
    ensures i <= |r|
    ensures i < |r| ==> r[i].0 == k
    ensures forall j :: 0 <= j < i ==> r[j].0 != k
    ensures i == |r| <==> k !in KeySet(r)
  {
    if r == [] then 0
    else if r[0].0 == k then 0
    else
      var j := Find(r[1..], k);
      assert k !in KeySet(r[1..]) ==> forall t :: 1 <= t < |r| ==> r[t].0 != k by {
        if k !in KeySet(r[1..]) {
          forall t | 1 <= t < |r| ensures r[t].0 != k {
            assert r[t].0 == r[1..][t - 1].0;
          }
        }
      }
      assert j < |r| - 1 ==> r[1..][j].0 == k;
      1 + j
  }

  /** `r[k]`, or `None` when `k` is not one of its keys. */
  function Get<V>(r: Record<V>, k: string): (v: Option<V>)
    ensures v.Some? <==> k in KeySet(r)
  {
    var i := Find(r, k);
    if i < |r| then Some(r[i].1) else None
  }

  /** `r[k] = v`: an existing key keeps its position and takes the new value; a new
      key is appended after all existing ones. */
  function Put<V>(r: Record<V>, k: string, v: V): (r': Record<V>)
    ensures k in KeySet(r) ==> |r'| == |r| && Keys(r') == Keys(r)
    ensures k !in KeySet(r) ==> r' == r + [(k, v)]
    ensures KeySet(r') == KeySet(r) + {k}
    ensures Get(r', k) == Some(v)
    ensures forall k' :: k' != k ==> Get(r', k') == Get(r, k')
    ensures UniqueKeys(r) ==> UniqueKeys(r')
  {
    var i := Find(r, k);
    if i < |r| then
      PutExisting(r, i, k, v);
      r[i := (k, v)]
    else
      PutNew(r, k, v);
      r + [(k, v)]
  }

  /** `Find` is fixed by its contract: the first position holding the key. */
  lemma FindIsFirst<V>(r: Record<V>, k: string, i: nat)
    requires i < |r| && r[i].0 == k
    requires forall j :: 0 <= j < i ==> r[j].0 != k
    ensures Find(r, k) == i
  {
  }

  lemma PutExisting<V>(r: Record<V>, i: nat, k: string, v: V)
    requires i == Find(r, k) < |r|
    ensures Keys(r[i := (k, v)]) == Keys(r)
    ensures KeySet(r[i := (k, v)]) == KeySet(r)
    ensures Get(r[i := (k, v)], k) == Some(v)
    ensures forall k' :: k' != k ==> Get(r[i := (k, v)], k') == Get(r, k')
    ensures UniqueKeys(r) ==> UniqueKeys(r[i := (k, v)])
  {
    var r' := r[i := (k, v)];
    SameKeys(r, r');
    FindIsFirst(r', k, i);
    forall k' | k' != k ensures Get(r', k') == Get(r, k') {
      var j := Find(r, k');
      if j < |r| {
        FindIsFirst(r', k', j);
      }
    }
  }

  /** Two records with the same key at every position have the same keys. */
  lemma SameKeys<V>(r: Record<V>, r': Record<V>)
    requires |r| == |r'| && forall t :: 0 <= t < |r| ==> r'[t].0 == r[t].0
    ensures Keys(r') == Keys(r) && KeySet(r') == KeySet(r)
    ensures UniqueKeys(r) ==> UniqueKeys(r')
  {
    assert KeySet(r') == KeySet(r) by {
      forall x | x in KeySet(r) ensures x in KeySet(r') {
        var t :| 0 <= t < |r| && r[t].0 == x;
        assert r'[t].0 == x;
      }
    }
  }

  lemma PutNew<V>(r: Record<V>, k: string, v: V)
    requires k !in KeySet(r)
    ensures KeySet(r + [(k, v)]) == KeySet(r) + {k}
    ensures Get(r + [(k, v)], k) == Some(v)
    ensures forall k' :: k' != k ==> Get(r + [(k, v)], k') == Get(r, k')
    ensures UniqueKeys(r) ==> UniqueKeys(r + [(k, v)])
  {
    var r' := r + [(k, v)];
    assert r'[|r|].0 == k;
    assert KeySet(r') == KeySet(r) + {k} by {
      forall x | x in KeySet(r) ensures x in KeySet(r') {
        var t :| 0 <= t < |r| && r[t].0 == x;
        assert r'[t].0 == x;
      }
    }
    assert forall t :: 0 <= t < |r| ==> r[t].0 != k;
    FindIsFirst(r', k, |r|);
    forall k' | k' != k ensures Get(r', k') == Get(r, k') {
      var j := Find(r, k');
      if j < |r| {
        FindIsFirst(r', k', j);
      }
    }
  }

  lemma KeysCons<V>(r: Record<V>)
    requires r != []
    ensures Keys(r) == [r[0].0] + Keys(r[1..])
  {
  }

  lemma KeysConcat<V>(a: Record<V>, b: Record<V>)
    ensures Keys(a + b) == Keys(a) + Keys(b)
  {
    assert forall i :: 0 <= i < |a + b| ==> Keys(a + b)[i] == (Keys(a) + Keys(b))[i];
  }

  lemma GetHead<V>(r: Record<V>)
    requires r != []
    ensures Get(r, r[0].0) == Some(r[0].1)
    ensures KeySet(r) == {r[0].0} + KeySet(r[1..])
  {
    assert KeySet(r) == {r[0].0} + KeySet(r[1..]) by {
      forall x | x in KeySet(r) ensures x in {r[0].0} + KeySet(r[1..]) {
        var t :| 0 <= t < |r| && r[t].0 == x;
        if t > 0 {
          assert r[1..][t - 1].0 == x;
        }
      }
      forall x | x in KeySet(r[1..]) ensures x in KeySet(r) {
        var t :| 0 <= t < |r[1..]| && r[1..][t].0 == x;
        assert r[t + 1].0 == x;
      }
    }
  }

  lemma GetTail<V>(r: Record<V>, k: string)
    requires r != [] && k != r[0].0
    ensures Get(r, k) == Get(r[1..], k)
  {
    var j := Find(r[1..], k);
    if j < |r| - 1 {
      assert r[j + 1] == r[1..][j];
      FindIsFirst(r, k, j + 1);
    } else {
      GetHead(r);
    }
  }

  /** The keys of `ks` that are not in `present`, in order: the keys that a run of
      assignments appends to an object already holding `present`. */
  function Unseen(ks: seq<string>, present: set<string>): (r: seq<string>)
    ensures forall k :: k in r <==> k in ks && k !in present
  {
    if ks == [] then []
    else (if ks[0] in present then [] else [ks[0]]) + Unseen(ks[1..], present)
  }

  /** Against an empty object every key is unseen. */
  lemma {:induction false} UnseenNone(ks: seq<string>)
    ensures Unseen(ks, {}) == ks
  {
    if ks != [] {
      UnseenNone(ks[1..]);
      assert ks == [ks[0]] + ks[1..];
    }
  }

  /** A key that does not occur in `ks` makes no difference to what is unseen. */
  lemma {:induction false} UnseenIgnores(ks: seq<string>, present: set<string>, x: string)
    requires x !in ks
    ensures Unseen(ks, present + {x}) == Unseen(ks, present)
  {
    if ks != [] {
      UnseenIgnores(ks[1..], present, x);
    }
  }

  /** One assignment followed by the rest of a run of assignments, in terms of the
      keys the whole run appends. */
  lemma PutUnseen<V>(acc: Record<V>, name: string, v: V, rest: seq<string>)
    requires name !in rest
    ensures Keys(Put(acc, name, v)) + Unseen(rest, KeySet(Put(acc, name, v)))
         == Keys(acc) + Unseen([name] + rest, KeySet(acc))
  {
    var p := KeySet(acc);
    var acc' := Put(acc, name, v);
    var u := Unseen([name] + rest, p);
    assert u == (if name in p then [] else [name]) + Unseen(rest, p) by {
      assert ([name] + rest)[0] == name && ([name] + rest)[1..] == rest;
    }
    if name in p {
      assert Keys(acc') == Keys(acc);
      assert KeySet(acc') == p;
      assert u == Unseen(rest, p);
    } else {
      PutNewKeys(acc, name, v);
      assert KeySet(acc') == p + {name};
      UnseenIgnores(rest, p, name);
      assert Unseen(rest, KeySet(acc')) == Unseen(rest, p);
      Regroup(Keys(acc), [name], Unseen(rest, p));
    }
  }

  lemma PutNewKeys<V>(acc: Record<V>, name: string, v: V)
    requires name !in KeySet(acc)
    ensures Keys(Put(acc, name, v)) == Keys(acc) + [name]
  {
    KeysConcat(acc, [(name, v)]);
    assert Keys<V>([(name, v)]) == [name];
  }

  /** Storing a key never moves the keys already there. */
  lemma PutKeepsPrefix<V>(acc: Record<V>, name: string, v: V)
    ensures |Put(acc, name, v)| >= |acc| && Keys(Put(acc, name, v))[..|acc|] == Keys(acc)
  {
    if name !in KeySet(acc) {
      KeysConcat(acc, [(name, v)]);
    }
  }

  /** A prefix of a prefix is a prefix. */
  lemma PrefixOfPrefix<T>(s: seq<T>, t: seq<T>, u: seq<T>)
    requires |s| >= |t| >= |u| && s[..|t|] == t && t[..|u|] == u
    ensures s[..|u|] == u
  {
    assert s[..|u|] == s[..|t|][..|u|];
  }

  /** Concatenation regrouped, for the accumulating loops that append a block at a time. */
  lemma Regroup<T>(a: seq<T>, b: seq<T>, c: seq<T>)
    ensures a + (b + c) == (a + b) + c
  {
  }
}
