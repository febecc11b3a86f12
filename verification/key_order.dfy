/** The order in which labels are placed: region keys sorted by
    `(-len(k), tuple(sorted(k)))`, and within a key the labels in their
    original order (venn_plot_mpl.py:140-146, venn_plot.py:388-395). */
module KeyOrder {
  import opened Categories
  import opened Layout

  predicate StrictlyOrdered(ks: seq<Key>)
  {
    forall i, j :: 0 <= i < j < |ks| ==> KeyBefore(ks[i], ks[j])
  }

  /** Inserts `k` into an ordered key list, unless it is already there. */
  function InsertKey(k: Key, ks: seq<Key>): (r: seq<Key>)
    requires StrictlyOrdered(ks)
    ensures StrictlyOrdered(r)
    ensures forall x :: x in r <==> x == k || x in ks
  {
    if |ks| == 0 then [k]
    else if k == ks[0] then ks
    else if KeyBefore(k, ks[0]) then
      KeyBeforeFirst(k, ks);
      [k] + ks
    else
      KeyBeforeTotal(k, ks[0]);
      var rest := InsertKey(k, ks[1..]);
      assert forall x :: x in ks <==> x == ks[0] || x in ks[1..] by {
        assert ks == [ks[0]] + ks[1..];
      }
      HeadBeforeRest(ks[0], ks[1..], rest, k);
      [ks[0]] + rest
  }

  lemma KeyBeforeFirst(k: Key, ks: seq<Key>)
    requires StrictlyOrdered(ks) && |ks| > 0 && KeyBefore(k, ks[0])
    ensures StrictlyOrdered([k] + ks)
  {
    var r := [k] + ks;
    forall i, j | 0 <= i < j < |r| ensures KeyBefore(r[i], r[j]) {
      assert r[j] == ks[j - 1];
      if i == 0 {
        if j > 1 {
          KeyBeforeTransitive(k, ks[0], ks[j - 1]);
        }
      } else {
        assert r[i] == ks[i - 1];
      }
    }
  }

  lemma HeadBeforeRest(h: Key, tail: seq<Key>, rest: seq<Key>, k: Key)
    requires StrictlyOrdered([h] + tail) && StrictlyOrdered(rest) && KeyBefore(h, k)
    requires forall x :: x in rest <==> x == k || x in tail
    ensures StrictlyOrdered([h] + rest)
  {
    var t := [h] + tail;
    forall x | x in rest ensures KeyBefore(h, x) {
      if x != k {
        var j :| 0 <= j < |tail| && tail[j] == x;
        assert t[0] == h && t[j + 1] == x;
        assert KeyBefore(t[0], t[j + 1]);
      }
    }
  }

  /** The distinct keys of the first `n` labels, in processing order. */
  function KeysOfPrefix(labels: seq<LabelSpec>, n: nat): (r: seq<Key>)
    requires n <= |labels|
    ensures StrictlyOrdered(r)
    ensures forall k :: k in r <==> exists i :: 0 <= i < n && labels[i].key == k
  {
    if n == 0 then []
    else InsertKey(labels[n - 1].key, KeysOfPrefix(labels, n - 1))
  }

  /** `ordered_keys`: every key that some label has, each once, largest
      regions first and equal sizes by sorted member names. */
  function OrderedKeys(labels: seq<LabelSpec>): (r: seq<Key>)
    ensures StrictlyOrdered(r)
    ensures forall k :: k in r <==> exists i :: 0 <= i < |labels| && labels[i].key == k
  {
    KeysOfPrefix(labels, |labels|)
  }

  /** The indices below `n` of labels whose key is in `ks`, ascending. */
  function Select(labels: seq<LabelSpec>, ks: set<Key>, n: nat): (r: seq<nat>)
    requires n <= |labels|
  {
    if n == 0 then []
    else
      var rest := Select(labels, ks, n - 1);
      if labels[n - 1].key in ks then rest + [n - 1] else rest
  }

  /** A selection holds exactly the indices below `n` whose key is in `ks`,
      strictly ascending. */
  lemma {:induction false} SelectFacts(labels: seq<LabelSpec>, ks: set<Key>, n: nat)
    requires n <= |labels|
    ensures var r := Select(labels, ks, n);
            (forall a :: 0 <= a < |r| ==> r[a] < n && labels[r[a]].key in ks) &&
            (forall i :: 0 <= i < n && labels[i].key in ks ==> i in r) &&
            (forall a, b :: 0 <= a < b < |r| ==> r[a] < r[b])
  {
    if n > 0 {
      SelectFacts(labels, ks, n - 1);
    }
  }

  /** `indices_by_key[key]`: the labels of one key in their original order. */
  function IndicesOf(labels: seq<LabelSpec>, key: Key): seq<nat>
  {
    Select(labels, {key}, |labels|)
  }

  /** `indices_by_key[key]` holds valid indices of labels with that key. */
  lemma IndicesOfFacts(labels: seq<LabelSpec>, key: Key)
    ensures var r := IndicesOf(labels, key);
            && (forall a :: 0 <= a < |r| ==> r[a] < |labels| && labels[r[a]].key == key)
            && (forall a, b :: 0 <= a < b < |r| ==> r[a] < r[b])
            && (forall i :: 0 <= i < |labels| && labels[i].key == key ==> i in r)
  {
    SelectFacts(labels, {key}, |labels|);
    var r := IndicesOf(labels, key);
    assert r == Select(labels, {key}, |labels|);
    forall a | 0 <= a < |r| ensures labels[r[a]].key == key {
      assert labels[r[a]].key in {key};
    }
    forall i | 0 <= i < |labels| && labels[i].key == key ensures i in r {
      assert labels[i].key in {key};
    }
  }

  function Flatten(labels: seq<LabelSpec>, keys: seq<Key>): seq<nat>
  {
    if |keys| == 0 then [] else IndicesOf(labels, keys[0]) + Flatten(labels, keys[1..])
  }

  /** The label indices in the order the greedy loop visits them. */
  function ProcessingOrder(labels: seq<LabelSpec>): (po: seq<nat>)
    ensures multiset(po) == multiset(Range(|labels|))
  {
    FlattenOrderedKeys(labels);
    Flatten(labels, OrderedKeys(labels))
  }

  /** Flattening the ordered keys selects every label index once. */
  lemma FlattenOrderedKeys(labels: seq<LabelSpec>)
    ensures multiset(Flatten(labels, OrderedKeys(labels))) == multiset(Range(|labels|))
  {
    var keys := OrderedKeys(labels);
    FlattenSelects(labels, keys);
    forall i | 0 <= i < |labels| ensures labels[i].key in KeySet(keys) {
      assert labels[i].key in keys;
    }
    SelectEverything(labels, KeySet(keys), |labels|);
  }

  function Range(n: nat): (r: seq<nat>)
    ensures |r| == n
    ensures forall i :: 0 <= i < n ==> r[i] == i
  {
    if n == 0 then [] else Range(n - 1) + [n - 1]
  }

  lemma {:induction false} SelectSplits(labels: seq<LabelSpec>, ks1: set<Key>, ks2: set<Key>, n: nat)
    requires n <= |labels| && ks1 !! ks2
    ensures multiset(Select(labels, ks1 + ks2, n)) == multiset(Select(labels, ks1, n)) + multiset(Select(labels, ks2, n))
  {
    if n > 0 {
      SelectSplits(labels, ks1, ks2, n - 1);
      var k := labels[n - 1].key;
      var both, one, two := Select(labels, ks1 + ks2, n - 1), Select(labels, ks1, n - 1), Select(labels, ks2, n - 1);
      var last := multiset{n - 1};
      if k in ks1 {
        assert k in ks1 + ks2 && k !in ks2;
        assert multiset(Select(labels, ks1 + ks2, n)) == multiset(both) + last;
        assert multiset(Select(labels, ks1, n)) == multiset(one) + last;
      } else if k in ks2 {
        assert k in ks1 + ks2;
        assert multiset(Select(labels, ks1 + ks2, n)) == multiset(both) + last;
        assert multiset(Select(labels, ks2, n)) == multiset(two) + last;
      } else {
        assert k !in ks1 + ks2;
      }
    }
  }

  lemma {:induction false} SelectEverything(labels: seq<LabelSpec>, ks: set<Key>, n: nat)
    requires n <= |labels|
    requires forall i :: 0 <= i < n ==> labels[i].key in ks
    ensures Select(labels, ks, n) == Range(n)
  {
    if n > 0 {
      SelectEverything(labels, ks, n - 1);
    }
  }

  function KeySet(keys: seq<Key>): set<Key>
  {
    set k | k in keys
  }

  lemma {:induction false} FlattenSelects(labels: seq<LabelSpec>, keys: seq<Key>)
    requires StrictlyOrdered(keys)
    ensures multiset(Flatten(labels, keys)) == multiset(Select(labels, KeySet(keys), |labels|))
  {
    if |keys| == 0 {
      assert KeySet(keys) == {};
      SelectNone(labels, |labels|);
    } else {
      var rest := keys[1..];
      assert StrictlyOrdered(rest);
      FlattenSelects(labels, rest);
      assert keys == [keys[0]] + rest;
      assert KeySet(keys) == {keys[0]} + KeySet(rest);
      assert keys[0] !in KeySet(rest) by {
        if keys[0] in KeySet(rest) {
          var j :| 0 <= j < |rest| && rest[j] == keys[0];
          assert KeyBefore(keys[0], keys[j + 1]);
          KeyBeforeIrreflexive(keys[0]);
        }
      }
      SelectSplits(labels, {keys[0]}, KeySet(rest), |labels|);
    }
  }

  lemma {:induction false} SelectNone(labels: seq<LabelSpec>, n: nat)
    requires n <= |labels|
    ensures Select(labels, {}, n) == []
  {
    if n > 0 {
      SelectNone(labels, n - 1);
    }
  }

  /** Every label index is visited exactly once: the processing order is a
      permutation of `0 .. |labels| - 1`. */
  lemma ProcessingOrderIsPermutation(labels: seq<LabelSpec>)
    ensures multiset(ProcessingOrder(labels)) == multiset(Range(|labels|))
    ensures |ProcessingOrder(labels)| == |labels|
    ensures forall i :: 0 <= i < |labels| ==> multiset(ProcessingOrder(labels))[i] == 1
    ensures forall x :: x in ProcessingOrder(labels) ==> x < |labels|
  {
    var po := ProcessingOrder(labels);
    assert |po| == |labels| by {
      assert |multiset(po)| == |po|;
      assert |multiset(Range(|labels|))| == |Range(|labels|)|;
    }
    forall i | 0 <= i < |labels| ensures multiset(po)[i] == 1 {
      RangeCount(|labels|, i);
    }
    forall x | x in po ensures x < |labels| {
      assert x in multiset(po);
      assert x in multiset(Range(|labels|));
    }
  }

  lemma {:induction false} RangeCount(n: nat, i: nat)
    requires i < n
    ensures multiset(Range(n))[i] == 1
  {
    if i < n - 1 {
      RangeCount(n - 1, i);
    } else {
      assert i !in Range(n - 1);
    }
  }

  /** A value that occurs once in a sequence sits at exactly one position. */
  lemma {:induction false} OnceMeansOnePosition(s: seq<nat>, a: int, b: int)
    requires 0 <= a < |s| && 0 <= b < |s| && s[a] == s[b]
    requires multiset(s)[s[a]] == 1
    ensures a == b
  {
    if a != b {
      var lo, hi := if a < b then a else b, if a < b then b else a;
      TwoPositionsCountTwice(s, lo, hi);
    }
  }

  lemma TwoPositionsCountTwice(s: seq<nat>, lo: int, hi: int)
    requires 0 <= lo < hi < |s| && s[lo] == s[hi]
    ensures multiset(s)[s[lo]] >= 2
  {
    assert s == s[..lo] + [s[lo]] + s[lo + 1..hi] + [s[hi]] + s[hi + 1..];
  }

  /** Label `x` may be placed before label `y`: its region is processed
      earlier, or it is the same region and `x` comes first in the list. */
  predicate VisitedBefore(labels: seq<LabelSpec>, x: nat, y: nat)
  {
    x < |labels| && y < |labels| &&
    ((labels[x].key == labels[y].key && x < y) || KeyBefore(labels[x].key, labels[y].key))
  }

  predicate VisitsInOrder(labels: seq<LabelSpec>, po: seq<nat>)
  {
    forall a, b :: 0 <= a < b < |po| ==> VisitedBefore(labels, po[a], po[b])
  }

  /** The processing order visits larger regions first, equal-size regions by
      name, and the labels of one region in their original order. */
  lemma {:induction false} FlattenRespectsOrder(labels: seq<LabelSpec>, keys: seq<Key>)
    requires StrictlyOrdered(keys)
    ensures VisitsInOrder(labels, Flatten(labels, keys))
    ensures forall x :: x in Flatten(labels, keys) ==> x < |labels| && labels[x].key in keys
  {
    if |keys| > 0 {
      var rest := keys[1..];
      FlattenRespectsOrder(labels, rest);
      var first := IndicesOf(labels, keys[0]);
      SelectFacts(labels, {keys[0]}, |labels|);
      var tail := Flatten(labels, rest);
      var po := Flatten(labels, keys);
      assert po == first + tail;
      forall a, b | 0 <= a < b < |po| ensures VisitedBefore(labels, po[a], po[b]) {
        if b < |first| {
          assert po[a] == first[a] && po[b] == first[b];
          assert labels[first[a]].key in {keys[0]} && labels[first[b]].key in {keys[0]};
          assert first[a] < first[b];
          assert labels[po[a]].key == labels[po[b]].key;
        } else if a >= |first| {
          assert po[a] == tail[a - |first|] && po[b] == tail[b - |first|];
          var a', b' := a - |first|, b - |first|;
          assert 0 <= a' < b' < |tail|;
          assert VisitsInOrder(labels, tail);
          assert VisitedBefore(labels, tail[a'], tail[b']);
        } else {
          assert po[a] == first[a] && po[b] == tail[b - |first|];
          assert labels[first[a]].key in {keys[0]};
          assert po[b] in tail;
          FirstBeforeRest(keys, labels[po[b]].key);
          assert labels[po[a]].key == keys[0];
        }
      }
      forall x | x in po ensures x < |labels| && labels[x].key in keys {
        if x in first {
        } else {
          assert x in tail;
        }
      }
    }
  }

  lemma FirstBeforeRest(keys: seq<Key>, k: Key)
    requires StrictlyOrdered(keys) && |keys| > 0 && k in keys[1..]
    ensures KeyBefore(keys[0], k)
  {
    var j :| 0 <= j < |keys| - 1 && keys[1..][j] == k;
    assert keys[j + 1] == k;
  }

  lemma ProcessingOrderRespectsKeys(labels: seq<LabelSpec>)
    ensures VisitsInOrder(labels, ProcessingOrder(labels))
  {
    var keys := OrderedKeys(labels);
    FlattenRespectsOrder(labels, keys);
    assert ProcessingOrder(labels) == Flatten(labels, keys);
  }
}
