// The in-order contents of the kernel's search trees (kl_binary_tree and
// kl_rb_tree): a sequence of key/value entries, strictly ordered by key, and
// the dictionary it stands for.

module SortedEntries {

  datatype Entry<V> = Entry(key: int, value: V)

  /** Keys strictly increase along the sequence. */
  ghost predicate Sorted<V>(s: seq<Entry<V>>)
  {
    forall i, j | 0 <= i < j < |s| :: s[i].key < s[j].key
  }

  ghost predicate AllBelow<V>(s: seq<Entry<V>>, k: int)
  {
    forall i | 0 <= i < |s| :: s[i].key < k
  }

  ghost predicate AllAbove<V>(s: seq<Entry<V>>, k: int)
  {
    forall i | 0 <= i < |s| :: k < s[i].key
  }

  ghost predicate HasKey<V>(s: seq<Entry<V>>, k: int)
  {
    exists i | 0 <= i < |s| :: s[i].key == k
  }

  /** The dictionary a sequence of entries describes (a later entry wins). */
  ghost function AsMap<V>(s: seq<Entry<V>>): (m: map<int, V>)
    ensures |s| > 0 ==> s[|s| - 1].key in m && m[s[|s| - 1].key] == s[|s| - 1].value
  {
    if |s| == 0 then map[] else AsMap(s[..|s| - 1])[s[|s| - 1].key := s[|s| - 1].value]
  }

  lemma {:induction false} AsMapAppend<V>(a: seq<Entry<V>>, b: seq<Entry<V>>)
    ensures AsMap(a + b) == AsMap(a) + AsMap(b)
    decreases |b|
  {
    if |b| == 0 {
      assert a + b == a;
    } else {
      var x := b[|b| - 1];
      var b' := b[..|b| - 1];
      assert (a + b)[..|a + b| - 1] == a + b';
      assert (a + b)[|a + b| - 1] == x;
      AsMapAppend(a, b');
    }
  }

  /** The dictionary's keys are exactly the keys of the entries. */
  lemma {:induction false} AsMapKeys<V>(s: seq<Entry<V>>, k: int)
    ensures k in AsMap(s) <==> HasKey(s, k)
    decreases |s|
  {
    if |s| > 0 {
      var s' := s[..|s| - 1];
      AsMapKeys(s', k);
      if HasKey(s', k) {
        var i :| 0 <= i < |s'| && s'[i].key == k;
        assert s[i].key == k;
      }
      if HasKey(s, k) && s[|s| - 1].key != k {
        var i :| 0 <= i < |s| && s[i].key == k;
        assert s'[i].key == k;
      }
    }
  }

  lemma AboveHasNot<V>(s: seq<Entry<V>>, k: int)
    requires AllAbove(s, k) || AllBelow(s, k)
    ensures k !in AsMap(s)
  {
    AsMapKeys(s, k);
  }

  /** An entry splits a sorted sequence into a lower and an upper part. */
  lemma SortedSplit<V>(a: seq<Entry<V>>, e: Entry<V>, b: seq<Entry<V>>)
    ensures Sorted(a + [e] + b) <==> Sorted(a) && Sorted(b) && AllBelow(a, e.key) && AllAbove(b, e.key)
  {
    var s := a + [e] + b;
    if Sorted(s) {
      forall i, j | 0 <= i < j < |a| ensures a[i].key < a[j].key {
        assert s[i] == a[i] && s[j] == a[j];
      }
      forall i, j | 0 <= i < j < |b| ensures b[i].key < b[j].key {
        assert s[|a| + 1 + i] == b[i] && s[|a| + 1 + j] == b[j];
      }
      forall i | 0 <= i < |a| ensures a[i].key < e.key {
        assert s[i] == a[i] && s[|a|] == e;
      }
      forall i | 0 <= i < |b| ensures e.key < b[i].key {
        assert s[|a| + 1 + i] == b[i] && s[|a|] == e;
      }
    }
    if Sorted(a) && Sorted(b) && AllBelow(a, e.key) && AllAbove(b, e.key) {
      forall i, j | 0 <= i < j < |s| ensures s[i].key < s[j].key {
        if j < |a| {
          assert s[i] == a[i] && s[j] == a[j];
        } else if j == |a| {
          assert s[i] == a[i];
        } else if i > |a| {
          assert s[i] == b[i - |a| - 1] && s[j] == b[j - |a| - 1];
        } else if i == |a| {
          assert s[j] == b[j - |a| - 1];
        } else {
          assert s[i] == a[i] && s[j] == b[j - |a| - 1];
        }
      }
    }
  }

  /** Two sorted runs, one wholly below and one wholly above k, join into a sorted sequence. */
  lemma SortedJoin<V>(a: seq<Entry<V>>, b: seq<Entry<V>>, k: int)
    requires Sorted(a) && Sorted(b) && AllBelow(a, k) && AllAbove(b, k)
    ensures Sorted(a + b)
  {
    var s := a + b;
    forall i, j | 0 <= i < j < |s| ensures s[i].key < s[j].key {
      if j < |a| {
        assert s[i] == a[i] && s[j] == a[j];
      } else if i >= |a| {
        assert s[i] == b[i - |a|] && s[j] == b[j - |a|];
      } else {
        assert s[i] == a[i] && s[j] == b[j - |a|];
      }
    }
  }

  /** A sorted sequence stays sorted when its middle entry is dropped, and loses exactly that key. */
  lemma DropEntry<V>(a: seq<Entry<V>>, e: Entry<V>, b: seq<Entry<V>>)
    requires Sorted(a + [e] + b)
    ensures Sorted(a + b)
    ensures AsMap(a + b) == AsMap(a + [e] + b) - {e.key}
  {
    SortedSplit(a, e, b);
    SortedJoin(a, b, e.key);
    AsMapAppend(a, b);
    AsMapAppend(a, [e]);
    AsMapAppend(a + [e], b);
    AboveHasNot(a, e.key);
    AboveHasNot(b, e.key);
    assert AsMap([e]) == map[e.key := e.value] by {
      assert [e][..0] == [];
    }
  }

  /** An entry placed between the keys below it and the keys above it is added to the dictionary. */
  lemma AddEntry<V>(a: seq<Entry<V>>, e: Entry<V>, b: seq<Entry<V>>)
    requires Sorted(a + b) && AllBelow(a, e.key) && AllAbove(b, e.key)
    ensures Sorted(a + [e] + b)
    ensures AsMap(a + [e] + b) == AsMap(a + b)[e.key := e.value]
  {
    SortedHalves(a, b);
    SortedSplit(a, e, b);
    AsMapAppend(a, b);
    AsMapAppend(a, [e]);
    AsMapAppend(a + [e], b);
    AboveHasNot(b, e.key);
    assert AsMap([e]) == map[e.key := e.value] by {
      assert [e][..0] == [];
    }
  }

  /** Replacing an entry's value keeps the order and updates the dictionary at that key. */
  lemma ReplaceEntry<V>(a: seq<Entry<V>>, e: Entry<V>, v: V, b: seq<Entry<V>>)
    requires Sorted(a + [e] + b)
    ensures Sorted(a + [Entry(e.key, v)] + b)
    ensures AsMap(a + [Entry(e.key, v)] + b) == AsMap(a + [e] + b)[e.key := v]
    ensures e.key in AsMap(a + [e] + b) && AsMap(a + [e] + b)[e.key] == e.value
  {
    var e' := Entry(e.key, v);
    SortedSplit(a, e, b);
    SortedSplit(a, e', b);
    AsMapAppend(a, [e]);
    AsMapAppend(a + [e], b);
    AsMapAppend(a, [e']);
    AsMapAppend(a + [e'], b);
    AboveHasNot(b, e.key);
    assert AsMap([e]) == map[e.key := e.value] by {
      assert [e][..0] == [];
    }
    assert AsMap([e']) == map[e.key := v] by {
      assert [e'][..0] == [];
    }
  }

  lemma SortedHalves<V>(a: seq<Entry<V>>, b: seq<Entry<V>>)
    requires Sorted(a + b)
    ensures Sorted(a) && Sorted(b)
  {
    var s := a + b;
    forall i, j | 0 <= i < j < |a| ensures a[i].key < a[j].key {
      assert s[i] == a[i] && s[j] == a[j];
    }
    forall i, j | 0 <= i < j < |b| ensures b[i].key < b[j].key {
      assert s[|a| + i] == b[i] && s[|a| + j] == b[j];
    }
  }

  /** Regrouping a run split around its middle part. */
  lemma Regroup<T>(b: seq<T>, l: seq<T>, m: seq<T>, r: seq<T>, a: seq<T>)
    ensures b + (l + m + r) + a == (b + l) + m + (r + a)
  {
  }

  lemma Regroup2<T>(b: seq<T>, l: seq<T>, r: seq<T>, a: seq<T>)
    ensures b + (l + r) + a == (b + l) + (r + a)
  {
  }

  /** Removing the first element of a middle part that nothing precedes. */
  lemma DropFront<T>(b: seq<T>, e: T, y: seq<T>, x: seq<T>, a: seq<T>)
    requires b == [] && x == [] + y
    ensures b + ([] + [e] + y) + a == [e] + (b + x + a)
  {
  }

  /** Keys never decrease along the sequence (equal keys allowed). */
  ghost predicate WeakSorted<V>(s: seq<Entry<V>>)
  {
    forall i, j | 0 <= i < j < |s| :: s[i].key <= s[j].key
  }

  ghost predicate AllAtMost<V>(s: seq<Entry<V>>, k: int)
  {
    forall i | 0 <= i < |s| :: s[i].key <= k
  }

  ghost predicate AllAtLeast<V>(s: seq<Entry<V>>, k: int)
  {
    forall i | 0 <= i < |s| :: k <= s[i].key
  }

  lemma SortedIsWeak<V>(s: seq<Entry<V>>)
    requires Sorted(s)
    ensures WeakSorted(s)
  {
  }

  /** In a weakly sorted run, an entry of a middle part is not above an entry of a later part. */
  lemma WeakAcross<V>(b: seq<Entry<V>>, m: seq<Entry<V>>, a: seq<Entry<V>>, x: Entry<V>, y: Entry<V>)
    requires WeakSorted(b + m + a)
    requires (x in b && y in m) || (x in m && y in a)
    ensures x.key <= y.key
  {
    var s := b + m + a;
    if x in b && y in m {
      var i :| 0 <= i < |b| && b[i] == x;
      var j :| 0 <= j < |m| && m[j] == y;
      assert s[i] == x && s[|b| + j] == y;
    } else {
      var i :| 0 <= i < |m| && m[i] == x;
      var j :| 0 <= j < |a| && a[j] == y;
      assert s[|b| + i] == x && s[|b| + |m| + j] == y;
    }
  }

  /** Weakly sorted runs joined around a middle entry they do not cross. */
  lemma WeakJoin<V>(l: seq<Entry<V>>, e: Entry<V>, r: seq<Entry<V>>)
    requires WeakSorted(l) && WeakSorted(r) && AllAtMost(l, e.key) && AllAtLeast(r, e.key)
    ensures WeakSorted(l + [e] + r)
  {
    var s := l + [e] + r;
    forall i, j | 0 <= i < j < |s| ensures s[i].key <= s[j].key {
      if j < |l| {
        assert s[i] == l[i] && s[j] == l[j];
      } else if j == |l| {
        assert s[i] == l[i];
      } else if i > |l| {
        assert s[i] == r[i - |l| - 1] && s[j] == r[j - |l| - 1];
      } else if i == |l| {
        assert s[j] == r[j - |l| - 1];
      } else {
        assert s[i] == l[i] && s[j] == r[j - |l| - 1];
      }
    }
  }
}
