/**
 * The order dumpToCSV sorts by, and the result of its stable sort as a
 * function on sequences.
 *
 * The comparator `a.id.localeCompare(b.id)` depends on the host's collation,
 * which is a total preorder (distinct strings may compare equal); the model
 * replaces it by the lexicographic order on characters, a total order, under
 * which only equal ids tie.
 */
module IdOrder {
  import opened Types

  // ---------------------------------------------------------------------------
  // The order on ids

  /** `a` sorts before or together with `b`: lexicographic by character code. */
  predicate IdLe(a: string, b: string)
  {
    if a == [] then true
    else if b == [] then false
    else if a[0] != b[0] then a[0] < b[0]
    else IdLe(a[1..], b[1..])
  }

  lemma {:induction false} IdLeReflexive(a: string)
    ensures IdLe(a, a)
  {
    if a != [] {
      IdLeReflexive(a[1..]);
    }
  }

  lemma {:induction false} IdLeTotal(a: string, b: string)
    ensures IdLe(a, b) || IdLe(b, a)
  {
    if a != [] && b != [] && a[0] == b[0] {
      IdLeTotal(a[1..], b[1..]);
    }
  }

  lemma {:induction false} IdLeAntisymmetric(a: string, b: string)
    requires IdLe(a, b) && IdLe(b, a)
    ensures a == b
  {
    if a != [] && b != [] {
      IdLeAntisymmetric(a[1..], b[1..]);
      assert a == [a[0]] + a[1..] && b == [b[0]] + b[1..];
    }
  }

  lemma {:induction false} IdLeTransitive(a: string, b: string, c: string)
    requires IdLe(a, b) && IdLe(b, c)
    ensures IdLe(a, c)
  {
    if a != [] && b != [] && c != [] && a[0] == b[0] && b[0] == c[0] {
      IdLeTransitive(a[1..], b[1..], c[1..]);
    }
  }

  // ---------------------------------------------------------------------------
  // Sortedness and stability

  /** Records in ascending id order. */
  predicate SortedById(s: seq<HymnData>)
  {
    forall i, j :: 0 <= i < j < |s| ==> IdLe(s[i].id, s[j].id)
  }

  /** The records of `s` whose id is `key`, in their order in `s`. */
  function WithId(s: seq<HymnData>, key: string): seq<HymnData>
  {
    if s == [] then []
    else WithId(s[..|s| - 1], key) + (if s[|s| - 1].id == key then [s[|s| - 1]] else [])
  }

  lemma {:induction false} WithIdAppend(a: seq<HymnData>, b: seq<HymnData>, key: string)
    ensures WithId(a + b, key) == WithId(a, key) + WithId(b, key)
    decreases |b|
  {
    if b == [] {
      assert a + b == a;
    } else {
      assert (a + b)[..|a + b| - 1] == a + b[..|b| - 1];
      assert (a + b)[|a + b| - 1] == b[|b| - 1];
      WithIdAppend(a, b[..|b| - 1], key);
    }
  }

  // ---------------------------------------------------------------------------
  // The sort: insertion from the right, as Array.prototype.sort must order
  // records (ascending, equal ids in their original order)

  /** Insert `x` after every record of `t` whose id is not greater than its own. */
  function InsertById(t: seq<HymnData>, x: HymnData): (r: seq<HymnData>)
    ensures |r| == |t| + 1
  {
    if t == [] || IdLe(t[|t| - 1].id, x.id) then t + [x]
    else InsertById(t[..|t| - 1], x) + [t[|t| - 1]]
  }

  /** Inserting adds exactly `x` to the records. */
  lemma {:induction false} InsertByIdPermutes(t: seq<HymnData>, x: HymnData)
    ensures multiset(InsertById(t, x)) == multiset(t) + multiset{x}
  {
    if t != [] && !IdLe(t[|t| - 1].id, x.id) {
      var init := t[..|t| - 1];
      assert t == init + [t[|t| - 1]];
      InsertByIdPermutes(init, x);
    }
  }

  /** `data.sort((a, b) => a.id.localeCompare(b.id))` on a sequence. */
  function StableSortById(s: seq<HymnData>): (r: seq<HymnData>)
    ensures |r| == |s|
  {
    if s == [] then [] else InsertById(StableSortById(s[..|s| - 1]), s[|s| - 1])
  }

  /** The sort is a permutation: it neither loses, adds nor duplicates a record. */
  lemma {:induction false} StableSortByIdPermutes(s: seq<HymnData>)
    ensures multiset(StableSortById(s)) == multiset(s)
  {
    if s != [] {
      StableSortByIdPermutes(s[..|s| - 1]);
      InsertByIdPermutes(StableSortById(s[..|s| - 1]), s[|s| - 1]);
      assert s == s[..|s| - 1] + [s[|s| - 1]];
    }
  }

  /** Inserting into a sorted sequence keeps it sorted. */
  lemma {:induction false} InsertByIdSorted(t: seq<HymnData>, x: HymnData)
    requires SortedById(t)
    ensures SortedById(InsertById(t, x))
  {
    if t == [] {
    } else if IdLe(t[|t| - 1].id, x.id) {
      var r := t + [x];
      forall i, j | 0 <= i < j < |r|
        ensures IdLe(r[i].id, r[j].id)
      {
        if j == |t| && i < |t| - 1 {
          IdLeTransitive(t[i].id, t[|t| - 1].id, x.id);
        }
      }
    } else {
      var init, last := t[..|t| - 1], t[|t| - 1];
      InsertByIdSorted(init, x);
      IdLeTotal(last.id, x.id);
      var front := InsertById(init, x);
      InsertByIdPermutes(init, x);
      forall i | 0 <= i < |front|
        ensures IdLe(front[i].id, last.id)
      {
        var e := front[i];
        assert e in multiset(front);
        if e != x {
          assert e in multiset(init);
          var k :| 0 <= k < |init| && init[k] == e;
          assert t[k] == e;
        }
      }
    }
  }

  /** The sort yields records in ascending id order. */
  lemma {:induction false} StableSortByIdSorted(s: seq<HymnData>)
    ensures SortedById(StableSortById(s))
  {
    if s != [] {
      StableSortByIdSorted(s[..|s| - 1]);
      InsertByIdSorted(StableSortById(s[..|s| - 1]), s[|s| - 1]);
    }
  }

  /** Inserting keeps, for every id, the records of that id in their order, `x` last. */
  lemma {:induction false} InsertByIdStable(t: seq<HymnData>, x: HymnData, key: string)
    ensures WithId(InsertById(t, x), key) == WithId(t + [x], key)
  {
    if t != [] && !IdLe(t[|t| - 1].id, x.id) {
      var init, last := t[..|t| - 1], t[|t| - 1];
      assert last.id != x.id by {
        IdLeReflexive(x.id);
      }
      // at most one of [last] and [x] carries `key`, so they commute under WithId
      assert WithId([x], key) + WithId([last], key) == WithId([last], key) + WithId([x], key) by {
        assert WithId([x], key) == (if x.id == key then [x] else []);
        assert WithId([last], key) == (if last.id == key then [last] else []);
      }
      calc {
        WithId(InsertById(t, x), key);
        WithId(InsertById(init, x) + [last], key);
        { WithIdAppend(InsertById(init, x), [last], key); }
        WithId(InsertById(init, x), key) + WithId([last], key);
        { InsertByIdStable(init, x, key); }
        WithId(init + [x], key) + WithId([last], key);
        { WithIdAppend(init, [x], key); }
        WithId(init, key) + WithId([x], key) + WithId([last], key);
        WithId(init, key) + WithId([last], key) + WithId([x], key);
        { WithIdAppend(init, [last], key); }
        WithId(init + [last], key) + WithId([x], key);
        { assert init + [last] == t; }
        WithId(t, key) + WithId([x], key);
        { WithIdAppend(t, [x], key); }
        WithId(t + [x], key);
      }
    }
  }

  /** The sort is stable: the records sharing an id keep their relative order. */
  lemma {:induction false} StableSortByIdStable(s: seq<HymnData>, key: string)
    ensures WithId(StableSortById(s), key) == WithId(s, key)
  {
    if s != [] {
      var init, last := s[..|s| - 1], s[|s| - 1];
      StableSortByIdStable(init, key);
      InsertByIdStable(StableSortById(init), last, key);
      WithIdAppend(StableSortById(init), [last], key);
      WithIdAppend(init, [last], key);
      assert s == init + [last];
    }
  }

  /** Sorting what is already sorted changes nothing; in particular sorting twice equals sorting once. */
  lemma {:induction false} StableSortByIdOfSorted(s: seq<HymnData>)
    requires SortedById(s)
    ensures StableSortById(s) == s
  {
    if s != [] {
      var init := s[..|s| - 1];
      assert SortedById(init);
      StableSortByIdOfSorted(init);
      if |init| > 0 {
        assert IdLe(init[|init| - 1].id, s[|s| - 1].id);
      }
    }
  }

  /** Every record picked out for `key` comes from `s` and has that id. */
  lemma {:induction false} WithIdMember(s: seq<HymnData>, key: string, e: HymnData)
    requires e in WithId(s, key)
    ensures e in s && e.id == key
  {
    if s != [] {
      var init, last := s[..|s| - 1], s[|s| - 1];
      if e in WithId(init, key) {
        WithIdMember(init, key, e);
        assert init == s[..|s| - 1];
      }
    }
  }

  /** In a sorted sequence no record has an id above the last one's. */
  lemma SortedLastIsMax(u: seq<HymnData>, e: HymnData)
    requires SortedById(u) && e in u
    ensures IdLe(e.id, u[|u| - 1].id)
  {
    var k :| 0 <= k < |u| && u[k] == e;
    if k == |u| - 1 {
      IdLeReflexive(e.id);
    }
  }

  /** Sorted sequences holding the same records under both last ids end with the same record. */
  lemma SameLast(t: seq<HymnData>, u: seq<HymnData>)
    requires t != [] && u != []
    requires SortedById(t) && SortedById(u)
    requires WithId(t, t[|t| - 1].id) == WithId(u, t[|t| - 1].id)
    requires WithId(t, u[|u| - 1].id) == WithId(u, u[|u| - 1].id)
    ensures t[|t| - 1] == u[|u| - 1]
  {
    var x, y := t[|t| - 1], u[|u| - 1];
    assert x.id == y.id by {
      WithIdLastOf(t);
      WithIdMember(u, x.id, x);
      SortedLastIsMax(u, x);
      WithIdLastOf(u);
      WithIdMember(t, y.id, y);
      SortedLastIsMax(t, y);
      IdLeAntisymmetric(x.id, y.id);
    }
    WithIdLastOf(t);
    WithIdLastOf(u);
  }

  /** The last record picked out for the last record's id is that record. */
  lemma WithIdLastOf(s: seq<HymnData>)
    requires s != []
    ensures var w := WithId(s, s[|s| - 1].id); w != [] && w[|w| - 1] == s[|s| - 1]
  {
  }

  /** Taking the same last record off both leaves the same records per id. */
  lemma SameInits(t: seq<HymnData>, u: seq<HymnData>, key: string)
    requires t != [] && u != [] && t[|t| - 1] == u[|u| - 1]
    requires WithId(t, key) == WithId(u, key)
    ensures WithId(t[..|t| - 1], key) == WithId(u[..|u| - 1], key)
  {
    var x := t[|t| - 1];
    var wt, wu := WithId(t, key), WithId(u, key);
    if key == x.id {
      assert wt[..|wt| - 1] == WithId(t[..|t| - 1], key);
      assert wu[..|wu| - 1] == WithId(u[..|u| - 1], key);
    } else {
      assert wt == WithId(t[..|t| - 1], key) + [];
      assert wu == WithId(u[..|u| - 1], key) + [];
    }
  }

  /**
   * Two sorted sequences that hold, for every id, the same records in the
   * same order are equal: the sorted order of equal-id runs is forced.
   */
  lemma {:induction false} SortedByIdUnique(t: seq<HymnData>, u: seq<HymnData>)
    requires SortedById(t) && SortedById(u)
    requires forall key :: WithId(t, key) == WithId(u, key)
    ensures t == u
    decreases |t| + |u|
  {
    if t == [] && u == [] {
    } else if t == [] {
      WithIdLastOf(u);
      assert false;
    } else if u == [] {
      WithIdLastOf(t);
      assert false;
    } else {
      var tInit, uInit := t[..|t| - 1], u[..|u| - 1];
      SameLast(t, u);
      forall key
        ensures WithId(tInit, key) == WithId(uInit, key)
      {
        SameInits(t, u, key);
      }
      SortedByIdUnique(tInit, uInit);
      assert t == tInit + [t[|t| - 1]] && u == uInit + [u[|u| - 1]];
    }
  }

  /**
   * The sort's result is the only sequence that is sorted by id and keeps,
   * for every id, the records of that id in their input order; so every
   * stable ascending sort gives this result.
   */
  lemma StableSortByIdUnique(s: seq<HymnData>, t: seq<HymnData>)
    requires SortedById(t)
    requires forall key :: WithId(t, key) == WithId(s, key)
    ensures t == StableSortById(s)
  {
    StableSortByIdSorted(s);
    forall key
      ensures WithId(t, key) == WithId(StableSortById(s), key)
    {
      StableSortByIdStable(s, key);
    }
    SortedByIdUnique(t, StableSortById(s));
  }

  /**
   * Where the insertion lands: after the records up to `j`, when every
   * record from `j` on has a greater id and the one before `j` does not.
   */
  lemma {:induction false} InsertByIdAt(t: seq<HymnData>, x: HymnData, j: nat)
    requires j <= |t|
    requires j > 0 ==> IdLe(t[j - 1].id, x.id)
    requires forall k :: j <= k < |t| ==> !IdLe(t[k].id, x.id)
    ensures InsertById(t, x) == t[..j] + [x] + t[j..]
  {
    if j == |t| {
      assert InsertById(t, x) == t + [x] by {
        assert t == [] || IdLe(t[|t| - 1].id, x.id);
      }
      assert t[..j] == t && t[j..] == [];
    } else {
      var init, last := t[..|t| - 1], t[|t| - 1];
      assert InsertById(t, x) == InsertById(init, x) + [last] by {
        assert !IdLe(last.id, x.id);
      }
      InsertByIdAt(init, x, j);
      assert t[..j] + [x] + t[j..] == init[..j] + [x] + init[j..] + [last] by {
        assert init[..j] == t[..j];
        assert init[j..] + [last] == t[j..];
      }
    }
  }
}
