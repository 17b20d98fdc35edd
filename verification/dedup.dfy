/**
 * Keyed deduplication of a frame, as pandas' drop_duplicates(subset = key) does it:
 * rows keep their original order and, of the rows sharing a key, exactly one survives,
 * the first one (keep = 'first', the default) or the last one (keep = 'last').
 */
module Dedup {

  /** The set of keys occurring in s. */
  function Keys<T, K>(s: seq<T>, key: T -> K): (ks: set<K>)
    ensures forall i :: 0 <= i < |s| ==> key(s[i]) in ks
  {
    set i | 0 <= i < |s| :: key(s[i])
  }

  /** When the keys of the rows are listed in ks, the key set is the set of ks's entries. */
  lemma KeysOfProjection<T, K>(rows: seq<T>, key: T -> K, ks: seq<K>)
    requires |rows| == |ks| && forall i :: 0 <= i < |rows| ==> key(rows[i]) == ks[i]
    ensures forall c :: c in Keys(rows, key) <==> c in ks
  {
    forall c | c in ks
      ensures c in Keys(rows, key)
    {
      var i :| 0 <= i < |ks| && ks[i] == c;
      assert key(rows[i]) == c;
    }
  }

  /** No two rows of s share a key. */
  ghost predicate DistinctKeys<T, K>(s: seq<T>, key: T -> K)
  {
    forall i, j :: 0 <= i < j < |s| ==> key(s[i]) != key(s[j])
  }

  /** Position of the first row of s with key k. */
  function FirstIndex<T, K(==)>(s: seq<T>, key: T -> K, k: K): (i: nat)
    requires k in Keys(s, key)
    ensures i < |s| && key(s[i]) == k
    ensures forall j :: 0 <= j < i ==> key(s[j]) != k
    decreases |s|
  {
    if key(s[0]) == k then 0
    else
      KeysCons(s, key);
      1 + FirstIndex(s[1..], key, k)
  }

  /** Position of the last row of s with key k. */
  function LastIndex<T, K(==)>(s: seq<T>, key: T -> K, k: K): (i: nat)
    requires k in Keys(s, key)
    ensures i < |s| && key(s[i]) == k
    ensures forall j :: i < j < |s| ==> key(s[j]) != k
    decreases |s|
  {
    if key(s[|s| - 1]) == k then |s| - 1
    else
      KeysSnoc(s, key);
      LastIndex(s[..|s| - 1], key, k)
  }

  /** r holds, for every key of s, the first row of s with that key, in order of first appearance. */
  ghost predicate IsFirstPerKey<T, K>(r: seq<T>, s: seq<T>, key: T -> K)
  {
    IsFirstPerKeyFrom(r, s, key, {})
  }

  /** r holds, for every key of s, the last row of s with that key, in order of last appearance. */
  ghost predicate IsLastPerKey<T, K>(r: seq<T>, s: seq<T>, key: T -> K)
  {
    && DistinctKeys(r, key)
    && Keys(r, key) == Keys(s, key)
    && (forall i :: 0 <= i < |r| ==>
          key(r[i]) in Keys(s, key) && r[i] == s[LastIndex(s, key, key(r[i]))])
    && (forall i, j :: 0 <= i < j < |r| && key(r[i]) in Keys(s, key) && key(r[j]) in Keys(s, key) ==>
          LastIndex(s, key, key(r[i])) < LastIndex(s, key, key(r[j])))
  }

  /** drop_duplicates keeping the first row per key; seen holds the keys already kept. */
  function KeepFirstFrom<T, K(==)>(s: seq<T>, key: T -> K, seen: set<K>): seq<T>
    decreases |s|
  {
    if |s| == 0 then []
    else if key(s[0]) in seen then KeepFirstFrom(s[1..], key, seen)
    else [s[0]] + KeepFirstFrom(s[1..], key, seen + {key(s[0])})
  }

  /** drop_duplicates(keep = 'first'). */
  function KeepFirst<T, K(==)>(s: seq<T>, key: T -> K): seq<T>
  {
    KeepFirstFrom(s, key, {})
  }

  /** drop_duplicates(keep = 'last'): a row survives when no later row has its key. */
  function KeepLast<T, K(==)>(s: seq<T>, key: T -> K): seq<T>
    decreases |s|
  {
    if |s| == 0 then []
    else if key(s[0]) in Keys(s[1..], key) then KeepLast(s[1..], key)
    else [s[0]] + KeepLast(s[1..], key)
  }

  lemma KeysCons<T, K>(s: seq<T>, key: T -> K)
    requires |s| > 0
    ensures Keys(s, key) == {key(s[0])} + Keys(s[1..], key)
  {
    forall k | k in Keys(s, key)
      ensures k in {key(s[0])} + Keys(s[1..], key)
    {
      var i :| 0 <= i < |s| && key(s[i]) == k;
      if i > 0 {
        assert key(s[1..][i - 1]) == k;
      }
    }
    forall k | k in Keys(s[1..], key)
      ensures k in Keys(s, key)
    {
      var i :| 0 <= i < |s| - 1 && key(s[1..][i]) == k;
      assert key(s[i + 1]) == k;
    }
  }

  lemma KeysSnoc<T, K>(s: seq<T>, key: T -> K)
    requires |s| > 0
    ensures Keys(s, key) == Keys(s[..|s| - 1], key) + {key(s[|s| - 1])}
  {
    forall k | k in Keys(s, key)
      ensures k in Keys(s[..|s| - 1], key) + {key(s[|s| - 1])}
    {
      var i :| 0 <= i < |s| && key(s[i]) == k;
      if i < |s| - 1 {
        assert key(s[..|s| - 1][i]) == k;
      }
    }
  }

  lemma KeysAppend<T, K>(a: seq<T>, b: seq<T>, key: T -> K)
    ensures Keys(a + b, key) == Keys(a, key) + Keys(b, key)
  {
    forall k | k in Keys(a + b, key)
      ensures k in Keys(a, key) + Keys(b, key)
    {
      var i :| 0 <= i < |a + b| && key((a + b)[i]) == k;
      if i >= |a| {
        assert key(b[i - |a|]) == k;
      }
    }
    forall k | k in Keys(a, key)
      ensures k in Keys(a + b, key)
    {
      var i :| 0 <= i < |a| && key(a[i]) == k;
      assert key((a + b)[i]) == k;
    }
    forall k | k in Keys(b, key)
      ensures k in Keys(a + b, key)
    {
      var i :| 0 <= i < |b| && key(b[i]) == k;
      assert key((a + b)[|a| + i]) == k;
    }
  }

  lemma FirstIndexIs<T, K>(s: seq<T>, key: T -> K, k: K, i: nat)
    requires i < |s| && key(s[i]) == k
    requires forall j :: 0 <= j < i ==> key(s[j]) != k
    ensures k in Keys(s, key) && FirstIndex(s, key, k) == i
  {
  }

  /** In a first-per-key selection, the first row with a key is present and is the only row with that key. */
  lemma FirstPerKeyHoldsFirst<T, K>(r: seq<T>, s: seq<T>, key: T -> K, i: nat)
    requires IsFirstPerKey(r, s, key)
    requires i < |s| && forall l :: 0 <= l < i ==> key(s[l]) != key(s[i])
    ensures s[i] in r
    ensures forall x :: x in r && key(x) == key(s[i]) ==> x == s[i]
  {
    FirstIndexIs(s, key, key(s[i]), i);
    assert key(s[i]) in Keys(r, key);
    var k :| 0 <= k < |r| && key(r[k]) == key(s[i]);
    assert r[k] == s[i];
  }

  lemma LastIndexIs<T, K>(s: seq<T>, key: T -> K, k: K, i: nat)
    requires i < |s| && key(s[i]) == k
    requires forall j :: i < j < |s| ==> key(s[j]) != k
    ensures k in Keys(s, key) && LastIndex(s, key, k) == i
  {
  }

  /** The last row with key k in a + b lies in b when b has that key, otherwise in a. */
  lemma LastIndexAppend<T, K>(a: seq<T>, b: seq<T>, key: T -> K, k: K)
    requires k in Keys(a, key) + Keys(b, key)
    ensures k in Keys(a + b, key)
    ensures k in Keys(b, key) ==> (a + b)[LastIndex(a + b, key, k)] == b[LastIndex(b, key, k)]
    ensures k !in Keys(b, key) ==> (a + b)[LastIndex(a + b, key, k)] == a[LastIndex(a, key, k)]
  {
    KeysAppend(a, b, key);
    if k in Keys(b, key) {
      var i := LastIndex(b, key, k);
      LastIndexIs(a + b, key, k, |a| + i);
    } else {
      var i := LastIndex(a, key, k);
      forall j | i < j < |a + b|
        ensures key((a + b)[j]) != k
      {
        if j >= |a| {
          assert (a + b)[j] == b[j - |a|];
        }
      }
      LastIndexIs(a + b, key, k, i);
    }
  }

  /** r holds the first row of every key of s outside seen, in order of first appearance. */
  ghost predicate IsFirstPerKeyFrom<T, K>(r: seq<T>, s: seq<T>, key: T -> K, seen: set<K>) {
    && DistinctKeys(r, key)
    && Keys(r, key) == Keys(s, key) - seen
    && (forall i :: 0 <= i < |r| ==>
          key(r[i]) in Keys(s, key) && r[i] == s[FirstIndex(s, key, key(r[i]))])
    && (forall i, j :: 0 <= i < j < |r| && key(r[i]) in Keys(s, key) && key(r[j]) in Keys(s, key) ==>
          FirstIndex(s, key, key(r[i])) < FirstIndex(s, key, key(r[j])))
  }

  lemma {:induction false} KeepFirstFromSpec<T, K>(s: seq<T>, key: T -> K, seen: set<K>)
    ensures IsFirstPerKeyFrom(KeepFirstFrom(s, key, seen), s, key, seen)
    decreases |s|
  {
    if |s| > 0 {
      var t := s[1..];
      var k0 := key(s[0]);
      if k0 in seen {
        KeepFirstFromSpec(t, key, seen);
        KeepFirstSkipsHead(s, key, seen);
      } else {
        var rest := KeepFirstFrom(t, key, seen + {k0});
        KeepFirstFromSpec(t, key, seen + {k0});
        assert s == [s[0]] + t;
        ConsFirstPerKey(s[0], t, rest, key, seen);
      }
    }
  }

  lemma KeepFirstSkipsHead<T, K>(s: seq<T>, key: T -> K, seen: set<K>)
    requires |s| > 0 && key(s[0]) in seen
    requires IsFirstPerKeyFrom(KeepFirstFrom(s[1..], key, seen), s[1..], key, seen)
    ensures IsFirstPerKeyFrom(KeepFirstFrom(s, key, seen), s, key, seen)
  {
    var r := KeepFirstFrom(s, key, seen);
    var t := s[1..];
    KeysCons(s, key);
    assert r == KeepFirstFrom(t, key, seen);
    forall i | 0 <= i < |r|
      ensures key(r[i]) in Keys(s, key) && r[i] == s[FirstIndex(s, key, key(r[i]))]
      ensures FirstIndex(s, key, key(r[i])) == 1 + FirstIndex(t, key, key(r[i]))
    {
      assert key(r[i]) in Keys(r, key);
      FirstIndexCons(s, key, key(r[i]));
    }
  }

  lemma FirstIndexCons<T, K>(s: seq<T>, key: T -> K, k: K)
    requires |s| > 0 && k in Keys(s[1..], key) && k != key(s[0])
    ensures k in Keys(s, key) && FirstIndex(s, key, k) == 1 + FirstIndex(s[1..], key, k)
  {
    var i := FirstIndex(s[1..], key, k);
    forall j | 0 <= j < 1 + i
      ensures key(s[j]) != k
    {
      if j > 0 {
        assert s[j] == s[1..][j - 1];
      }
    }
    FirstIndexIs(s, key, k, 1 + i);
  }

  /** The step of keep-first that keeps the head row x in front of the rest of the result. */
  lemma ConsFirstPerKey<T, K>(x: T, t: seq<T>, rest: seq<T>, key: T -> K, seen: set<K>)
    requires key(x) !in seen
    requires rest == KeepFirstFrom(t, key, seen + {key(x)})
    requires IsFirstPerKeyFrom(rest, t, key, seen + {key(x)})
    ensures KeepFirstFrom([x] + t, key, seen) == [x] + rest
    ensures IsFirstPerKeyFrom([x] + rest, [x] + t, key, seen)
  {
    var s := [x] + t;
    var r := [x] + rest;
    assert s[1..] == t;
    assert r[1..] == rest;
    KeysCons(s, key);
    KeysCons(r, key);
    ConsFirstPerKeyRows(x, t, rest, key, seen);
  }

  lemma ConsFirstPerKeyRows<T, K>(x: T, t: seq<T>, rest: seq<T>, key: T -> K, seen: set<K>)
    requires IsFirstPerKeyFrom(rest, t, key, seen + {key(x)})
    ensures var s := [x] + t; var r := [x] + rest;
      && (forall i :: 0 <= i < |r| ==>
            key(r[i]) in Keys(s, key) && r[i] == s[FirstIndex(s, key, key(r[i]))])
      && (forall i, j :: 0 <= i < j < |r| ==>
            key(r[i]) != key(r[j]) && FirstIndex(s, key, key(r[i])) < FirstIndex(s, key, key(r[j])))
  {
    ConsFirstRows(x, t, rest, key, seen);
    ConsFirstOrder(x, t, rest, key, seen);
  }

  lemma ConsFirstRows<T, K>(x: T, t: seq<T>, rest: seq<T>, key: T -> K, seen: set<K>)
    requires IsFirstPerKeyFrom(rest, t, key, seen + {key(x)})
    ensures var s := [x] + t; var r := [x] + rest;
      forall i :: 0 <= i < |r| ==> key(r[i]) in Keys(s, key) && r[i] == s[FirstIndex(s, key, key(r[i]))]
  {
    var s := [x] + t;
    var r := [x] + rest;
    assert s[1..] == t;
    ConsFirstIndices(x, t, rest, key, seen);
    FirstIndexIs(s, key, key(x), 0);
    forall i | 0 <= i < |r|
      ensures key(r[i]) in Keys(s, key) && r[i] == s[FirstIndex(s, key, key(r[i]))]
    {
      if i > 0 {
        assert r[i] == rest[i - 1];
      }
    }
  }

  lemma ConsFirstOrder<T, K>(x: T, t: seq<T>, rest: seq<T>, key: T -> K, seen: set<K>)
    requires IsFirstPerKeyFrom(rest, t, key, seen + {key(x)})
    ensures var s := [x] + t; var r := [x] + rest;
      forall i, j :: 0 <= i < j < |r| && key(r[i]) in Keys(s, key) && key(r[j]) in Keys(s, key) ==>
        key(r[i]) != key(r[j]) && FirstIndex(s, key, key(r[i])) < FirstIndex(s, key, key(r[j]))
  {
    var s := [x] + t;
    var r := [x] + rest;
    forall i, j | 0 <= i < j < |r| && key(r[i]) in Keys(s, key) && key(r[j]) in Keys(s, key)
      ensures key(r[i]) != key(r[j]) && FirstIndex(s, key, key(r[i])) < FirstIndex(s, key, key(r[j]))
    {
      if i > 0 {
        assert key(rest[i - 1]) in Keys(t, key) && key(rest[j - 1]) in Keys(t, key);
      }
      ConsFirstOrderPair(x, t, rest, key, seen, i, j);
    }
  }

  lemma ConsFirstOrderPair<T, K>(x: T, t: seq<T>, rest: seq<T>, key: T -> K, seen: set<K>, i: nat, j: nat)
    requires Keys(rest, key) == Keys(t, key) - (seen + {key(x)})
    requires i < j <= |rest|
    requires i > 0 ==>
      key(rest[i - 1]) in Keys(t, key) && key(rest[j - 1]) in Keys(t, key) &&
      FirstIndex(t, key, key(rest[i - 1])) < FirstIndex(t, key, key(rest[j - 1]))
    ensures var s := [x] + t; var r := [x] + rest;
      && key(r[i]) in Keys(s, key) && key(r[j]) in Keys(s, key)
      && key(r[i]) != key(r[j]) && FirstIndex(s, key, key(r[i])) < FirstIndex(s, key, key(r[j]))
  {
    var s := [x] + t;
    var r := [x] + rest;
    assert r[j] == rest[j - 1];
    ConsFirstIndexAt(x, t, rest, key, seen, j - 1);
    if i > 0 {
      assert r[i] == rest[i - 1];
      ConsFirstIndexAt(x, t, rest, key, seen, i - 1);
    } else {
      FirstIndexIs(s, key, key(x), 0);
    }
  }

  lemma ConsFirstIndexAt<T, K>(x: T, t: seq<T>, rest: seq<T>, key: T -> K, seen: set<K>, m: nat)
    requires Keys(rest, key) == Keys(t, key) - (seen + {key(x)})
    requires m < |rest|
    ensures key(rest[m]) in Keys(t, key) && key(rest[m]) != key(x) && key(rest[m]) in Keys([x] + t, key)
    ensures FirstIndex([x] + t, key, key(rest[m])) == 1 + FirstIndex(t, key, key(rest[m]))
  {
    var s := [x] + t;
    assert s[1..] == t;
    assert key(rest[m]) in Keys(rest, key);
    FirstIndexCons(s, key, key(rest[m]));
  }

  lemma ConsFirstIndices<T, K>(x: T, t: seq<T>, rest: seq<T>, key: T -> K, seen: set<K>)
    requires Keys(rest, key) == Keys(t, key) - (seen + {key(x)})
    ensures forall i :: 0 <= i < |rest| ==>
      key(rest[i]) in Keys(t, key) && key(rest[i]) != key(x) && key(rest[i]) in Keys([x] + t, key) &&
      FirstIndex([x] + t, key, key(rest[i])) == 1 + FirstIndex(t, key, key(rest[i]))
  {
    var s := [x] + t;
    assert s[1..] == t;
    forall i | 0 <= i < |rest|
      ensures key(rest[i]) in Keys(t, key) && key(rest[i]) != key(x)
      ensures key(rest[i]) in Keys(s, key) && FirstIndex(s, key, key(rest[i])) == 1 + FirstIndex(t, key, key(rest[i]))
    {
      assert key(rest[i]) in Keys(rest, key);
      FirstIndexCons(s, key, key(rest[i]));
    }
  }

  /** keep = 'first' returns exactly the first row per key, in order of first appearance. */
  lemma KeepFirstIsFirstPerKey<T, K>(s: seq<T>, key: T -> K)
    ensures IsFirstPerKey(KeepFirst(s, key), s, key)
  {
    KeepFirstFromSpec(s, key, {});
  }

  lemma LastIndexCons<T, K>(s: seq<T>, key: T -> K, k: K)
    requires |s| > 0 && k in Keys(s[1..], key)
    ensures k in Keys(s, key) && LastIndex(s, key, k) == 1 + LastIndex(s[1..], key, k)
  {
    LastIndexIs(s, key, k, 1 + LastIndex(s[1..], key, k));
  }

  lemma LastIndexConsAll<T, K>(s: seq<T>, key: T -> K)
    requires |s| > 0
    ensures forall k :: k in Keys(s[1..], key) ==>
      k in Keys(s, key) && LastIndex(s, key, k) == 1 + LastIndex(s[1..], key, k)
  {
    forall k | k in Keys(s[1..], key)
      ensures k in Keys(s, key) && LastIndex(s, key, k) == 1 + LastIndex(s[1..], key, k)
    {
      LastIndexCons(s, key, k);
    }
  }

  /** keep = 'last' returns exactly the last row per key, in order of last appearance. */
  lemma {:induction false} KeepLastIsLastPerKey<T, K>(s: seq<T>, key: T -> K)
    ensures IsLastPerKey(KeepLast(s, key), s, key)
    decreases |s|
  {
    if |s| > 0 {
      KeepLastIsLastPerKey(s[1..], key);
      if key(s[0]) in Keys(s[1..], key) {
        KeepLastDropsHead(s, key);
      } else {
        KeepLastKeepsHead(s, key);
      }
    }
  }

  lemma KeepLastDropsHead<T, K>(s: seq<T>, key: T -> K)
    requires |s| > 0 && key(s[0]) in Keys(s[1..], key)
    requires IsLastPerKey(KeepLast(s[1..], key), s[1..], key)
    ensures IsLastPerKey(KeepLast(s, key), s, key)
  {
    assert KeepLast(s, key) == KeepLast(s[1..], key);
    ShiftedLastPerKey(s, KeepLast(s[1..], key), key);
  }

  /** Rows that are the last per key of s[1..] are also the last per key of s, when s[0]'s key recurs. */
  lemma ShiftedLastPerKey<T, K>(s: seq<T>, r: seq<T>, key: T -> K)
    requires |s| > 0 && key(s[0]) in Keys(s[1..], key)
    requires IsLastPerKey(r, s[1..], key)
    ensures IsLastPerKey(r, s, key)
  {
    KeysCons(s, key);
    assert Keys(s, key) == Keys(s[1..], key);
    DropsHeadRows(s, r, key);
    DropsHeadOrder(s, r, key);
  }

  lemma DropsHeadRows<T, K>(s: seq<T>, r: seq<T>, key: T -> K)
    requires |s| > 0
    requires forall i :: 0 <= i < |r| ==>
      key(r[i]) in Keys(s[1..], key) && r[i] == s[1..][LastIndex(s[1..], key, key(r[i]))]
    ensures forall i :: 0 <= i < |r| ==>
      key(r[i]) in Keys(s, key) && r[i] == s[LastIndex(s, key, key(r[i]))]
  {
    forall i | 0 <= i < |r|
      ensures key(r[i]) in Keys(s, key) && r[i] == s[LastIndex(s, key, key(r[i]))]
    {
      LastIndexCons(s, key, key(r[i]));
    }
  }

  lemma DropsHeadOrder<T, K>(s: seq<T>, r: seq<T>, key: T -> K)
    requires |s| > 0
    requires forall i :: 0 <= i < |r| ==> key(r[i]) in Keys(s[1..], key)
    requires forall i, j :: 0 <= i < j < |r| && key(r[i]) in Keys(s[1..], key) && key(r[j]) in Keys(s[1..], key) ==>
      LastIndex(s[1..], key, key(r[i])) < LastIndex(s[1..], key, key(r[j]))
    ensures forall i, j :: 0 <= i < j < |r| && key(r[i]) in Keys(s, key) && key(r[j]) in Keys(s, key) ==>
      LastIndex(s, key, key(r[i])) < LastIndex(s, key, key(r[j]))
  {
    forall i, j | 0 <= i < j < |r| && key(r[i]) in Keys(s, key) && key(r[j]) in Keys(s, key)
      ensures LastIndex(s, key, key(r[i])) < LastIndex(s, key, key(r[j]))
    {
      LastIndexCons(s, key, key(r[i]));
      LastIndexCons(s, key, key(r[j]));
    }
  }

  lemma KeepLastKeepsHead<T, K>(s: seq<T>, key: T -> K)
    requires |s| > 0 && key(s[0]) !in Keys(s[1..], key)
    requires IsLastPerKey(KeepLast(s[1..], key), s[1..], key)
    ensures IsLastPerKey(KeepLast(s, key), s, key)
  {
    assert s == [s[0]] + s[1..];
    ConsLastPerKey(s[0], s[1..], KeepLast(s[1..], key), key);
  }

  /** A row whose key occurs nowhere after it survives keep = 'last' in front of the rest. */
  lemma ConsLastPerKey<T, K>(x: T, t: seq<T>, rest: seq<T>, key: T -> K)
    requires key(x) !in Keys(t, key)
    requires IsLastPerKey(rest, t, key)
    ensures IsLastPerKey([x] + rest, [x] + t, key)
  {
    var s := [x] + t;
    var r := [x] + rest;
    assert s[1..] == t;
    assert r[1..] == rest;
    KeysCons(s, key);
    KeysCons(r, key);
    ConsLastPerKeyRows(x, t, rest, key);
  }

  lemma ConsLastPerKeyRows<T, K>(x: T, t: seq<T>, rest: seq<T>, key: T -> K)
    requires key(x) !in Keys(t, key)
    requires IsLastPerKey(rest, t, key)
    ensures var s := [x] + t; var r := [x] + rest;
      && (forall i :: 0 <= i < |r| ==>
            key(r[i]) in Keys(s, key) && r[i] == s[LastIndex(s, key, key(r[i]))])
      && (forall i, j :: 0 <= i < j < |r| ==>
            key(r[i]) != key(r[j]) && LastIndex(s, key, key(r[i])) < LastIndex(s, key, key(r[j])))
  {
    ConsLastRows(x, t, rest, key);
    ConsLastOrder(x, t, rest, key);
  }

  lemma ConsLastRows<T, K>(x: T, t: seq<T>, rest: seq<T>, key: T -> K)
    requires key(x) !in Keys(t, key)
    requires IsLastPerKey(rest, t, key)
    ensures var s := [x] + t; var r := [x] + rest;
      forall i :: 0 <= i < |r| ==> key(r[i]) in Keys(s, key) && r[i] == s[LastIndex(s, key, key(r[i]))]
  {
    var s := [x] + t;
    var r := [x] + rest;
    assert s[1..] == t;
    ConsLastIndices(x, t, rest, key);
    LastIndexIs(s, key, key(x), 0);
    forall i | 0 <= i < |r|
      ensures key(r[i]) in Keys(s, key) && r[i] == s[LastIndex(s, key, key(r[i]))]
    {
      if i > 0 {
        assert r[i] == rest[i - 1];
      }
    }
  }

  lemma ConsLastOrder<T, K>(x: T, t: seq<T>, rest: seq<T>, key: T -> K)
    requires key(x) !in Keys(t, key)
    requires IsLastPerKey(rest, t, key)
    ensures var s := [x] + t; var r := [x] + rest;
      forall i, j :: 0 <= i < j < |r| && key(r[i]) in Keys(s, key) && key(r[j]) in Keys(s, key) ==>
        key(r[i]) != key(r[j]) && LastIndex(s, key, key(r[i])) < LastIndex(s, key, key(r[j]))
  {
    var s := [x] + t;
    var r := [x] + rest;
    forall i, j | 0 <= i < j < |r| && key(r[i]) in Keys(s, key) && key(r[j]) in Keys(s, key)
      ensures key(r[i]) != key(r[j]) && LastIndex(s, key, key(r[i])) < LastIndex(s, key, key(r[j]))
    {
      if i > 0 {
        assert key(rest[i - 1]) in Keys(t, key) && key(rest[j - 1]) in Keys(t, key);
      }
      ConsLastOrderPair(x, t, rest, key, i, j);
    }
  }

  lemma ConsLastOrderPair<T, K>(x: T, t: seq<T>, rest: seq<T>, key: T -> K, i: nat, j: nat)
    requires key(x) !in Keys(t, key)
    requires Keys(rest, key) == Keys(t, key)
    requires i < j <= |rest|
    requires i > 0 ==>
      key(rest[i - 1]) in Keys(t, key) && key(rest[j - 1]) in Keys(t, key) &&
      LastIndex(t, key, key(rest[i - 1])) < LastIndex(t, key, key(rest[j - 1]))
    ensures var s := [x] + t; var r := [x] + rest;
      && key(r[i]) in Keys(s, key) && key(r[j]) in Keys(s, key)
      && key(r[i]) != key(r[j]) && LastIndex(s, key, key(r[i])) < LastIndex(s, key, key(r[j]))
  {
    var s := [x] + t;
    var r := [x] + rest;
    assert r[j] == rest[j - 1];
    ConsLastIndexAt(x, t, rest, key, j - 1);
    if i > 0 {
      assert r[i] == rest[i - 1];
      ConsLastIndexAt(x, t, rest, key, i - 1);
    } else {
      LastIndexIs(s, key, key(x), 0);
    }
  }

  lemma ConsLastIndexAt<T, K>(x: T, t: seq<T>, rest: seq<T>, key: T -> K, m: nat)
    requires key(x) !in Keys(t, key)
    requires Keys(rest, key) == Keys(t, key)
    requires m < |rest|
    ensures key(rest[m]) in Keys(t, key) && key(rest[m]) != key(x) && key(rest[m]) in Keys([x] + t, key)
    ensures LastIndex([x] + t, key, key(rest[m])) == 1 + LastIndex(t, key, key(rest[m]))
  {
    var s := [x] + t;
    assert s[1..] == t;
    assert key(rest[m]) in Keys(rest, key);
    LastIndexCons(s, key, key(rest[m]));
  }

  lemma ConsLastIndices<T, K>(x: T, t: seq<T>, rest: seq<T>, key: T -> K)
    requires key(x) !in Keys(t, key)
    requires Keys(rest, key) == Keys(t, key)
    ensures forall i :: 0 <= i < |rest| ==>
      key(rest[i]) in Keys(t, key) && key(rest[i]) != key(x) && key(rest[i]) in Keys([x] + t, key) &&
      LastIndex([x] + t, key, key(rest[i])) == 1 + LastIndex(t, key, key(rest[i]))
  {
    var s := [x] + t;
    assert s[1..] == t;
    LastIndexConsAll(s, key);
    forall i | 0 <= i < |rest|
      ensures key(rest[i]) in Keys(t, key) && key(rest[i]) != key(x)
    {
      assert key(rest[i]) in Keys(rest, key);
    }
  }

  /**
   * keep = 'first' computed in one pass with the set of keys already kept, as an explicit
   * keyed accumulator would do it.
   */
  method KeepFirstInOnePass<T, K(==)>(s: seq<T>, key: T -> K) returns (r: seq<T>)
    ensures r == KeepFirst(s, key)
  {
    r := [];
    var seen: set<K> := {};
    var i := 0;
    while i < |s|
      invariant 0 <= i <= |s|
      invariant r + KeepFirstFrom(s[i..], key, seen) == KeepFirst(s, key)
    {
      assert s[i..][1..] == s[i + 1..];
      if key(s[i]) !in seen {
        r := r + [s[i]];
        seen := seen + {key(s[i])};
      }
      i := i + 1;
    }
    assert s[i..] == [];
  }

  /** keep = 'last' computed in one backward pass with the set of keys already kept. */
  method KeepLastInOnePass<T, K(==)>(s: seq<T>, key: T -> K) returns (r: seq<T>)
    ensures r == KeepLast(s, key)
  {
    r := [];
    var seen: set<K> := {};
    var i := |s|;
    while i > 0
      invariant 0 <= i <= |s|
      invariant seen == Keys(s[i..], key)
      invariant r == KeepLast(s[i..], key)
    {
      i := i - 1;
      assert s[i..][1..] == s[i + 1..];
      KeysCons(s[i..], key);
      if key(s[i]) !in seen {
        r := [s[i]] + r;
        seen := seen + {key(s[i])};
      }
    }
  }
}
