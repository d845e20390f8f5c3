/** Python's `sorted(xs, key=k)` and `list.sort(key=k)`: a stable sort by a
    string key in code-point order, modelled as an insertion sort. */
module Sorting {
  import opened Strings

  predicate SortedBy<T>(s: seq<T>, key: T -> string)
  {
    forall i, j :: 0 <= i < j < |s| ==> LessEq(key(s[i]), key(s[j]))
  }

  /** Puts `x` in front of the first element whose key is not smaller, so
      before the elements whose key equals its own. */
  function Insert<T>(x: T, s: seq<T>, key: T -> string): (r: seq<T>)
    ensures |r| == |s| + 1
    ensures multiset(r) == multiset(s) + multiset{x}
    ensures SortedBy(s, key) ==> SortedBy(r, key)
  {
    if |s| == 0 then [x]
    else if LessEq(key(x), key(s[0])) then
      assert SortedBy(s, key) ==> SortedBy([x] + s, key) by {
        if SortedBy(s, key) {
          BelowHead(x, s, key);
          ConsSorted(x, s, key);
        }
      }
      [x] + s
    else
      var t := Insert(x, s[1..], key);
      assert s == [s[0]] + s[1..];
      assert SortedBy(s, key) ==> SortedBy([s[0]] + t, key) by {
        if SortedBy(s, key) {
          LessEqTotal(key(x), key(s[0]));
          SortedByTail(s, key);
          BelowAll(s[0], s[1..], x, t, key);
          ConsSorted(s[0], t, key);
        }
      }
      [s[0]] + t
  }

  /** A sorted list after a first element no larger than any of its keys. */
  lemma ConsSorted<T>(x: T, s: seq<T>, key: T -> string)
    requires SortedBy(s, key)
    requires forall j :: 0 <= j < |s| ==> LessEq(key(x), key(s[j]))
    ensures SortedBy([x] + s, key)
  {
    var r := [x] + s;
    forall i, j | 0 <= i < j < |r| ensures LessEq(key(r[i]), key(r[j])) {
      assert r[j] == s[j - 1];
      if i > 0 {
        assert r[i] == s[i - 1];
      }
    }
  }

  /** A key no larger than the head of a sorted list is no larger than any. */
  lemma BelowHead<T>(x: T, s: seq<T>, key: T -> string)
    requires |s| > 0 && SortedBy(s, key) && LessEq(key(x), key(s[0]))
    ensures forall j :: 0 <= j < |s| ==> LessEq(key(x), key(s[j]))
  {
    forall j | 0 < j < |s| ensures LessEq(key(x), key(s[j])) {
      LessEqTransitive(key(x), key(s[0]), key(s[j]));
    }
  }

  /** A lower bound of `s` and of `x` bounds every element of `t`, when `t`
      holds exactly `s` and `x`. */
  lemma BelowAll<T>(h: T, s: seq<T>, x: T, t: seq<T>, key: T -> string)
    requires multiset(t) == multiset(s) + multiset{x}
    requires LessEq(key(h), key(x))
    requires forall j :: 0 <= j < |s| ==> LessEq(key(h), key(s[j]))
    ensures forall j :: 0 <= j < |t| ==> LessEq(key(h), key(t[j]))
  {
    forall j | 0 <= j < |t| ensures LessEq(key(h), key(t[j])) {
      assert t[j] in multiset(t);
      if t[j] != x {
        assert t[j] in multiset(s);
        var k := IndexOf(s, t[j]);
      }
    }
  }

  /** The stable sort: `sorted(s, key=key)`. */
  function SortBy<T>(s: seq<T>, key: T -> string): (r: seq<T>)
    ensures |r| == |s|
    ensures multiset(r) == multiset(s)
    ensures SortedBy(r, key)
  {
    if |s| == 0 then []
    else
      assert s == [s[0]] + s[1..];
      Insert(s[0], SortBy(s[1..], key), key)
  }

  /** The elements of `s` whose key is `k`, in the order they appear. */
  ghost function KeyFilter<T>(s: seq<T>, key: T -> string, k: string): seq<T>
  {
    if |s| == 0 then [] else (if key(s[0]) == k then [s[0]] else []) + KeyFilter(s[1..], key, k)
  }

  lemma {:induction false} InsertKeyFilter<T>(x: T, s: seq<T>, key: T -> string, k: string)
    ensures KeyFilter(Insert(x, s, key), key, k)
         == (if key(x) == k then [x] else []) + KeyFilter(s, key, k)
  {
    var xs: seq<T> := if key(x) == k then [x] else [];
    if |s| == 0 || LessEq(key(x), key(s[0])) {
      InsertFront(x, s, key);
      KeyFilterCons(x, s, key, k);
    } else {
      LessEqReflexive(key(x));
      var t := Insert(x, s[1..], key);
      InsertTail(x, s, key);
      KeyFilterCons(s[0], t, key, k);
      InsertKeyFilter(x, s[1..], key, k);
      assert s == [s[0]] + s[1..];
      KeyFilterCons(s[0], s[1..], key, k);
      KeyFilterSwap(x, s[0], KeyFilter(s[1..], key, k), key, k);
    }
  }

  /** Two elements with different keys commute once filtered. */
  lemma KeyFilterSwap<T>(x: T, h: T, rest: seq<T>, key: T -> string, k: string)
    requires key(x) != key(h)
    ensures (if key(h) == k then [h] else []) + ((if key(x) == k then [x] else []) + rest)
         == (if key(x) == k then [x] else []) + ((if key(h) == k then [h] else []) + rest)
  {
  }

  lemma InsertTail<T>(x: T, s: seq<T>, key: T -> string)
    requires |s| > 0 && !LessEq(key(x), key(s[0]))
    ensures Insert(x, s, key) == [s[0]] + Insert(x, s[1..], key)
  {
  }

  lemma InsertFront<T>(x: T, s: seq<T>, key: T -> string)
    requires |s| == 0 || LessEq(key(x), key(s[0]))
    ensures Insert(x, s, key) == [x] + s
  {
  }

  lemma KeyFilterCons<T>(h: T, s: seq<T>, key: T -> string, k: string)
    ensures KeyFilter([h] + s, key, k) == (if key(h) == k then [h] else []) + KeyFilter(s, key, k)
  {
    assert ([h] + s)[1..] == s;
  }

  lemma SortedByTail<T>(s: seq<T>, key: T -> string)
    requires |s| > 0 && SortedBy(s, key)
    ensures SortedBy(s[1..], key)
  {
    forall i, j | 0 <= i < j < |s| - 1 ensures LessEq(key(s[1..][i]), key(s[1..][j])) {
      assert s[1..][i] == s[i + 1] && s[1..][j] == s[j + 1];
    }
  }

  /** `sorted` is stable: for every key, the elements carrying it keep their
      relative order. */
  lemma {:induction false} SortByStable<T>(s: seq<T>, key: T -> string, k: string)
    ensures KeyFilter(SortBy(s, key), key, k) == KeyFilter(s, key, k)
  {
    if |s| > 0 {
      SortByStable(s[1..], key, k);
      InsertKeyFilter(s[0], SortBy(s[1..], key), key, k);
    }
  }

  /** When the first element of `s` carries the key `k` and no earlier one
      does, it heads the filtered list. */
  lemma {:induction false} KeyFilterFirst<T>(s: seq<T>, key: T -> string, i: nat)
    requires i < |s|
    requires forall j :: 0 <= j < i ==> key(s[j]) != key(s[i])
    ensures |KeyFilter(s, key, key(s[i]))| > 0
    ensures KeyFilter(s, key, key(s[i]))[0] == s[i]
  {
    if i > 0 {
      KeyFilterFirst(s[1..], key, i - 1);
    }
  }

  /** The head of the sorted list, as the first index of the input with its key. */
  lemma SortByHeadIndex<T>(s: seq<T>, key: T -> string) returns (i: nat)
    requires |s| > 0
    ensures i < |s| && SortBy(s, key)[0] == s[i]
    ensures forall j :: 0 <= j < i ==> key(s[j]) != key(s[i])
  {
    var r := SortBy(s, key);
    var k := key(r[0]);
    var i0 := IndexOf(s, r[0]);
    i := FirstWithKey(s, key, k, i0);
    KeyFilterFirst(s, key, i);
    KeyFilterFirst(r, key, 0);
    SortByStable(s, key, k);
  }

  /** The key of the head of the sorted list is no larger than any input key. */
  lemma SortByHeadMin<T>(s: seq<T>, key: T -> string)
    requires |s| > 0
    ensures forall j :: 0 <= j < |s| ==> LessEq(key(SortBy(s, key)[0]), key(s[j]))
  {
    var r := SortBy(s, key);
    forall j | 0 <= j < |s| ensures LessEq(key(r[0]), key(s[j])) {
      var p := IndexOf(r, s[j]);
      if p == 0 {
        LessEqReflexive(key(r[0]));
      }
    }
  }

  /** Some position of `s` holding `x`. */
  lemma IndexOf<T>(s: seq<T>, x: T) returns (p: nat)
    requires x in multiset(s)
    ensures p < |s| && s[p] == x
  {
    assert x in s;
    p :| 0 <= p < |s| && s[p] == x;
  }

  /** The first index of `s` whose key is `k`, given some index `i0` that has it. */
  ghost function FirstWithKey<T>(s: seq<T>, key: T -> string, k: string, i0: nat): (i: nat)
    requires i0 < |s| && key(s[i0]) == k
    ensures i <= i0 && key(s[i]) == k
    ensures forall j :: 0 <= j < i ==> key(s[j]) != k
    decreases i0
  {
    if key(s[0]) == k then 0 else 1 + FirstWithKey(s[1..], key, k, i0 - 1)
  }
}
