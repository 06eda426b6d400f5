/**
  `sorted(matches, key=lambda k: k['name'])` of convertDndHtmlStatBlocks.py:
  Python's stable sort under its string order (code point by code point,
  a proper prefix first).
*/
module StableSort {

  // ----------------------------------------------------------- string order

  /** Python's `a <= b` on strings. */
  predicate StrLe(a: string, b: string)
    decreases |a|
  {
    a == [] || (b != [] && (a[0] < b[0] || (a[0] == b[0] && StrLe(a[1..], b[1..]))))
  }

  lemma {:induction false} StrLeTotal(a: string, b: string)
    ensures StrLe(a, b) || StrLe(b, a)
    decreases |a|
  {
    if a != [] && b != [] && a[0] == b[0] {
      StrLeTotal(a[1..], b[1..]);
    }
  }

  lemma {:induction false} StrLeTrans(a: string, b: string, c: string)
    requires StrLe(a, b) && StrLe(b, c)
    ensures StrLe(a, c)
    decreases |a|
  {
    if a != [] && a[0] == b[0] && b[0] == c[0] {
      StrLeTrans(a[1..], b[1..], c[1..]);
    }
  }

  lemma {:induction false} StrLeAntisym(a: string, b: string)
    requires StrLe(a, b) && StrLe(b, a)
    ensures a == b
    decreases |a|
  {
    if a != [] {
      StrLeAntisym(a[1..], b[1..]);
      assert a == [a[0]] + a[1..] && b == [b[0]] + b[1..];
    }
  }

  // -------------------------------------------------------------- sorting

  /** Ordered non-decreasingly by key. */
  predicate Sorted<T>(s: seq<T>, key: T -> string) {
    forall i, j :: 0 <= i < j < |s| ==> StrLe(key(s[i]), key(s[j]))
  }

  /** `x` placed after every element whose key is not greater than its own. */
  function Insert<T>(x: T, s: seq<T>, key: T -> string): seq<T>
    decreases |s|
  {
    if s == [] || StrLe(key(s[|s| - 1]), key(x)) then s + [x]
    else Insert(x, s[..|s| - 1], key) + [s[|s| - 1]]
  }

  /** Insertion sort, element by element from the front: stable by construction. */
  function SortBy<T>(s: seq<T>, key: T -> string): seq<T>
    decreases |s|
  {
    if s == [] then [] else Insert(s[|s| - 1], SortBy(s[..|s| - 1], key), key)
  }

  /** The elements whose key is `k`, in their order. */
  function WithKey<T>(s: seq<T>, key: T -> string, k: string): seq<T>
    decreases |s|
  {
    if s == [] then []
    else WithKey(s[..|s| - 1], key, k) + (if key(s[|s| - 1]) == k then [s[|s| - 1]] else [])
  }

  // ---------------------------------------------------------- properties

  /** Where `Insert` places `x`. */
  function InsertPos<T>(x: T, s: seq<T>, key: T -> string): (j: nat)
    ensures j <= |s|
    decreases |s|
  {
    if s == [] || StrLe(key(s[|s| - 1]), key(x)) then |s| else InsertPos(x, s[..|s| - 1], key)
  }

  lemma {:induction false} InsertAt<T>(x: T, s: seq<T>, key: T -> string)
    ensures var j := InsertPos(x, s, key); Insert(x, s, key) == s[..j] + [x] + s[j..]
    decreases |s|
  {
    if s != [] && !StrLe(key(s[|s| - 1]), key(x)) {
      var init := s[..|s| - 1];
      var j := InsertPos(x, init, key);
      InsertAt(x, init, key);
      assert init[..j] == s[..j];
      assert init[j..] + [s[|s| - 1]] == s[j..];
    }
  }

  /** Everything after the insertion point has a greater key. */
  lemma {:induction false} InsertAfterGreater<T>(x: T, s: seq<T>, key: T -> string, i: nat)
    requires InsertPos(x, s, key) <= i < |s|
    ensures !StrLe(key(s[i]), key(x))
    decreases |s|
  {
    if i < |s| - 1 {
      InsertAfterGreater(x, s[..|s| - 1], key, i);
    }
  }

  /** The element just before the insertion point has a key not greater than `x`'s. */
  lemma {:induction false} InsertBeforeLe<T>(x: T, s: seq<T>, key: T -> string)
    requires 0 < InsertPos(x, s, key)
    ensures StrLe(key(s[InsertPos(x, s, key) - 1]), key(x))
    decreases |s|
  {
    if s != [] && !StrLe(key(s[|s| - 1]), key(x)) {
      InsertBeforeLe(x, s[..|s| - 1], key);
    }
  }

  lemma InsertPermutes<T>(x: T, s: seq<T>, key: T -> string)
    ensures multiset(Insert(x, s, key)) == multiset(s) + multiset{x}
  {
    InsertAt(x, s, key);
    var j := InsertPos(x, s, key);
    assert s == s[..j] + s[j..];
  }

  lemma InsertSorted<T>(x: T, s: seq<T>, key: T -> string)
    requires Sorted(s, key)
    ensures Sorted(Insert(x, s, key), key)
  {
    InsertAt(x, s, key);
    var j := InsertPos(x, s, key);
    var r := Insert(x, s, key);
    if j > 0 { InsertBeforeLe(x, s, key); }
    forall a, b | 0 <= a < b < |r| ensures StrLe(key(r[a]), key(r[b])) {
      if a < j && b == j {
        if a < j - 1 { StrLeTrans(key(s[a]), key(s[j - 1]), key(x)); }
      } else if a == j {
        InsertAfterGreater(x, s, key, b - 1);
        StrLeTotal(key(s[b - 1]), key(x));
      } else if a < j && b > j {
        InsertAfterGreater(x, s, key, b - 1);
        StrLeTotal(key(s[b - 1]), key(x));
        if a < j - 1 { StrLeTrans(key(s[a]), key(s[j - 1]), key(x)); }
        StrLeTrans(key(s[a]), key(x), key(s[b - 1]));
      } else if a > j {
        assert r[a] == s[a - 1] && r[b] == s[b - 1];
      }
    }
  }

  /** The result is ordered by name. */
  lemma {:induction false} SortBySorted<T>(s: seq<T>, key: T -> string)
    ensures Sorted(SortBy(s, key), key)
    decreases |s|
  {
    if s != [] {
      SortBySorted(s[..|s| - 1], key);
      InsertSorted(s[|s| - 1], SortBy(s[..|s| - 1], key), key);
    }
  }

  /** The result holds exactly the records it was given. */
  lemma {:induction false} SortByPermutes<T>(s: seq<T>, key: T -> string)
    ensures multiset(SortBy(s, key)) == multiset(s)
    decreases |s|
  {
    if s != [] {
      SortByPermutes(s[..|s| - 1], key);
      InsertPermutes(s[|s| - 1], SortBy(s[..|s| - 1], key), key);
      assert s == s[..|s| - 1] + [s[|s| - 1]];
    }
  }

  lemma {:induction false} WithKeyConcat<T>(a: seq<T>, b: seq<T>, key: T -> string, k: string)
    ensures WithKey(a + b, key, k) == WithKey(a, key, k) + WithKey(b, key, k)
    decreases |b|
  {
    if b == [] {
      assert a + b == a;
    } else {
      WithKeyConcat(a, b[..|b| - 1], key, k);
      assert (a + b)[..|a + b| - 1] == a + b[..|b| - 1];
    }
  }

  lemma {:induction false} WithKeyNone<T>(s: seq<T>, key: T -> string, k: string)
    requires forall i :: 0 <= i < |s| ==> key(s[i]) != k
    ensures WithKey(s, key, k) == []
    decreases |s|
  {
    if s != [] {
      WithKeyNone(s[..|s| - 1], key, k);
    }
  }

  /** Inserting `x` appends it to the elements sharing its key and leaves the others. */
  lemma InsertWithKey<T>(x: T, s: seq<T>, key: T -> string, k: string)
    ensures WithKey(Insert(x, s, key), key, k) == WithKey(s, key, k) + (if key(x) == k then [x] else [])
  {
    var j := InsertPos(x, s, key);
    WithKeySplit(x, s, key, k);
    WithKeyOne(x, key, k);
    if key(x) == k {
      NoneAfterInsert(x, s, key, k, j);
    }
    Regroup(WithKey(s[..j], key, k), WithKey([x], key, k), WithKey(s[j..], key, k));
  }

  /** Where what `x` adds is empty or nothing follows it, it can go last. */
  lemma Regroup<T>(front: seq<T>, added: seq<T>, back: seq<T>)
    requires added == [] || back == []
    ensures front + added + back == (front + back) + added
  {
  }

  /** The elements with key `k`, before and after the place where `x` goes. */
  lemma WithKeySplit<T>(x: T, s: seq<T>, key: T -> string, k: string)
    ensures var j := InsertPos(x, s, key);
      WithKey(Insert(x, s, key), key, k) == WithKey(s[..j], key, k) + WithKey([x], key, k) + WithKey(s[j..], key, k) &&
      WithKey(s, key, k) == WithKey(s[..j], key, k) + WithKey(s[j..], key, k)
  {
    InsertAt(x, s, key);
    var j := InsertPos(x, s, key);
    var front, back := s[..j], s[j..];
    assert front + back == s;
    WithKeyAround(front, x, back, key, k);
  }

  lemma WithKeyAround<T>(front: seq<T>, x: T, back: seq<T>, key: T -> string, k: string)
    ensures WithKey(front + [x] + back, key, k) == WithKey(front, key, k) + WithKey([x], key, k) + WithKey(back, key, k)
    ensures WithKey(front + back, key, k) == WithKey(front, key, k) + WithKey(back, key, k)
  {
    WithKeyConcat(front + [x], back, key, k);
    WithKeyConcat(front, [x], key, k);
    WithKeyConcat(front, back, key, k);
  }

  lemma WithKeyOne<T>(x: T, key: T -> string, k: string)
    ensures WithKey([x], key, k) == (if key(x) == k then [x] else [])
  {
    assert [x][..0] == [];
  }

  lemma NoneAfterInsert<T>(x: T, s: seq<T>, key: T -> string, k: string, j: nat)
    requires key(x) == k && j == InsertPos(x, s, key)
    ensures j <= |s| && WithKey(s[j..], key, k) == []
  {
    InsertAt(x, s, key);
    var back := s[j..];
    forall i | 0 <= i < |back| ensures key(back[i]) != k {
      InsertAfterGreater(x, s, key, j + i);
      StrLeReflexive(k);
    }
    WithKeyNone(back, key, k);
  }

  lemma {:induction false} StrLeReflexive(a: string)
    ensures StrLe(a, a)
    decreases |a|
  {
    if a != [] { StrLeReflexive(a[1..]); }
  }

  /** Stability: records with equal names keep their relative order. */
  lemma {:induction false} SortByStable<T>(s: seq<T>, key: T -> string, k: string)
    ensures WithKey(SortBy(s, key), key, k) == WithKey(s, key, k)
    decreases |s|
  {
    if s != [] {
      SortByStable(s[..|s| - 1], key, k);
      InsertWithKey(s[|s| - 1], SortBy(s[..|s| - 1], key), key, k);
    }
  }

  /** Records already in name order are left as they are. */
  lemma {:induction false} SortBySortedInput<T>(s: seq<T>, key: T -> string)
    requires Sorted(s, key)
    ensures SortBy(s, key) == s
    decreases |s|
  {
    if s != [] {
      var init, last := s[..|s| - 1], s[|s| - 1];
      assert Sorted(init, key) by {
        forall i, j | 0 <= i < j < |init| ensures StrLe(key(init[i]), key(init[j])) {
          assert init[i] == s[i] && init[j] == s[j];
        }
      }
      SortBySortedInput(init, key);
      if init != [] {
        assert init[|init| - 1] == s[|s| - 2];
        assert StrLe(key(init[|init| - 1]), key(last));
      }
      assert Insert(last, init, key) == init + [last];
      assert s == init + [last];
    }
  }
}
