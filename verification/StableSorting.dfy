/** Python's list.sort with a (number, string) key: a stable sort. */
module StableSorting {
  datatype Key = Key(number: int, text: string)

  /** String comparison by code point. */
  predicate TextLe(a: string, b: string) {
    a == [] || (b != [] && (a[0] < b[0] || (a[0] == b[0] && TextLe(a[1..], b[1..]))))
  }

  predicate KeyLe(a: Key, b: Key) {
    a.number < b.number || (a.number == b.number && TextLe(a.text, b.text))
  }

  lemma {:induction false} TextLeTotal(a: string, b: string)
    ensures TextLe(a, b) || TextLe(b, a)
  {
    if a != [] && b != [] && a[0] == b[0] {
      TextLeTotal(a[1..], b[1..]);
    }
  }

  lemma {:induction false} TextLeTransitive(a: string, b: string, c: string)
    requires TextLe(a, b) && TextLe(b, c)
    ensures TextLe(a, c)
  {
    if a != [] && a[0] == b[0] == c[0] {
      TextLeTransitive(a[1..], b[1..], c[1..]);
    }
  }

  lemma KeyLeTransitive(a: Key, b: Key, c: Key)
    requires KeyLe(a, b) && KeyLe(b, c)
    ensures KeyLe(a, c)
  {
    if a.number == b.number == c.number {
      TextLeTransitive(a.text, b.text, c.text);
    }
  }

  /** x goes after everything whose key is not greater. */
  function Insert<T>(s: seq<T>, x: T, key: T -> Key): seq<T> {
    if s == [] || KeyLe(key(s[|s| - 1]), key(x)) then s + [x]
    else Insert(s[..|s| - 1], x, key) + [s[|s| - 1]]
  }

  function Sort<T>(s: seq<T>, key: T -> Key): seq<T> {
    if s == [] then [] else Insert(Sort(s[..|s| - 1], key), s[|s| - 1], key)
  }

  ghost predicate SortedBy<T>(s: seq<T>, key: T -> Key) {
    forall i, j :: 0 <= i < j < |s| ==> KeyLe(key(s[i]), key(s[j]))
  }

  lemma {:induction false} InsertPermutes<T>(s: seq<T>, x: T, key: T -> Key)
    ensures multiset(Insert(s, x, key)) == multiset(s) + multiset{x}
  {
    if s != [] {
      assert s == s[..|s| - 1] + [s[|s| - 1]];
      InsertPermutes(s[..|s| - 1], x, key);
    }
  }

  lemma {:induction false} SortPermutes<T>(s: seq<T>, key: T -> Key)
    ensures multiset(Sort(s, key)) == multiset(s)
  {
    if s != [] {
      assert s == s[..|s| - 1] + [s[|s| - 1]];
      SortPermutes(s[..|s| - 1], key);
      InsertPermutes(Sort(s[..|s| - 1], key), s[|s| - 1], key);
    }
  }

  lemma {:induction false} InsertSorted<T>(s: seq<T>, x: T, key: T -> Key)
    requires SortedBy(s, key)
    ensures SortedBy(Insert(s, x, key), key)
  {
    if s == [] {
    } else if KeyLe(key(s[|s| - 1]), key(x)) {
      forall i | 0 <= i < |s|
        ensures KeyLe(key(s[i]), key(x))
      {
        if i < |s| - 1 {
          KeyLeTransitive(key(s[i]), key(s[|s| - 1]), key(x));
        }
      }
    } else {
      var last := s[|s| - 1];
      InsertSorted(s[..|s| - 1], x, key);
      TextLeTotal(key(x).text, key(last).text);
      var front := Insert(s[..|s| - 1], x, key);
      InsertPermutes(s[..|s| - 1], x, key);
      forall i | 0 <= i < |front|
        ensures KeyLe(key(front[i]), key(last))
      {
        assert front[i] in multiset(front);
        if front[i] in s[..|s| - 1] {
          var j :| 0 <= j < |s| - 1 && s[j] == front[i];
          assert KeyLe(key(s[j]), key(s[|s| - 1]));
        }
      }
      assert s == s[..|s| - 1] + [last];
    }
  }

  lemma {:induction false} SortSorts<T>(s: seq<T>, key: T -> Key)
    ensures SortedBy(Sort(s, key), key)
  {
    if s != [] {
      SortSorts(s[..|s| - 1], key);
      InsertSorted(Sort(s[..|s| - 1], key), s[|s| - 1], key);
    }
  }

  /** The elements with key k, in order. */
  ghost function WithKey<T>(s: seq<T>, key: T -> Key, k: Key): seq<T> {
    if s == [] then []
    else WithKey(s[..|s| - 1], key, k) + (if key(s[|s| - 1]) == k then [s[|s| - 1]] else [])
  }

  lemma {:induction false} InsertStable<T>(s: seq<T>, x: T, key: T -> Key, k: Key)
    ensures WithKey(Insert(s, x, key), key, k) == WithKey(s, key, k) + (if key(x) == k then [x] else [])
  {
    if s == [] || KeyLe(key(s[|s| - 1]), key(x)) {
      assert (s + [x])[..|s|] == s;
    } else {
      InsertStable(s[..|s| - 1], x, key, k);
      var front := Insert(s[..|s| - 1], x, key);
      assert (front + [s[|s| - 1]])[..|front|] == front;
      if key(x) == k {
        TextLeReflexive(k.text);
      }
    }
  }

  lemma {:induction false} TextLeReflexive(a: string)
    ensures TextLe(a, a)
  {
    if a != [] {
      TextLeReflexive(a[1..]);
    }
  }

  /** Elements with equal keys keep their order. */
  lemma {:induction false} SortStable<T>(s: seq<T>, key: T -> Key, k: Key)
    ensures WithKey(Sort(s, key), key, k) == WithKey(s, key, k)
  {
    if s != [] {
      SortStable(s[..|s| - 1], key, k);
      InsertStable(Sort(s[..|s| - 1], key), s[|s| - 1], key, k);
    }
  }

  // ----- the order told without it

  /** By code point: a is a proper prefix of b, or smaller where they first differ. */
  ghost predicate TextBelow(a: string, b: string) {
    exists n: nat :: BelowAt(a, b, n)
  }

  ghost predicate BelowAt(a: string, b: string, n: nat) {
    n <= |a| && n < |b| && a[..n] == b[..n] && (n == |a| || a[n] < b[n])
  }

  lemma TextBelowStep(a: string, b: string)
    requires a != [] && b != []
    ensures TextBelow(a, b) <==> a[0] < b[0] || (a[0] == b[0] && TextBelow(a[1..], b[1..]))
  {
    if TextBelow(a, b) {
      var n: nat :| BelowAt(a, b, n);
      if n > 0 {
        BelowAtBehind(a, b, n);
      }
    }
    if a[0] == b[0] && TextBelow(a[1..], b[1..]) {
      var n: nat :| BelowAt(a[1..], b[1..], n);
      BelowAtBehind(a, b, n + 1);
    }
    assert a[0] < b[0] ==> BelowAt(a, b, 0);
  }

  lemma BelowAtBehind(a: string, b: string, n: nat)
    requires a != [] && b != [] && n > 0
    ensures BelowAt(a, b, n) <==> a[0] == b[0] && BelowAt(a[1..], b[1..], n - 1)
  {
    if n <= |a| && n < |b| {
      assert a[..n] == [a[0]] + a[1..][..n - 1] && b[..n] == [b[0]] + b[1..][..n - 1];
      assert a[..n][1..] == a[1..][..n - 1] && b[..n][1..] == b[1..][..n - 1];
    }
  }

  lemma {:induction false} TextLeExactly(a: string, b: string)
    ensures TextLe(a, b) <==> a == b || TextBelow(a, b)
  {
    if a != [] && b != [] {
      TextLeExactly(a[1..], b[1..]);
      TextBelowStep(a, b);
      assert a == [a[0]] + a[1..] && b == [b[0]] + b[1..];
      hide TextBelow;
    } else if b != [] {
      assert BelowAt(a, b, 0);
    }
  }

  lemma {:induction false} WithKeyMember<T>(s: seq<T>, key: T -> Key, k: Key, x: T)
    ensures x in WithKey(s, key, k) <==> x in s && key(x) == k
  {
    if s != [] {
      WithKeyMember(s[..|s| - 1], key, k, x);
      assert s == s[..|s| - 1] + [s[|s| - 1]];
    }
  }

  /** x stands before y. */
  ghost predicate Before<T>(s: seq<T>, x: T, y: T) { exists i, j :: 0 <= i < j < |s| && s[i] == x && s[j] == y }

  lemma {:induction false} WithKeyBefore<T>(s: seq<T>, key: T -> Key, k: Key, x: T, y: T)
    requires key(x) == k && key(y) == k
    ensures Before(WithKey(s, key, k), x, y) <==> Before(s, x, y)
  {
    if s != [] {
      var n := |s| - 1;
      var front, last := s[..n], s[n];
      assert s == front + [last];
      WithKeyBefore(front, key, k, x, y);
      WithKeyMember(front, key, k, x);
      BeforeMore(front, last, x, y);
      BeforeMore(WithKey(front, key, k), last, x, y);
      hide Before;
      assert WithKey(front, key, k) + [] == WithKey(front, key, k);
    }
  }

  lemma BeforeMore<T>(s: seq<T>, last: T, x: T, y: T)
    ensures Before(s + [last], x, y) <==> Before(s, x, y) || (x in s && last == y)
  {
    var all := s + [last];
    if i, j :| 0 <= i < j < |s| && s[i] == x && s[j] == y {
      assert all[i] == x && all[j] == y;
    }
    if x in s && last == y {
      var i :| 0 <= i < |s| && s[i] == x;
      assert all[i] == x && all[|s|] == y;
    }
  }
}
