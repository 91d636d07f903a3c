/**
 Lists of items that each belong to a group.  Three ways of saying that two lists differ only
 in how their groups are interleaved, and a proof that they are one and the same: the stable
 sorts by group are equal, every group's items come in the same order, and one list can be
 turned into the other by swapping neighbours of different groups.
 */
module Grouping {
  import opened Bytes

  /** Group names are tuples of strings, ordered as tuples are: field by field. */
  type Key = seq<string>

  // ---- the order ----

  predicate StringLeq(a: string, b: string)
  {
    if a == [] then true
    else if b == [] then false
    else if a[0] != b[0] then a[0] < b[0]
    else StringLeq(a[1..], b[1..])
  }

  lemma {:induction false} StringTotal(a: string, b: string)
    ensures StringLeq(a, b) || StringLeq(b, a)
    ensures StringLeq(a, b) && StringLeq(b, a) ==> a == b
  {
    if a != [] && b != [] && a[0] == b[0] {
      StringTotal(a[1..], b[1..]);
      assert a == [a[0]] + a[1..] && b == [b[0]] + b[1..];
    }
  }

  lemma {:induction false} StringTransitive(a: string, b: string, c: string)
    requires StringLeq(a, b) && StringLeq(b, c)
    ensures StringLeq(a, c)
  {
    if a != [] && a[0] == b[0] == c[0] {
      StringTransitive(a[1..], b[1..], c[1..]);
    }
  }

  predicate KeyLeq(a: Key, b: Key)
  {
    if a == [] then true
    else if b == [] then false
    else if a[0] != b[0] then StringLeq(a[0], b[0])
    else KeyLeq(a[1..], b[1..])
  }

  lemma {:induction false} KeyTotal(a: Key, b: Key)
    ensures KeyLeq(a, b) || KeyLeq(b, a)
    ensures KeyLeq(a, b) && KeyLeq(b, a) ==> a == b
  {
    if a != [] && b != [] {
      StringTotal(a[0], b[0]);
      if a[0] == b[0] {
        KeyTotal(a[1..], b[1..]);
        assert a == [a[0]] + a[1..] && b == [b[0]] + b[1..];
      }
    }
  }

  lemma {:induction false} KeyTransitive(a: Key, b: Key, c: Key)
    requires KeyLeq(a, b) && KeyLeq(b, c)
    ensures KeyLeq(a, c)
  {
    if a != [] {
      if a[0] == b[0] == c[0] {
        KeyTransitive(a[1..], b[1..], c[1..]);
      } else if a[0] != b[0] && b[0] != c[0] {
        StringTransitive(a[0], b[0], c[0]);
        if a[0] == c[0] {
          StringTotal(a[0], b[0]);
        }
      }
    }
  }

  // ---- one group of a list ----

  function Group<T>(s: seq<T>, key: T -> Key, k: Key): seq<T>
  {
    if s == [] then []
    else (if key(s[0]) == k then [s[0]] else []) + Group(s[1..], key, k)
  }

  ghost predicate SameGroups<T>(a: seq<T>, b: seq<T>, key: T -> Key)
  {
    forall k :: Group(a, key, k) == Group(b, key, k)
  }

  lemma {:induction false} GroupConcat<T>(a: seq<T>, b: seq<T>, key: T -> Key, k: Key)
    ensures Group(a + b, key, k) == Group(a, key, k) + Group(b, key, k)
  {
    if a == [] {
      assert a + b == b;
    } else {
      GroupConcat(a[1..], b, key, k);
      assert (a + b)[0] == a[0] && (a + b)[1..] == a[1..] + b;
      ConcatAssoc(if key(a[0]) == k then [a[0]] else [], Group(a[1..], key, k), Group(b, key, k));
    }
  }

  lemma {:induction false} GroupNonempty<T>(s: seq<T>, key: T -> Key, i: nat)
    requires i < |s|
    ensures Group(s, key, key(s[i])) != []
  {
    if i > 0 {
      GroupNonempty(s[1..], key, i - 1);
    }
  }

  lemma NoMembers<T>(s: seq<T>, empty: seq<T>, key: T -> Key)
    requires empty == [] && forall k :: Group(s, key, k) == Group(empty, key, k)
    ensures s == []
  {
    if s != [] {
      GroupNonempty(s, key, 0);
    }
  }

  /** The first member of a group, and where it stands. */
  lemma {:induction false} FirstOfGroup<T>(s: seq<T>, key: T -> Key, k: Key) returns (i: nat)
    requires Group(s, key, k) != []
    ensures i < |s| && s[i] == Group(s, key, k)[0] && key(s[i]) == k
    ensures forall j :: 0 <= j < i ==> key(s[j]) != k
  {
    if key(s[0]) == k {
      i := 0;
    } else {
      i := FirstOfGroup(s[1..], key, k);
      i := i + 1;
    }
  }

  // ---- sorting by group ----

  ghost predicate Sorted<T>(s: seq<T>, key: T -> Key)
  {
    forall i, j :: 0 <= i < j < |s| ==> KeyLeq(key(s[i]), key(s[j]))
  }

  /** Puts `x` in front of everything that does not sort before it. */
  function Insert<T>(x: T, s: seq<T>, key: T -> Key): seq<T>
  {
    if s == [] then [x]
    else if KeyLeq(key(x), key(s[0])) then [x] + s
    else [s[0]] + Insert(x, s[1..], key)
  }

  function StableSort<T>(s: seq<T>, key: T -> Key): seq<T>
  {
    if s == [] then [] else Insert(s[0], StableSort(s[1..], key), key)
  }

  lemma {:induction false} InsertMembers<T>(x: T, s: seq<T>, key: T -> Key, i: nat)
    requires i < |Insert(x, s, key)|
    ensures Insert(x, s, key)[i] == x || Insert(x, s, key)[i] in s
  {
    if s != [] && !KeyLeq(key(x), key(s[0])) && i > 0 {
      InsertMembers(x, s[1..], key, i - 1);
    }
  }

  lemma {:induction false} InsertSorted<T>(x: T, s: seq<T>, key: T -> Key)
    requires Sorted(s, key)
    ensures Sorted(Insert(x, s, key), key)
  {
    if s != [] {
      if KeyLeq(key(x), key(s[0])) {
        forall i | 0 <= i < |s|
          ensures KeyLeq(key(x), key(s[i]))
        {
          if i > 0 {
            KeyTransitive(key(x), key(s[0]), key(s[i]));
          }
        }
      } else {
        KeyTotal(key(x), key(s[0]));
        var rest := Insert(x, s[1..], key);
        InsertSorted(x, s[1..], key);
        forall i | 0 <= i < |rest|
          ensures KeyLeq(key(s[0]), key(rest[i]))
        {
          InsertMembers(x, s[1..], key, i);
        }
      }
    }
  }

  /** Stability: an insertion in front of its equals keeps every group's order. */
  lemma {:induction false} InsertGroup<T>(x: T, s: seq<T>, key: T -> Key, k: Key)
    ensures Group(Insert(x, s, key), key, k) == Group([x] + s, key, k)
  {
    assert ([x] + s)[1..] == s;
    if s != [] && !KeyLeq(key(x), key(s[0])) {
      InsertGroup(x, s[1..], key, k);
      KeyTotal(key(x), key(s[0]));
      var rest := Insert(x, s[1..], key);
      assert ([s[0]] + rest)[1..] == rest && ([x] + s[1..])[1..] == s[1..];
      assert key(x) != key(s[0]) by {
        if key(x) == key(s[0]) {
          KeyTotal(key(x), key(x));
        }
      }
    }
  }

  lemma {:induction false} SortIsSorted<T>(s: seq<T>, key: T -> Key)
    ensures Sorted(StableSort(s, key), key)
  {
    if s != [] {
      SortIsSorted(s[1..], key);
      InsertSorted(s[0], StableSort(s[1..], key), key);
    }
  }

  lemma {:induction false} SortKeepsGroups<T>(s: seq<T>, key: T -> Key, k: Key)
    ensures Group(StableSort(s, key), key, k) == Group(s, key, k)
  {
    if s != [] {
      var rest := StableSort(s[1..], key);
      SortKeepsGroups(s[1..], key, k);
      InsertGroup(s[0], rest, key, k);
      assert ([s[0]] + rest)[1..] == rest;
    }
  }

  /** A sorted list is determined by its groups. */
  lemma {:induction false} SortedDetermined<T>(a: seq<T>, b: seq<T>, key: T -> Key)
    requires Sorted(a, key) && Sorted(b, key) && SameGroups(a, b, key)
    ensures a == b
    decreases |a|
  {
    if a == [] {
      NoMembers(b, a, key);
    } else if b == [] {
      NoMembers(a, b, key);
    } else {
      HeadsEqual(a, b, key);
      forall k
        ensures Group(a[1..], key, k) == Group(b[1..], key, k)
      {
        assert Group(a, key, k) == Group(b, key, k);
        SameTail(a[0], Group(a[1..], key, k), Group(b[1..], key, k));
      }
      SortedDetermined(a[1..], b[1..], key);
      assert a == [a[0]] + a[1..] && b == [b[0]] + b[1..];
    }
  }

  lemma SameTail<T>(x: T, a: seq<T>, b: seq<T>)
    requires [x] + a == [x] + b || [] + a == [] + b
    ensures a == b
  {
    assert [] + a == a == ([x] + a)[1..] && [] + b == b == ([x] + b)[1..];
  }

  lemma HeadsEqual<T>(a: seq<T>, b: seq<T>, key: T -> Key)
    requires a != [] && b != [] && Sorted(a, key) && Sorted(b, key) && SameGroups(a, b, key)
    ensures a[0] == b[0]
  {
    HeadNotAfter(a, b, key);
    HeadNotAfter(b, a, key);
    KeyTotal(key(a[0]), key(b[0]));
    assert Group(a, key, key(a[0])) == Group(b, key, key(a[0]));
    assert Group(a, key, key(a[0]))[0] == a[0] && Group(b, key, key(b[0]))[0] == b[0];
  }

  lemma HeadNotAfter<T>(a: seq<T>, b: seq<T>, key: T -> Key)
    requires a != [] && b != [] && Sorted(b, key) && SameGroups(a, b, key)
    ensures KeyLeq(key(b[0]), key(a[0]))
  {
    GroupNonempty(a, key, 0);
    assert Group(a, key, key(a[0])) == Group(b, key, key(a[0]));
    var i := FirstOfGroup(b, key, key(a[0]));
    KeyTotal(key(b[0]), key(b[0]));
  }

  /** The stable sort is a canonical form: equal exactly when every group keeps its order. */
  lemma CanonicalForm<T>(a: seq<T>, b: seq<T>, key: T -> Key)
    ensures StableSort(a, key) == StableSort(b, key) <==> SameGroups(a, b, key)
  {
    forall k
      ensures Group(StableSort(a, key), key, k) == Group(a, key, k)
      ensures Group(StableSort(b, key), key, k) == Group(b, key, k)
    {
      SortKeepsGroups(a, key, k);
      SortKeepsGroups(b, key, k);
    }
    SortIsSorted(a, key);
    SortIsSorted(b, key);
    if SameGroups(a, b, key) {
      SortedDetermined(StableSort(a, key), StableSort(b, key), key);
    }
  }

  // ---- rescheduling ----

  ghost predicate SwappedAt<T(!new)>(a: seq<T>, b: seq<T>, key: T -> Key, i: nat)
  {
    i + 1 < |a| && key(a[i]) != key(a[i + 1]) && b == a[i := a[i + 1]][i + 1 := a[i]]
  }

  /** `b` is reached from `a` by `n` swaps of neighbours that belong to different groups. */
  ghost predicate Rescheduled<T(!new)>(a: seq<T>, b: seq<T>, key: T -> Key, n: nat)
    decreases n
  {
    if n == 0 then a == b
    else exists c: seq<T>, i: nat :: SwappedAt(a, c, key, i) && Rescheduled(c, b, key, n - 1)
  }

  lemma GroupOfPair<T>(front: seq<T>, x: T, y: T, back: seq<T>, key: T -> Key, k: Key)
    ensures Group(front + ([x, y] + back), key, k)
         == Group(front, key, k) + ((if key(x) == k then [x] else []) + (if key(y) == k then [y] else []) + Group(back, key, k))
  {
    GroupConcat(front, [x, y] + back, key, k);
    assert ([x, y] + back)[1..] == [y] + back && ([y] + back)[1..] == back;
    ConcatAssoc(if key(x) == k then [x] else [], if key(y) == k then [y] else [], Group(back, key, k));
  }

  lemma SwapKeepsGroups<T(!new)>(a: seq<T>, b: seq<T>, key: T -> Key, i: nat, k: Key)
    requires SwappedAt(a, b, key, i)
    ensures Group(a, key, k) == Group(b, key, k)
  {
    var front, x, y, back := a[..i], a[i], a[i + 1], a[i + 2..];
    assert a == front + ([x, y] + back) && b == front + ([y, x] + back);
    GroupOfPair(front, x, y, back, key, k);
    GroupOfPair(front, y, x, back, key, k);
  }

  lemma {:induction false} RescheduledKeepsGroups<T(!new)>(a: seq<T>, b: seq<T>, key: T -> Key, n: nat, k: Key)
    requires Rescheduled(a, b, key, n)
    ensures Group(a, key, k) == Group(b, key, k)
    decreases n
  {
    if n > 0 {
      var c: seq<T>, i: nat :| SwappedAt(a, c, key, i) && Rescheduled(c, b, key, n - 1);
      SwapKeepsGroups(a, c, key, i, k);
      RescheduledKeepsGroups(c, b, key, n - 1, k);
    }
  }

  lemma {:induction false} RescheduledThen<T(!new)>(a: seq<T>, b: seq<T>, c: seq<T>, key: T -> Key, m: nat, n: nat)
    requires Rescheduled(a, b, key, m) && Rescheduled(b, c, key, n)
    ensures Rescheduled(a, c, key, m + n)
    decreases m
  {
    if m > 0 {
      var d: seq<T>, i: nat :| SwappedAt(a, d, key, i) && Rescheduled(d, b, key, m - 1);
      RescheduledThen(d, b, c, key, m - 1, n);
    }
  }

  lemma {:induction false} RescheduledBehind<T(!new)>(x: T, a: seq<T>, b: seq<T>, key: T -> Key, n: nat)
    requires Rescheduled(a, b, key, n)
    ensures Rescheduled([x] + a, [x] + b, key, n)
    decreases n
  {
    if n > 0 {
      var c: seq<T>, i: nat :| SwappedAt(a, c, key, i) && Rescheduled(c, b, key, n - 1);
      RescheduledBehind(x, c, b, key, n - 1);
      assert SwappedAt([x] + a, [x] + c, key, i + 1);
    }
  }

  function Front<T>(s: seq<T>, i: nat): seq<T>
    requires i < |s|
  {
    [s[i]] + s[..i] + s[i + 1..]
  }

  /** An item can be moved to the front past members of other groups. */
  lemma {:induction false} MoveToFront<T(!new)>(a: seq<T>, key: T -> Key, i: nat)
    requires i < |a| && forall j :: 0 <= j < i ==> key(a[j]) != key(a[i])
    ensures Rescheduled(a, Front(a, i), key, i)
    decreases i
  {
    if i == 0 {
      assert Front(a, 0) == a;
    } else {
      var c := a[i - 1 := a[i]][i := a[i - 1]];
      assert SwappedAt(a, c, key, i - 1);
      MoveToFront(c, key, i - 1);
      assert Front(c, i - 1) == Front(a, i);
    }
  }

  lemma RestHasSameGroups<T(!new)>(a: seq<T>, b: seq<T>, rest: seq<T>, key: T -> Key, i: nat)
    requires SameGroups(a, b, key) && b != [] && Rescheduled(a, [b[0]] + rest, key, i)
    ensures SameGroups(rest, b[1..], key)
  {
    hide Rescheduled;
    var y := b[0];
    forall g
      ensures Group(rest, key, g) == Group(b[1..], key, g)
    {
      RescheduledKeepsGroups(a, [y] + rest, key, i, g);
      assert Group(a, key, g) == Group(b, key, g);
      assert ([y] + rest)[1..] == rest;
      SameTail(y, Group(rest, key, g), Group(b[1..], key, g));
    }
  }

  /** Lists with the same groups can be turned into each other. */
  lemma {:induction false} SameGroupsReachable<T(!new)>(a: seq<T>, b: seq<T>, key: T -> Key) returns (n: nat)
    requires SameGroups(a, b, key)
    ensures Rescheduled(a, b, key, n)
    decreases |b|
  {
    if b == [] {
      n := 0;
      NoMembers(a, b, key);
    } else {
      var y, k := b[0], key(b[0]);
      assert Group(a, key, k) == Group(b, key, k);
      var i := FirstOfGroup(a, key, k);
      var rest := a[..i] + a[i + 1..];
      MoveToFront(a, key, i);
      assert Front(a, i) == [y] + rest;
      RestHasSameGroups(a, b, rest, key, i);
      var m := SameGroupsReachable(rest, b[1..], key);
      RescheduledBehind(y, rest, b[1..], key, m);
      assert [y] + b[1..] == b;
      RescheduledThen(a, [y] + rest, b, key, i, m);
      n := i + m;
    }
  }

  /** Some number of such swaps leads from one to the other. */
  ghost predicate Reschedulable<T(!new)>(a: seq<T>, b: seq<T>, key: T -> Key)
  {
    exists n: nat :: Rescheduled(a, b, key, n)
  }

  /** Same order inside every group means: the same up to scheduling of different groups. */
  lemma SameGroupsExactlyWhenRescheduled<T(!new)>(a: seq<T>, b: seq<T>, key: T -> Key)
    ensures SameGroups(a, b, key) <==> Reschedulable(a, b, key)
  {
    if SameGroups(a, b, key) {
      var n := SameGroupsReachable(a, b, key);
      assert Rescheduled(a, b, key, n);
    }
    if Reschedulable(a, b, key) {
      var n: nat :| Rescheduled(a, b, key, n);
      forall k
        ensures Group(a, key, k) == Group(b, key, k)
      {
        RescheduledKeepsGroups(a, b, key, n, k);
      }
    }
  }
}
