/** The merged package inventory of all lock files, and the security pins checked against it. */
module Inventory {
  import opened Bytes
  import opened Grouping
  import opened Lockfile

  /** One line of one lock file. */
  datatype Source = Source(lock: string, line: string)

  datatype Use = Use(lock: string, configurations: seq<string>)

  /** A name and a version. */
  type Id = k: Key | |k| == 2 witness ["", ""]

  /** One use of a package. */
  datatype Item = Item(key: Id, use: Use)

  datatype Package = Package(name: string, version: string, uses: seq<Use>) {
    function Key(): Id
    {
      [name, version]
    }
  }

  function ItemOf(lock: string, e: Entry): Item
  {
    Item([e.group + ":" + e.artifact, e.version], Use(lock, e.configurations))
  }

  /** One item for every line that is not skipped; `None` when a line is malformed. */
  function Items(lines: seq<Source>): Option<seq<Item>>
  {
    if lines == [] then Some([])
    else
      var before, last := Items(lines[..|lines| - 1]), lines[|lines| - 1];
      var read := ReadLine(last.line);
      if before.None? || read.Malformed? then None
      else if read.Skipped? then before
      else Some(before.value + [ItemOf(last.lock, read.entry)])
  }

  /** The uses of one package in the order of the lines. */
  function UsesOf(items: seq<Item>, key: Id): seq<Use>
  {
    if items == [] then []
    else
      var before, last := UsesOf(items[..|items| - 1], key), items[|items| - 1];
      if last.key == key then before + [last.use] else before
  }

  // ---- the dictionary ----

  /** A dictionary and the order in which its keys were first set. */
  datatype Rows = Rows(order: seq<Id>, uses: map<Id, seq<Use>>) {
    function Put(item: Item): Rows
    {
      if item.key in uses then Rows(order, uses[item.key := uses[item.key] + [item.use]])
      else Rows(order + [item.key], uses[item.key := [item.use]])
    }
  }

  function RowsOf(items: seq<Item>): Rows
  {
    if items == [] then Rows([], map[]) else RowsOf(items[..|items| - 1]).Put(items[|items| - 1])
  }

  ghost predicate Distinct(keys: seq<Id>)
  {
    forall i, j :: 0 <= i < j < |keys| ==> keys[i] != keys[j]
  }

  ghost predicate KeysSound(rows: Rows)
  {
    && Distinct(rows.order)
    && (forall k: Id :: k in rows.order <==> k in rows.uses)
  }

  ghost predicate UsesSound(rows: Rows, items: seq<Item>)
  {
    && (forall k :: k in rows.uses <==> UsesOf(items, k) != [])
    && (forall k :: k in rows.uses ==> rows.uses[k] == UsesOf(items, k))
  }

  lemma UsesMore(items: seq<Item>, item: Item, k: Id)
    ensures UsesOf(items + [item], k) == UsesOf(items, k) + if k == item.key then [item.use] else []
  {
    assert (items + [item])[..|items|] == items;
  }

  lemma PutKeysSound(rows: Rows, item: Item)
    requires KeysSound(rows)
    ensures KeysSound(rows.Put(item))
  {
    if item.key !in rows.uses {
      var next := rows.order + [item.key];
      assert next[|rows.order|] == item.key;
      assert forall i :: 0 <= i < |rows.order| ==> next[i] == rows.order[i] && next[i] in rows.order;
    }
  }

  lemma PutUsesSound(rows: Rows, items: seq<Item>, item: Item)
    requires UsesSound(rows, items)
    ensures UsesSound(rows.Put(item), items + [item])
  {
    forall k
      ensures UsesOf(items + [item], k) == UsesOf(items, k) + if k == item.key then [item.use] else []
    {
      UsesMore(items, item, k);
    }
  }

  lemma {:induction false} RowsSound(items: seq<Item>)
    ensures KeysSound(RowsOf(items)) && UsesSound(RowsOf(items), items)
  {
    if items != [] {
      var front, last := items[..|items| - 1], items[|items| - 1];
      RowsSound(front);
      PutKeysSound(RowsOf(front), last);
      PutUsesSound(RowsOf(front), front, last);
      assert items == front + [last];
    }
  }

  // ---- the sorted list ----

  function SortedKeys(rows: Rows): seq<Id>
  {
    StableSort(rows.order, (k: Id) => k)
  }

  function Listing(keys: seq<Id>, uses: map<Id, seq<Use>>): (list: seq<Package>)
    requires forall i :: 0 <= i < |keys| ==> keys[i] in uses
    ensures |list| == |keys|
    ensures forall i :: 0 <= i < |keys| ==> list[i].Key() == keys[i] && list[i].uses == uses[keys[i]]
  {
    if keys == [] then []
    else [Package(keys[0][0], keys[0][1], uses[keys[0]])] + Listing(keys[1..], uses)
  }

  lemma {:induction false} OfKey(keys: seq<Id>, k: Id)
    ensures k in keys <==> Group(keys, (x: Id) => x, k) != []
  {
    if keys != [] {
      OfKey(keys[1..], k);
      assert keys == [keys[0]] + keys[1..];
    }
  }

  lemma {:induction false} TwoOfKey(keys: seq<Id>, i: nat, j: nat)
    requires i < j < |keys| && keys[i] == keys[j]
    ensures |Group(keys, (x: Id) => x, keys[i])| >= 2
  {
    if i > 0 {
      TwoOfKey(keys[1..], i - 1, j - 1);
    } else {
      assert keys[1..][j - 1] == keys[j];
      GroupNonempty(keys[1..], (x: Id) => x, j - 1);
    }
  }

  lemma {:induction false} OneOfKey(keys: seq<Id>, k: Id)
    requires Distinct(keys)
    ensures |Group(keys, (x: Id) => x, k)| <= 1
  {
    if keys != [] {
      assert Distinct(keys[1..]);
      OneOfKey(keys[1..], k);
      if keys[0] == k {
        forall j | 0 <= j < |keys| - 1
          ensures keys[1..][j] != k
        {
          assert keys[0] != keys[j + 1];
        }
        OfKey(keys[1..], k);
      }
    }
  }

  /** Sorting the keys of a dictionary loses none and repeats none. */
  lemma SortedKeysSound(rows: Rows)
    requires Distinct(rows.order)
    ensures Sorted(SortedKeys(rows), (x: Id) => x) && Distinct(SortedKeys(rows))
    ensures forall k: Id :: k in SortedKeys(rows) <==> k in rows.order
  {
    var id: Id -> Key := (x: Id) => x;
    var keys := SortedKeys(rows);
    SortIsSorted(rows.order, id);
    forall k: Id
      ensures (k in keys <==> k in rows.order) && |Group(keys, id, k)| <= 1
    {
      SortKeepsGroups(rows.order, id, k);
      OfKey(keys, k);
      OfKey(rows.order, k);
      OneOfKey(rows.order, k);
    }
    forall i, j | 0 <= i < j < |keys|
      ensures keys[i] != keys[j]
    {
      if keys[i] == keys[j] {
        TwoOfKey(keys, i, j);
      }
    }
  }

  /** The packages of all lines, sorted by name and version; `None` when reading raises. */
  function Merged(lines: seq<Source>): Option<seq<Package>>
  {
    var items := Items(lines);
    if items.None? || items.value == [] then None
    else
      var rows := RowsOf(items.value);
      RowsSound(items.value);
      SortedKeysSound(rows);
      Some(Listing(SortedKeys(rows), rows.uses))
  }

  ghost predicate StrictlySorted(list: seq<Package>)
  {
    forall i, j :: 0 <= i < j < |list| ==> list[i].Key() != list[j].Key() && KeyLeq(list[i].Key(), list[j].Key())
  }

  /** Exactly the packages used, each with all its uses in order. */
  ghost predicate Complete(list: seq<Package>, items: seq<Item>)
  {
    && (forall i :: 0 <= i < |list| ==> list[i].uses == UsesOf(items, list[i].Key()) && list[i].uses != [])
    && (forall k :: UsesOf(items, k) != [] ==> Has(list, k))
  }

  lemma ListingSound(rows: Rows, items: seq<Item>)
    requires KeysSound(rows) && UsesSound(rows, items)
    requires forall i :: 0 <= i < |SortedKeys(rows)| ==> SortedKeys(rows)[i] in rows.uses
    ensures StrictlySorted(Listing(SortedKeys(rows), rows.uses))
    ensures Complete(Listing(SortedKeys(rows), rows.uses), items)
  {
    SortedKeysSound(rows);
    var keys := SortedKeys(rows);
    var list := Listing(keys, rows.uses);
    SortedList(list, keys);
    CompleteList(list, keys, rows.uses, items);
  }

  ghost predicate NoneMalformed(lines: seq<Source>)
  {
    forall i :: 0 <= i < |lines| ==> !ReadLine(lines[i].line).Malformed?
  }

  ghost predicate SomethingLocked(lines: seq<Source>)
  {
    exists i :: 0 <= i < |lines| && ReadLine(lines[i].line).Locked?
  }

  lemma {:induction false} ItemsExactlyWhen(lines: seq<Source>)
    ensures Items(lines).Some? <==> NoneMalformed(lines)
    ensures Items(lines).Some? ==> (Items(lines).value != [] <==> SomethingLocked(lines))
  {
    hide ReadLine;
    if lines != [] {
      var front, last := lines[..|lines| - 1], lines[|lines| - 1];
      ItemsExactlyWhen(front);
      assert lines == front + [last];
      if SomethingLocked(front) {
        var i :| 0 <= i < |front| && ReadLine(front[i].line).Locked?;
        assert lines[i] == front[i];
      }
      assert lines[|lines| - 1] == last;
    }
  }

  /** The inventory can be read exactly when no line of any lock file is malformed and something is locked. */
  lemma MergedExactlyWhen(lines: seq<Source>)
    ensures Merged(lines).Some? <==> NoneMalformed(lines) && SomethingLocked(lines)
  {
    hide NoneMalformed, SomethingLocked, Items;
    ItemsExactlyWhen(lines);
  }

  /**
   Reading fails exactly on a malformed line or when no line is an entry; otherwise the keys are
   strictly increasing and every package used is listed with all its uses, in order.
   */
  lemma MergedMeans(lines: seq<Source>)
    ensures Merged(lines).None? <==> Items(lines).None? || Items(lines).value == []
    ensures Merged(lines).Some? ==>
      StrictlySorted(Merged(lines).value) && Complete(Merged(lines).value, Items(lines).value)
  {
    if Merged(lines).Some? {
      var items := Items(lines).value;
      RowsSound(items);
      SortedKeysSound(RowsOf(items));
      ListingSound(RowsOf(items), items);
    }
  }

  lemma SortedList(list: seq<Package>, keys: seq<Id>)
    requires |list| == |keys| && Distinct(keys) && Sorted(keys, (x: Id) => x)
    requires forall i :: 0 <= i < |list| ==> list[i].Key() == keys[i]
    ensures StrictlySorted(list)
  {
    forall i, j | 0 <= i < j < |list|
      ensures list[i].Key() != list[j].Key() && KeyLeq(list[i].Key(), list[j].Key())
    {
      assert keys[i] != keys[j] && KeyLeq(((x: Id) => x)(keys[i]), ((x: Id) => x)(keys[j]));
    }
  }

  lemma CompleteList(list: seq<Package>, keys: seq<Id>, uses: map<Id, seq<Use>>, items: seq<Item>)
    requires |list| == |keys|
    requires forall k: Id :: k in keys <==> k in uses
    requires forall i :: 0 <= i < |list| ==> keys[i] in uses && list[i].Key() == keys[i] && list[i].uses == uses[keys[i]]
    requires forall k :: k in uses <==> UsesOf(items, k) != []
    requires forall k :: k in uses ==> uses[k] == UsesOf(items, k)
    ensures Complete(list, items)
  {
    forall k: Id | UsesOf(items, k) != []
      ensures Has(list, k)
    {
      var i :| 0 <= i < |keys| && keys[i] == k;
      assert list[i].Key() == k;
    }
  }

  // ---- conservation ----

  function TotalUses(list: seq<Package>): nat
  {
    if list == [] then 0 else |list[0].uses| + TotalUses(list[1..])
  }

  ghost predicate Has(list: seq<Package>, key: Id)
  {
    exists i :: 0 <= i < |list| && list[i].Key() == key
  }

  lemma HasMore(list: seq<Package>, key: Id)
    requires list != []
    ensures Has(list, key) <==> list[0].Key() == key || Has(list[1..], key)
  {
    if Has(list[1..], key) {
      var i :| 0 <= i < |list| - 1 && list[1..][i].Key() == key;
      assert list[i + 1].Key() == key;
    }
    if Has(list, key) && list[0].Key() != key {
      var i :| 0 <= i < |list| && list[i].Key() == key;
      assert list[1..][i - 1].Key() == key;
    }
  }

  lemma RestSorted(list: seq<Package>)
    requires StrictlySorted(list) && list != []
    ensures StrictlySorted(list[1..]) && !Has(list[1..], list[0].Key())
  {
    var rest := list[1..];
    forall i, j | 0 <= i < j < |rest|
      ensures rest[i].Key() != rest[j].Key() && KeyLeq(rest[i].Key(), rest[j].Key())
    {
      assert list[i + 1].Key() != list[j + 1].Key() && KeyLeq(list[i + 1].Key(), list[j + 1].Key());
    }
    forall i | 0 <= i < |rest|
      ensures rest[i].Key() != list[0].Key()
    {
      assert list[0].Key() != list[i + 1].Key();
    }
  }

  ghost function Counted(list: seq<Package>, items: seq<Item>): nat
  {
    if list == [] then 0 else |UsesOf(items, list[0].Key())| + Counted(list[1..], items)
  }

  lemma {:induction false} CountedMore(list: seq<Package>, items: seq<Item>, item: Item)
    requires StrictlySorted(list)
    ensures Counted(list, items + [item]) == Counted(list, items) + if Has(list, item.key) then 1 else 0
  {
    if list != [] {
      UsesMore(items, item, list[0].Key());
      RestSorted(list);
      CountedMore(list[1..], items, item);
      HasMore(list, item.key);
    }
  }

  lemma {:induction false} CountedAll(list: seq<Package>, items: seq<Item>)
    requires StrictlySorted(list)
    requires forall j :: 0 <= j < |items| ==> Has(list, items[j].key)
    ensures Counted(list, items) == |items|
    decreases |items|
  {
    if items == [] {
      CountedNone(list);
    } else {
      var front, last := items[..|items| - 1], items[|items| - 1];
      CountedAll(list, front);
      CountedMore(list, front, last);
      assert items == front + [last];
    }
  }

  lemma {:induction false} CountedNone(list: seq<Package>)
    ensures Counted(list, []) == 0
  {
    if list != [] {
      CountedNone(list[1..]);
    }
  }

  lemma {:induction false} TotalIsCounted(list: seq<Package>, items: seq<Item>)
    requires forall i :: 0 <= i < |list| ==> list[i].uses == UsesOf(items, list[i].Key())
    ensures TotalUses(list) == Counted(list, items)
  {
    if list != [] {
      TotalIsCounted(list[1..], items);
    }
  }

  lemma {:induction false} UsedHasUses(items: seq<Item>, j: nat)
    requires j < |items|
    ensures UsesOf(items, items[j].key) != []
    decreases |items|
  {
    if j < |items| - 1 {
      UsedHasUses(items[..|items| - 1], j);
    }
  }

  /** Every line that is not skipped is recorded as exactly one use of one package. */
  lemma UsesConserved(lines: seq<Source>)
    requires Merged(lines).Some?
    ensures TotalUses(Merged(lines).value) == |Items(lines).value|
  {
    var list, items := Merged(lines).value, Items(lines).value;
    MergedMeans(lines);
    forall j | 0 <= j < |items|
      ensures Has(list, items[j].key)
    {
      UsedHasUses(items, j);
    }
    CountedAll(list, items);
    TotalIsCounted(list, items);
  }

  // ---- reading the lock files ----

  datatype Lock = Lock(name: string, lines: seq<string>)

  function Tagged(lock: string, lines: seq<string>): (out: seq<Source>)
    ensures |out| == |lines|
  {
    if lines == [] then [] else Tagged(lock, lines[..|lines| - 1]) + [Source(lock, lines[|lines| - 1])]
  }

  function AllLines(locks: seq<Lock>): seq<Source>
  {
    if locks == [] then []
    else AllLines(locks[..|locks| - 1]) + Tagged(locks[|locks| - 1].name, locks[|locks| - 1].lines)
  }

  lemma ItemsMore(lines: seq<Source>, s: Source)
    requires Items(lines).Some?
    ensures Items(lines + [s]) ==
      match ReadLine(s.line)
      case Malformed => None
      case Skipped => Items(lines)
      case Locked(e) => Some(Items(lines).value + [ItemOf(s.lock, e)])
  {
    assert (lines + [s])[..|lines|] == lines;
  }

  lemma {:induction false} ItemsFail(lines: seq<Source>, more: seq<Source>)
    requires Items(lines).None?
    ensures Items(lines + more).None?
    decreases |more|
  {
    if more == [] {
      assert lines + more == lines;
    } else {
      ItemsFail(lines, more[..|more| - 1]);
      assert (lines + more)[..|lines + more| - 1] == lines + more[..|more| - 1];
    }
  }

  lemma RowsMore(items: seq<Item>, item: Item)
    ensures RowsOf(items + [item]) == RowsOf(items).Put(item)
  {
    assert (items + [item])[..|items|] == items;
  }

  /** Adds the lines of one lock file; false when one of them is malformed. */
  method AddLock(lock: Lock, rows: Rows, ghost before: seq<Source>) returns (ok: bool, next: Rows)
    requires Items(before).Some? && rows == RowsOf(Items(before).value)
    ensures ok <==> Items(before + Tagged(lock.name, lock.lines)).Some?
    ensures ok ==> next == RowsOf(Items(before + Tagged(lock.name, lock.lines)).value)
  {
    next := rows;
    ghost var lines := before;
    assert before + [] == before;
    for i := 0 to |lock.lines|
      invariant lines == before + Tagged(lock.name, lock.lines[..i])
      invariant Items(lines).Some? && next == RowsOf(Items(lines).value)
    {
      var line := lock.lines[i];
      assert lock.lines[..i + 1][..i] == lock.lines[..i];
      ConcatAssoc(before, Tagged(lock.name, lock.lines[..i]), [Source(lock.name, line)]);
      ItemsMore(lines, Source(lock.name, line));
      var read := ReadLine(line);
      if read.Malformed? {
        TaggedParts(lock.name, lock.lines, i + 1);
        ItemsFail(lines + [Source(lock.name, line)], Tagged(lock.name, lock.lines)[i + 1..]);
        ConcatAssoc(before, Tagged(lock.name, lock.lines[..i + 1]), Tagged(lock.name, lock.lines)[i + 1..]);
        return false, next;
      }
      if read.Locked? {
        RowsMore(Items(lines).value, ItemOf(lock.name, read.entry));
        next := next.Put(ItemOf(lock.name, read.entry));
      }
      lines := lines + [Source(lock.name, line)];
    }
    assert lock.lines[..|lock.lines|] == lock.lines;
    ok := true;
  }

  lemma {:induction false} TaggedParts(lock: string, lines: seq<string>, n: nat)
    requires n <= |lines|
    ensures Tagged(lock, lines) == Tagged(lock, lines[..n]) + Tagged(lock, lines)[n..]
    decreases |lines|
  {
    if n == |lines| {
      assert lines[..n] == lines;
    } else {
      TaggedParts(lock, lines[..|lines| - 1], n);
      assert lines[..|lines| - 1][..n] == lines[..n];
    }
  }

  lemma {:induction false} AllLinesParts(locks: seq<Lock>, n: nat)
    requires n <= |locks|
    ensures |AllLines(locks[..n])| <= |AllLines(locks)|
    ensures AllLines(locks) == AllLines(locks[..n]) + AllLines(locks)[|AllLines(locks[..n])|..]
    decreases |locks|
  {
    if n == |locks| {
      assert locks[..n] == locks;
    } else {
      AllLinesParts(locks[..|locks| - 1], n);
      assert locks[..|locks| - 1][..n] == locks[..n];
    }
  }

  method ReadLocks(locks: seq<Lock>) returns (list: Option<seq<Package>>)
    ensures list == Merged(AllLines(locks))
  {
    var rows := Rows([], map[]);
    for i := 0 to |locks|
      invariant Items(AllLines(locks[..i])).Some? && rows == RowsOf(Items(AllLines(locks[..i])).value)
    {
      assert locks[..i + 1][..i] == locks[..i];
      var ok, next := AddLock(locks[i], rows, AllLines(locks[..i]));
      if !ok {
        AllLinesParts(locks, i + 1);
        ItemsFail(AllLines(locks[..i + 1]), AllLines(locks)[|AllLines(locks[..i + 1])|..]);
        return None;
      }
      rows := next;
    }
    assert locks[..|locks|] == locks;
    ghost var items := Items(AllLines(locks)).value;
    RowsSound(items);
    NoRows(items);
    if rows.order == [] {
      return None;
    }
    SortedKeysSound(rows);
    return Some(Listing(SortedKeys(rows), rows.uses));
  }

  lemma NoRows(items: seq<Item>)
    ensures RowsOf(items).order == [] <==> items == []
  {
    RowsSound(items);
    if items != [] {
      UsedHasUses(items, 0);
      assert items[0].key in RowsOf(items).order;
    }
  }

  // ---- security pins ----

  /** The name with its colons written as slashes, as the pins are keyed. */
  function Slashed(name: string): (s: string)
    ensures |s| == |name| && forall i :: 0 <= i < |s| ==> s[i] == if name[i] == ':' then '/' else name[i]
  {
    seq(|name|, i requires 0 <= i < |name| => if name[i] == ':' then '/' else name[i])
  }

  /** `key` is listed, and at the pinned version wherever it is. */
  ghost predicate Pinned(list: seq<Package>, key: string, version: string)
  {
    && (exists i :: 0 <= i < |list| && Slashed(list[i].name) == key)
    && (forall i :: 0 <= i < |list| && Slashed(list[i].name) == key ==> list[i].version == version)
  }

  method CheckPins(pins: map<string, string>, list: seq<Package>) returns (ok: bool)
    ensures ok <==> pins != map[] && forall k :: k in pins ==> Pinned(list, k, pins[k])
  {
    if pins == map[] {
      return false;
    }
    var found: set<string> := {};
    for i := 0 to |list|
      invariant found == set j | 0 <= j < i && Slashed(list[j].name) in pins :: Slashed(list[j].name)
      invariant forall j :: 0 <= j < i && Slashed(list[j].name) in pins ==>
                  list[j].version == pins[Slashed(list[j].name)]
    {
      var key := Slashed(list[i].name);
      if key in pins {
        found := found + {key};
        if list[i].version != pins[key] {
          assert !Pinned(list, key, pins[key]);
          return false;
        }
      }
    }
    ok := pins.Keys == found;
    if ok {
      forall k | k in pins
        ensures Pinned(list, k, pins[k])
      {
        assert k in found;
      }
    } else {
      Missing(pins, list, found);
    }
  }

  lemma Missing(pins: map<string, string>, list: seq<Package>, found: set<string>)
    requires found == set j | 0 <= j < |list| && Slashed(list[j].name) in pins :: Slashed(list[j].name)
    requires pins.Keys != found
    ensures exists k :: k in pins && !Pinned(list, k, pins[k])
  {
    assert found <= pins.Keys;
    var k :| k in pins && k !in found;
    assert !Pinned(list, k, pins[k]);
  }

  predicate OneSlash(key: string)
  {
    '/' in key && forall i, j :: 0 <= i < j < |key| ==> key[i] != '/' || key[j] != '/'
  }

  /** A pin names one package: with one slash in the key there is one way to put the colon back. */
  lemma SlashedOnce(a: string, b: string)
    requires ':' in a && ':' in b && Slashed(a) == Slashed(b) && OneSlash(Slashed(a))
    ensures a == b
  {
    var p: nat :| p < |a| && a[p] == ':';
    var q: nat :| q < |b| && b[q] == ':';
    assert Slashed(a)[p] == '/' && Slashed(b)[q] == '/' && p == q;
    forall i | 0 <= i < |a|
      ensures a[i] == b[i]
    {
      assert i == p || (Slashed(a)[i] != '/' && Slashed(b)[i] != '/');
    }
  }

  lemma {:induction false} KeysHaveColons(lines: seq<Source>, j: nat)
    requires Items(lines).Some? && j < |Items(lines).value|
    ensures ':' in Items(lines).value[j].key[0]
    decreases |lines|
  {
    var front := lines[..|lines| - 1];
    if j < |Items(front).value| {
      KeysHaveColons(front, j);
    } else {
      var e := ReadLine(lines[|lines| - 1].line).entry;
      assert (e.group + ":" + e.artifact)[|e.group|] == ':';
    }
  }

  lemma {:induction false} UsesHaveItem(items: seq<Item>, k: Id) returns (j: nat)
    requires UsesOf(items, k) != []
    ensures j < |items| && items[j].key == k
  {
    if items[|items| - 1].key == k {
      j := |items| - 1;
    } else {
      j := UsesHaveItem(items[..|items| - 1], k);
    }
  }

  /** In a merged inventory a satisfied pin stands for exactly one package. */
  lemma PinnedIsOne(lines: seq<Source>, key: string, version: string, i: nat, j: nat)
    requires Merged(lines).Some? && OneSlash(key) && Pinned(Merged(lines).value, key, version)
    requires i < |Merged(lines).value| && Slashed(Merged(lines).value[i].name) == key
    requires j < |Merged(lines).value| && Slashed(Merged(lines).value[j].name) == key
    ensures i == j
  {
    var list, items := Merged(lines).value, Items(lines).value;
    MergedMeans(lines);
    var x := UsesHaveItem(items, list[i].Key());
    var y := UsesHaveItem(items, list[j].Key());
    KeysHaveColons(lines, x);
    KeysHaveColons(lines, y);
    SlashedOnce(list[i].name, list[j].name);
    assert list[i].Key() == list[j].Key();
  }
}
