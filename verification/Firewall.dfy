/**
 Firewall snapshots: the native rule dump in a canonical order, and the test that a restarted
 worker installed an equivalent firewall.
 */
module Firewall {
  import opened Bytes
  import opened Grouping
  import opened Json

  // ---- the native dump ----

  /** One element of the nft dump: an object with a single key, its kind. */
  datatype Entry = Entry(kind: string, body: map<string, Json>)

  /** A field that must be a string, looked up under its name or a fallback name. */
  function Text(body: map<string, Json>, name: string, fallback: string): Option<string>
  {
    if name in body then (if body[name].Str? then Some(body[name].s) else None)
    else if fallback in body then (if body[fallback].Str? then Some(body[fallback].s) else None)
    else Some("")
  }

  /** Family, table, kind and chain can all be read. */
  predicate Groupable(e: Entry)
  {
    && Text(e.body, "family", "family").Some? && Text(e.body, "table", "name").Some?
    && Text(e.body, "chain", "name").Some?
  }

  function GroupOf(e: Entry): Key
  {
    if Groupable(e) then
      [Text(e.body, "family", "family").value, Text(e.body, "table", "name").value, e.kind,
       Text(e.body, "chain", "name").value]
    else []
  }

  function NormalizeEntry(e: Entry): Entry
  {
    Entry(e.kind, Normalize(Obj(e.body)).fields)
  }

  function NormalizeAll(dump: seq<Entry>): (out: seq<Entry>)
    ensures |out| == |dump|
  {
    if dump == [] then [] else [NormalizeEntry(dump[0])] + NormalizeAll(dump[1..])
  }

  function WithoutMeta(dump: seq<Entry>): seq<Entry>
  {
    if dump == [] then []
    else (if dump[0].kind == "metainfo" then [] else [dump[0]]) + WithoutMeta(dump[1..])
  }

  /** The native half of a snapshot. */
  function Snapshot(dump: seq<Entry>): seq<Entry>
  {
    StableSort(NormalizeAll(WithoutMeta(dump)), GroupOf)
  }

  /** Removing counters and handles never moves a rule to another group. */
  lemma NormalizeKeepsGroup(e: Entry)
    ensures Groupable(NormalizeEntry(e)) == Groupable(e) && GroupOf(NormalizeEntry(e)) == GroupOf(e)
  {
    var body := NormalizeEntry(e).body;
    assert body == map name | name in e.body && !Volatile(name) :: Normalize(e.body[name]);
    TextNormalized(e.body, body, "family", "family");
    TextNormalized(e.body, body, "table", "name");
    TextNormalized(e.body, body, "chain", "name");
  }

  lemma TextNormalized(body: map<string, Json>, normal: map<string, Json>, name: string, fallback: string)
    requires normal == map n | n in body && !Volatile(n) :: Normalize(body[n])
    requires !Volatile(name) && !Volatile(fallback)
    ensures Text(normal, name, fallback) == Text(body, name, fallback)
  {
    assert name in normal <==> name in body;
    assert fallback in normal <==> fallback in body;
  }

  lemma {:induction false} NormalizeInsert(x: Entry, s: seq<Entry>)
    ensures NormalizeAll(Insert(x, s, GroupOf)) == Insert(NormalizeEntry(x), NormalizeAll(s), GroupOf)
  {
    NormalizeKeepsGroup(x);
    if s != [] {
      NormalizeKeepsGroup(s[0]);
      assert ([x] + s)[1..] == s;
      if !KeyLeq(GroupOf(x), GroupOf(s[0])) {
        NormalizeInsert(x, s[1..]);
        assert ([s[0]] + Insert(x, s[1..], GroupOf))[1..] == Insert(x, s[1..], GroupOf);
        assert NormalizeAll(s)[1..] == NormalizeAll(s[1..]);
      }
    } else {
      assert [x][1..] == [];
    }
  }

  /** It makes no difference whether the dump is normalised before it is sorted or after. */
  lemma {:induction false} NormalizeCommutesWithSort(dump: seq<Entry>)
    ensures StableSort(NormalizeAll(dump), GroupOf) == NormalizeAll(StableSort(dump, GroupOf))
  {
    if dump != [] {
      NormalizeCommutesWithSort(dump[1..]);
      NormalizeInsert(dump[0], StableSort(dump[1..], GroupOf));
      assert NormalizeAll(dump)[1..] == NormalizeAll(dump[1..]);
    }
  }

  /**
   Snapshots are equal exactly when every chain holds the same normalised rules in the same
   order, which is to say that the dumps differ only in counters, handles and the order in
   which groups come.
   */
  lemma SnapshotCanonical(a: seq<Entry>, b: seq<Entry>)
    ensures var x, y := NormalizeAll(WithoutMeta(a)), NormalizeAll(WithoutMeta(b));
            && (Snapshot(a) == Snapshot(b) <==> SameGroups(x, y, GroupOf))
            && (Snapshot(a) == Snapshot(b) <==> Reschedulable(x, y, GroupOf))
  {
    var x, y := NormalizeAll(WithoutMeta(a)), NormalizeAll(WithoutMeta(b));
    CanonicalForm(x, y, GroupOf);
    SameGroupsExactlyWhenRescheduled(x, y, GroupOf);
  }
}
