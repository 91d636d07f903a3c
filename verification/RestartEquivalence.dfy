/**
 Is the firewall after a restart the one from before?  Independent profiles may have been
 installed in another order, so rule lines are compared per profile, table and chain; and all
 protective DROP rules must stand in front of every permit.
 */
module RestartEquivalence {
  import opened Bytes
  import opened Grouping
  import opened Json
  import opened Firewall
  import opened Text

  // ---- reading a line of a rule dump ----

  predicate Contains(line: string, part: string)
  {
    part <= line || (line != [] && Contains(line[1..], part))
  }

  /** The longest run of characters at the front that are neither blank nor, if told so, a quote. */
  function Word(line: string, quoted: bool): string
  {
    if line == [] || Space(line[0]) || (quoted && line[0] == '"') then []
    else [line[0]] + Word(line[1..], quoted)
  }

  /** The profile named after the first `qeli-nat:` that is followed by a name. */
  function Tag(line: string): Option<string>
  {
    if line == [] then None
    else if "qeli-nat:" <= line && Word(line[9..], true) != [] then Some(Word(line[9..], true))
    else Tag(line[1..])
  }

  /** The chain an append rule names; `None` when the line ends before it does. */
  function Chain(line: string): Option<string>
  {
    if "-A " <= line then
      var name := Word(SkipSpace(line[3..]), false);
      if name == [] then None else Some(name)
    else Some("")
  }

  // ---- the lines with their groups ----

  datatype Keyed = Keyed(key: Key, line: string)

  function KeyOf(k: Keyed): Key
  {
    k.key
  }

  function Table(before: string, line: string): string
  {
    if "*" <= line then line else before
  }

  function KeyLine(family: string, table: string, line: string): Keyed
  {
    Keyed([family, table, Chain(line).GetOr(""), Tag(line).GetOr("foreign")], line)
  }

  function KeyLines(family: string, table: string, lines: seq<string>): seq<Keyed>
    decreases |lines|
  {
    if lines == [] then []
    else
      var now := Table(table, lines[0]);
      [KeyLine(family, now, lines[0])] + KeyLines(family, now, lines[1..])
  }

  /** A snapshot: the dump of each backend and family, and the native objects. */
  datatype Dump = Dump(family: string, lines: seq<string>)

  datatype State = State(dumps: seq<Dump>, native: seq<Entry>)

  function AllKeyed(dumps: seq<Dump>): seq<Keyed>
  {
    if dumps == [] then []
    else KeyLines(dumps[0].family, "", dumps[0].lines) + AllKeyed(dumps[1..])
  }

  // ---- DROP before ACCEPT ----

  predicate Accepts(line: string)
  {
    Contains(line, "-j ACCEPT")
  }

  predicate Drops(line: string)
  {
    Contains(line, "-j DROP")
  }

  predicate OwnedDrop(line: string)
  {
    Contains(line, "qeli-nat:") && Drops(line)
  }

  function Forward(lines: seq<string>): seq<string>
  {
    if lines == [] then []
    else (if "-A FORWARD" <= lines[0] then [lines[0]] else []) + Forward(lines[1..])
  }

  /** The position of the first permit, or the length when there is none. */
  function FirstAccept(forward: seq<string>): (i: nat)
    ensures i <= |forward| && (i < |forward| ==> Accepts(forward[i]))
    ensures forall j :: 0 <= j < i ==> !Accepts(forward[j])
  {
    if forward == [] || Accepts(forward[0]) then 0 else 1 + FirstAccept(forward[1..])
  }

  predicate DropsFirst(forward: seq<string>)
  {
    forall i :: 0 <= i < |forward| && OwnedDrop(forward[i]) ==> i < FirstAccept(forward)
  }

  datatype Verdict = Accepted | Dropped | Fallthrough

  /** First-match evaluation: `hits` says which lines a packet matches. */
  function Evaluate(forward: seq<string>, hits: seq<bool>): Verdict
    requires |hits| == |forward|
  {
    if forward == [] then Fallthrough
    else if hits[0] && Accepts(forward[0]) then Accepted
    else if hits[0] && Drops(forward[0]) then Dropped
    else Evaluate(forward[1..], hits[1..])
  }

  /** The packet matches one of our own DROP rules. */
  ghost predicate Protected(forward: seq<string>, hits: seq<bool>)
    requires |hits| == |forward|
  {
    exists i :: 0 <= i < |forward| && hits[i] && OwnedDrop(forward[i])
  }

  /** No packet gets past a DROP rule of ours that it matches. */
  ghost predicate Protective(forward: seq<string>)
  {
    forall hits: seq<bool> :: |hits| == |forward| && Protected(forward, hits) ==> Evaluate(forward, hits) == Dropped
  }

  lemma {:induction false} ProtectedIsDropped(forward: seq<string>, hits: seq<bool>, i: nat)
    requires |hits| == |forward| && i < |forward| && hits[i] && OwnedDrop(forward[i])
    requires forall j :: 0 <= j <= i ==> !Accepts(forward[j])
    ensures Evaluate(forward, hits) == Dropped
  {
    if i > 0 {
      if !(hits[0] && Drops(forward[0])) {
        ProtectedIsDropped(forward[1..], hits[1..], i - 1);
      }
    }
  }

  lemma {:induction false} FirstHitAccepts(forward: seq<string>, hits: seq<bool>, i: nat)
    requires |hits| == |forward| && i < |forward| && hits[i] && Accepts(forward[i])
    requires forall j :: 0 <= j < i ==> !hits[j]
    ensures Evaluate(forward, hits) == Accepted
  {
    if i > 0 {
      FirstHitAccepts(forward[1..], hits[1..], i - 1);
    }
  }

  /**
   The order check means what it is for: it passes exactly when no packet, whatever lines it
   matches, can escape a DROP rule of ours that it matches.
   */
  lemma DropsFirstExactlyWhenProtected(forward: seq<string>)
    ensures DropsFirst(forward) <==> Protective(forward)
  {
    if DropsFirst(forward) {
      forall hits: seq<bool> | |hits| == |forward| && Protected(forward, hits)
        ensures Evaluate(forward, hits) == Dropped
      {
        var i :| 0 <= i < |forward| && hits[i] && OwnedDrop(forward[i]);
        ProtectedIsDropped(forward, hits, i);
      }
    } else {
      var i :| 0 <= i < |forward| && OwnedDrop(forward[i]) && FirstAccept(forward) <= i;
      var f := FirstAccept(forward);
      var hits := seq(|forward|, j => j == f || j == i);
      assert Protected(forward, hits) by {
        assert hits[i];
      }
      FirstHitAccepts(forward, hits, f);
    }
  }

  // ---- the comparison ----

  predicate Readable(d: Dump)
  {
    forall i :: 0 <= i < |d.lines| ==> Chain(d.lines[i]).Some?
  }

  /** The dump can be keyed, and its forward rules are in protective order. */
  predicate DumpOk(d: Dump)
  {
    Readable(d) && DropsFirst(Forward(d.lines))
  }

  predicate StateOk(s: State)
  {
    forall i :: 0 <= i < |s.dumps| ==> DumpOk(s.dumps[i])
  }

  predicate IsExternal(e: Entry)
  {
    var table := if "table" in e.body then Some(e.body["table"])
                 else if "name" in e.body then Some(e.body["name"]) else None;
    table == Some(Str("audit_operator")) || table == Some(Str("firewalld"))
  }

  function External(native: seq<Entry>): seq<Entry>
  {
    if native == [] then []
    else (if IsExternal(native[0]) then [native[0]] else []) + External(native[1..])
  }

  function Lines(keyed: seq<Keyed>): seq<string>
  {
    if keyed == [] then [] else [keyed[0].line] + Lines(keyed[1..])
  }

  /** `out` lists, under each group that occurs, its lines in order. */
  ghost predicate IsSpecs(keyed: seq<Keyed>, out: map<Key, seq<string>>)
  {
    && (forall k :: k in out <==> Group(keyed, KeyOf, k) != [])
    && forall k :: k in out ==> out[k] == Lines(Group(keyed, KeyOf, k))
  }

  function AddLine(out: map<Key, seq<string>>, x: Keyed): map<Key, seq<string>>
  {
    out[x.key := (if x.key in out then out[x.key] else []) + [x.line]]
  }

  lemma {:induction false} LinesConcat(a: seq<Keyed>, b: seq<Keyed>)
    ensures Lines(a + b) == Lines(a) + Lines(b)
  {
    if a == [] {
      assert a + b == b;
    } else {
      LinesConcat(a[1..], b);
      assert (a + b)[1..] == a[1..] + b;
      ConcatAssoc([a[0].line], Lines(a[1..]), Lines(b));
    }
  }

  lemma SpecsAppend(keyed: seq<Keyed>, out: map<Key, seq<string>>, x: Keyed)
    requires IsSpecs(keyed, out)
    ensures IsSpecs(keyed + [x], AddLine(out, x))
  {
    forall k
      ensures k in AddLine(out, x) <==> Group(keyed + [x], KeyOf, k) != []
      ensures k in AddLine(out, x) ==> AddLine(out, x)[k] == Lines(Group(keyed + [x], KeyOf, k))
    {
      var before := Group(keyed, KeyOf, k);
      GroupConcat(keyed, [x], KeyOf, k);
      assert [x][1..] == [];
      if x.key == k {
        assert Group([x], KeyOf, k) == [x] + [] == [x];
        LinesConcat(before, [x]);
        assert Lines([x]) == [x.line] + [] == [x.line];
        assert before == [] ==> Lines(before) == [];
      } else {
        assert Group([x], KeyOf, k) == [] + [] == [] && before + [] == before;
      }
    }
  }

  /** Inside one group, the lines say it all. */
  lemma {:induction false} LinesDetermine(a: seq<Keyed>, b: seq<Keyed>, k: Key)
    requires Lines(a) == Lines(b)
    requires forall i :: 0 <= i < |a| ==> a[i].key == k
    requires forall i :: 0 <= i < |b| ==> b[i].key == k
    ensures a == b
  {
    if a != [] && b != [] {
      assert a[0].line == Lines(a)[0] == Lines(b)[0] == b[0].line;
      assert Lines(a)[1..] == Lines(a[1..]) && Lines(b)[1..] == Lines(b[1..]);
      LinesDetermine(a[1..], b[1..], k);
      assert a == [a[0]] + a[1..] && b == [b[0]] + b[1..];
    }
  }

  lemma {:induction false} GroupKeys(s: seq<Keyed>, k: Key)
    ensures forall i :: 0 <= i < |Group(s, KeyOf, k)| ==> Group(s, KeyOf, k)[i].key == k
  {
    if s != [] {
      GroupKeys(s[1..], k);
    }
  }

  /** Comparing the two tables is comparing every group. */
  lemma SpecsEqual(a: seq<Keyed>, b: seq<Keyed>, x: map<Key, seq<string>>, y: map<Key, seq<string>>)
    requires IsSpecs(a, x) && IsSpecs(b, y)
    ensures x == y <==> SameGroups(a, b, KeyOf)
  {
    if SameGroups(a, b, KeyOf) {
      forall k
        ensures k in x <==> k in y
        ensures k in x ==> x[k] == y[k]
      {
        assert Group(a, KeyOf, k) == Group(b, KeyOf, k);
      }
      assert x == y;
    }
    if x == y {
      forall k
        ensures Group(a, KeyOf, k) == Group(b, KeyOf, k)
      {
        assert k in x <==> k in y;
        GroupKeys(a, k);
        GroupKeys(b, k);
        if k in x {
          LinesDetermine(Group(a, KeyOf, k), Group(b, KeyOf, k), k);
        }
      }
    }
  }

  /** Adds the lines of one dump; an append rule without a chain is an index error. */
  method AddDump(d: Dump, ghost keyed: seq<Keyed>, out: map<Key, seq<string>>) returns (r: Option<map<Key, seq<string>>>)
    requires IsSpecs(keyed, out)
    ensures r.Some? <==> DumpOk(d)
    ensures r.Some? ==> IsSpecs(keyed + KeyLines(d.family, "", d.lines), r.value)
  {
    var now, table := out, "";
    ghost var seen := keyed;
    assert d.lines[0..] == d.lines;
    for i := 0 to |d.lines|
      invariant IsSpecs(seen, now)
      invariant forall j :: 0 <= j < i ==> Chain(d.lines[j]).Some?
      invariant seen + KeyLines(d.family, table, d.lines[i..]) == keyed + KeyLines(d.family, "", d.lines)
    {
      var line := d.lines[i];
      if Chain(line).None? {
        return None;
      }
      table := if "*" <= line then line else table;
      var x := KeyLine(d.family, table, line);
      SpecsAppend(seen, now, x);
      assert d.lines[i..][1..] == d.lines[i + 1..];
      ConcatAssoc(seen, [x], KeyLines(d.family, table, d.lines[i + 1..]));
      seen := seen + [x];
      now := AddLine(now, x);
    }
    assert seen + [] == seen;
    if !DropsFirst(Forward(d.lines)) {
      return None;
    }
    return Some(now);
  }

  /** The table of groups, or `None` where the source raises. */
  method Specs(s: State) returns (r: Option<map<Key, seq<string>>>)
    ensures r.Some? <==> StateOk(s)
    ensures r.Some? ==> IsSpecs(AllKeyed(s.dumps), r.value)
  {
    var out: map<Key, seq<string>> := map[];
    ghost var seen: seq<Keyed> := [];
    assert s.dumps[0..] == s.dumps;
    for i := 0 to |s.dumps|
      invariant IsSpecs(seen, out)
      invariant forall j :: 0 <= j < i ==> DumpOk(s.dumps[j])
      invariant seen + AllKeyed(s.dumps[i..]) == AllKeyed(s.dumps)
    {
      var d := s.dumps[i];
      var more := AddDump(d, seen, out);
      if more.None? {
        return None;
      }
      assert s.dumps[i..][1..] == s.dumps[i + 1..];
      ConcatAssoc(seen, KeyLines(d.family, "", d.lines), AllKeyed(s.dumps[i + 1..]));
      seen := seen + KeyLines(d.family, "", d.lines);
      out := more.value;
    }
    assert seen + [] == seen;
    return Some(out);
  }

  /** What the audit calls equivalent. */
  ghost predicate Equivalent(before: State, after: State)
  {
    && StateOk(before) && StateOk(after)
    && SameGroups(AllKeyed(before.dumps), AllKeyed(after.dumps), KeyOf)
    && External(before.native) == External(after.native)
  }

  method RestartEquivalent(before: State, after: State) returns (r: Option<bool>)
    ensures r.Some? <==> StateOk(before) && StateOk(after)
    ensures r == Some(true) <==> Equivalent(before, after)
  {
    var x := Specs(before);
    if x.None? {
      return None;
    }
    var y := Specs(after);
    if y.None? {
      return None;
    }
    SpecsEqual(AllKeyed(before.dumps), AllKeyed(after.dumps), x.value, y.value);
    return Some(x.value == y.value && External(before.native) == External(after.native));
  }

  /** Every append rule names its chain, and every firewall of the snapshot protects. */
  ghost predicate Sound(s: State)
  {
    forall i :: 0 <= i < |s.dumps| ==> Readable(s.dumps[i]) && Protective(Forward(s.dumps[i].lines))
  }

  lemma StateOkMeans(s: State)
    ensures StateOk(s) <==> Sound(s)
  {
    forall i | 0 <= i < |s.dumps|
      ensures DumpOk(s.dumps[i]) <==> Readable(s.dumps[i]) && Protective(Forward(s.dumps[i].lines))
    {
      DropsFirstExactlyWhenProtected(Forward(s.dumps[i].lines));
    }
  }

  /**
   A positive answer, spelled out without the audit's own tests: both firewalls protect, the
   rule lines after the restart are those from before up to swapping neighbours that differ in
   profile, table or chain, and the foreign native rules are unchanged.
   */
  lemma EquivalentMeans(before: State, after: State)
    ensures Equivalent(before, after) <==>
      && Sound(before) && Sound(after)
      && Reschedulable(AllKeyed(before.dumps), AllKeyed(after.dumps), KeyOf)
      && External(before.native) == External(after.native)
  {
    SameGroupsExactlyWhenRescheduled(AllKeyed(before.dumps), AllKeyed(after.dumps), KeyOf);
    StateOkMeans(before);
    StateOkMeans(after);
  }
}
