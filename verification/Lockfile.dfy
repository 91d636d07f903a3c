/** Lines of a Gradle lock file: `group:artifact:version=configuration,configuration`. */
module Lockfile {
  // ---- splitting ----

  /** The first position of `c`, or the length when there is none. */
  function Find(s: string, c: char): (i: nat)
    ensures i <= |s| && (i < |s| ==> s[i] == c) && c !in s[..i]
  {
    if s == [] || s[0] == c then 0
    else
      var i := 1 + Find(s[1..], c);
      assert s[..i] == [s[0]] + s[1..][..i - 1];
      i
  }

  function Split(s: string, c: char): (parts: seq<string>)
    ensures |parts| > 0
    decreases |s|
  {
    var i := Find(s, c);
    if i == |s| then [s] else [s[..i]] + Split(s[i + 1..], c)
  }

  function Join(parts: seq<string>, c: char): string
    requires |parts| > 0
  {
    if |parts| == 1 then parts[0] else parts[0] + [c] + Join(parts[1..], c)
  }

  ghost predicate Free(parts: seq<string>, c: char)
  {
    forall i :: 0 <= i < |parts| ==> c !in parts[i]
  }

  lemma {:induction false} FindFirst(before: string, c: char, after: string)
    requires c !in before
    ensures Find(before + [c] + after, c) == |before|
  {
    var s := before + [c] + after;
    if before != "" {
      FindFirst(before[1..], c, after);
      assert s[1..] == before[1..] + [c] + after;
    }
  }

  lemma FindNone(s: string, c: char)
    requires c !in s
    ensures Find(s, c) == |s|
  {
  }

  lemma {:induction false} SplitSound(s: string, c: char)
    ensures Free(Split(s, c), c) && Join(Split(s, c), c) == s
    decreases |s|
  {
    hide Join, Free;
    var i := Find(s, c);
    if i == |s| {
      assert s[..i] == s;
      JoinOne(s, c);
    } else {
      SplitSound(s[i + 1..], c);
      JoinMore(s[..i], Split(s[i + 1..], c), c);
      assert s == s[..i] + [c] + s[i + 1..];
    }
  }

  lemma JoinOne(s: string, c: char)
    ensures Join([s], c) == s && (c !in s ==> Free([s], c))
  {
  }

  lemma JoinMore(first: string, parts: seq<string>, c: char)
    requires |parts| > 0
    ensures Join([first] + parts, c) == first + [c] + Join(parts, c)
    ensures c !in first && Free(parts, c) ==> Free([first] + parts, c)
  {
    assert ([first] + parts)[1..] == parts;
  }

  lemma SplitFirst(first: string, c: char, rest: string)
    requires c !in first
    ensures Split(first + [c] + rest, c) == [first] + Split(rest, c)
  {
    var s := first + [c] + rest;
    FindFirst(first, c, rest);
    assert s[..|first|] == first && s[|first| + 1..] == rest;
  }

  lemma {:induction false} SplitComplete(parts: seq<string>, c: char)
    requires |parts| > 0 && Free(parts, c)
    ensures Split(Join(parts, c), c) == parts
    decreases |parts|
  {
    if |parts| == 1 {
      FindNone(parts[0], c);
    } else {
      SplitComplete(parts[1..], c);
      SplitFirst(parts[0], c, Join(parts[1..], c));
    }
  }

  /** Splitting undoes joining, and nothing else splits that way. */
  lemma SplitExactlyWhen(s: string, c: char, parts: seq<string>)
    ensures Split(s, c) == parts <==> |parts| > 0 && Free(parts, c) && s == Join(parts, c)
  {
    SplitSound(s, c);
    if |parts| > 0 && Free(parts, c) {
      SplitComplete(parts, c);
    }
  }

  // ---- one line ----

  datatype Entry = Entry(group: string, artifact: string, version: string, configurations: seq<string>)

  datatype Line = Skipped | Malformed | Locked(entry: Entry)

  predicate StartsWith(s: string, prefix: string)
  {
    prefix <= s
  }

  predicate EndsWith(s: string, suffix: string)
  {
    |suffix| <= |s| && s[|s| - |suffix|..] == suffix
  }

  predicate Release(version: string)
  {
    '+' !in version && !StartsWith(version, "latest.") && !EndsWith(version, "-SNAPSHOT")
  }

  predicate Comment(line: string)
  {
    line == "" || StartsWith(line, "#") || StartsWith(line, "empty=")
  }

  function ReadLine(line: string): Line
  {
    if Comment(line) then Skipped
    else
      var at := Find(line, '=');
      if at == |line| || at + 1 == |line| then Malformed
      else
        var fields := Split(line[..at], ':');
        if |fields| != 3 || fields[0] == "" || fields[1] == "" || fields[2] == "" then Malformed
        else if !Release(fields[2]) then Malformed
        else Locked(Entry(fields[0], fields[1], fields[2], Split(line[at + 1..], ',')))
  }

  ghost predicate Plain(s: string)
  {
    s != "" && ':' !in s && '=' !in s
  }

  /** The entry a maintainer means by a line. */
  ghost predicate Names(line: string, e: Entry)
  {
    && Plain(e.group) && Plain(e.artifact) && Plain(e.version) && Release(e.version)
    && e.group[0] != '#'
    && |e.configurations| > 0 && Free(e.configurations, ',') && Join(e.configurations, ',') != ""
    && line == Join([e.group, e.artifact, e.version], ':') + ['='] + Join(e.configurations, ',')
  }

  lemma JoinThree(a: string, b: string, c: string, d: char)
    ensures Join([a, b, c], d) == a + [d] + (b + [d] + c)
  {
    assert [a, b, c][1..] == [b, c] && [b, c][1..] == [c];
    assert Join([b, c], d) == b + [d] + Join([c], d);
  }

  lemma NotInParts(a: string, b: string, c: string, d: char, x: char)
    requires x !in a + [d] + (b + [d] + c)
    ensures x !in a && x !in b && x !in c
  {
    var s := a + [d] + (b + [d] + c);
    assert forall i :: 0 <= i < |a| ==> a[i] == s[i];
    assert forall i :: 0 <= i < |b| ==> b[i] == s[i + |a| + 1];
    assert forall i :: 0 <= i < |c| ==> c[i] == s[i + |a| + |b| + 2];
  }

  lemma ThreeFields(head: string)
    requires |Split(head, ':')| == 3 && '=' !in head
    ensures head == Join(Split(head, ':'), ':')
    ensures forall i :: 0 <= i < 3 ==> ':' !in Split(head, ':')[i] && '=' !in Split(head, ':')[i]
  {
    SplitSound(head, ':');
    var f := Split(head, ':');
    assert f == [f[0], f[1], f[2]];
    JoinThree(f[0], f[1], f[2], ':');
    NotInParts(f[0], f[1], f[2], ':', '=');
  }

  lemma EntryIsNamed(line: string)
    requires ReadLine(line).Locked?
    ensures Names(line, ReadLine(line).entry)
  {
    var at, e := Find(line, '='), ReadLine(line).entry;
    var head, tail := line[..at], line[at + 1..];
    var fields := Split(head, ':');
    ThreeFields(head);
    SplitSound(tail, ',');
    assert fields == [e.group, e.artifact, e.version];
    assert line == head + ['='] + tail;
    JoinThree(e.group, e.artifact, e.version, ':');
    assert line[0] == head[0] == e.group[0];
  }

  lemma NamedIsEntry(line: string, e: Entry)
    requires Names(line, e)
    ensures ReadLine(line) == Locked(e)
  {
    var fields := [e.group, e.artifact, e.version];
    var head, tail := Join(fields, ':'), Join(e.configurations, ',');
    JoinThree(e.group, e.artifact, e.version, ':');
    assert '=' !in head;
    FindFirst(head, '=', tail);
    assert line[..|head|] == head && line[|head| + 1..] == tail;
    SplitComplete(fields, ':');
    SplitComplete(e.configurations, ',');
    NotComment(line, e.group, head, tail);
  }

  lemma NotComment(line: string, group: string, head: string, tail: string)
    requires Plain(group) && group[0] != '#' && group + ":" <= head && '=' !in head
    requires line == head + ['='] + tail
    ensures !Comment(line)
  {
    assert line[0] == group[0] && "#"[0] == '#';
    if |group| < 5 {
      assert line[|group|] == head[|group|] == ':' && "empty="[|group|] != ':';
    } else {
      assert line[5] == head[5] && "empty="[5] == '=';
    }
  }

  /** A line is an entry exactly when it is written as one. */
  lemma ReadLineExactlyWhen(line: string, e: Entry)
    ensures ReadLine(line) == Locked(e) <==> Names(line, e)
  {
    if ReadLine(line) == Locked(e) {
      EntryIsNamed(line);
    }
    if Names(line, e) {
      NamedIsEntry(line, e);
    }
  }
}
