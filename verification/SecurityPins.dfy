/** The pin file: versions of named packages that a release must not leave. */
module SecurityPins {
  import opened Bytes
  import opened Lockfile
  import opened Inventory
  import opened Text

  datatype PinLine = Ignored | Bad | Pin(key: string, version: string)

  function ReadPin(line: string): PinLine
  {
    var s := Strip(line);
    if s == "" || StartsWith(s, "#") then Ignored
    else
      var at := Find(s, '=');
      if at == |s| || !OneSlash(s[..at]) || at + 1 == |s| then Bad else Pin(s[..at], s[at + 1..])
  }

  /** A line pins a package exactly when, blanks aside, it is a key with one slash, an equals sign and a version. */
  lemma ReadPinExactlyWhen(line: string, key: string, version: string)
    ensures ReadPin(line) == Pin(key, version) <==>
      Strip(line) == key + "=" + version && !StartsWith(Strip(line), "#") && '=' !in key && OneSlash(key) && version != ""
  {
    hide Strip, OneSlash;
    var s := Strip(line);
    if ReadPin(line) == Pin(key, version) {
      assert s == s[..Find(s, '=')] + "=" + s[Find(s, '=') + 1..];
    }
    if s == key + "=" + version && '=' !in key {
      FindFirst(key, '=', version);
      assert s[..|key|] == key && s[|key| + 1..] == version;
    }
  }

  /** All pins of the file; `None` when a line is bad or pins a package again. */
  function ReadPins(lines: seq<string>): Option<map<string, string>>
  {
    if lines == [] then Some(map[])
    else
      var before, last := ReadPins(lines[..|lines| - 1]), ReadPin(lines[|lines| - 1]);
      if before.None? || last.Bad? || (last.Pin? && last.key in before.value) then None
      else if last.Ignored? then before
      else Some(before.value[last.key := last.version])
  }

  ghost predicate Repeats(lines: seq<string>, i: nat, j: nat)
    requires i < |lines| && j < |lines|
  {
    ReadPin(lines[i]).Pin? && ReadPin(lines[j]).Pin? && ReadPin(lines[i]).key == ReadPin(lines[j]).key
  }

  ghost predicate PinsFile(lines: seq<string>)
  {
    && (forall i :: 0 <= i < |lines| ==> !ReadPin(lines[i]).Bad?)
    && (forall i, j :: 0 <= i < j < |lines| ==> !Repeats(lines, i, j))
  }

  ghost predicate PinsKey(lines: seq<string>, key: string, version: string)
  {
    exists i :: 0 <= i < |lines| && ReadPin(lines[i]) == Pin(key, version)
  }

  lemma PinsKeyMore(lines: seq<string>, line: string, key: string, version: string)
    ensures PinsKey(lines + [line], key, version) <==> PinsKey(lines, key, version) || ReadPin(line) == Pin(key, version)
  {
    hide ReadPin;
    var more := lines + [line];
    if PinsKey(lines, key, version) {
      var i :| 0 <= i < |lines| && ReadPin(lines[i]) == Pin(key, version);
      assert more[i] == lines[i];
    }
    if ReadPin(line) == Pin(key, version) {
      assert more[|lines|] == line;
    }
  }

  lemma PinsFileMore(lines: seq<string>, line: string)
    ensures PinsFile(lines + [line]) <==>
      PinsFile(lines) && !ReadPin(line).Bad? && forall i :: 0 <= i < |lines| ==> !Repeats(lines + [line], i, |lines|)
  {
    hide ReadPin;
    var more := lines + [line];
    assert forall i :: 0 <= i < |lines| ==> more[i] == lines[i];
    assert forall i, j :: 0 <= i < j < |lines| ==> Repeats(more, i, j) == Repeats(lines, i, j);
    assert more[|lines|] == line;
    if PinsFile(more) {
      forall i | 0 <= i < |lines|
        ensures !ReadPin(lines[i]).Bad?
      {
        assert !ReadPin(more[i]).Bad?;
      }
    }
  }

  /** The file is read exactly when no line is bad and no key comes twice, and the pins are those of its lines. */
  lemma {:induction false} ReadPinsExactlyWhen(lines: seq<string>)
    ensures ReadPins(lines).Some? <==> PinsFile(lines)
    ensures ReadPins(lines).Some? ==> forall k, v ::
      (k in ReadPins(lines).value && ReadPins(lines).value[k] == v) <==> PinsKey(lines, k, v)
  {
    hide ReadPin, PinsFile, PinsKey;
    if lines == [] {
      NoPins();
    } else {
      var front, line := lines[..|lines| - 1], lines[|lines| - 1];
      ReadPinsExactlyWhen(front);
      assert lines == front + [line];
      PinsFileMore(front, line);
      if ReadPins(front).Some? {
        KeyTaken(front, line);
        forall k, v
          ensures PinsKey(lines, k, v) <==> PinsKey(front, k, v) || ReadPin(line) == Pin(k, v)
        {
          PinsKeyMore(front, line, k, v);
        }
      }
    }
  }

  lemma NoPins()
    ensures PinsFile([]) && forall k, v :: !PinsKey([], k, v)
  {
  }

  /** A key is in the table exactly when an earlier line pins it. */
  lemma KeyTaken(front: seq<string>, line: string)
    requires ReadPins(front).Some?
    requires forall k, v :: (k in ReadPins(front).value && ReadPins(front).value[k] == v) <==> PinsKey(front, k, v)
    ensures ReadPin(line).Pin? ==>
      (ReadPin(line).key in ReadPins(front).value <==> exists i :: 0 <= i < |front| && Repeats(front + [line], i, |front|))
  {
    hide ReadPin, ReadPins;
    if ReadPin(line).Pin? {
      var key, more, pins := ReadPin(line).key, front + [line], ReadPins(front).value;
      assert more[|front|] == line && forall i :: 0 <= i < |front| ==> more[i] == front[i];
      if key in pins {
        assert PinsKey(front, key, pins[key]);
        var i :| 0 <= i < |front| && ReadPin(front[i]) == Pin(key, pins[key]);
        assert Repeats(more, i, |front|);
      }
      if i :| 0 <= i < |front| && Repeats(more, i, |front|) {
        assert PinsKey(front, key, ReadPin(front[i]).version);
      }
    }
  }

  /** The line loop of the pin file. */
  method LoadPins(lines: seq<string>) returns (pins: Option<map<string, string>>)
    ensures pins == ReadPins(lines)
  {
    hide ReadPin;
    var table: map<string, string> := map[];
    for i := 0 to |lines|
      invariant ReadPins(lines[..i]) == Some(table)
    {
      assert lines[..i + 1][..i] == lines[..i];
      var pin := ReadPin(lines[i]);
      if pin.Bad? || (pin.Pin? && pin.key in table) {
        PinsFail(lines, i + 1);
        return None;
      }
      if pin.Pin? {
        table := table[pin.key := pin.version];
      }
    }
    assert lines[..|lines|] == lines;
    return Some(table);
  }

  lemma {:induction false} PinsFail(lines: seq<string>, n: nat)
    requires n <= |lines| && ReadPins(lines[..n]).None?
    ensures ReadPins(lines).None?
    decreases |lines| - n
  {
    hide ReadPin;
    if n == |lines| {
      assert lines[..n] == lines;
    } else {
      assert lines[..n + 1][..n] == lines[..n];
      PinsFail(lines, n + 1);
    }
  }

  /** The policy is not empty, it can be read, and the inventory keeps to it. */
  ghost predicate PolicyKept(lines: seq<string>, list: seq<Package>)
  {
    && PinsFile(lines) && (exists k, v :: PinsKey(lines, k, v))
    && forall k, v :: PinsKey(lines, k, v) ==> Pinned(list, k, v)
  }

  method CheckPolicy(lines: seq<string>, list: seq<Package>) returns (ok: bool)
    ensures ok <==> PolicyKept(lines, list)
  {
    hide ReadPins, PinsFile, PinsKey, Pinned;
    ReadPinsExactlyWhen(lines);
    var pins := LoadPins(lines);
    if pins.None? {
      return false;
    }
    ok := CheckPins(pins.value, list);
    if k :| k in pins.value {
      assert PinsKey(lines, k, pins.value[k]);
    }
  }
}
