/** The options of a DHCP reply (section 2 of RFC 2132): pads, options and an end mark. */
module DhcpOptions {
  import opened Bytes

  const MAGIC: Bytes := [99, 130, 83, 99]

  const START := 240

  const END := 255

  type Code = c: int | 1 <= c <= 254 witness 1

  datatype Item = Pad | Opt(code: Code, value: Bytes)

  type Found = map<int, Bytes>

  predicate Encodable(item: Item)
  {
    item.Opt? ==> |item.value| < 256
  }

  function Encode(item: Item): (out: Bytes)
    requires Encodable(item)
    ensures out != []
  {
    match item
    case Pad => [0]
    case Opt(code, value) => [code, |value|] + value
  }

  ghost predicate AllEncodable(items: seq<Item>)
  {
    forall i :: 0 <= i < |items| ==> Encodable(items[i])
  }

  ghost function EncodeAll(items: seq<Item>): Bytes
    requires AllEncodable(items)
  {
    if items == [] then [] else Encode(items[0]) + EncodeAll(items[1..])
  }

  /** Later options replace earlier ones of the same code. */
  function Latest(items: seq<Item>): Found
  {
    if items == [] then map[]
    else
      var last, before := items[|items| - 1], Latest(items[..|items| - 1]);
      if last.Pad? then before else before[last.code := last.value]
  }

  lemma {:induction false} LatestIsLast(items: seq<Item>, code: Code)
    ensures code in Latest(items) <==> exists i :: 0 <= i < |items| && items[i].Opt? && items[i].code == code
    ensures forall i :: 0 <= i < |items| && items[i].Opt? && items[i].code == code
              && (forall j :: i < j < |items| ==> items[j].Opt? ==> items[j].code != code)
              ==> code in Latest(items) && Latest(items)[code] == items[i].value
  {
    if items != [] {
      var front := items[..|items| - 1];
      LatestIsLast(front, code);
      assert forall i :: 0 <= i < |front| ==> front[i] == items[i];
    }
  }

  // ---- reading ----

  /** The items up to the end mark; `None` when the data ends first. */
  function ItemsFrom(data: Bytes, pos: nat): Option<seq<Item>>
    decreases |data| - pos
  {
    if pos >= |data| then None
    else if data[pos] == END then Some([])
    else if data[pos] == 0 then Then(Pad, ItemsFrom(data, pos + 1))
    else if pos + 2 > |data| || pos + 2 + data[pos + 1] > |data| then None
    else Then(Opt(data[pos], data[pos + 2..pos + 2 + data[pos + 1]]), ItemsFrom(data, pos + 2 + data[pos + 1]))
  }

  function Then(item: Item, rest: Option<seq<Item>>): Option<seq<Item>>
  {
    if rest.None? then None else Some([item] + rest.value)
  }

  /** `code` stands at `pos` with an end mark behind it. */
  ghost predicate Marked(data: Bytes, pos: nat, code: Bytes)
  {
    pos + |code| < |data| && data[pos..pos + |code|] == code && data[pos + |code|] == END
  }

  ghost predicate Listed(data: Bytes, pos: nat, items: seq<Item>)
  {
    AllEncodable(items) && Marked(data, pos, EncodeAll(items))
  }

  lemma MarkedParts(data: Bytes, pos: nat, a: Bytes, b: Bytes)
    ensures Marked(data, pos, a + b) <==>
      pos + |a| <= |data| && data[pos..pos + |a|] == a && Marked(data, pos + |a|, b)
  {
    if pos + |a + b| < |data| {
      var slice := data[pos..pos + |a + b|];
      assert slice == data[pos..pos + |a|] + data[pos + |a|..pos + |a| + |b|];
      if slice == a + b {
        assert slice[..|a|] == data[pos..pos + |a|] && slice[|a|..] == data[pos + |a|..pos + |a| + |b|];
      }
    }
  }

  lemma ListedMore(data: Bytes, pos: nat, item: Item, items: seq<Item>)
    requires Encodable(item) && pos + |Encode(item)| <= |data|
    requires data[pos..pos + |Encode(item)|] == Encode(item) && Listed(data, pos + |Encode(item)|, items)
    ensures Listed(data, pos, [item] + items)
  {
    hide Encode, Marked;
    var all := [item] + items;
    assert all[1..] == items;
    MarkedParts(data, pos, Encode(item), EncodeAll(items));
  }

  lemma ListedFirst(data: Bytes, pos: nat, first: Item, rest: seq<Item>)
    requires Encodable(first) && AllEncodable(rest) && Marked(data, pos, Encode(first) + EncodeAll(rest))
    ensures pos + |Encode(first)| <= |data| && data[pos..pos + |Encode(first)|] == Encode(first)
    ensures Marked(data, pos + |Encode(first)|, EncodeAll(rest))
  {
    hide Encode, Marked, EncodeAll;
    MarkedParts(data, pos, Encode(first), EncodeAll(rest));
  }

  /** The item at the front of `data[pos..]` is recognised as itself. */
  lemma ItemAt(data: Bytes, pos: nat, item: Item)
    requires Encodable(item) && pos + |Encode(item)| <= |data|
    requires data[pos..pos + |Encode(item)|] == Encode(item)
    ensures ItemsFrom(data, pos) == Then(item, ItemsFrom(data, pos + |Encode(item)|))
  {
    var slice := data[pos..pos + |Encode(item)|];
    assert slice[0] == data[pos];
    if item.Opt? {
      assert slice[1] == data[pos + 1];
      assert slice[2..] == item.value && slice[2..] == data[pos + 2..pos + 2 + |item.value|];
    }
  }

  lemma {:induction false} ItemsSound(data: Bytes, pos: nat)
    ensures ItemsFrom(data, pos).Some? ==> Listed(data, pos, ItemsFrom(data, pos).value)
    decreases |data| - pos
  {
    if pos < |data| && ItemsFrom(data, pos).Some? && data[pos] != END {
      var item := if data[pos] == 0 then Pad else Opt(data[pos], data[pos + 2..pos + 2 + data[pos + 1]]);
      assert data[pos..pos + |Encode(item)|] == Encode(item);
      ItemsSound(data, pos + |Encode(item)|);
      ListedMore(data, pos, item, ItemsFrom(data, pos + |Encode(item)|).value);
    }
  }

  lemma {:induction false} ItemsComplete(data: Bytes, pos: nat, items: seq<Item>)
    requires Listed(data, pos, items)
    ensures ItemsFrom(data, pos) == Some(items)
    decreases |items|
  {
    hide ItemsFrom, Listed, Encode, EncodeAll, Marked, AllEncodable;
    if items == [] {
      NoneListed(data, pos);
    } else {
      SomeListed(data, pos, items);
      ItemAt(data, pos, items[0]);
      ItemsComplete(data, pos + |Encode(items[0])|, items[1..]);
      assert items == [items[0]] + items[1..];
    }
  }

  lemma NoneListed(data: Bytes, pos: nat)
    requires Listed(data, pos, [])
    ensures ItemsFrom(data, pos) == Some([])
  {
  }

  lemma SomeListed(data: Bytes, pos: nat, items: seq<Item>)
    requires Listed(data, pos, items) && items != []
    ensures Encodable(items[0]) && pos + |Encode(items[0])| <= |data|
    ensures data[pos..pos + |Encode(items[0])|] == Encode(items[0])
    ensures Listed(data, pos + |Encode(items[0])|, items[1..])
  {
    hide Encode, Marked;
    ListedFirst(data, pos, items[0], items[1..]);
  }

  /** The options of a reply; `None` when the parser raises. */
  function Options(data: Bytes): Option<Found>
  {
    if |data| < START || data[START - 4..START] != MAGIC then None
    else
      var items := ItemsFrom(data, START);
      if items.None? then None else Some(Latest(items.value))
  }

  ghost predicate Reply(data: Bytes, items: seq<Item>)
  {
    |data| >= START && data[START - 4..START] == MAGIC && Listed(data, START, items)
  }

  /**
   Parsing succeeds exactly on the cookie, items, an end mark and anything after it; the items
   are determined by the bytes, and each code gets its last value.
   */
  lemma OptionsExactlyWhen(data: Bytes, found: Found)
    ensures Options(data) == Some(found) <==> exists items :: Reply(data, items) && found == Latest(items)
  {
    if Options(data) == Some(found) {
      ItemsSound(data, START);
      assert Reply(data, ItemsFrom(data, START).value);
    }
    forall items | Reply(data, items)
      ensures Options(data) == Some(Latest(items))
    {
      ItemsComplete(data, START, items);
    }
  }

  function After(items: seq<Item>, rest: Option<seq<Item>>): Option<seq<Item>>
  {
    if rest.None? then None else Some(items + rest.value)
  }

  lemma AfterMore(items: seq<Item>, item: Item, rest: Option<seq<Item>>)
    ensures After(items, Then(item, rest)) == After(items + [item], rest)
    ensures Latest(items + [item]) == if item.Pad? then Latest(items) else Latest(items)[item.code := item.value]
  {
    assert (items + [item])[..|items|] == items;
    if rest.Some? {
      assert items + ([item] + rest.value) == items + [item] + rest.value;
    }
  }

  method ReadOptions(data: Bytes) returns (r: Option<Found>)
    ensures r == Options(data)
  {
    if |data| < START || data[START - 4..START] != MAGIC {
      return None;
    }
    var found: Found, pos := map[], START;
    ghost var items: seq<Item> := [];
    assert ItemsFrom(data, START).Some? ==> [] + ItemsFrom(data, START).value == ItemsFrom(data, START).value;
    while pos < |data|
      invariant pos >= START && found == Latest(items)
      invariant ItemsFrom(data, START) == After(items, ItemsFrom(data, pos))
      decreases |data| - pos
    {
      var code := data[pos];
      if code == END {
        assert items + [] == items;
        return Some(found);
      }
      if code == 0 {
        AfterMore(items, Pad, ItemsFrom(data, pos + 1));
        items := items + [Pad];
        pos := pos + 1;
        continue;
      }
      if pos + 2 > |data| {
        return None;
      }
      var size := data[pos + 1];
      var end := pos + 2 + size;
      if end > |data| {
        return None;
      }
      AfterMore(items, Opt(code, data[pos + 2..end]), ItemsFrom(data, end));
      items := items + [Opt(code, data[pos + 2..end])];
      found := found[code := data[pos + 2..end]];
      pos := end;
    }
    return None;
  }
}
