/**
 The receive side's anti-replay window: 2048 bits kept in 32 machine words, bit N standing
 for the packet `highest - N`. A machine word is the set of its bits
 that are one, by position from the least significant.
 */
module ReplayWindow {
  const WINDOW := 2048

  const WORDS := 32

  type U64 = n: int | 0 <= n < 0x1_0000_0000_0000_0000

  /** The positions, 0 to 63, whose bit is one; anything from 64 on is never looked at. */
  type BitWord = set<nat>

  // ---- the simple model: which sequence numbers have been accepted so far ----

  /** The largest number accepted so far. */
  ghost function Highest(accepted: seq<U64>): (top: U64)
    requires accepted != []
    ensures top in accepted && forall s :: s in accepted ==> s <= top
  {
    var last := accepted[|accepted| - 1];
    assert accepted == accepted[..|accepted| - 1] + [last];
    if |accepted| == 1 then last
    else
      var rest := Highest(accepted[..|accepted| - 1]);
      if rest < last then last else rest
  }

  /** A number is fresh when it is not older than the window and was never accepted. */
  ghost predicate Fresh(accepted: seq<U64>, s: U64)
  {
    && s !in accepted
    && (accepted == [] || Highest(accepted) < s || Highest(accepted) - s < WINDOW)
  }

  /** The numbers accepted out of `arrivals`, in order, starting from nothing. */
  ghost function Accepted(arrivals: seq<U64>): seq<U64>
  {
    if arrivals == [] then []
    else
      var before := Accepted(arrivals[..|arrivals| - 1]);
      var s := arrivals[|arrivals| - 1];
      if Fresh(before, s) then before + [s] else before
  }

  /** The verdict on the arrival at position `i`. */
  ghost predicate Verdict(arrivals: seq<U64>, i: nat)
    requires i < |arrivals|
  {
    Fresh(Accepted(arrivals[..i]), arrivals[i])
  }

  lemma VerdictOfPrefix(arrivals: seq<U64>, n: nat, i: nat)
    requires i < n <= |arrivals|
    ensures Verdict(arrivals[..n], i) == Verdict(arrivals, i)
  {
    assert arrivals[..n][..i] == arrivals[..i];
  }

  lemma {:induction false} AcceptedHasVerdict(arrivals: seq<U64>, s: U64) returns (i: nat)
    requires s in Accepted(arrivals)
    ensures i < |arrivals| && arrivals[i] == s && Verdict(arrivals, i)
  {
    var n := |arrivals| - 1;
    if s in Accepted(arrivals[..n]) {
      i := AcceptedHasVerdict(arrivals[..n], s);
      VerdictOfPrefix(arrivals, n, i);
    } else {
      i := n;
    }
  }

  lemma {:induction false} VerdictIsAccepted(arrivals: seq<U64>, i: nat)
    requires i < |arrivals| && Verdict(arrivals, i)
    ensures arrivals[i] in Accepted(arrivals)
  {
    var n := |arrivals| - 1;
    if i < n {
      VerdictOfPrefix(arrivals, n, i);
      VerdictIsAccepted(arrivals[..n], i);
    }
  }

  /** Whatever the peer or the network sends, no sequence number is let through twice. */
  lemma NeverAcceptedTwice(arrivals: seq<U64>, i: nat, j: nat)
    requires i < j < |arrivals|
    requires Verdict(arrivals, i) && Verdict(arrivals, j)
    ensures arrivals[i] != arrivals[j]
  {
    VerdictOfPrefix(arrivals, j, i);
    VerdictIsAccepted(arrivals[..j], i);
  }

  /**
   Reordering narrower than the window loses nothing: if no arrival trails the largest
   earlier arrival by 2048 or more, exactly the first copy of each number is accepted.
   */
  lemma {:induction false} BoundedReorderingIsLossless(arrivals: seq<U64>, i: nat)
    requires i < |arrivals|
    requires forall a, b :: 0 <= a < b <= i ==> arrivals[a] - arrivals[b] < WINDOW
    ensures Verdict(arrivals, i) <==> arrivals[i] !in arrivals[..i]
    ensures forall s :: s in Accepted(arrivals[..i]) <==> s in arrivals[..i]
    decreases i
  {
    var front := arrivals[..i];
    forall s
      ensures s in Accepted(front) <==> s in front
    {
      if s in front {
        var first := FirstAt(front, s);
        BoundedReorderingIsLossless(front, first);
        VerdictIsAccepted(front, first);
      }
      if s in Accepted(front) {
        var at := AcceptedHasVerdict(front, s);
      }
    }
    if front != [] {
      assert front[0] in Accepted(front);
      var top := Highest(Accepted(front));
      var a :| 0 <= a < |front| && front[a] == top;
      assert arrivals[a] - arrivals[i] < WINDOW;
    }
  }

  lemma {:induction false} FirstAt(front: seq<U64>, s: U64) returns (first: nat)
    requires s in front
    ensures first < |front| && front[first] == s && s !in front[..first]
  {
    if front[0] == s {
      first := 0;
    } else {
      first := FirstAt(front[1..], s);
      assert front[..first + 1] == [front[0]] + front[1..][..first];
      first := first + 1;
    }
  }

  // ---- the words ----

  function Positions(n: nat): (s: set<nat>)
    ensures forall k :: k in s <==> 0 <= k < n
  {
    if n == 0 then {} else Positions(n - 1) + {n - 1}
  }

  function ShiftLeft(w: BitWord, n: nat): BitWord
  {
    set k | k in Positions(64) && k >= n && k - n in w
  }

  function ShiftRight(w: BitWord, n: nat): BitWord
  {
    set k | k in Positions(64) && k + n < 64 && k + n in w
  }

  /** The words as one little-endian bit array. */
  predicate BitAt(words: seq<BitWord>, distance: nat)
    requires distance < 64 * |words|
  {
    if distance < 64 then distance in words[0] else BitAt(words[1..], distance - 64)
  }

  /** What the shift loop writes into word `i`, from the words as they were. */
  function ShiftedWord(words: seq<BitWord>, whole: nat, off: nat, i: nat): BitWord
    requires i < |words| && off < 64
  {
    var word := if i >= whole then words[i - whole] else {};
    var below := if i > whole then words[i - whole - 1] else {};
    if off == 0 then word else ShiftLeft(word, off) + ShiftRight(below, 64 - off)
  }

  lemma ShiftsBit(w: BitWord, n: nat, k: nat)
    requires k < 64
    ensures k in ShiftLeft(w, n) <==> k >= n && k - n in w
    ensures k in ShiftRight(w, n) <==> k + n < 64 && k + n in w
  {
    assert k in Positions(64);
  }

  /** The carry between words is right: shifting word by word moves every single bit up. */
  lemma ShiftedBit(words: seq<BitWord>, whole: nat, off: nat, i: nat, k: nat)
    requires i < |words| && k < 64 && off < 64
    ensures var d := 64 * (i - whole) + k - off;
            k in ShiftedWord(words, whole, off, i) <==> d >= 0 && BitAt(words, d)
  {
    if i < whole || (i == whole && k < off) {
      NothingBelow(words, whole, off, i, k);
    } else if k >= off {
      ShiftedBitSameWord(words, whole, off, i, k);
    } else {
      ShiftedBitCarried(words, whole, off, i, k);
    }
  }

  lemma NothingBelow(words: seq<BitWord>, whole: nat, off: nat, i: nat, k: nat)
    requires i < |words| && k < 64 && off < 64 && (i < whole || (i == whole && k < off))
    ensures k !in ShiftedWord(words, whole, off, i) && 64 * (i - whole) + k - off < 0
  {
    if i == whole {
      ShiftsBit(words[0], off, k);
    }
    ShiftsBit({}, off, k);
    ShiftsBit({}, 64 - off, k);
  }

  lemma ShiftedBitSameWord(words: seq<BitWord>, whole: nat, off: nat, i: nat, k: nat)
    requires whole <= i < |words| && off <= k < 64
    ensures k in ShiftedWord(words, whole, off, i) <==> BitAt(words, 64 * (i - whole) + k - off)
  {
    hide ShiftLeft, ShiftRight, BitAt;
    BitInWord(words, i - whole, k - off);
    assert 64 * (i - whole) + (k - off) == 64 * (i - whole) + k - off;
    ShiftsBit(words[i - whole], off, k);
    ShiftsBit(if i > whole then words[i - whole - 1] else {}, 64 - off, k);
  }

  lemma ShiftedBitCarried(words: seq<BitWord>, whole: nat, off: nat, i: nat, k: nat)
    requires whole < i < |words| && k < off < 64
    ensures k in ShiftedWord(words, whole, off, i) <==> BitAt(words, 64 * (i - whole) + k - off)
  {
    hide ShiftLeft, ShiftRight, BitAt;
    BitInWord(words, i - whole - 1, 64 + k - off);
    ShiftsBit(words[i - whole], off, k);
    ShiftsBit(words[i - whole - 1], 64 - off, k);
    assert BitAt(words, 64 * (i - whole) + k - off) <==> 64 + k - off in words[i - whole - 1];
  }

  lemma {:induction false} BitInWord(words: seq<BitWord>, i: nat, k: nat)
    requires i < |words| && k < 64
    ensures BitAt(words, 64 * i + k) <==> k in words[i]
  {
    if i > 0 {
      BitInWord(words[1..], i - 1, k);
      assert 64 * i + k - 64 == 64 * (i - 1) + k;
    }
  }

  /** Distance N lives in word N / 64 at position N % 64. */
  lemma BitOfDistance(words: seq<BitWord>, distance: nat)
    requires distance < 64 * |words|
    ensures BitAt(words, distance) <==> distance % 64 in words[distance / 64]
  {
    BitInWord(words, distance / 64, distance % 64);
    assert 64 * (distance / 64) + distance % 64 == distance;
  }

  /** Bit N of the words says whether `top - N` was accepted. */
  ghost predicate Mirrors(words: seq<BitWord>, top: U64, accepted: seq<U64>)
  {
    |words| == WORDS && forall d :: 0 <= d < WINDOW ==> (BitAt(words, d) <==> top - d in accepted)
  }

  /** Every bit moved up by `n`; a move of the whole window or more leaves none. */
  ghost predicate ShiftedBy(was: seq<BitWord>, now: seq<BitWord>, n: nat)
  {
    && |was| == |now| == WORDS
    && forall d :: 0 <= d < WINDOW ==> (BitAt(now, d) <==> d >= n && BitAt(was, d - n))
  }

  ghost predicate Marked(was: seq<BitWord>, now: seq<BitWord>, distance: nat)
  {
    && |was| == |now| == WORDS
    && forall d :: 0 <= d < WINDOW ==> (BitAt(now, d) <==> d == distance || BitAt(was, d))
  }

  ghost function ShiftedWords(words: seq<BitWord>, n: nat): seq<BitWord>
  {
    seq(|words|, j requires 0 <= j < |words| => ShiftedWord(words, n / 64, n % 64, j))
  }

  lemma ShiftedWordsShiftBits(was: seq<BitWord>, n: nat)
    requires |was| == WORDS
    ensures ShiftedBy(was, ShiftedWords(was, n), n)
  {
    var now := ShiftedWords(was, n);
    forall d | 0 <= d < WINDOW
      ensures BitAt(now, d) <==> d >= n && BitAt(was, d - n)
    {
      BitOfDistance(now, d);
      ShiftedBit(was, n / 64, n % 64, d / 64, d % 64);
      assert 64 * (d / 64 - n / 64) + d % 64 - n % 64 == d - n;
    }
  }

  lemma AdvanceKeepsMirror(was: seq<BitWord>, mid: seq<BitWord>, now: seq<BitWord>, accepted: seq<U64>, s: U64)
    requires accepted != [] && Highest(accepted) < s && Mirrors(was, Highest(accepted), accepted)
    requires ShiftedBy(was, mid, s - Highest(accepted)) && Marked(mid, now, 0)
    ensures Mirrors(now, s, accepted + [s])
  {
    var top := Highest(accepted);
    forall d | 0 <= d < WINDOW
      ensures BitAt(now, d) <==> s - d in accepted + [s]
    {
      if s - top <= d {
        assert BitAt(was, d - (s - top)) <==> top - (d - (s - top)) in accepted;
      }
    }
  }

  lemma MarkKeepsMirror(was: seq<BitWord>, now: seq<BitWord>, top: U64, accepted: seq<U64>, s: U64)
    requires s <= top && Mirrors(was, top, accepted) && Marked(was, now, top - s)
    ensures Mirrors(now, top, accepted + [s])
  {
  }

  lemma HighestOfAppend(accepted: seq<U64>, s: U64)
    requires accepted != []
    ensures Highest(accepted + [s]) == if Highest(accepted) < s then s else Highest(accepted)
  {
    assert (accepted + [s])[..|accepted|] == accepted;
  }

  class Window {
    var highest: U64
    const bits: array<BitWord>
    var initialized: bool
    /** Every number let through so far, oldest first. */
    ghost var accepted: seq<U64>

    ghost predicate Valid()
      reads this, bits
    {
      && bits.Length == WORDS
      && (initialized <==> accepted != [])
      && (initialized ==> highest == Highest(accepted) && Mirrors(bits[..], highest, accepted))
    }

    constructor ()
      ensures Valid() && accepted == [] && fresh(bits)
    {
      highest := 0;
      bits := new BitWord[WORDS](_ => {});
      initialized := false;
      accepted := [];
    }

    /** Empties the window: what moving it by `n`, its whole length or more, amounts to. */
    method Clear(ghost n: nat)
      requires bits.Length == WORDS && n >= WINDOW
      modifies bits
      ensures ShiftedBy(old(bits[..]), bits[..], n)
    {
      for i := 0 to WORDS
        invariant forall j :: 0 <= j < i ==> bits[j] == {}
      {
        bits[i] := {};
      }
      forall d | 0 <= d < WINDOW
        ensures !BitAt(bits[..], d)
      {
        BitOfDistance(bits[..], d);
      }
    }

    method SetBit(distance: nat)
      requires bits.Length == WORDS && distance < WINDOW
      modifies bits
      ensures Marked(old(bits[..]), bits[..], distance)
    {
      var i, k := distance / 64, distance % 64;
      ghost var was := bits[..];
      bits[i] := bits[i] + {k};
      forall d | 0 <= d < WINDOW
        ensures BitAt(bits[..], d) <==> d == distance || BitAt(was, d)
      {
        BitOfDistance(was, d);
        BitOfDistance(bits[..], d);
        assert d / 64 == i && d % 64 == k ==> d == distance;
      }
    }

    /** The multi-word left shift, in place and from the top word down. */
    method Shift(n: nat)
      requires bits.Length == WORDS
      modifies bits
      ensures ShiftedBy(old(bits[..]), bits[..], n)
    {
      hide ShiftLeft, ShiftRight, ShiftedBy;
      ghost var was := bits[..];
      var whole, off := n / 64, n % 64;
      ghost var want := ShiftedWords(was, n);
      for i := WORDS downto 0
        invariant forall j :: 0 <= j < i ==> bits[j] == was[j]
        invariant forall j :: i <= j < WORDS ==> bits[j] == want[j]
      {
        var word := if i >= whole then bits[i - whole] else {};
        var below := if i > whole then bits[i - whole - 1] else {};
        assert ShiftedWord(was, whole, off, i)
            == if off == 0 then word else ShiftLeft(word, off) + ShiftRight(below, 64 - off);
        bits[i] := if off == 0 then word else ShiftLeft(word, off) + ShiftRight(below, 64 - off);
      }
      assert bits[..] == want;
      ShiftedWordsShiftBits(was, n);
    }

    /** The first number starts the window. */
    method Begin(s: U64)
      requires Valid() && !initialized
      modifies this, bits
      ensures Valid() && accepted == [s]
    {
      highest := s;
      initialized := true;
      Clear(WINDOW);
      SetBit(0);
      accepted := [s];
    }

    /** A number above all others moves the window up to it. */
    method Advance(s: U64)
      requires Valid() && initialized && s > highest
      modifies this, bits
      ensures Valid() && accepted == old(accepted) + [s]
    {
      var advance := s - highest;
      if advance >= WINDOW {
        Clear(advance);
      } else {
        Shift(advance);
      }
      ghost var mid := bits[..];
      SetBit(0);
      AdvanceKeepsMirror(old(bits[..]), mid, bits[..], accepted, s);
      HighestOfAppend(accepted, s);
      highest := s;
      accepted := accepted + [s];
    }

    /** A number inside the window, seen for the first time. */
    method Record(s: U64)
      requires Valid() && initialized && s <= highest && highest - s < WINDOW && s !in accepted
      modifies this, bits
      ensures Valid() && accepted == old(accepted) + [s]
    {
      SetBit(highest - s);
      MarkKeepsMirror(old(bits[..]), bits[..], highest, accepted, s);
      HighestOfAppend(accepted, s);
      accepted := accepted + [s];
    }

    method CheckAndRecord(s: U64) returns (ok: bool)
      requires Valid()
      modifies this, bits
      ensures Valid()
      ensures ok <==> Fresh(old(accepted), s)
      ensures accepted == if ok then old(accepted) + [s] else old(accepted)
    {
      if !initialized {
        Begin(s);
        return true;
      }
      if s > highest {
        Advance(s);
        return true;
      }
      var distance := highest - s;
      if distance >= WINDOW {
        return false;
      }
      BitOfDistance(bits[..], distance);
      if distance % 64 in bits[distance / 64] {
        return false;
      }
      Record(s);
      return true;
    }
  }

  /** A fresh window fed any sequence of numbers gives exactly the simple model's verdicts. */
  method ReplaySequence(arrivals: seq<U64>) returns (verdicts: seq<bool>)
    ensures |verdicts| == |arrivals|
    ensures forall i :: 0 <= i < |arrivals| ==> (verdicts[i] <==> Verdict(arrivals, i))
  {
    hide Accepted, Verdict, Fresh, Mirrors, Highest;
    var window := new Window();
    verdicts := [];
    NoneAccepted(arrivals);
    for n := 0 to |arrivals|
      invariant window.Valid() && fresh(window) && fresh(window.bits)
      invariant |verdicts| == n
      invariant window.accepted == Accepted(arrivals[..n])
      invariant forall i :: 0 <= i < n ==> (verdicts[i] <==> Verdict(arrivals, i))
    {
      NextVerdict(arrivals, n);
      var ok := window.CheckAndRecord(arrivals[n]);
      verdicts := verdicts + [ok];
    }
  }

  lemma NoneAccepted(arrivals: seq<U64>)
    ensures Accepted(arrivals[..0]) == []
  {
  }

  /** The simple model, one arrival further. */
  lemma NextVerdict(arrivals: seq<U64>, n: nat)
    requires n < |arrivals|
    ensures Verdict(arrivals, n) <==> Fresh(Accepted(arrivals[..n]), arrivals[n])
    ensures Accepted(arrivals[..n + 1]) ==
      if Fresh(Accepted(arrivals[..n]), arrivals[n]) then Accepted(arrivals[..n]) + [arrivals[n]] else Accepted(arrivals[..n])
  {
    hide Fresh;
    assert arrivals[..n + 1][..n] == arrivals[..n];
  }
}
