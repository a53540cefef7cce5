/** payload/sp/Yaz.c: exactly how large a destination has to be for every source of a given size. */
module YazBound {
  import opened Bytes
  import opened YazEncoder

  // ----- Sources without matches

  /** Of three bytes one marks the place and the two others count. */
  function HardByte(i: nat): u8 {
    if i % 3 == 0 then i / 3 / 128 % 128 else if i % 3 == 1 then i / 3 % 128 else 255
  }

  function Hard(n: nat): (src: seq<u8>)
    ensures |src| == n
  {
    seq(n, i requires 0 <= i => HardByte(i))
  }

  /** Two counters as close as the window allows differ in one of their digits. */
  lemma DigitsDiffer(t: nat, s: nat)
    requires s < t <= s + 1365 && t % 128 == s % 128
    ensures t / 128 % 128 != s / 128 % 128
    ensures (t + 1) / 128 % 128 != (s + 1) / 128 % 128
  {
    var f := (t - s) / 128;
    assert t - s == 128 * f && 1 <= f <= 10;
    assert t / 128 == s / 128 + f && (t + 1) / 128 == (s + 1) / 128 + f;
  }

  lemma MarkedByte(t: nat)
    ensures HardByte(3 * t) == t / 128 % 128 && HardByte(3 * t + 1) == t % 128 && HardByte(3 * t + 2) == 255
  {
  }

  predicate SameThree(pos: nat, ref: nat) {
    HardByte(pos) == HardByte(ref) && HardByte(pos + 1) == HardByte(ref + 1) && HardByte(pos + 2) == HardByte(ref + 2)
  }

  /** The mark stands at the same of three places. */
  lemma SamePhase(pos: nat, ref: nat)
    requires SameThree(pos, ref)
    ensures pos % 3 == ref % 3
  {
    MarkedByte(pos / 3);
    MarkedByte(pos / 3 + 1);
  }

  /** The other two bytes give both digits of a counter, or one of it and one of the next. */
  lemma SameCounters(t: nat, s: nat, k: nat)
    requires k < 3 && SameThree(3 * t + k, 3 * s + k)
    ensures k <= 1 ==> t % 128 == s % 128
    ensures k == 0 ==> t / 128 % 128 == s / 128 % 128
    ensures k >= 1 ==> (t + 1) / 128 % 128 == (s + 1) / 128 % 128
    ensures k == 2 ==> (t + 1) % 128 == (s + 1) % 128
  {
    hide HardByte;
    MarkedByte(t);
    MarkedByte(t + 1);
    MarkedByte(s);
    MarkedByte(s + 1);
  }

  /** No three bytes in a row come back within the window. */
  lemma NeverRepeats(pos: nat, ref: nat)
    requires ref < pos <= ref + WINDOW
    ensures !SameThree(pos, ref)
  {
    if SameThree(pos, ref) {
      hide HardByte, SameThree;
      SamePhase(pos, ref);
      var t, s, k := pos / 3, ref / 3, pos % 3;
      assert pos == 3 * t + k && ref == 3 * s + k;
      SameCounters(t, s, k);
      if k == 2 {
        DigitsDiffer(t + 1, s + 1);
      } else {
        DigitsDiffer(t, s);
      }
      assert false;
    }
  }

  /** Every item is a literal, wherever and with whatever room. */
  ghost predicate OnlyLiterals(src: seq<u8>) {
    forall pos: nat, room: nat :: pos < |src| && room > 0 ==> Choice(src, pos, room).Literal?
  }

  lemma HardIsLiteral(n: nat)
    ensures OnlyLiterals(Hard(n))
  {
    forall pos: nat, room: nat | pos < n && room > 0
      ensures Choice(Hard(n), pos, room).Literal?
    {
      HardChoice(n, pos, room);
    }
  }

  lemma HardChoice(n: nat, pos: nat, room: nat)
    requires pos < n && room > 0
    ensures Choice(Hard(n), pos, room).Literal?
  {
    hide Longest, MatchLength, HardByte;
    var src, cap := Hard(n), Cap(Hard(n), pos, room);
    LongestIsBest(src, pos, cap, pos);
    var best := Longest(src, pos, cap, pos);
    if best.size >= 3 {
      MatchBeyond(src, pos, best.offset, 0, 0, cap);
      MatchBeyond(src, pos, best.offset, 0, 1, cap);
      MatchBeyond(src, pos, best.offset, 0, 2, cap);
      NeverRepeats(pos, best.offset);
      assert false;
    }
  }

  /** A run of literals takes a byte for each and a flag byte for every eight. */
  lemma {:induction false} LiteralsNeed(src: seq<u8>, pos: nat, used: nat, i: nat, dstSize: nat)
    requires pos <= |src| && i < 8 && used <= dstSize && OnlyLiterals(src)
    requires Plan(src, pos, used, i, dstSize).Some?
    ensures used + (|src| - pos) + FlagBytes(|src| - pos, i) <= dstSize
    decreases |src| - pos
  {
    hide Choice, FlagBytes;
    FlagBytesStep(|src| - pos, i);
    if pos < |src| {
      var token := Choice(src, pos, dstSize - Opened(used, i));
      LiteralsNeed(src, pos + 1, Opened(used, i) + 1, (i + 1) % 8, dstSize);
    }
  }

  lemma FlagBytesStep(left: nat, i: nat)
    requires i < 8
    ensures FlagBytes(0, i) == 0
    ensures left > 0 ==> FlagBytes(left, i) == (if i == 0 then 1 else 0) + FlagBytes(left - 1, (i + 1) % 8)
  {
  }

  /**
    The encoder succeeds on every source of `n` bytes if and only if the destination has room for the
    header, a byte for each and a flag byte for every eight.
   */
  lemma RoomNeeded(n: nat, dstSize: nat)
    ensures (forall src: seq<u8> :: |src| == n ==> EncodePlan(src, dstSize).Some?) <==> dstSize >= 0x10 + n + (n + 7) / 8
  {
    hide Plan;
    if dstSize >= 0x10 + n + (n + 7) / 8 {
      forall src: seq<u8> | |src| == n ensures EncodePlan(src, dstSize).Some? {
        PlanFits(src, 0x0, 0x10, 0, dstSize);
      }
    } else if EncodePlan(Hard(n), dstSize).Some? {
      HardIsLiteral(n);
      LiteralsNeed(Hard(n), 0x0, 0x10, 0, dstSize);
      assert false;
    }
  }
}
