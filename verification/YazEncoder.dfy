/** payload/sp/Yaz.c: the greedy Yaz1 encoder with its pruned window search. */
module YazEncoder {
  import opened Bytes
  import opened Wrappers
  import opened LzFormat

  const YAZ1_MAGIC: u32 := 0x59617a31
  const WINDOW: nat := 0x1000
  const LONGEST: nat := 0x111

  // ----- Exhaustive search: what the pruned loop is measured against

  predicate RepeatsAt(src: seq<u8>, j: nat, distance: nat)
    requires distance <= j < |src|
  {
    src[j] == src[j - distance]
  }

  /** Each byte of `src[from..to]` equals the one `distance` before it. */
  predicate Repeats(src: seq<u8>, from: nat, to: nat, distance: nat)
    requires distance <= from && to <= |src|
  {
    forall j :: from <= j < to ==> RepeatsAt(src, j, distance)
  }

  /** How many bytes from `pos` repeat those from `ref`, up to `cap`, given that the first `k` do. */
  function MatchLength(src: seq<u8>, pos: nat, ref: nat, k: nat, cap: nat): (n: nat)
    requires ref < pos && k <= cap && pos + cap <= |src|
    ensures k <= n <= cap
    decreases cap - k
  {
    if k < cap && src[pos + k] == src[ref + k] then MatchLength(src, pos, ref, k + 1, cap) else k
  }

  /** The matched bytes repeat, and the match cannot be prolonged. */
  lemma {:induction false} MatchLengthMeans(src: seq<u8>, pos: nat, ref: nat, k: nat, cap: nat)
    requires ref < pos && k <= cap && pos + cap <= |src|
    ensures var n := MatchLength(src, pos, ref, k, cap);
            && Repeats(src, pos + k, pos + n, pos - ref)
            && (n < cap ==> src[pos + n] != src[ref + n])
    decreases cap - k
  {
    if k < cap && src[pos + k] == src[ref + k] {
      MatchLengthMeans(src, pos, ref, k + 1, cap);
    }
  }

  /** A match longer than `k` agrees at `k`: the one-byte rejection test loses nothing. */
  lemma {:induction false} MatchBeyond(src: seq<u8>, pos: nat, ref: nat, j: nat, k: nat, cap: nat)
    requires ref < pos && j <= k < cap && pos + cap <= |src|
    requires MatchLength(src, pos, ref, j, cap) > k
    ensures src[pos + k] == src[ref + k]
    decreases k - j
  {
    if j < k {
      MatchBeyond(src, pos, ref, j + 1, k, cap);
    }
  }

  datatype Match = Match(size: nat, offset: nat)

  function WindowStart(pos: nat): nat {
    if pos < WINDOW then 0 else pos - WINDOW
  }

  function Cap(src: seq<u8>, pos: nat, room: nat): (cap: nat)
    requires pos <= |src|
    ensures cap <= LONGEST && cap <= |src| - pos && cap <= room
  {
    var cap := if |src| - pos < LONGEST then |src| - pos else LONGEST;
    if room < cap then room else cap
  }

  /** The first longest match among the window offsets below `end`, every one of them compared in full. */
  function Longest(src: seq<u8>, pos: nat, cap: nat, end: nat): (best: Match)
    requires WindowStart(pos) <= end <= pos && pos + cap <= |src|
    decreases end
  {
    if end == WindowStart(pos) then Match(1, 0)
    else
      var best := Longest(src, pos, cap, end - 1);
      var size := MatchLength(src, pos, end - 1, 0, cap);
      if size > best.size then Match(size, end - 1) else best
  }

  /** No window offset matches longer, and of those that match as long this is the farthest back. */
  lemma {:induction false} LongestIsBest(src: seq<u8>, pos: nat, cap: nat, end: nat)
    requires WindowStart(pos) <= end <= pos && pos + cap <= |src|
    ensures var best := Longest(src, pos, cap, end);
      && best.size >= 1
      && (forall ref :: WindowStart(pos) <= ref < end ==> MatchLength(src, pos, ref, 0, cap) <= best.size)
      && (best.size >= 2 ==>
            && WindowStart(pos) <= best.offset < end
            && MatchLength(src, pos, best.offset, 0, cap) == best.size
            && forall ref :: WindowStart(pos) <= ref < best.offset ==> MatchLength(src, pos, ref, 0, cap) < best.size)
    decreases end
  {
    hide MatchLength;
    if end != WindowStart(pos) {
      LongestIsBest(src, pos, cap, end - 1);
    }
  }

  lemma LongestNone(src: seq<u8>, pos: nat, cap: nat)
    requires pos + cap <= |src|
    ensures Longest(src, pos, cap, WindowStart(pos)) == Match(1, 0)
  {
  }

  lemma LongestStep(src: seq<u8>, pos: nat, cap: nat, end: nat)
    requires WindowStart(pos) <= end < pos && pos + cap <= |src|
    ensures var best, size := Longest(src, pos, cap, end), MatchLength(src, pos, end, 0, cap);
            Longest(src, pos, cap, end + 1) == if size > best.size then Match(size, end) else best
  {
  }

  /** Once a match is as long as any can be, later offsets change nothing. */
  lemma {:induction false} LongestSaturates(src: seq<u8>, pos: nat, cap: nat, end: nat, later: nat)
    requires WindowStart(pos) <= end <= later <= pos && pos + cap <= |src|
    requires Longest(src, pos, cap, end).size >= cap
    ensures Longest(src, pos, cap, later) == Longest(src, pos, cap, end)
    decreases later
  {
    hide MatchLength;
    if later != end {
      LongestSaturates(src, pos, cap, end, later - 1);
    }
  }

  /**
    The source's inner loops, with their one-byte rejection test and early exits. They find what the
    exhaustive search finds.
   */
  method FindMatch(src: seq<u8>, srcOffset: nat, room: nat) returns (bestRefSize: nat, bestRefOffset: nat)
    requires srcOffset < |src| && room > 0
    ensures Match(bestRefSize, bestRefOffset) == Longest(src, srcOffset, Cap(src, srcOffset, room), srcOffset)
  {
    hide Longest;
    LongestNone(src, srcOffset, Cap(src, srcOffset, room));
    var firstRefOffset := if srcOffset < 0x1000 then 0x0 else srcOffset - 0x1000;
    ghost var cap := Cap(src, srcOffset, room);
    bestRefSize, bestRefOffset := 0x1, 0;
    var refOffset := firstRefOffset;
    while refOffset < srcOffset
      invariant firstRefOffset <= refOffset <= srcOffset
      invariant 1 <= bestRefSize <= cap
      invariant Match(bestRefSize, bestRefOffset) == Longest(src, srcOffset, cap, refOffset)
      decreases srcOffset - refOffset
    {
      LongestStep(src, srcOffset, cap, refOffset);
      var maxRefSize := 0x111;
      if |src| - srcOffset < maxRefSize {
        maxRefSize := |src| - srcOffset;
      }
      if room < maxRefSize {
        maxRefSize := room;
      }
      if bestRefSize < maxRefSize {
        if src[srcOffset + bestRefSize] != src[refOffset + bestRefSize] {
          if MatchLength(src, srcOffset, refOffset, 0, cap) > bestRefSize {
            MatchBeyond(src, srcOffset, refOffset, 0, bestRefSize, cap);
          }
          refOffset := refOffset + 1;
          continue;
        }
        var refSize := 0;
        while refSize < maxRefSize
          invariant refSize <= maxRefSize
          invariant MatchLength(src, srcOffset, refOffset, refSize, cap) == MatchLength(src, srcOffset, refOffset, 0, cap)
        {
          if src[srcOffset + refSize] != src[refOffset + refSize] {
            break;
          }
          refSize := refSize + 1;
        }
        if refSize > bestRefSize {
          bestRefSize, bestRefOffset := refSize, refOffset;
          if bestRefSize == 0x111 {
            LongestSaturates(src, srcOffset, cap, refOffset + 1, srcOffset);
            break;
          }
        }
      } else {
        LongestSaturates(src, srcOffset, cap, refOffset, srcOffset);
        break;
      }
      refOffset := refOffset + 1;
    }
  }

  // ----- The greedy plan: which tokens the encoder emits, and when it gives up

  function Choice(src: seq<u8>, pos: nat, room: nat): (token: Token)
    requires pos < |src| && room > 0
    ensures token.Fits(Yaz) && token.Reaches(pos) && 1 <= token.Length() <= |src| - pos
  {
    var cap := Cap(src, pos, room);
    var best := Longest(src, pos, cap, pos);
    LongestIsBest(src, pos, cap, pos);
    if best.size < 3 then Literal(src[pos]) else Reference(pos - best.offset, best.size)
  }

  lemma {:induction false} MatchAtLeast(src: seq<u8>, pos: nat, ref: nat, k: nat, n: nat, cap: nat)
    requires ref < pos && k <= n <= cap && pos + cap <= |src|
    requires src[ref..ref + n] == src[pos..pos + n]
    ensures MatchLength(src, pos, ref, k, cap) >= n
    decreases n - k
  {
    if k < n {
      assert src[ref..ref + n][k] == src[pos..pos + n][k];
      MatchAtLeast(src, pos, ref, k + 1, n, cap);
    }
  }

  /**
    No match among the last 0x1000 bytes, of at most 0x111 bytes, the source left and the room left, is
    longer than the one chosen, and none as long is farther back. Less than three bytes go as a literal.
   */
  lemma ChoiceIsLongest(src: seq<u8>, pos: nat, room: nat, ref: nat, n: nat)
    requires pos < |src| && room > 0 && ref < pos <= ref + 0x1000
    requires n <= 0x111 && n <= room && pos + n <= |src| && src[ref..ref + n] == src[pos..pos + n]
    ensures var token := Choice(src, pos, room);
            && (token.Literal? ==> n < 3)
            && (token.Reference? ==> n <= token.length && (n == token.length ==> pos - ref <= token.distance))
  {
    hide MatchLength, Longest;
    var cap := Cap(src, pos, room);
    MatchAtLeast(src, pos, ref, 0, n, cap);
    LongestIsBest(src, pos, cap, pos);
  }

  /** What is chosen is such a match, of three bytes or more, or else the next byte itself. */
  lemma ChoiceMatches(src: seq<u8>, pos: nat, room: nat)
    requires pos < |src| && room > 0
    ensures var token := Choice(src, pos, room);
            && (token.Literal? ==> token.value == src[pos])
            && (token.Reference? ==>
                  && 3 <= token.length <= 0x111 && token.length <= room && pos + token.length <= |src|
                  && 1 <= token.distance <= 0x1000 && token.distance <= pos
                  && src[pos - token.distance..pos - token.distance + token.length] == src[pos..pos + token.length])
  {
    hide MatchLength, Longest, Repeats;
    var cap, token := Cap(src, pos, room), Choice(src, pos, room);
    LongestIsBest(src, pos, cap, pos);
    if token.Reference? {
      MatchLengthMeans(src, pos, pos - token.distance, 0, cap);
      RepeatsIs(src, pos, pos + token.length, token.distance);
    }
  }

  lemma RepeatsIs(src: seq<u8>, from: nat, to: nat, distance: nat)
    requires distance <= from <= to <= |src| && Repeats(src, from, to, distance)
    ensures src[from - distance..to - distance] == src[from..to]
  {
    forall i | 0 <= i < to - from ensures src[from - distance..to - distance][i] == src[from..to][i] {
      assert RepeatsAt(src, from + i, distance);
    }
  }

  function TokenSize(token: Token): nat {
    |TokenBytes(Yaz, token)|
  }

  /**
    The tokens for `src[pos..]` when `used` bytes of `dstSize` are taken and `i` items stand in the
    open group, or `None` when the destination is too small.
   */
  function Plan(src: seq<u8>, pos: nat, used: nat, i: nat, dstSize: nat): (tokens: Option<seq<Token>>)
    requires pos <= |src| && i < 8
    decreases |src| - pos
  {
    if pos == |src| then Some([])
    else if Opened(used, i) >= dstSize then None
    else
      var token := Choice(src, pos, dstSize - Opened(used, i));
      var used' := Opened(used, i) + TokenSize(token);
      if used' > dstSize then None
      else Prepend(token, Plan(src, pos + token.Length(), used', (i + 1) % 8, dstSize))
  }

  /** Bytes taken once the group of item `i` has its flag byte. */
  function Opened(used: nat, i: nat): nat {
    if i == 0 then used + 1 else used
  }

  function Prepend(token: Token, rest: Option<seq<Token>>): (tokens: Option<seq<Token>>) {
    if rest.Some? then Some([token] + rest.value) else None
  }

  function Header(srcSize: u32): (bytes: seq<u8>)
    ensures |bytes| == 0x10
  {
    BigEndianBytes(YAZ1_MAGIC) + BigEndianBytes(srcSize) + BigEndianBytes(0x0) + BigEndianBytes(0x0)
  }

  function EncodePlan(src: seq<u8>, dstSize: nat): (tokens: Option<seq<Token>>)
  {
    if dstSize < 0x10 then None else Plan(src, 0x0, 0x10, 0, dstSize)
  }

  // ----- What the plan stands for

  /** Bytes that repeat at distance `d` are the periodic copy of the last `d` bytes. */
  lemma {:induction false} MatchIsPeriodic(src: seq<u8>, pos: nat, distance: nat, length: nat, k: nat)
    requires 1 <= distance <= pos && k < length && pos + length <= |src|
    requires Repeats(src, pos, pos + length, distance)
    ensures src[pos + k] == src[pos - distance + k % distance]
    decreases k
  {
    if k < distance {
      DivModUnique(k, distance, 0, k);
    } else {
      assert RepeatsAt(src, pos + k, distance);
      MatchIsPeriodic(src, pos, distance, length, k - distance);
      ModShift(k, distance);
    }
  }

  lemma CopyRunRepeats(src: seq<u8>, pos: nat, distance: nat, length: nat)
    requires 1 <= distance <= pos && pos + length <= |src|
    requires Repeats(src, pos, pos + length, distance)
    ensures CopyRun(src[..pos], distance, length) == src[pos..pos + length]
  {
    forall k | 0 <= k < length
      ensures CopyRun(src[..pos], distance, length)[k] == src[pos + k]
    {
      MatchIsPeriodic(src, pos, distance, length, k);
    }
  }

  /** Applying the chosen token to what has been read gives what will have been read. */
  lemma ChoiceCopies(src: seq<u8>, pos: nat, room: nat)
    requires pos < |src| && room > 0
    ensures var token := Choice(src, pos, room);
            Apply(src[..pos], token) == src[..pos + token.Length()]
  {
    hide MatchLength, Longest, Cap, Repeats, CopyRun;
    var cap, token := Cap(src, pos, room), Choice(src, pos, room);
    if token.Reference? {
      LongestIsBest(src, pos, cap, pos);
      MatchLengthMeans(src, pos, pos - token.distance, 0, cap);
      CopyRunRepeats(src, pos, token.distance, token.length);
      assert src[..pos] + src[pos..pos + token.length] == src[..pos + token.length];
    }
  }

  /** Bytes taken by tokens whose first lands in slot `i` of its group. */
  function Size(i: nat, tokens: seq<Token>): nat
    requires i < 8
    decreases |tokens|
  {
    if tokens == [] then 0
    else (if i == 0 then 1 else 0) + TokenSize(tokens[0]) + Size((i + 1) % 8, tokens[1..])
  }

  /** A plan's tokens reproduce the source and fit the destination. */
  lemma {:induction false} PlanExpands(src: seq<u8>, pos: nat, used: nat, i: nat, dstSize: nat)
    requires pos <= |src| && i < 8 && used <= dstSize
    ensures var tokens := Plan(src, pos, used, i, dstSize);
            tokens.Some? ==>
              && AllFit(Yaz, tokens.value)
              && Applicable(src[..pos], tokens.value)
              && Expand(src[..pos], tokens.value) == src
              && used + Size(i, tokens.value) <= dstSize
    decreases |src| - pos
  {
    hide Choice, Longest, TokenBytes;
    if pos == |src| {
      assert src[..pos] == src;
    } else if Opened(used, i) < dstSize {
      var token := Choice(src, pos, dstSize - Opened(used, i));
      var used' := Opened(used, i) + TokenSize(token);
      if used' <= dstSize {
        ChoiceCopies(src, pos, dstSize - Opened(used, i));
        PlanExpands(src, pos + token.Length(), used', (i + 1) % 8, dstSize);
        var rest := Plan(src, pos + token.Length(), used', (i + 1) % 8, dstSize);
        if rest.Some? {
          assert ([token] + rest.value)[1..] == rest.value;
        }
      }
    }
  }

  // ----- The bound

  /** Flag bytes still to be opened for `left` items when `i` stand in the open group. */
  function FlagBytes(left: nat, i: nat): nat
    requires i < 8
  {
    if i == 0 then (left + 7) / 8
    else if left <= 8 - i then 0
    else (left - (8 - i) + 7) / 8
  }

  /** With room for one byte per source byte and a flag byte per eight, the plan exists and stays within that. */
  lemma {:induction false} PlanFits(src: seq<u8>, pos: nat, used: nat, i: nat, dstSize: nat)
    requires pos <= |src| && i < 8
    requires used + (|src| - pos) + FlagBytes(|src| - pos, i) <= dstSize
    ensures var tokens := Plan(src, pos, used, i, dstSize);
            tokens.Some? && Size(i, tokens.value) <= (|src| - pos) + FlagBytes(|src| - pos, i)
    decreases |src| - pos
  {
    hide Choice, Longest, FlagBytes, TokenSize;
    if pos < |src| {
      FlagBytesShrink(|src| - pos, i, 1);
      var token := Choice(src, pos, dstSize - Opened(used, i));
      FlagBytesShrink(|src| - pos, i, token.Length());
      TokenSaves(token);
      var used' := Opened(used, i) + TokenSize(token);
      PlanFits(src, pos + token.Length(), used', (i + 1) % 8, dstSize);
      var rest := Plan(src, pos + token.Length(), used', (i + 1) % 8, dstSize);
      assert ([token] + rest.value)[1..] == rest.value;
    }
  }

  /** An item is never longer than the bytes it stands for. */
  lemma TokenSaves(token: Token)
    requires token.Fits(Yaz)
    ensures TokenSize(token) <= token.Length()
  {
  }

  /** A chosen item always fits: no match is longer than the room left, and no item longer than its match. */
  lemma ChoiceFits(src: seq<u8>, pos: nat, room: nat)
    requires pos < |src| && room > 0
    ensures TokenSize(Choice(src, pos, room)) <= room
  {
    hide Longest, MatchLength;
    LongestIsBest(src, pos, Cap(src, pos, room), pos);
    TokenSaves(Choice(src, pos, room));
  }

  /** Bytes standing in the destination when the encoder returns, whether it succeeds or not. */
  function BytesAtEnd(src: seq<u8>, pos: nat, used: nat, i: nat, dstSize: nat): nat
    requires pos <= |src| && i < 8
    decreases |src| - pos
  {
    if pos == |src| || used == dstSize then used
    else if Opened(used, i) >= dstSize then Opened(used, i)
    else
      var token := Choice(src, pos, dstSize - Opened(used, i));
      var used' := Opened(used, i) + TokenSize(token);
      if used' > dstSize then Opened(used, i)
      else BytesAtEnd(src, pos + token.Length(), used', (i + 1) % 8, dstSize)
  }

  /** The encoder gives up only when every byte of the destination is taken. */
  lemma {:induction false} GivesUpFull(src: seq<u8>, pos: nat, used: nat, i: nat, dstSize: nat)
    requires pos <= |src| && i < 8 && used <= dstSize
    requires Plan(src, pos, used, i, dstSize) == None
    ensures BytesAtEnd(src, pos, used, i, dstSize) == dstSize
    decreases |src| - pos
  {
    hide Choice, TokenSize;
    if pos < |src| && Opened(used, i) < dstSize {
      var token := Choice(src, pos, dstSize - Opened(used, i));
      ChoiceFits(src, pos, dstSize - Opened(used, i));
      GivesUpFull(src, pos + token.Length(), Opened(used, i) + TokenSize(token), (i + 1) % 8, dstSize);
    }
  }

  /** With that much room the destination's size has no say in what is chosen. */
  lemma {:induction false} PlanIgnoresRoom(src: seq<u8>, pos: nat, used: nat, i: nat, dstSize: nat, dstSize': nat)
    requires pos <= |src| && i < 8
    requires used + (|src| - pos) + FlagBytes(|src| - pos, i) <= dstSize <= dstSize'
    ensures Plan(src, pos, used, i, dstSize) == Plan(src, pos, used, i, dstSize')
    decreases |src| - pos
  {
    hide Plan, Choice, FlagBytes, TokenSize;
    PlanUnfold(src, pos, used, i, dstSize);
    PlanUnfold(src, pos, used, i, dstSize');
    if pos < |src| {
      FlagBytesShrink(|src| - pos, i, 1);
      var token := Choice(src, pos, dstSize - Opened(used, i));
      ChoiceIgnoresRoom(src, pos, dstSize - Opened(used, i), dstSize' - Opened(used, i));
      FlagBytesShrink(|src| - pos, i, token.Length());
      TokenSaves(token);
      PlanIgnoresRoom(src, pos + token.Length(), Opened(used, i) + TokenSize(token), (i + 1) % 8, dstSize, dstSize');
    }
  }

  lemma ChoiceIgnoresRoom(src: seq<u8>, pos: nat, room: nat, room': nat)
    requires pos < |src| && |src| - pos <= room && |src| - pos <= room'
    ensures Choice(src, pos, room) == Choice(src, pos, room')
  {
    assert Cap(src, pos, room) == Cap(src, pos, room');
  }

  lemma PlanUnfold(src: seq<u8>, pos: nat, used: nat, i: nat, dstSize: nat)
    requires pos <= |src| && i < 8
    ensures pos == |src| ==> Plan(src, pos, used, i, dstSize) == Some([])
    ensures pos < |src| && Opened(used, i) >= dstSize ==> Plan(src, pos, used, i, dstSize) == None
    ensures pos < |src| && Opened(used, i) < dstSize ==>
              var token := Choice(src, pos, dstSize - Opened(used, i));
              var used' := Opened(used, i) + TokenSize(token);
              Plan(src, pos, used, i, dstSize) ==
              if used' > dstSize then None
              else Prepend(token, Plan(src, pos + token.Length(), used', (i + 1) % 8, dstSize))
  {
  }

  /**
    Below the bound it has: a match is capped by the bytes left in the destination, although a
    reference takes two or three whatever its length. Four equal bytes encode in 20 bytes, yet with
    exactly 20 the encoder gives up.
   */
  lemma TightRoomGivesUp()
    ensures var src := [7, 7, 7, 7];
            && EncodePlan(src, 21) == Some([Literal(7), Reference(1, 3)])
            && 0x10 + Size(0, [Literal(7), Reference(1, 3)]) == 20
            && EncodePlan(src, 20) == None
  {
    hide Plan, Choice;
    var src := [7, 7, 7, 7];
    FourSame(src, 0, 4);
    FourSame(src, 1, 3);
    FourSame(src, 1, 2);
    FourSame(src, 2, 1);
    FourSame(src, 0, 3);
    PlanUnfold(src, 0, 0x10, 0, 21);
    PlanUnfold(src, 1, 18, 1, 21);
    PlanUnfold(src, 4, 20, 2, 21);
    assert [Literal(7)] + ([Reference(1, 3)] + []) == [Literal(7), Reference(1, 3)];
    PlanUnfold(src, 0, 0x10, 0, 20);
    PlanUnfold(src, 1, 18, 1, 20);
    PlanUnfold(src, 2, 19, 2, 20);
    PlanUnfold(src, 3, 20, 3, 20);
  }

  lemma FourSame(src: seq<u8>, pos: nat, room: nat)
    requires src == [7, 7, 7, 7] && pos <= 2 && 1 <= room
    ensures Choice(src, pos, room) == if pos == 0 || room < 3 || pos == 2 then Literal(7) else Reference(1, 3)
  {
    var cap := Cap(src, pos, room);
    if pos == 1 {
      LongestNone(src, 1, cap);
      LongestStep(src, 1, cap, 0);
    } else if pos == 2 {
      LongestIsBest(src, 2, cap, 2);
    }
  }

  lemma FlagBytesShrink(left: nat, i: nat, length: nat)
    requires i < 8 && 1 <= length <= left
    ensures (if i == 0 then 1 else 0) + FlagBytes(left - length, (i + 1) % 8) <= FlagBytes(left, i)
  {
  }

  /** `Size` is the length of what the tokens are laid out as. */
  lemma {:induction false} SizeIsLength(tokens: seq<Token>)
    ensures |Serialize(Yaz, tokens)| == Size(0, tokens)
    decreases |tokens|, 0
  {
    hide Serialize, Items, Flags, Group, TokenBytes;
    hide TokenSize, Size;
    SizeMoves(0, tokens);
    if tokens == [] {
      SerializeNothing();
    } else {
      var n := if |tokens| <= 8 then |tokens| else 8;
      SerializeSplit(Yaz, tokens, n);
      var group, rest := tokens[..n], tokens[n..];
      assert tokens == group + rest;
      ItemsSplit(Yaz, group, Serialize(Yaz, rest));
      assert group[1..] + rest == tokens[1..];
      TokenSizeIs(tokens[0]);
      ItemsSize(1, group[1..], rest);
    }
  }

  lemma {:induction false} ItemsSize(i: nat, items: seq<Token>, rest: seq<Token>)
    requires 1 <= i && i + |items| <= 8
    requires rest != [] ==> i + |items| == 8
    ensures |Items(Yaz, items)| + |Serialize(Yaz, rest)| == Size(if i == 8 then 0 else i, items + rest)
    decreases |rest| + |items|, 1
  {
    hide TokenBytes, Serialize, Items, Size, TokenSize;
    SizeMoves(if i == 8 then 0 else i, items + rest);
    if items == [] {
      NoItems(Yaz, rest, []);
      SerializeNothing();
      if rest != [] {
        SizeIsLength(rest);
      }
    } else {
      assert (items + rest)[1..] == items[1..] + rest;
      ItemsSplit(Yaz, items, Serialize(Yaz, rest));
      TokenSizeIs(items[0]);
      ItemsSize(i + 1, items[1..], rest);
    }
  }

  lemma SizeMoves(i: nat, tokens: seq<Token>)
    requires i < 8
    ensures tokens == [] ==> Size(i, tokens) == 0
    ensures tokens != [] ==>
              Size(i, tokens) == (if i == 0 then 1 else 0) + TokenSize(tokens[0]) + Size(if i == 7 then 0 else i + 1, tokens[1..])
  {
  }

  lemma SerializeNothing()
    ensures Serialize(Yaz, []) == []
  {
  }

  lemma TokenSizeIs(token: Token)
    ensures TokenSize(token) == |TokenBytes(Yaz, token)|
  {
  }

  // ----- The encoder itself

  /** Writes a two- or three-byte reference, or reports that it does not fit. Its sums are 32 bits wide. */
  method PutReference(dst: array<u8>, dstOffset: nat, dstSize: nat, bestRefSize: nat, distance: nat)
    returns (ok: bool, dstOffset': nat)
    requires Reference(distance, bestRefSize).Fits(Yaz) && dstOffset <= dstSize <= dst.Length && dstSize < U32_MODULUS
    requires dstOffset + TokenSize(Reference(distance, bestRefSize)) < U32_MODULUS
    modifies dst
    ensures ok == (dstOffset + TokenSize(Reference(distance, bestRefSize)) <= dstSize)
    ensures ok ==>
              && dstOffset' == dstOffset + TokenSize(Reference(distance, bestRefSize))
              && dst[dstOffset..dstOffset'] == TokenBytes(Yaz, Reference(distance, bestRefSize))
    ensures forall k :: 0 <= k < dstOffset || dstSize <= k < dst.Length ==> dst[k] == old(dst[k])
  {
    hide ToByte, Or, Shl;
    dstOffset' := dstOffset;
    if (dstOffset' + 2) % U32_MODULUS > dstSize {
      return false, dstOffset';
    }
    if bestRefSize < 0x12 {
      ReferenceWord(bestRefSize, distance);
      WriteU16(dst, dstOffset', Or(Shl(bestRefSize - 0x2, 12), distance - 0x1));
      dstOffset' := dstOffset' + 2;
    } else {
      WriteU16(dst, dstOffset', distance - 0x1);
      dstOffset' := dstOffset' + 2;
      if (dstOffset' + 1) % U32_MODULUS > dstSize {
        return false, dstOffset';
      }
      dst[dstOffset'] := bestRefSize - 0x12;
      dstOffset' := dstOffset' + 1;
    }
    return true, dstOffset';
  }

  /** The length nibble and the distance share no bit. */
  lemma ReferenceWord(bestRefSize: nat, distance: nat)
    requires 3 <= bestRefSize < 0x12 && 1 <= distance <= 0x1000
    ensures Or(Shl(bestRefSize - 0x2, 12), distance - 0x1) == (bestRefSize - 2) * 0x1000 + (distance - 1)
  {
    assert Pow2(12) == 0x1000;
    OrDisjoint(bestRefSize - 0x2, distance - 0x1, 12);
    ShlIsScaling(bestRefSize - 0x2, 12);
  }

  method WriteU16(data: array<u8>, offset: nat, val: u16)
    requires offset + 2 <= data.Length
    modifies data
    ensures data[offset..offset + 2] == [val / 0x100, val % 0x100]
    ensures forall k :: 0 <= k < data.Length && !(offset <= k < offset + 2) ==> data[k] == old(data[k])
  {
    ShrByte(val);
    data[offset] := ToByte(Shr(val, 8));
    data[offset + 1] := ToByte(val);
  }

  method WriteU32(data: array<u8>, offset: nat, val: u32)
    requires offset + 4 <= data.Length
    modifies data
    ensures data[offset..offset + 4] == BigEndianBytes(val)
    ensures forall k :: 0 <= k < data.Length && !(offset <= k < offset + 4) ==> data[k] == old(data[k])
  {
    hide Shr;
    ShrBytes(val);
    data[offset] := ToByte(Shr(val, 24));
    data[offset + 1] := ToByte(Shr(val, 16));
    data[offset + 2] := ToByte(Shr(val, 8));
    data[offset + 3] := ToByte(val);
  }

  /** The whole file for a plan. */
  function Encoded(src: seq<u8>, tokens: seq<Token>): seq<u8>
    requires |src| < U32_MODULUS
  {
    Header(|src|) + Serialize(Yaz, tokens)
  }

  /** The header, byte by byte: "Yaz1", the size of the source, and eight zeros. */
  lemma HeaderBytes(src: seq<u8>, tokens: seq<Token>)
    requires |src| < U32_MODULUS
    ensures var n := |src|;
            Encoded(src, tokens)[..16] ==
            [0x59, 0x61, 0x7a, 0x31, n / 0x100_0000, n / 0x1_0000 % 0x100, n / 0x100 % 0x100, n % 0x100, 0, 0, 0, 0, 0, 0, 0, 0]
  {
    hide Serialize;
    var n := |src|;
    assert BigEndianBytes(YAZ1_MAGIC) == [0x59, 0x61, 0x7a, 0x31] && BigEndianBytes(0) == [0, 0, 0, 0];
    assert n / 0x100 / 0x100 == n / 0x1_0000 && n / 0x100 / 0x100 / 0x100 == n / 0x100_0000;
    assert BigEndianBytes(n) == [n / 0x100_0000, n / 0x1_0000 % 0x100, n / 0x100 % 0x100, n % 0x100];
  }

  function Concat(tokens: seq<Token>, rest: Option<seq<Token>>): Option<seq<Token>> {
    if rest.Some? then Some(tokens + rest.value) else None
  }

  /** What stands in the destination: whole groups, then the open group's flag byte and items. */
  ghost predicate Written(dst: seq<u8>, src: seq<u8>, whole: seq<Token>, open: seq<Token>): (written: bool)
    ensures written ==> |src| < U32_MODULUS && |open| <= 8 && |whole| % 8 == 0
  {
    && |src| < U32_MODULUS
    && |open| <= 8 && |whole| % 8 == 0
    && dst == Encoded(src, whole) + ([Flags(Yaz, open)] + Items(Yaz, open))
  }

  /** What is written is the layout of all tokens so far. */
  lemma CloseGroup(dst: seq<u8>, src: seq<u8>, whole: seq<Token>, open: seq<Token>)
    requires Written(dst, src, whole, open) && open != []
    ensures dst == Encoded(src, whole + open)
  {
    hide Serialize, Items, Flags, Header;
    SerializeAppend(Yaz, whole, open);
  }

  /** One unfolding of `Plan`, on top of the tokens already emitted. */
  lemma PlanStep(sofar: seq<Token>, src: seq<u8>, pos: nat, used: nat, i: nat, dstSize: nat)
    requires pos < |src| && i < 8 && Opened(used, i) < dstSize
    ensures var token := Choice(src, pos, dstSize - Opened(used, i));
            var used' := Opened(used, i) + TokenSize(token);
            Concat(sofar, Plan(src, pos, used, i, dstSize)) ==
            if used' > dstSize then None
            else Concat(sofar + [token], Plan(src, pos + token.Length(), used', (i + 1) % 8, dstSize))
  {
    hide Choice, TokenBytes;
    var token := Choice(src, pos, dstSize - Opened(used, i));
    var used' := Opened(used, i) + TokenSize(token);
    if used' <= dstSize {
      var rest := Plan(src, pos + token.Length(), used', (i + 1) % 8, dstSize);
      if rest.Some? {
        assert sofar + ([token] + rest.value) == sofar + [token] + rest.value;
      }
    }
  }

  /** Where `Plan` stops: the source is used up, or the destination is. */
  lemma PlanEnds(sofar: seq<Token>, src: seq<u8>, pos: nat, used: nat, i: nat, dstSize: nat)
    requires pos <= |src| && i < 8
    ensures pos == |src| ==> Concat(sofar, Plan(src, pos, used, i, dstSize)) == Some(sofar)
    ensures pos < |src| && Opened(used, i) >= dstSize ==> Concat(sofar, Plan(src, pos, used, i, dstSize)) == None
    ensures Concat([], Plan(src, pos, used, i, dstSize)) == Plan(src, pos, used, i, dstSize)
  {
    var rest := Plan(src, pos, used, i, dstSize);
    if rest.Some? {
      assert [] + rest.value == rest.value;
    }
    assert sofar + [] == sofar;
  }

  /** Emits the item for `src[srcOffset..]` into the open group. It always fits, so no failure exit is taken. */
  method PutItem(
      src: seq<u8>, srcOffset: nat, dst: array<u8>, dstOffset: nat, dstSize: nat,
      groupHeaderOffset: nat, i: nat, ghost whole: seq<Token>, ghost open: seq<Token>)
    returns (ok: bool, srcOffset': nat, dstOffset': nat)
    requires srcOffset < |src| && dstOffset < dstSize <= dst.Length && dstSize < U32_MODULUS && i == |open| < 8
    requires Written(dst[..dstOffset], src, whole, open) && groupHeaderOffset == |Encoded(src, whole)|
    modifies dst
    ensures var token := Choice(src, srcOffset, dstSize - dstOffset);
            && ok && dstOffset + TokenSize(token) <= dstSize
            && srcOffset' == srcOffset + token.Length()
            && dstOffset' == dstOffset + TokenSize(token)
            && Written(dst[..dstOffset'], src, whole, open + [token])
    ensures forall k :: dstSize <= k < dst.Length ==> dst[k] == old(dst[k])
  {
    ghost var token := Choice(src, srcOffset, dstSize - dstOffset);
    hide Choice, Longest, TokenBytes, Written;
    ChoiceFits(src, srcOffset, dstSize - dstOffset);
    var bestRefSize, bestRefOffset := FindMatch(src, srcOffset, dstSize - dstOffset);
    ChoiceOfMatch(src, srcOffset, dstSize - dstOffset, bestRefSize, bestRefOffset);
    if bestRefSize < 0x3 {
      PutLiteral(src[srcOffset], src, dst, dstOffset, groupHeaderOffset, i, whole, open);
      ok, dstOffset', srcOffset' := true, dstOffset + 1, srcOffset + 1;
    } else {
      ghost var before := dst[..dstOffset];
      ok, dstOffset' := PutReference(dst, dstOffset, dstSize, bestRefSize, srcOffset - bestRefOffset);
      srcOffset' := srcOffset + bestRefSize;
      assert dst[..dstOffset'] == before + dst[dstOffset..dstOffset'];
      WrittenReference(before, src, whole, open, token);
    }
  }

  lemma ChoiceOfMatch(src: seq<u8>, pos: nat, room: nat, size: nat, offset: nat)
    requires pos < |src| && room > 0
    requires Match(size, offset) == Longest(src, pos, Cap(src, pos, room), pos)
    ensures size < 3 ==> Choice(src, pos, room) == Literal(src[pos]) && TokenSize(Literal(src[pos])) == 1
    ensures size >= 3 ==> offset < pos && Choice(src, pos, room) == Reference(pos - offset, size)
  {
    LongestIsBest(src, pos, Cap(src, pos, room), pos);
  }

  /** The literal case: its bit is ORed into the open group's flag byte, its byte appended. */
  method PutLiteral(
      value: u8, src: seq<u8>, dst: array<u8>, dstOffset: nat, groupHeaderOffset: nat, i: nat,
      ghost whole: seq<Token>, ghost open: seq<Token>)
    requires dstOffset < dst.Length && i == |open| < 8
    requires Written(dst[..dstOffset], src, whole, open) && groupHeaderOffset == |Encoded(src, whole)|
    modifies dst
    ensures Written(dst[..dstOffset + 1], src, whole, open + [Literal(value)])
    ensures forall k :: dstOffset < k < dst.Length ==> dst[k] == old(dst[k])
  {
    hide Encoded, Shl, Or;
    ghost var before := dst[..dstOffset];
    WrittenFlag(before, src, whole, open);
    FlagInRange(dst[groupHeaderOffset], i);
    dst[groupHeaderOffset] := Or(dst[groupHeaderOffset], Shl(1, 7 - i));
    dst[dstOffset] := value;
    assert dst[..dstOffset + 1] == before[groupHeaderOffset := dst[groupHeaderOffset]] + [value];
    WrittenLiteral(before, src, whole, open, value);
  }

  lemma WrittenFlag(dst: seq<u8>, src: seq<u8>, whole: seq<Token>, open: seq<Token>)
    requires Written(dst, src, whole, open)
    ensures |Encoded(src, whole)| < |dst| && dst[|Encoded(src, whole)|] == Flags(Yaz, open)
  {
  }

  lemma WrittenLiteral(dst: seq<u8>, src: seq<u8>, whole: seq<Token>, open: seq<Token>, value: u8)
    requires Written(dst, src, whole, open) && |open| < 8
    ensures Or(Flags(Yaz, open), Shl(1, 7 - |open|)) < 0x100
    ensures var g := |Encoded(src, whole)|;
            && g < |dst|
            && Written(dst[g := Or(Flags(Yaz, open), Shl(1, 7 - |open|))] + [value], src, whole, open + [Literal(value)])
  {
    hide Encoded, Items, Flags, Shl, Or, Pow2;
    FlagInRange(Flags(Yaz, open), |open|);
    FlagsAppend(Yaz, open, Literal(value));
    ItemsAppend(Yaz, open, Literal(value));
    Splice(Encoded(src, whole), Flags(Yaz, open), Flags(Yaz, open + [Literal(value)]), Items(Yaz, open), value);
  }

  lemma Splice(head: seq<u8>, was: u8, flags: u8, items: seq<u8>, value: u8)
    ensures (head + ([was] + items))[|head| := flags] + [value] == head + ([flags] + (items + [value]))
  {
  }

  lemma WrittenReference(dst: seq<u8>, src: seq<u8>, whole: seq<Token>, open: seq<Token>, token: Token)
    requires Written(dst, src, whole, open) && |open| < 8
    requires token.Reference?
    ensures Written(dst + TokenBytes(Yaz, token), src, whole, open + [token])
  {
    hide Encoded, Items, Flags, TokenBytes;
    FlagsAppend(Yaz, open, token);
    ItemsAppend(Yaz, open, token);
    var head, items := Encoded(src, whole), Items(Yaz, open);
    assert head + ([Flags(Yaz, open)] + items) + TokenBytes(Yaz, token)
        == head + ([Flags(Yaz, open)] + (items + TokenBytes(Yaz, token)));
  }

  /** Where the flag byte of the group that `tokens` end in stands. */
  function GroupStart(src: seq<u8>, tokens: seq<Token>): nat
    requires |src| < U32_MODULUS
  {
    |Encoded(src, tokens[..|tokens| - |tokens| % 8])|
  }

  /** One turn of the outer loop: a flag byte if item `i` begins a group, then the item. */
  method EncodeItem(
      src: seq<u8>, srcOffset: nat, dst: array<u8>, dstOffset: nat, dstSize: nat,
      groupHeaderOffset: nat, i: nat, ghost tokens: seq<Token>)
    returns (ok: bool, srcOffset': nat, dstOffset': nat, groupHeaderOffset': nat)
    requires |src| < U32_MODULUS
    requires srcOffset < |src| && dstOffset < dstSize <= dst.Length && dstSize < U32_MODULUS && i == |tokens| % 8
    requires dst[..dstOffset] == Encoded(src, tokens)
    requires i != 0 ==> groupHeaderOffset == GroupStart(src, tokens)
    modifies dst
    ensures ok == (Opened(dstOffset, i) < dstSize)
    ensures !ok ==> dst[..dstSize] == Encoded(src, tokens) + [0]
    ensures ok ==>
              var token := Choice(src, srcOffset, dstSize - Opened(dstOffset, i));
              && dstOffset' <= dstSize
              && srcOffset' == srcOffset + token.Length()
              && dstOffset' == Opened(dstOffset, i) + TokenSize(token)
              && dst[..dstOffset'] == Encoded(src, tokens + [token])
              && (i != 7 ==> groupHeaderOffset' == GroupStart(src, tokens + [token]))
    ensures forall k :: dstSize <= k < dst.Length ==> dst[k] == old(dst[k])
  {
    hide Choice, TokenBytes, Written, Encoded;
    ghost var n := |tokens| - |tokens| % 8;
    ghost var whole, open := tokens[..n], tokens[n..];
    srcOffset', dstOffset', groupHeaderOffset' := srcOffset, dstOffset, groupHeaderOffset;
    BeginItem(dst[..dstOffset], src, tokens, n);
    if i == 0 {
      groupHeaderOffset' := dstOffset';
      dst[dstOffset'] := 0;
      dstOffset' := dstOffset' + 1;
      assert dst[..dstOffset'] == Encoded(src, tokens) + [0];
      if dstOffset' == dstSize {
        return false, srcOffset', dstOffset', groupHeaderOffset';
      }
    }
    ghost var token := Choice(src, srcOffset, dstSize - dstOffset');
    ok, srcOffset', dstOffset' := PutItem(src, srcOffset, dst, dstOffset', dstSize, groupHeaderOffset', i, whole, open);
    CloseGroup(dst[..dstOffset'], src, whole, open + [token]);
    assert whole + (open + [token]) == tokens + [token];
    assert i != 7 ==> (tokens + [token])[..n] == whole;
  }

  /** Splitting off the open group, whose flag byte is there unless it has no item yet. */
  lemma BeginItem(dst: seq<u8>, src: seq<u8>, tokens: seq<Token>, n: nat)
    requires |src| < U32_MODULUS && n == |tokens| - |tokens| % 8
    requires dst == Encoded(src, tokens)
    ensures if n == |tokens| then tokens[n..] == [] && tokens[..n] == tokens && Written(dst + [0], src, tokens, [])
            else Written(dst, src, tokens[..n], tokens[n..])
  {
    hide Serialize, Flags;
    var whole, open := tokens[..n], tokens[n..];
    assert tokens == whole + open;
    SerializeAppend(Yaz, whole, open);
    if open == [] {
      ZeroFlags();
      assert tokens == whole;
    }
  }

  lemma ZeroFlags()
    ensures [Flags(Yaz, [])] + Items(Yaz, []) == [0]
  {
  }

  /** The items emitted so far reproduce the source up to `pos`. */
  ghost predicate Reproduces(src: seq<u8>, pos: nat, tokens: seq<Token>) {
    pos <= |src| && Applicable([], tokens) && Expand([], tokens) == src[..pos]
  }

  lemma ReproducesMore(src: seq<u8>, pos: nat, tokens: seq<Token>, room: nat)
    requires Reproduces(src, pos, tokens) && pos < |src| && room > 0
    ensures Reproduces(src, pos + Choice(src, pos, room).Length(), tokens + [Choice(src, pos, room)])
  {
    hide Choice, Expand, Apply, Applicable;
    ChoiceCopies(src, pos, room);
    ExpandAppend([], tokens, Choice(src, pos, room));
  }

  lemma {:induction false} ExpandAppend(out: seq<u8>, tokens: seq<Token>, token: Token)
    requires Applicable(out, tokens) && token.Reaches(|Expand(out, tokens)|)
    ensures Applicable(out, tokens + [token])
    ensures Expand(out, tokens + [token]) == Apply(Expand(out, tokens), token)
    decreases |tokens|
  {
    hide Apply;
    if tokens == [] {
      assert [] + [token] == [token];
    } else {
      assert (tokens + [token])[1..] == tokens[1..] + [token];
      ExpandAppend(Apply(out, tokens[0]), tokens[1..], token);
    }
  }

  /** A destination without a free byte: items for a part of the source, then at most a flag byte without items. */
  ghost predicate FullTooSoon(dst: seq<u8>, src: seq<u8>, tokens: seq<Token>) {
    && |src| < U32_MODULUS && (dst == Encoded(src, tokens) || dst == Encoded(src, tokens) + [0])
    && exists pos :: 0 <= pos < |src| && Reproduces(src, pos, tokens)
  }

  /** `Yaz_encode`. No offset wraps: a reference is only tried where it fits. */
  method Encode(src: seq<u8>, dst: array<u8>, dstSize: u32) returns (n: u32)
    requires |src| < U32_MODULUS && dstSize <= dst.Length
    modifies dst
    ensures EncodePlan(src, dstSize).None? ==> n == 0
    ensures EncodePlan(src, dstSize).Some? ==>
              && 0x10 <= n <= dstSize
              && dst[..n] == Encoded(src, EncodePlan(src, dstSize).value)
    ensures n == 0 && dstSize >= 0x10 ==> exists tokens :: FullTooSoon(dst[..dstSize], src, tokens)
    ensures forall k :: dstSize <= k < dst.Length ==> dst[k] == old(dst[k])
  {
    hide Applicable, Expand, Apply, Reproduces;
    hide Choice, Plan, EncodePlan, Encoded, GroupStart, Concat, Serialize, Header, TokenSize;
    EncodeStart(src, dstSize);
    if dstSize < 0x10 {
      return 0;
    }
    WriteHeader(dst, |src|);
    var srcOffset, dstOffset := 0x0, 0x10;
    var groupHeaderOffset := 0;
    var i := 0;
    ghost var tokens: seq<Token> := [];
    ghost var plan := EncodePlan(src, dstSize);
    while srcOffset < |src| && dstOffset < dstSize
      invariant 0x10 <= dstOffset <= dstSize && srcOffset <= |src|
      invariant i == |tokens| % 8
      invariant dst[..dstOffset] == Encoded(src, tokens)
      invariant i != 0 ==> groupHeaderOffset == GroupStart(src, tokens)
      invariant plan == Concat(tokens, Plan(src, srcOffset, dstOffset, i, dstSize))
      invariant Reproduces(src, srcOffset, tokens)
      invariant forall k :: dstSize <= k < dst.Length ==> dst[k] == old(dst[k])
      decreases |src| - srcOffset
    {
      PlanEnds(tokens, src, srcOffset, dstOffset, i, dstSize);
      if Opened(dstOffset, i) < dstSize {
        PlanStep(tokens, src, srcOffset, dstOffset, i, dstSize);
      }
      ghost var used := Opened(dstOffset, i);
      ghost var pos := srcOffset;
      var ok;
      ok, srcOffset, dstOffset, groupHeaderOffset :=
        EncodeItem(src, srcOffset, dst, dstOffset, dstSize, groupHeaderOffset, i, tokens);
      if !ok {
        assert FullTooSoon(dst[..dstSize], src, tokens);
        return 0;
      }
      NextSlot(|tokens|);
      ReproducesMore(src, pos, tokens, dstSize - used);
      tokens := tokens + [Choice(src, pos, dstSize - used)];
      i := (i + 1) % 8;
    }
    PlanEnds(tokens, src, srcOffset, dstOffset, i, dstSize);
    assert srcOffset < |src| ==> FullTooSoon(dst[..dstSize], src, tokens);
    return if srcOffset == |src| then dstOffset else 0;
  }

  lemma EncodeStart(src: seq<u8>, dstSize: nat)
    requires |src| < U32_MODULUS
    ensures Encoded(src, []) == Header(|src|) && Reproduces(src, 0x0, [])
    ensures EncodePlan(src, dstSize) == if dstSize < 0x10 then None else Concat([], Plan(src, 0x0, 0x10, 0, dstSize))
  {
    PlanEnds([], src, 0x0, 0x10, 0, dstSize);
  }

  lemma NextSlot(count: nat)
    ensures (count + 1) % 8 == (count % 8 + 1) % 8
  {
  }

  method WriteHeader(dst: array<u8>, srcSize: u32)
    requires dst.Length >= 0x10
    modifies dst
    ensures dst[..0x10] == Header(srcSize)
    ensures forall k :: 0x10 <= k < dst.Length ==> dst[k] == old(dst[k])
  {
    hide BigEndianBytes, BigEndian;
    WriteU32(dst, 0x0, YAZ1_MAGIC);
    WriteU32(dst, 0x4, srcSize);
    WriteU32(dst, 0x8, 0x0);
    ghost var before := dst[..0xc];
    assert before == dst[0x0..0x4] + dst[0x4..0x8] + dst[0x8..0xc];
    WriteU32(dst, 0xc, 0x0);
    assert dst[..0x10] == before + dst[0xc..0x10];
  }
}
