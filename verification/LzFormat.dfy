/**
  The two compressed formats as data: what a stream of tokens expands to, how tokens are laid out
  as bytes, and the recursive reading "one flag byte, then eight items" that both streaming
  decoders are meant to compute.
 */
module LzFormat {
  import opened Bytes

  /** Yaz0/Yaz1, and the sibling LZ77 format with inverted flags and a different size bias. */
  datatype Format = Yaz | Lz77

  datatype Token =
    | Literal(value: u8)
    | Reference(distance: nat, length: nat)
  {
    predicate Fits(format: Format) {
      Reference? ==>
        && 1 <= distance <= 0x1000
        && 3 <= length <= (if format.Yaz? then 0x111 else 0x12)
    }

    function Length(): (n: nat) {
      if Literal? then 1 else length
    }

    /** Whether the token may be applied once `available` bytes have been produced. */
    predicate Reaches(available: nat) {
      Reference? ==> 1 <= distance <= available
    }
  }

  // ----- What tokens mean

  /** `length` bytes that repeat the last `distance` bytes of `out`; the copy may run past its own start. */
  function CopyRun(out: seq<u8>, distance: nat, length: nat): (run: seq<u8>)
    requires 1 <= distance <= |out|
    ensures |run| == length
  {
    seq(length, i requires 0 <= i < length => out[|out| - distance + i % distance])
  }

  function Apply(out: seq<u8>, token: Token): (out': seq<u8>)
    requires token.Reaches(|out|)
    ensures |out'| == |out| + token.Length()
  {
    match token
    case Literal(value) => out + [value]
    case Reference(distance, length) => out + CopyRun(out, distance, length)
  }

  predicate Applicable(out: seq<u8>, tokens: seq<Token>)
    decreases |tokens|
  {
    tokens == [] || (tokens[0].Reaches(|out|) && Applicable(Apply(out, tokens[0]), tokens[1..]))
  }

  function Expand(out: seq<u8>, tokens: seq<Token>): (out': seq<u8>)
    requires Applicable(out, tokens)
    ensures |out'| >= |out| && out'[..|out|] == out
    decreases |tokens|
  {
    if tokens == [] then out else Expand(Apply(out, tokens[0]), tokens[1..])
  }

  /** A self-overlapping copy is the same as copying byte after byte. */
  lemma CopyRunStep(out: seq<u8>, distance: nat, length: nat)
    requires 1 <= distance <= |out|
    ensures CopyRun(out, distance, length + 1)
         == CopyRun(out, distance, length) + [(out + CopyRun(out, distance, length))[|out| + length - distance]]
  {
    if length >= distance {
      ModShift(length, distance);
    } else {
      DivModUnique(length, distance, 0, length);
    }
  }

  lemma ModShift(x: nat, m: nat)
    requires 1 <= m <= x
    ensures (x - m) % m == x % m
  {
    DivModUnique(x - m, m, x / m - 1, x % m);
  }

  // ----- How tokens are written

  /** The bytes of one item; those of a token that does not fit are of no interest. */
  function TokenBytes(format: Format, token: Token): (bytes: seq<u8>)
    ensures 1 <= |bytes| <= 3
  {
    match token
    case Literal(value) => [value]
    case Reference(distance, length) =>
      var high, low := (distance - 1) / 0x100, (distance - 1) % 0x100;
      if format.Lz77? then [ToByte((length - 3) * 0x10 + high), low]
      else if length < 0x12 then [ToByte((length - 2) * 0x10 + high), low]
      else [ToByte(high), low, ToByte(length - 0x12)]
  }

  predicate AllFit(format: Format, tokens: seq<Token>) {
    forall i :: 0 <= i < |tokens| ==> tokens[i].Fits(format)
  }

  /** The flag byte's bit for an item: Yaz marks literals, LZ77 marks references. */
  function FlagBit(format: Format, token: Token): nat {
    if format.Yaz? == token.Literal? then 1 else 0
  }

  function Flags(format: Format, group: seq<Token>): (flags: u8)
    requires |group| <= 8
  {
    if group == [] then 0
    else
      var last := |group| - 1;
      var rest := Flags(format, group[..last]);
      if FlagBit(format, group[last]) == 1 then
        FlagInRange(rest, last);
        Or(rest, Shl(1, 7 - last))
      else rest
  }

  lemma FlagInRange(flags: u8, k: nat)
    requires k <= 7
    ensures Or(flags, Shl(1, 7 - k)) < 0x100
  {
    assert Pow2(8) == 0x100;
    ShlOneBound(7 - k, 8);
    OrBound(flags, Shl(1, 7 - k), 8);
  }

  lemma {:induction false} ShlOneBound(j: nat, k: nat)
    requires j < k
    ensures Shl(1, j) < Pow2(k)
  {
    if j != 0 {
      ShlOneBound(j - 1, k - 1);
    }
  }

  /** One more item sets its bit in the flag byte, or leaves the byte alone. */
  lemma FlagsAppend(format: Format, group: seq<Token>, token: Token)
    requires |group| < 8
    ensures Flags(format, group + [token]) ==
            if FlagBit(format, token) == 1 then Or(Flags(format, group), Shl(1, 7 - |group|)) else Flags(format, group)
  {
    assert (group + [token])[..|group|] == group;
  }

  /** Every item's bit can be read back from its group's flag byte. */
  lemma {:induction false} FlagsReadBack(format: Format, group: seq<Token>, k: nat)
    requires k < |group| <= 8
    ensures Bit(Flags(format, group), 7 - k) == FlagBit(format, group[k])
    decreases |group|
  {
    hide Shl, Or, Bit;
    var last := |group| - 1;
    var rest := Flags(format, group[..last]);
    BitOr(rest, Shl(1, 7 - last), 7 - k);
    BitShlOne(7 - last, 7 - k);
    if k < last {
      FlagsReadBack(format, group[..last], k);
    } else {
      FlagsClearBeyond(format, group[..last], k);
    }
  }

  lemma {:induction false} FlagsClearBeyond(format: Format, group: seq<Token>, k: nat)
    requires |group| <= k <= 7
    ensures Bit(Flags(format, group), 7 - k) == 0
    decreases |group|
  {
    if group == [] {
      BitZero(7 - k);
    } else {
      var last := |group| - 1;
      FlagsClearBeyond(format, group[..last], k);
      BitOr(Flags(format, group[..last]), Shl(1, 7 - last), 7 - k);
      BitShlOne(7 - last, 7 - k);
    }
  }

  function Items(format: Format, tokens: seq<Token>): (bytes: seq<u8>)
    ensures |bytes| >= |tokens|
    decreases |tokens|
  {
    if tokens == [] then []
    else TokenBytes(format, tokens[0]) + Items(format, tokens[1..])
  }

  /** A flag byte followed by the items it describes; no flag byte when there are none. */
  function Group(format: Format, group: seq<Token>): (bytes: seq<u8>)
    requires |group| <= 8
  {
    if group == [] then [] else [Flags(format, group)] + Items(format, group)
  }

  function Serialize(format: Format, tokens: seq<Token>): (bytes: seq<u8>)
    decreases |tokens|
  {
    if |tokens| <= 8 then Group(format, tokens)
    else Group(format, tokens[..8]) + Serialize(format, tokens[8..])
  }

  lemma {:induction false} ItemsAppend(format: Format, tokens: seq<Token>, token: Token)
    ensures Items(format, tokens + [token]) == Items(format, tokens) + TokenBytes(format, token)
    decreases |tokens|
  {
    if tokens == [] {
      assert tokens + [token] == [token];
      assert TokenBytes(format, token) + Items(format, []) == TokenBytes(format, token);
    } else {
      assert (tokens + [token])[1..] == tokens[1..] + [token];
      ItemsAppend(format, tokens[1..], token);
      assert TokenBytes(format, tokens[0]) + (Items(format, tokens[1..]) + TokenBytes(format, token))
          == Items(format, tokens) + TokenBytes(format, token);
    }
  }

  /** Whole groups followed by an open one are laid out one after the other. */
  lemma {:induction false} SerializeAppend(format: Format, whole: seq<Token>, open: seq<Token>)
    requires |whole| % 8 == 0 && |open| <= 8
    ensures Serialize(format, whole + open) == Serialize(format, whole) + Group(format, open)
    decreases |whole|
  {
    hide Serialize, Group;
    var tokens := whole + open;
    SerializeShort(format);
    if whole == [] {
      assert tokens == open;
    } else if |tokens| == 8 {
      assert tokens == whole && open == [];
    } else {
      assert tokens[..8] == whole[..8] && tokens[8..] == whole[8..] + open;
      SerializeAppend(format, whole[8..], open);
      WholeSplit(format, whole);
      WholeSplit(format, tokens);
    }
  }

  lemma SerializeShort(format: Format)
    ensures Group(format, []) == [] == Serialize(format, [])
    ensures forall tokens :: |tokens| <= 8 ==> Serialize(format, tokens) == Group(format, tokens)
  {
  }

  lemma WholeSplit(format: Format, tokens: seq<Token>)
    requires |tokens| >= 8
    ensures Serialize(format, tokens) == Group(format, tokens[..8]) + Serialize(format, tokens[8..])
  {
    if |tokens| == 8 {
      assert tokens[..8] == tokens && tokens[8..] == [];
      assert Serialize(format, tokens[8..]) == [];
    }
  }

  // ----- How bytes are read

  datatype Outcome =
    | Done(out: seq<u8>)      // the announced size has been produced
    | NeedMore(out: seq<u8>)  // the source ran out first
    | Bad(out: seq<u8>)       // a reference before the start, or past the announced size

  /** The token whose bytes start `src`, if they are all there. */
  datatype Item = Complete(token: Token, size: nat) | Cut | TooFar

  function FirstItem(format: Format, literal: bool, src: seq<u8>, available: nat): (item: Item)
    ensures item.Complete? ==>
              && 1 <= item.size <= |src|
              && item.token.Fits(format) && item.token.Reaches(available) && item.token.Literal? == literal
  {
    if literal then
      if src == [] then Cut else Complete(Literal(src[0]), 1)
    else if |src| < 2 then Cut
    else
      var distance := src[0] as int % 0x10 * 0x100 + src[1] + 1;
      var nibble := src[0] / 0x10;
      if distance > available then TooFar
      else if format.Lz77? then Complete(Reference(distance, nibble + 3), 2)
      else if nibble != 0 then Complete(Reference(distance, nibble + 2), 2)
      else if |src| < 3 then Cut
      else Complete(Reference(distance, src[2] as int + 0x12), 3)
  }

  /**
    Reads `src` with `k` items of the current flag byte already used, until `size` bytes stand in
    `out`. `k == 8` asks for a new flag byte.
   */
  function Read(format: Format, flags: u8, k: nat, src: seq<u8>, size: nat, out: seq<u8>): (outcome: Outcome)
    requires k <= 8 && |out| <= size
    ensures outcome.Done? ==> |outcome.out| == size
    ensures outcome.NeedMore? ==> |outcome.out| < size
    decreases |src|, 8 - k
  {
    if |out| == size then Done(out)
    else if k == 8 then
      if src == [] then NeedMore(out) else Read(format, src[0], 0, src[1..], size, out)
    else
      var literal := (Bit(flags, 7 - k) == 1) == format.Yaz?;
      match FirstItem(format, literal, src, |out|)
      case Cut => NeedMore(out)
      case TooFar => Bad(out)
      case Complete(token, used) =>
        if |out| + token.Length() > size then Bad(Apply(out, token)[..size])
        else Read(format, flags, k + 1, src[used..], size, Apply(out, token))
  }

  /** The one-shot meaning of a compressed body that announces `size` bytes. */
  function Decompress(format: Format, src: seq<u8>, size: nat): (outcome: Outcome) {
    Read(format, 0, 8, src, size, [])
  }

  // ----- Reading undoes writing

  lemma FirstItemOfToken(format: Format, token: Token, rest: seq<u8>, available: nat)
    requires token.Fits(format) && token.Reaches(available)
    ensures FirstItem(format, token.Literal?, TokenBytes(format, token) + rest, available)
         == Complete(token, |TokenBytes(format, token)|)
  {
    hide ToByte;
  }

  lemma ReadOneItem(format: Format, flags: u8, k: nat, token: Token, tail: seq<u8>, size: nat, out: seq<u8>)
    requires k < 8 && token.Fits(format) && token.Reaches(|out|) && |out| + token.Length() <= size
    requires Bit(flags, 7 - k) == FlagBit(format, token)
    ensures Read(format, flags, k, TokenBytes(format, token) + tail, size, out)
         == Read(format, flags, k + 1, tail, size, Apply(out, token))
  {
    FirstItemOfToken(format, token, tail, |out|);
    assert (TokenBytes(format, token) + tail)[|TokenBytes(format, token)|..] == tail;
  }

  /** The flag byte says the right thing about items k, k + 1, … */
  predicate Describes(format: Format, flags: u8, k: nat, items: seq<Token>)
    requires k + |items| <= 8
    decreases |items|
  {
    items == [] || (Bit(flags, 7 - k) == FlagBit(format, items[0]) && Describes(format, flags, k + 1, items[1..]))
  }

  lemma {:induction false} FlagsDescribe(format: Format, group: seq<Token>, k: nat)
    requires k <= |group| <= 8
    ensures Describes(format, Flags(format, group), k, group[k..])
    decreases |group| - k
  {
    if k < |group| {
      FlagsReadBack(format, group, k);
      FlagsDescribe(format, group, k + 1);
      assert group[k..][1..] == group[k + 1..];
    }
  }

  /** What reading tokens into `size` bytes comes to, when they produce at least as many. */
  function Upto(out: seq<u8>, tokens: seq<Token>, size: nat): (outcome: Outcome)
    requires Applicable(out, tokens) && |out| <= size <= |Expand(out, tokens)|
    decreases |tokens|
  {
    if |out| == size then Done(out)
    else if |out| + tokens[0].Length() > size then Bad(Apply(out, tokens[0])[..size])
    else Upto(Apply(out, tokens[0]), tokens[1..], size)
  }

  /** Bytes produced by these tokens. */
  function Span(tokens: seq<Token>): nat {
    if tokens == [] then 0 else tokens[0].Length() + Span(tokens[1..])
  }

  lemma {:induction false} ExpandSpan(out: seq<u8>, tokens: seq<Token>)
    requires Applicable(out, tokens)
    ensures |Expand(out, tokens)| == |out| + Span(tokens)
    decreases |tokens|
  {
    if tokens != [] {
      ExpandSpan(Apply(out, tokens[0]), tokens[1..]);
    }
  }

  /** Reading succeeds exactly when some of the tokens, from the first on, end at `size`; and then gives the first `size` bytes. */
  lemma {:induction false} UptoMeans(out: seq<u8>, tokens: seq<Token>, size: nat)
    requires Applicable(out, tokens) && |out| <= size <= |Expand(out, tokens)|
    ensures Upto(out, tokens, size).Done? || Upto(out, tokens, size).Bad?
    ensures Upto(out, tokens, size).Done? <==> EndsAt(tokens, size - |out|)
    ensures Upto(out, tokens, size).Done? ==> Upto(out, tokens, size).out == Expand(out, tokens)[..size]
    decreases |tokens|
  {
    hide Apply, EndsAt;
    if |out| == size {
      EndsAtOnce(tokens);
    } else {
      EndsLater(tokens, size - |out|);
      if |out| + tokens[0].Length() <= size {
        UptoMeans(Apply(out, tokens[0]), tokens[1..], size);
      } else {
        EndsPast(tokens[1..], size - |out| - tokens[0].Length());
      }
    }
  }

  lemma EndsAtOnce(tokens: seq<Token>)
    ensures EndsAt(tokens, 0)
  {
    assert Span(tokens[..0]) == 0;
  }

  ghost predicate EndsAt(tokens: seq<Token>, n: int) {
    exists k :: 0 <= k <= |tokens| && Span(tokens[..k]) == n
  }

  lemma EndsLater(tokens: seq<Token>, n: int)
    requires tokens != [] && n > 0
    ensures EndsAt(tokens, n) <==> EndsAt(tokens[1..], n - tokens[0].Length())
  {
    if EndsAt(tokens, n) {
      var k :| 0 <= k <= |tokens| && Span(tokens[..k]) == n;
      assert tokens[..k][1..] == tokens[1..][..k - 1];
      assert Span(tokens[1..][..k - 1]) == n - tokens[0].Length();
    }
    if EndsAt(tokens[1..], n - tokens[0].Length()) {
      var k :| 0 <= k <= |tokens[1..]| && Span(tokens[1..][..k]) == n - tokens[0].Length();
      assert tokens[..k + 1][1..] == tokens[1..][..k];
      assert Span(tokens[..k + 1]) == n;
    }
  }

  lemma EndsPast(tokens: seq<Token>, n: int)
    requires n < 0
    ensures !EndsAt(tokens, n)
  {
  }

  lemma {:induction false} UptoWhole(out: seq<u8>, tokens: seq<Token>)
    requires Applicable(out, tokens) && forall i :: 0 <= i < |tokens| ==> tokens[i].Length() > 0
    ensures Upto(out, tokens, |Expand(out, tokens)|) == Done(Expand(out, tokens))
    decreases |tokens|
  {
    if tokens != [] {
      UptoWhole(Apply(out, tokens[0]), tokens[1..]);
    }
  }

  lemma {:induction false} ReadItems(
      format: Format, flags: u8, k: nat, items: seq<Token>, rest: seq<Token>, size: nat, out: seq<u8>)
    requires k + |items| <= 8 && AllFit(format, items) && AllFit(format, rest)
    requires rest != [] ==> k + |items| == 8
    requires Describes(format, flags, k, items)
    requires Applicable(out, items + rest) && |out| <= size <= |Expand(out, items + rest)|
    ensures Read(format, flags, k, Items(format, items) + Serialize(format, rest), size, out)
         == Upto(out, items + rest, size)
    decreases |rest|, |items| + 1
  {
    hide Read, Serialize, Items, Expand, Applicable, Apply, Upto;
    UptoMoves(out, items + rest, size);
    if |out| == size {
      ReadDone(format, flags, k, Items(format, items) + Serialize(format, rest), size, out);
    } else if items == [] {
      NoItems(format, rest, out);
      if rest != [] {
        ReadGroup(format, flags, rest, size, out);
      }
    } else {
      ExpandSplit(format, out, items, rest);
      if |out| + items[0].Length() > size {
        ItemsSplit(format, items, Serialize(format, rest));
        ReadTooLong(format, flags, k, items[0], Items(format, items[1..]) + Serialize(format, rest), size, out);
      } else {
        assert (items + rest)[1..] == items[1..] + rest;
        ReadItems(format, flags, k + 1, items[1..], rest, size, Apply(out, items[0]));
        ReadItemsStep(format, flags, k, items, Serialize(format, rest), size, out);
      }
    }
  }

  lemma UptoMoves(out: seq<u8>, tokens: seq<Token>, size: nat)
    requires Applicable(out, tokens) && |out| <= size <= |Expand(out, tokens)|
    ensures |out| == size ==> Upto(out, tokens, size) == Done(out)
    ensures |out| < size ==>
              && tokens != [] && tokens[0].Reaches(|out|)
              && (|out| + tokens[0].Length() > size ==> Upto(out, tokens, size) == Bad(Apply(out, tokens[0])[..size]))
              && (|out| + tokens[0].Length() <= size ==>
                    && Applicable(Apply(out, tokens[0]), tokens[1..]) && size <= |Expand(Apply(out, tokens[0]), tokens[1..])|
                    && Upto(out, tokens, size) == Upto(Apply(out, tokens[0]), tokens[1..], size))
  {
  }

  lemma ReadTooLong(format: Format, flags: u8, k: nat, token: Token, tail: seq<u8>, size: nat, out: seq<u8>)
    requires k < 8 && token.Fits(format) && token.Reaches(|out|) && |out| < size < |out| + token.Length()
    requires Bit(flags, 7 - k) == FlagBit(format, token)
    ensures Read(format, flags, k, TokenBytes(format, token) + tail, size, out) == Bad(Apply(out, token)[..size])
  {
    FirstItemOfToken(format, token, tail, |out|);
  }

  lemma NoItems(format: Format, rest: seq<Token>, out: seq<u8>)
    ensures [] + rest == rest && Items(format, []) + Serialize(format, rest) == Serialize(format, rest)
    ensures Applicable(out, []) && Expand(out, []) == out
  {
  }

  lemma ReadDone(format: Format, flags: u8, k: nat, src: seq<u8>, size: nat, out: seq<u8>)
    requires k <= 8 && |out| == size
    ensures Read(format, flags, k, src, size, out) == Done(out)
  {
  }

  lemma ExpandSplit(format: Format, out: seq<u8>, items: seq<Token>, rest: seq<Token>)
    requires items != [] && Applicable(out, items + rest) && AllFit(format, items)
    ensures items[0].Reaches(|out|) && Applicable(Apply(out, items[0]), items[1..] + rest)
    ensures Expand(out, items + rest) == Expand(Apply(out, items[0]), items[1..] + rest)
    ensures |out| + items[0].Length() <= |Expand(out, items + rest)|
    ensures AllFit(format, items[1..])
  {
    assert (items + rest)[1..] == items[1..] + rest;
  }

  lemma ReadItemsStep(format: Format, flags: u8, k: nat, items: seq<Token>, rest: seq<u8>, size: nat, out: seq<u8>)
    requires k < 8 && items != [] && AllFit(format, items)
    requires items[0].Reaches(|out|) && |out| + items[0].Length() <= size
    requires Bit(flags, 7 - k) == FlagBit(format, items[0])
    ensures Read(format, flags, k, Items(format, items) + rest, size, out)
         == Read(format, flags, k + 1, Items(format, items[1..]) + rest, size, Apply(out, items[0]))
  {
    ItemsSplit(format, items, rest);
    ReadOneItem(format, flags, k, items[0], Items(format, items[1..]) + rest, size, out);
  }

  lemma ItemsSplit(format: Format, items: seq<Token>, rest: seq<u8>)
    requires items != []
    ensures Items(format, items) + rest == TokenBytes(format, items[0]) + (Items(format, items[1..]) + rest)
  {
  }

  lemma {:induction false} ReadGroup(format: Format, flags: u8, tokens: seq<Token>, size: nat, out: seq<u8>)
    requires tokens != [] && AllFit(format, tokens)
    requires Applicable(out, tokens) && |out| < size <= |Expand(out, tokens)|
    ensures Read(format, flags, 8, Serialize(format, tokens), size, out) == Upto(out, tokens, size)
    decreases |tokens|, 0
  {
    hide Upto;
    var n := if |tokens| <= 8 then |tokens| else 8;
    var group, rest := tokens[..n], tokens[n..];
    assert tokens == group + rest;
    assert group[0..] == group;
    FlagsDescribe(format, group, 0);
    ReadItems(format, Flags(format, group), 0, group, rest, size, out);
    SerializeSplit(format, tokens, n);
    ReadFlagByte(format, flags, Flags(format, group), Items(format, group) + Serialize(format, rest), size, out);
  }

  lemma SerializeSplit(format: Format, tokens: seq<Token>, n: nat)
    requires tokens != [] && n == (if |tokens| <= 8 then |tokens| else 8)
    ensures Serialize(format, tokens)
         == [Flags(format, tokens[..n])] + (Items(format, tokens[..n]) + Serialize(format, tokens[n..]))
  {
    if |tokens| <= 8 {
      assert tokens[..n] == tokens;
      assert tokens[n..] == [];
    }
  }

  lemma ReadFlagByte(format: Format, flags: u8, next: u8, body: seq<u8>, size: nat, out: seq<u8>)
    requires |out| < size
    ensures Read(format, flags, 8, [next] + body, size, out) == Read(format, next, 0, body, size, out)
  {
    assert ([next] + body)[1..] == body;
  }

  lemma ExpandGrows(format: Format, out: seq<u8>, tokens: seq<Token>)
    requires Applicable(out, tokens) && tokens != [] && tokens[0].Fits(format)
    ensures |Expand(out, tokens)| > |out|
  {
  }

  /** Decompressing any laid-out token stream yields exactly what the tokens expand to. */
  lemma DecompressSerialize(format: Format, tokens: seq<Token>)
    requires AllFit(format, tokens) && Applicable([], tokens)
    ensures Decompress(format, Serialize(format, tokens), |Expand([], tokens)|) == Done(Expand([], tokens))
  {
    hide Upto;
    UptoWhole([], tokens);
    if tokens != [] {
      ExpandGrows(format, [], tokens);
      ReadGroup(format, 0, tokens, |Expand([], tokens)|, []);
    }
  }

  /**
    Into fewer bytes than the tokens produce: it succeeds if and only if some of the tokens, from the
    first on, produce exactly that many, and then yields the beginning of the whole.
   */
  lemma DecompressInto(format: Format, tokens: seq<Token>, size: nat)
    requires AllFit(format, tokens) && Applicable([], tokens) && 0 < size <= |Expand([], tokens)|
    ensures var outcome := Decompress(format, Serialize(format, tokens), size);
            && (outcome.Done? <==> exists k :: 0 <= k <= |tokens| && Span(tokens[..k]) == size)
            && (outcome.Done? ==> outcome.out == Expand([], tokens)[..size])
            && (outcome.Done? || outcome.Bad?)
  {
    hide Upto, Read;
    UptoMeans([], tokens, size);
    ReadGroup(format, 0, tokens, size, []);
  }

  /** The bytes of both formats, by example: flag bits, nibbles, high and low distance, and the third byte. */
  lemma WireExample()
    ensures Serialize(Yaz, [Literal(7), Reference(0x124, 4), Reference(0x124, 0x20)]) == [0x80, 7, 0x21, 0x23, 0x01, 0x23, 0x0e]
    ensures Serialize(Lz77, [Literal(7), Reference(0x124, 4)]) == [0x40, 7, 0x11, 0x23]
  {
    hide Flags;
    FlagsExample(Reference(0x124, 4), Reference(0x124, 0x20));
    var yaz, lz := [Literal(7), Reference(0x124, 4), Reference(0x124, 0x20)], [Literal(7), Reference(0x124, 4)];
    assert yaz[1..][1..] == [Reference(0x124, 0x20)] && yaz[1..][1..][1..] == [];
    assert lz[1..] == [Reference(0x124, 4)] && lz[1..][1..] == [];
  }

  lemma FlagsExample(a: Token, b: Token)
    requires a.Reference? && b.Reference?
    ensures Flags(Yaz, [Literal(7), a, b]) == 0x80 && Flags(Lz77, [Literal(7), a]) == 0x40
  {
    hide Or, Shl, Flags;
    FlagsOfOne(Yaz, Literal(7));
    FlagsOfOne(Lz77, Literal(7));
    FlagsOfMore(Yaz, [Literal(7)], a);
    FlagsOfMore(Yaz, [Literal(7), a], b);
    FlagsOfMore(Lz77, [Literal(7)], a);
    ShlIsScaling(1, 7);
    ShlIsScaling(1, 6);
    assert Pow2(7) == 0x80 && Pow2(6) == 0x40;
    OrZeroLeft(0x80);
    OrZeroLeft(0x40);
    assert [Literal(7)] + [a] == [Literal(7), a] && [Literal(7), a] + [b] == [Literal(7), a, b];
  }

  lemma FlagsOfOne(format: Format, token: Token)
    ensures Flags(format, [token]) == if FlagBit(format, token) == 1 then 0x80 else 0
  {
    assert [token][..0] == [];
    OrZeroLeft(0x80);
    assert Shl(1, 7) == 0x80;
  }

  lemma FlagsOfMore(format: Format, group: seq<Token>, token: Token)
    requires |group| < 8
    ensures Flags(format, group + [token]) ==
            if FlagBit(format, token) == 1 then Or(Flags(format, group), Shl(1, 7 - |group|)) else Flags(format, group)
  {
    hide Or, Shl;
    assert (group + [token])[..|group|] == group;
  }
}
