/** What the encoder and the decoders promise together. They share no code in the source. */
module YazRoundTrip {
  import opened Bytes
  import opened Wrappers
  import opened LzFormat
  import opened LzMachine
  import opened YAZDecoderModule
  import opened YazEncoder

  /** Whatever the encoder returns, the one-shot decoder turns back into the source. */
  lemma RoundTrip(src: seq<u8>, dstSize: nat, room: u32)
    requires src != [] && |src| < U32_MODULUS && room >= |src|
    requires EncodePlan(src, dstSize).Some?
    ensures DecodeFile(Encoded(src, EncodePlan(src, dstSize).value), room) == Some(src)
  {
    hide Decompress, Serialize, Plan;
    var tokens := EncodePlan(src, dstSize).value;
    PlanTokens(src, dstSize);
    DecompressSerialize(Yaz, tokens);
    EncodedParts(src, tokens);
  }

  lemma PlanTokens(src: seq<u8>, dstSize: nat)
    requires EncodePlan(src, dstSize).Some?
    ensures var tokens := EncodePlan(src, dstSize).value;
            && AllFit(Yaz, tokens) && Applicable([], tokens) && Expand([], tokens) == src
            && 0x10 + |Serialize(Yaz, tokens)| <= dstSize
  {
    hide Plan, Serialize, Expand;
    PlanExpands(src, 0x0, 0x10, 0, dstSize);
    SizeIsLength(EncodePlan(src, dstSize).value);
    assert src[..0] == [];
  }

  lemma EncodedParts(src: seq<u8>, tokens: seq<Token>)
    requires |src| < U32_MODULUS
    ensures GetDecodedSize(Encoded(src, tokens)) == Some(|src|)
    ensures Encoded(src, tokens)[HEADER_SIZE..] == Serialize(Yaz, tokens)
  {
    hide Serialize, BigEndian, BigEndianBytes;
    var file := Encoded(src, tokens);
    assert file[0x0..0x4] == BigEndianBytes(YazEncoder.YAZ1_MAGIC);
    assert file[0x4..0x8] == BigEndianBytes(|src|);
  }

  /**
    A destination with one byte per source byte, a flag byte per eight and the header is always big
    enough, and no more than that is used.
   */
  lemma EncodeBound(src: seq<u8>, dstSize: nat)
    requires |src| < U32_MODULUS && dstSize >= 0x10 + |src| + (|src| + 7) / 8
    ensures EncodePlan(src, dstSize).Some?
    ensures |Encoded(src, EncodePlan(src, dstSize).value)| <= 0x10 + |src| + (|src| + 7) / 8
  {
    hide Plan, Serialize;
    PlanFits(src, 0x0, 0x10, 0, dstSize);
    SizeIsLength(EncodePlan(src, dstSize).value);
  }

  /**
    Either streaming decoder, fed any token stream in any chunks, completes with the stream's
    expansion.
   */
  lemma FeedTokens(format: Format, m: Machine, tokens: seq<Token>, chunks: seq<seq<u8>>)
    requires Initial(m) && m.dstSize > 0
    requires AllFit(format, tokens) && Applicable([], tokens) && m.dstSize == |Expand([], tokens)|
    requires Flatten(chunks) == Serialize(format, tokens)
    ensures var m' := Feed(format, m, chunks);
            m'.ok && m'.Done() && m'.dst == Expand([], tokens)
  {
    hide Run, Feed, Decompress, Expand, Serialize;
    FeedIsOneRun(format, m, chunks);
    RunIsDecompress(format, m, Flatten(chunks));
    DecompressSerialize(format, tokens);
  }

  /** The encoder's output, cut anywhere, streams back to the source. */
  lemma StreamedRoundTrip(src: seq<u8>, dstSize: nat, m: Machine, chunks: seq<seq<u8>>)
    requires src != [] && |src| < U32_MODULUS && EncodePlan(src, dstSize).Some?
    requires Initial(m) && m.dstSize == |src|
    requires Flatten(chunks) == Encoded(src, EncodePlan(src, dstSize).value)[HEADER_SIZE..]
    ensures var m' := Feed(Yaz, m, chunks);
            m'.ok && m'.Done() && m'.dst == src
  {
    hide Feed, Plan, Serialize, Expand;
    var tokens := EncodePlan(src, dstSize).value;
    PlanTokens(src, dstSize);
    EncodedParts(src, tokens);
    FeedTokens(Yaz, m, tokens, chunks);
  }

  /**
    Into fewer bytes than the source has: decoding succeeds if and only if some of the items, from the
    first on, produce exactly that many, and then gives the beginning of the source.
   */
  lemma IntoLessRoom(src: seq<u8>, dstSize: nat, room: u32)
    requires |src| < U32_MODULUS && 0 < room <= |src| && EncodePlan(src, dstSize).Some?
    ensures var tokens := EncodePlan(src, dstSize).value;
            DecodeFile(Encoded(src, tokens), room) ==
            if exists k :: 0 <= k <= |tokens| && Span(tokens[..k]) == room then Some(src[..room]) else None
  {
    hide Decompress, Serialize, Plan;
    var tokens := EncodePlan(src, dstSize).value;
    PlanTokens(src, dstSize);
    EncodedParts(src, tokens);
    DecompressInto(Yaz, tokens, room);
  }

  /**
    The two programs one after the other, on arrays. For any destination size the encoder either gives
    up, which it does exactly when the plan does, or hands over what decodes to the source.
   */
  method EncodeThenDecode(src: seq<u8>, dstSize: u32, header: u8, size: u16, offset: u16)
    returns (n: u32, out: seq<u8>)
    requires src != [] && |src| < U32_MODULUS
    ensures n == 0 <==> EncodePlan(src, dstSize).None?
    ensures n != 0 ==> out == src
  {
    hide Encoded, EncodePlan, DecodeFile, GetDecodedSize;
    var packed := new u8[dstSize];
    n := Encode(src, packed, dstSize);
    out := [];
    if n != 0 {
      RoundTrip(src, dstSize, |src|);
      EncodedParts(src, EncodePlan(src, dstSize).value);
      var unpacked := new u8[|src|];
      var r := Decode(packed[..n], unpacked, |src|, header, size, offset);
      out := unpacked[..];
    }
  }
}
