/**
  payload/sp/Patcher.c: the patches that hook the game's code. Memory is the whole 32-bit address
  space; branches are I-form instructions (Power ISA Version 2.07, Book I, section 2.4).
 */
module PatcherModule {
  import opened Bytes

  const SPACE: nat := U32_MODULUS

  type Memory = m: seq<u8> | |m| == SPACE witness seq(SPACE, _ => 0)

  function Load(m: Memory, at: nat): (word: u32)
    requires at + 4 <= SPACE
  {
    BigEndian(m[at..at + 4])
  }

  function Store(m: Memory, at: nat, bytes: seq<u8>): (r: Memory)
    requires at + |bytes| <= SPACE
    ensures r[at..at + |bytes|] == bytes
    ensures forall x :: 0 <= x < SPACE && !(at <= x < at + |bytes|) ==> r[x] == m[x]
  {
    m[..at] + bytes + m[at + |bytes|..]
  }

  lemma StoreIs(m: Memory, at: nat, bytes: seq<u8>, r: Memory)
    requires at + |bytes| <= SPACE
    requires forall x :: at <= x < at + |bytes| ==> r[x] == bytes[x - at]
    requires forall x :: 0 <= x < SPACE && !(at <= x < at + |bytes|) ==> r[x] == m[x]
    ensures r == Store(m, at, bytes)
  {
  }

  // ----- Branch instructions

  function Distance(from: u32, to: u32): u32 {
    (to - from) % U32_MODULUS
  }

  /** The word `0x12 << 26 | (distance & 0x3fffffc)`, with the link bit ORed in. */
  function BranchWord(from: u32, to: u32, link: bool): (word: nat) {
    Or(Or(Shl(0x12, 26), And(Distance(from, to), 0x3fffffc)), if link then 1 else 0)
  }

  /** The LI field with two zeros after it. */
  function Field(word: nat): (li: nat)
    ensures li < 0x400_0000 && li % 4 == 0
  {
    word % 0x400_0000 / 4 * 4
  }

  /** The instruction in the fields of the ISA: opcode, LI, AA and LK. */
  lemma BranchWordFields(from: u32, to: u32, link: bool)
    ensures BranchWord(from, to, link) == 0x12 * 0x400_0000 + Field(Distance(from, to)) + if link then 1 else 0
  {
    hide Or, And, Shl, Field, Distance;
    var field := Field(Distance(from, to));
    MaskedDistance(Distance(from, to));
    OpcodeAbove(field);
    assert field == 4 * (field / 4);
    OrLinkBit(0x12 * 0x200_0000 + 2 * (field / 4), link);
  }

  lemma OpcodeAbove(field: nat)
    requires field < 0x400_0000
    ensures Or(Shl(0x12, 26), field) == 0x12 * 0x400_0000 + field
  {
    hide Or, Shl, Pow2;
    Powers();
    OrDisjoint(0x12, field, 26);
    ShlIsScaling(0x12, 26);
  }

  lemma Powers()
    ensures Pow2(24) == 0x100_0000 && Pow2(26) == 0x400_0000
  {
    assert Pow2(12) == 0x1000;
    assert Pow2(18) == 0x4_0000;
    assert Pow2(24) == 0x100_0000;
  }

  lemma OrLinkBit(half: nat, link: bool)
    ensures Or(2 * half, if link then 1 else 0) == 2 * half + if link then 1 else 0
  {
    OrZero(2 * half);
    OrZero(half);
    DivModUnique(2 * half, 2, half, 0);
  }

  lemma MaskedDistance(d: nat)
    ensures And(d, 0x3fffffc) == Field(d)
  {
    hide And, Pow2, Field;
    Powers();
    AndLowMask(d / 2 / 2, 24);
    AndHalves(d, 0x1fffffe);
    AndHalves(d / 2, 0xffffff);
    FieldIs(d);
  }

  lemma FieldIs(d: nat)
    ensures Field(d) == 4 * (d / 2 / 2 % 0x100_0000)
  {
    var words, k := d / 4, d / 4 % 0x100_0000;
    assert d / 2 / 2 == words;
    DivModUnique(d, 0x400_0000, words / 0x100_0000, 4 * k + d % 4);
    DivModUnique(4 * k + d % 4, 4, k, d % 4);
  }

  lemma AndHalves(x: nat, y: nat)
    ensures And(x, 2 * y) == 2 * And(x / 2, y)
  {
    assert 2 * y / 2 == y;
    if x / 2 == 0 {
    }
  }

  function Signed(li: nat): int {
    if li < 0x200_0000 then li else li - 0x400_0000
  }

  predicate IsBranch(word: u32) {
    word / 0x400_0000 == 18
  }

  predicate Absolute(word: u32) {
    word / 2 % 2 == 1
  }

  predicate Links(word: u32) {
    word % 2 == 1
  }

  function BranchTarget(word: u32, at: u32): u32 {
    (if Absolute(word) then Signed(Field(word)) else at + Signed(Field(word))) % U32_MODULUS
  }

  predicate Short(d: u32) {
    d % 4 == 0 && (d < 0x200_0000 || d >= U32_MODULUS - 0x200_0000)
  }

  /** The distance is a whole number of words within 2^25 bytes either way. */
  predicate Reaches(from: u32, to: u32) {
    Short(Distance(from, to))
  }

  /** The instruction written is always a relative branch, and it goes to `to` exactly for distances it can encode. */
  lemma BranchGoes(from: u32, to: u32, link: bool)
    ensures var word := BranchWord(from, to, link);
            && word < U32_MODULUS && IsBranch(word) && !Absolute(word) && Links(word) == link
            && (BranchTarget(word, from) == to <==> Reaches(from, to))
  {
    hide BranchWord, Field, Distance, Signed, IsBranch, Absolute, Links, Short;
    BranchWordFields(from, to, link);
    var d := Distance(from, to);
    FieldsBack(Field(d), link);
    SignedReaches(d);
    TargetIs(from, to, Signed(Field(d)));
  }

  lemma FieldsBack(li: nat, link: bool)
    requires li < 0x400_0000 && li % 4 == 0
    ensures var word := 0x12 * 0x400_0000 + li + if link then 1 else 0;
            && word < U32_MODULUS && IsBranch(word) && !Absolute(word) && Links(word) == link && Field(word) == li
  {
    var low, k := if link then 1 else 0, li / 4;
    var word := 0x12 * 0x400_0000 + li + low;
    DivModUnique(word, 0x400_0000, 18, li + low);
    DivModUnique(li + low, 4, k, low);
    DivModUnique(word, 2, 0x12 * 0x200_0000 + 2 * k, low);
    DivModUnique(0x12 * 0x200_0000 + 2 * k, 2, 0x12 * 0x100_0000 + k, 0);
  }

  lemma SignedReaches(d: u32)
    ensures -0x400_0000 <= Signed(Field(d)) < 0x400_0000
    ensures Signed(Field(d)) % U32_MODULUS == d <==> Short(d)
  {
  }

  lemma TargetIs(from: u32, to: u32, s: int)
    requires -0x400_0000 <= s < 0x400_0000
    ensures (from + s) % U32_MODULUS == to <==> s % U32_MODULUS == Distance(from, to)
  {
  }

  // ----- Patches

  datatype Patch =
    | Write(dst: u32, src: u32, size: u32)
    | Branch(from: u32, to: u32, link: bool, thunk: u32)
    | Unknown(tag: u32)

  datatype Layout = Layout(dolStart: u32, dolEnd: u32, relStart: u32, relEnd: u32)

  const BINARY_NONE: u32 := 0
  const BINARY_DOL: u32 := 1
  const BINARY_REL: u32 := 2

  function GetBinary(layout: Layout, address: u32): u32 {
    if layout.dolStart <= address < layout.dolEnd then BINARY_DOL
    else if layout.relStart <= address < layout.relEnd then BINARY_REL
    else BINARY_NONE
  }

  datatype Range = Range(start: nat, size: nat) {
    predicate Has(x: int) {
      start <= x < start + size
    }

    predicate Apart(other: Range) {
      start + size <= other.start || other.start + other.size <= start
    }
  }

  /** What a patch overwrites, its thunk, and what it copies from. */
  function Target(p: Patch): Range {
    match p
    case Write(dst, _, size) => Range(dst, size)
    case Branch(from, _, _, _) => Range(from, 4)
    case Unknown(_) => Range(0, 0)
  }

  function ThunkOf(p: Patch): Range {
    if p.Branch? && p.thunk != 0 then Range(p.thunk, 8) else Range(0, 0)
  }

  function Source(p: Patch): Range {
    if p.Write? then Range(p.src, p.size) else Range(0, 0)
  }

  /** The pointers of a patch are good, and its `memcpy` has operands that do not overlap. */
  predicate Usable(p: Patch) {
    && Target(p).start + Target(p).size <= SPACE
    && ThunkOf(p).start + ThunkOf(p).size <= SPACE
    && Source(p).start + Source(p).size <= SPACE
    && Source(p).Apart(Target(p))
  }

  predicate Touches(p: Patch, x: int) {
    Target(p).Has(x) || ThunkOf(p).Has(x)
  }

  predicate Applies(layout: Layout, p: Patch, binary: u32) {
    !p.Unknown? && GetBinary(layout, if p.Write? then p.dst else p.from) == binary
  }

  function WithThunk(m: Memory, p: Patch): Memory
    requires Usable(p) && p.Branch?
  {
    if p.thunk == 0 then m
    else
      var saved := Store(m, p.thunk, BigEndianBytes(Load(m, p.from)));
      Store(saved, p.thunk + 4, WordBytes(p.thunk, p.from, false))
  }

  function WordBytes(from: u32, to: u32, link: bool): (bytes: seq<u8>)
    ensures |bytes| == 4 && BigEndian(bytes) == BranchWord(from, to, link)
  {
    BranchGoes(from, to, link);
    BigEndianBytes(BranchWord(from, to, link))
  }

  function Apply(m: Memory, p: Patch): Memory
    requires Usable(p)
  {
    match p
    case Write(dst, src, size) => Store(m, dst, m[src..src + size])
    case Branch(from, to, link, _) => Store(WithThunk(m, p), from, WordBytes(from, to, link))
    case Unknown(_) => m
  }

  /** One call of `Patcher_patch`, from patch `j` on. */
  function PassFrom(m: Memory, layout: Layout, patches: seq<Patch>, binary: u32, j: nat): Memory
    requires j <= |patches| && forall i :: 0 <= i < |patches| ==> Usable(patches[i])
    decreases |patches| - j
  {
    if j == |patches| then m
    else PassFrom(if Applies(layout, patches[j], binary) then Apply(m, patches[j]) else m, layout, patches, binary, j + 1)
  }

  /** What a patch is for, between the memory before and the memory after. */
  predicate Done(before: Memory, after: Memory, p: Patch)
    requires Usable(p)
  {
    match p
    case Write(dst, src, size) => after[dst..dst + size] == before[src..src + size]
    case Branch(from, to, link, thunk) =>
      && Load(after, from) == BranchWord(from, to, link)
      && (thunk != 0 ==> Load(after, thunk) == Load(before, from) && Load(after, thunk + 4) == BranchWord(thunk, from, false))
    case Unknown(_) => true
  }

  /** Byte for byte: what is copied, or the branch and the thunk's two words. */
  lemma DoneMeans(before: Memory, after: Memory, p: Patch)
    requires Usable(p)
    ensures p.Write? ==> (Done(before, after, p) <==> after[p.dst..p.dst + p.size] == before[p.src..p.src + p.size])
    ensures p.Branch? && p.thunk == 0 ==>
              (Done(before, after, p) <==> BigEndian(after[p.from..p.from + 4]) == BranchWord(p.from, p.to, p.link))
    ensures p.Branch? && p.thunk != 0 ==>
              (Done(before, after, p) <==>
                 && BigEndian(after[p.from..p.from + 4]) == BranchWord(p.from, p.to, p.link)
                 && BigEndian(after[p.thunk..p.thunk + 4]) == BigEndian(before[p.from..p.from + 4])
                 && BigEndian(after[p.thunk + 4..p.thunk + 8]) == BranchWord(p.thunk, p.from, false))
  {
    hide BranchWord, BigEndian;
  }

  /** No patch writes where another writes or where any patch reads. */
  ghost predicate Separate(patches: seq<Patch>) {
    && (forall i :: 0 <= i < |patches| ==> Usable(patches[i]) && Alone(patches[i]))
    && (forall i, j :: 0 <= i < |patches| && 0 <= j < |patches| && i != j ==> Independent(patches[i], patches[j]))
  }

  predicate Alone(p: Patch) {
    Target(p).Apart(ThunkOf(p))
  }

  predicate Independent(p: Patch, q: Patch) {
    && Target(p).Apart(Target(q)) && Target(p).Apart(ThunkOf(q)) && ThunkOf(p).Apart(ThunkOf(q)) && ThunkOf(p).Apart(Target(q))
    && Source(p).Apart(Target(q)) && Source(p).Apart(ThunkOf(q))
  }

  /** Two memories agree on what a patch reads. */
  ghost predicate SameInput(a: Memory, b: Memory, p: Patch) {
    forall x :: 0 <= x < SPACE && (Target(p).Has(x) || Source(p).Has(x)) ==> a[x] == b[x]
  }

  ghost predicate SameOutput(a: Memory, b: Memory, p: Patch) {
    forall x :: 0 <= x < SPACE && Touches(p, x) ==> a[x] == b[x]
  }

  lemma ApplyElsewhere(m: Memory, p: Patch, x: int)
    requires Usable(p) && 0 <= x < SPACE && !Touches(p, x)
    ensures Apply(m, p)[x] == m[x]
  {
    hide WordBytes;
  }

  lemma ApplyDoes(m: Memory, p: Patch)
    requires Usable(p) && Alone(p)
    ensures Done(m, Apply(m, p), p)
  {
    hide WordBytes, BranchWord, Store, BigEndian, BigEndianBytes;
    if p.Branch? && p.thunk != 0 {
      var original, back := BigEndianBytes(Load(m, p.from)), WordBytes(p.thunk, p.from, false);
      var saved, held := Store(m, p.thunk, original), WithThunk(m, p);
      StoreApart(saved, p.thunk + 4, back, p.thunk);
      StoreApart(held, p.from, WordBytes(p.from, p.to, p.link), p.thunk);
      StoreApart(held, p.from, WordBytes(p.from, p.to, p.link), p.thunk + 4);
    }
  }

  lemma StoreApart(m: Memory, at: nat, bytes: seq<u8>, other: nat)
    requires at + |bytes| <= SPACE && other + 4 <= SPACE && (other + 4 <= at || at + |bytes| <= other)
    ensures Store(m, at, bytes)[other..other + 4] == m[other..other + 4]
  {
    hide Store;
    var r := Store(m, at, bytes);
    assert forall x :: other <= x < other + 4 ==> r[x] == m[x];
  }

  lemma DoneElsewhere(before: Memory, before': Memory, after: Memory, after': Memory, p: Patch)
    requires Usable(p) && Done(before, after, p) && SameInput(before, before', p) && SameOutput(after, after', p)
    ensures Done(before', after', p)
  {
    hide BranchWord, BigEndian;
    match p
    case Write(dst, src, size) =>
      assert after'[dst..dst + size] == after[dst..dst + size];
      assert before'[src..src + size] == before[src..src + size];
    case Branch(from, to, link, thunk) =>
      assert after'[from..from + 4] == after[from..from + 4];
      assert before'[from..from + 4] == before[from..from + 4];
      if thunk != 0 {
        assert after'[thunk..thunk + 4] == after[thunk..thunk + 4];
        assert after'[thunk + 4..thunk + 8] == after[thunk + 4..thunk + 8];
      }
    case Unknown(_) =>
  }

  /** A pass changes only what the patches it applies overwrite. */
  lemma {:induction false} PassElsewhere(m: Memory, layout: Layout, patches: seq<Patch>, binary: u32, j: nat, x: int)
    requires j <= |patches| && (forall i :: 0 <= i < |patches| ==> Usable(patches[i])) && 0 <= x < SPACE
    requires forall i :: j <= i < |patches| && Applies(layout, patches[i], binary) ==> !Touches(patches[i], x)
    ensures PassFrom(m, layout, patches, binary, j)[x] == m[x]
    decreases |patches| - j
  {
    hide Apply;
    if j < |patches| {
      if Applies(layout, patches[j], binary) {
        ApplyElsewhere(m, patches[j], x);
        PassElsewhere(Apply(m, patches[j]), layout, patches, binary, j + 1, x);
      } else {
        PassElsewhere(m, layout, patches, binary, j + 1, x);
      }
    }
  }

  lemma {:induction false} PassDoes(m: Memory, layout: Layout, patches: seq<Patch>, binary: u32, j: nat, i: nat)
    requires j <= i < |patches| && Separate(patches) && Applies(layout, patches[i], binary)
    ensures Done(m, PassFrom(m, layout, patches, binary, j), patches[i])
    decreases |patches| - j
  {
    hide Apply, Done, Touches;
    var p := patches[i];
    var m' := if Applies(layout, patches[j], binary) then Apply(m, patches[j]) else m;
    var after := PassFrom(m', layout, patches, binary, j + 1);
    if j == i {
      ApplyDoes(m, p);
      PassKeepsOutput(m', layout, patches, binary, j + 1, p, i);
      DoneElsewhere(m, m, m', after, p);
    } else {
      PassDoes(m', layout, patches, binary, j + 1, i);
      ApplyKeepsInput(m, layout, patches, binary, j, i);
      DoneElsewhere(m', m, after, after, p);
    }
  }

  lemma PassKeepsOutput(m: Memory, layout: Layout, patches: seq<Patch>, binary: u32, j: nat, p: Patch, i: nat)
    requires i < j <= |patches| && Separate(patches) && p == patches[i]
    ensures SameOutput(m, PassFrom(m, layout, patches, binary, j), p)
  {
    hide PassFrom;
    forall x | 0 <= x < SPACE && Touches(p, x)
      ensures m[x] == PassFrom(m, layout, patches, binary, j)[x]
    {
      forall k | j <= k < |patches| ensures !Touches(patches[k], x) {
        assert Independent(p, patches[k]);
      }
      PassElsewhere(m, layout, patches, binary, j, x);
    }
  }

  lemma ApplyKeepsInput(m: Memory, layout: Layout, patches: seq<Patch>, binary: u32, j: nat, i: nat)
    requires j < |patches| && i < |patches| && i != j && Separate(patches)
    ensures SameInput(if Applies(layout, patches[j], binary) then Apply(m, patches[j]) else m, m, patches[i])
  {
    hide Apply;
    assert Independent(patches[i], patches[j]);
    forall x | 0 <= x < SPACE && (Target(patches[i]).Has(x) || Source(patches[i]).Has(x))
      ensures Apply(m, patches[j])[x] == m[x]
    {
      ApplyElsewhere(m, patches[j], x);
    }
  }

  /** Loading the REL between the passes leaves alone what the DOL pass wrote. */
  ghost predicate RelLoaded(m: Memory, loaded: Memory, layout: Layout, patches: seq<Patch>) {
    forall i :: 0 <= i < |patches| && Applies(layout, patches[i], BINARY_DOL) ==> SameOutput(m, loaded, patches[i])
  }

  /** Which addresses belong to which binary: the DOL's range to 1, the rest of the REL's to 2, all others to neither. */
  lemma BinaryRanges(layout: Layout, d: u32)
    ensures GetBinary(layout, d) == 1 <==> layout.dolStart <= d < layout.dolEnd
    ensures GetBinary(layout, d) == 2 <==> !(layout.dolStart <= d < layout.dolEnd) && layout.relStart <= d < layout.relEnd
    ensures GetBinary(layout, d) <= 2
  {
  }

  lemma AppliesByRange(layout: Layout, p: Patch)
    ensures var d := Target(p).start;
            && (Applies(layout, p, 1) <==> !p.Unknown? && layout.dolStart <= d < layout.dolEnd)
            && (Applies(layout, p, 2) <==>
                  !p.Unknown? && !(layout.dolStart <= d < layout.dolEnd) && layout.relStart <= d < layout.relEnd)
  {
    hide GetBinary;
    if !p.Unknown? {
      BinaryRanges(layout, Target(p).start);
    }
  }

  /** The pass with 1 applies the patches into the DOL and passes over all others, the pass with 2 those into the REL. */
  lemma PassByRange(m: Memory, layout: Layout, patches: seq<Patch>, j: nat)
    requires j < |patches| && forall i :: 0 <= i < |patches| ==> Usable(patches[i])
    ensures var p, d := patches[j], Target(patches[j]).start;
            var inDol, inRel := layout.dolStart <= d < layout.dolEnd, layout.relStart <= d < layout.relEnd;
            && PassFrom(m, layout, patches, 1, j) ==
               PassFrom(if !p.Unknown? && inDol then Apply(m, p) else m, layout, patches, 1, j + 1)
            && PassFrom(m, layout, patches, 2, j) ==
               PassFrom(if !p.Unknown? && !inDol && inRel then Apply(m, p) else m, layout, patches, 2, j + 1)
  {
    hide Apply, Applies, Usable;
    AppliesByRange(layout, patches[j]);
  }

  /**
    The two passes, by address. A patch into the DOL is done by the pass with 1 and stays done, one into
    the REL by the pass with 2, each against the memory its pass found. What no patch into a pass's own
    range overwrites is not changed by that pass.
   */
  lemma BothPasses(m: Memory, loaded: Memory, layout: Layout, patches: seq<Patch>, i: nat, x: int)
    requires Separate(patches) && i < |patches| && 0 <= x < 0x1_0000_0000
    requires RelLoaded(PassFrom(m, layout, patches, 1, 0), loaded, layout, patches)
    ensures var p, d := patches[i], Target(patches[i]).start;
            var dol, rel := PassFrom(m, layout, patches, 1, 0), PassFrom(loaded, layout, patches, 2, 0);
            var inDol, inRel := layout.dolStart <= d < layout.dolEnd, layout.relStart <= d < layout.relEnd;
            && (!p.Unknown? && inDol ==> Done(m, dol, p) && Done(m, rel, p))
            && (!p.Unknown? && !inDol && inRel ==> Done(loaded, rel, p))
    ensures (forall k :: 0 <= k < |patches| && layout.dolStart <= Target(patches[k]).start < layout.dolEnd ==>
               !Target(patches[k]).Has(x) && !ThunkOf(patches[k]).Has(x))
            ==> PassFrom(m, layout, patches, 1, 0)[x] == m[x]
    ensures (forall k :: 0 <= k < |patches| && !(layout.dolStart <= Target(patches[k]).start < layout.dolEnd)
                         && layout.relStart <= Target(patches[k]).start < layout.relEnd ==>
               !Target(patches[k]).Has(x) && !ThunkOf(patches[k]).Has(x))
            ==> PassFrom(loaded, layout, patches, 2, 0)[x] == loaded[x]
  {
    hide PassFrom, Done, Applies, Target, ThunkOf;
    AppliesByRange(layout, patches[i]);
    if Applies(layout, patches[i], 1) {
      PassDoes(m, layout, patches, 1, 0, i);
    }
    forall k | 0 <= k < |patches|
      ensures Applies(layout, patches[k], 1) ==> layout.dolStart <= Target(patches[k]).start < layout.dolEnd
      ensures Applies(layout, patches[k], 2) ==>
                !(layout.dolStart <= Target(patches[k]).start < layout.dolEnd) && layout.relStart <= Target(patches[k]).start < layout.relEnd
    {
      AppliesByRange(layout, patches[k]);
    }
    PassesDo(m, loaded, layout, patches, i, x);
  }

  lemma PassesDo(m: Memory, loaded: Memory, layout: Layout, patches: seq<Patch>, i: nat, x: int)
    requires Separate(patches) && i < |patches| && 0 <= x < SPACE
    requires RelLoaded(PassFrom(m, layout, patches, BINARY_DOL, 0), loaded, layout, patches)
    ensures var dol, rel := PassFrom(m, layout, patches, BINARY_DOL, 0), PassFrom(loaded, layout, patches, BINARY_REL, 0);
            && (Applies(layout, patches[i], BINARY_DOL) ==> Done(m, rel, patches[i]))
            && (Applies(layout, patches[i], BINARY_REL) ==> Done(loaded, rel, patches[i]))
            && ((forall k :: 0 <= k < |patches| && Applies(layout, patches[k], BINARY_DOL) ==> !Touches(patches[k], x)) ==> dol[x] == m[x])
            && ((forall k :: 0 <= k < |patches| && Applies(layout, patches[k], BINARY_REL) ==> !Touches(patches[k], x)) ==> rel[x] == loaded[x])
  {
    hide PassFrom, Done, Touches;
    var dol, rel := PassFrom(m, layout, patches, BINARY_DOL, 0), PassFrom(loaded, layout, patches, BINARY_REL, 0);
    if Applies(layout, patches[i], BINARY_DOL) {
      PassDoes(m, layout, patches, BINARY_DOL, 0, i);
      OtherPassKeeps(loaded, layout, patches, i);
      DoneElsewhere(m, m, dol, rel, patches[i]);
    }
    if Applies(layout, patches[i], BINARY_REL) {
      PassDoes(loaded, layout, patches, BINARY_REL, 0, i);
    }
    if forall k :: 0 <= k < |patches| && Applies(layout, patches[k], BINARY_DOL) ==> !Touches(patches[k], x) {
      PassElsewhere(m, layout, patches, BINARY_DOL, 0, x);
    }
    if forall k :: 0 <= k < |patches| && Applies(layout, patches[k], BINARY_REL) ==> !Touches(patches[k], x) {
      PassElsewhere(loaded, layout, patches, BINARY_REL, 0, x);
    }
  }

  /** A patch in the DOL is out of the REL pass's way. */
  lemma OtherPassKeeps(m: Memory, layout: Layout, patches: seq<Patch>, i: nat)
    requires Separate(patches) && i < |patches| && Applies(layout, patches[i], BINARY_DOL)
    ensures SameOutput(m, PassFrom(m, layout, patches, BINARY_REL, 0), patches[i])
  {
    hide PassFrom;
    forall x | 0 <= x < SPACE && Touches(patches[i], x)
      ensures m[x] == PassFrom(m, layout, patches, BINARY_REL, 0)[x]
    {
      forall k | 0 <= k < |patches| && Applies(layout, patches[k], BINARY_REL) ensures !Touches(patches[k], x) {
        assert Independent(patches[i], patches[k]);
      }
      PassElsewhere(m, layout, patches, BINARY_REL, 0, x);
    }
  }

  // ----- Running hooked code

  datatype Cpu<S> = Cpu(pc: u32, lr: u32, rest: S)

  /** Instructions other than the I-form branch; what they do is a parameter. */
  type Execute<!S> = (u32, Cpu<S>) -> Cpu<S>

  /** The two low bits of an instruction address are taken as zero. */
  function Fetch(m: Memory, pc: u32): u32 {
    Load(m, pc / 4 * 4)
  }

  function Step<S>(m: Memory, execute: Execute<S>, cpu: Cpu<S>): Cpu<S> {
    var word := Fetch(m, cpu.pc);
    if IsBranch(word) then
      Cpu(BranchTarget(word, cpu.pc), if Links(word) then (cpu.pc + 4) % U32_MODULUS else cpu.lr, cpu.rest)
    else execute(word, cpu)
  }

  function Steps<S>(m: Memory, execute: Execute<S>, cpu: Cpu<S>, n: nat): Cpu<S>
    decreases n
  {
    if n == 0 then cpu else Steps(m, execute, Step(m, execute, cpu), n - 1)
  }

  /** The instruction does not depend on where it stands and goes on with the next one. */
  ghost predicate PositionFree<S(!new)>(execute: Execute<S>, word: u32) {
    && !IsBranch(word)
    && forall cpu: Cpu<S>, pc: u32 ::
         execute(word, cpu.(pc := pc)) == execute(word, cpu).(pc := (pc + 4) % U32_MODULUS)
  }

  predicate Aligned(x: u32) {
    x % 4 == 0
  }

  /** The distances a branch encodes: whole words, less than 2^25 bytes ahead or at most 2^25 back, around 2^32. */
  lemma ReachesIs(from: u32, to: u32)
    ensures Reaches(from, to) <==>
            (to - from) % 4 == 0 && ((to - from) % 0x1_0000_0000 < 0x200_0000 || (from - to) % 0x1_0000_0000 <= 0x200_0000)
  {
  }

  /** Reaching the hooked address goes to the replacement. */
  lemma HookTransfers<S>(before: Memory, after: Memory, p: Patch, execute: Execute<S>, cpu: Cpu<S>)
    requires p.Branch? && Usable(p) && Done(before, after, p)
    requires Aligned(p.from) && Reaches(p.from, p.to) && cpu.pc == p.from
    ensures Step(after, execute, cpu) == cpu.(pc := p.to, lr := if p.link then (p.from + 4) % U32_MODULUS else cpu.lr)
  {
    BranchGoes(p.from, p.to, p.link);
  }

  /** The thunk takes two steps to do what one step did at the hooked address. */
  lemma ThunkStep<S(!new)>(before: Memory, after: Memory, p: Patch, execute: Execute<S>, cpu: Cpu<S>)
    requires p.Branch? && Usable(p) && Done(before, after, p) && p.thunk != 0
    requires Aligned(p.from) && Aligned(p.thunk) && Reaches(p.thunk, p.from) && cpu.pc == p.from
    requires PositionFree(execute, Fetch(before, p.from))
    ensures Step(after, execute, Step(after, execute, cpu.(pc := p.thunk))) == Step(before, execute, cpu)
  {
    hide PositionFree, BranchWord, BigEndian, IsBranch, Absolute, Links, BranchTarget, Reaches, Fetch;
    FetchAligned(before, p.from);
    FetchAligned(after, p.thunk);
    FetchAligned(after, p.thunk + 4);
    BranchGoes(p.thunk, p.from, false);
    var word := Fetch(before, p.from);
    var back: u32 := BranchWord(p.thunk, p.from, false);
    assert Fetch(after, p.thunk) == word;
    assert Fetch(after, p.thunk + 4) == back;
    PositionFreeAt(execute, word, cpu, p.thunk);
    PositionFreeAt(execute, word, cpu, p.from);
    BranchShifts(back, p.thunk, 4);
  }

  lemma FetchAligned(m: Memory, pc: u32)
    requires Aligned(pc)
    ensures pc + 4 <= SPACE && Fetch(m, pc) == Load(m, pc)
  {
  }

  lemma PositionFreeAt<S(!new)>(execute: Execute<S>, word: u32, cpu: Cpu<S>, pc: u32)
    requires PositionFree(execute, word)
    ensures !IsBranch(word) && execute(word, cpu.(pc := pc)) == execute(word, cpu).(pc := (pc + 4) % U32_MODULUS)
  {
  }

  lemma BranchShifts(word: u32, at: u32, k: nat)
    requires at + k < U32_MODULUS && !Absolute(word)
    ensures BranchTarget(word, at + k) == (BranchTarget(word, at) + k) % U32_MODULUS
  {
  }

  /**
    Hooking preserves meaning: entering the thunk in the patched memory runs the hooked code as it ran
    from the hooked address before, for as long as the run stays on instructions that are not patched.
   */
  lemma ThunkRuns<S(!new)>(before: Memory, after: Memory, p: Patch, execute: Execute<S>, cpu: Cpu<S>, n: nat)
    requires p.Branch? && Usable(p) && Done(before, after, p) && p.thunk != 0
    requires Aligned(p.from) && Aligned(p.thunk) && Reaches(p.thunk, p.from) && cpu.pc == p.from
    requires PositionFree(execute, Fetch(before, p.from))
    requires forall k :: 0 < k <= n ==> SameFetch(before, after, Steps(before, execute, cpu, k).pc)
    ensures Steps(after, execute, cpu.(pc := p.thunk), n + 2) == Steps(before, execute, cpu, n + 1)
  {
    hide Step, Done, PositionFree, Usable;
    var next := Step(before, execute, cpu);
    ThunkStep(before, after, p, execute, cpu);
    StepsTwo(after, execute, cpu.(pc := p.thunk), n);
    forall k | 0 <= k < n ensures SameFetch(before, after, Steps(before, execute, next, k).pc) {
      assert Steps(before, execute, cpu, k + 1) == Steps(before, execute, next, k);
    }
    SameRun(before, after, execute, next, n);
  }

  lemma StepsTwo<S>(m: Memory, execute: Execute<S>, cpu: Cpu<S>, n: nat)
    ensures Steps(m, execute, cpu, n + 2) == Steps(m, execute, Step(m, execute, Step(m, execute, cpu)), n)
  {
  }

  predicate SameFetch(before: Memory, after: Memory, pc: u32) {
    Fetch(before, pc) == Fetch(after, pc)
  }

  lemma {:induction false} SameRun<S>(before: Memory, after: Memory, execute: Execute<S>, cpu: Cpu<S>, n: nat)
    requires forall k :: 0 <= k < n ==> SameFetch(before, after, Steps(before, execute, cpu, k).pc)
    ensures Steps(after, execute, cpu, n) == Steps(before, execute, cpu, n)
    decreases n
  {
    hide Fetch;
    if n != 0 {
      assert SameFetch(before, after, Steps(before, execute, cpu, 0).pc);
      var next := Step(before, execute, cpu);
      forall k | 0 <= k < n - 1 ensures SameFetch(before, after, Steps(before, execute, next, k).pc) {
        assert Steps(before, execute, cpu, k + 1) == Steps(before, execute, next, k);
      }
      SameRun(before, after, execute, next, n - 1);
    }
  }

  /**
    The hooks of both passes together. `found` is the memory that the pass over the patch's own binary
    started from: the original code.
   */
  lemma HooksKeepMeaning<S(!new)>(
      m: Memory, loaded: Memory, layout: Layout, patches: seq<Patch>, i: nat, execute: Execute<S>, cpu: Cpu<S>, n: nat)
    requires Separate(patches) && i < |patches| && patches[i].Branch?
    requires RelLoaded(PassFrom(m, layout, patches, 1, 0), loaded, layout, patches)
    requires layout.dolStart <= patches[i].from < layout.dolEnd || layout.relStart <= patches[i].from < layout.relEnd
    requires Aligned(patches[i].from) && Reaches(patches[i].from, patches[i].to) && cpu.pc == patches[i].from
    ensures var p, rel := patches[i], PassFrom(loaded, layout, patches, 2, 0);
            var found := if layout.dolStart <= p.from < layout.dolEnd then m else loaded;
            && Step(rel, execute, cpu) == cpu.(pc := p.to, lr := if p.link then (p.from + 4) % U32_MODULUS else cpu.lr)
            && (&& p.thunk != 0 && Aligned(p.thunk) && Reaches(p.thunk, p.from)
                && PositionFree(execute, Fetch(found, p.from))
                && (forall k :: 0 < k <= n ==> SameFetch(found, rel, Steps(found, execute, cpu, k).pc))
                ==> Steps(rel, execute, cpu.(pc := p.thunk), n + 2) == Steps(found, execute, cpu, n + 1))
  {
    hide PassFrom, Done, Step, Steps, PositionFree, Reaches, Applies;
    var p, rel := patches[i], PassFrom(loaded, layout, patches, 2, 0);
    var found := if layout.dolStart <= p.from < layout.dolEnd then m else loaded;
    BothPasses(m, loaded, layout, patches, i, 0);
    assert Done(found, rel, p);
    HookTransfers(found, rel, p, execute, cpu);
    if && p.thunk != 0 && Aligned(p.thunk) && Reaches(p.thunk, p.from)
       && PositionFree(execute, Fetch(found, p.from))
       && forall k :: 0 < k <= n ==> SameFetch(found, rel, Steps(found, execute, cpu, k).pc)
    {
      ThunkRuns(found, rel, p, execute, cpu, n);
    }
  }

  /** Beyond 2^25 bytes the branch does not reach: the hooked address then goes somewhere else. */
  lemma FarHookMisses<S>(before: Memory, after: Memory, p: Patch, execute: Execute<S>, cpu: Cpu<S>)
    requires p.Branch? && Usable(p) && Done(before, after, p)
    requires Aligned(p.from) && !Reaches(p.from, p.to) && cpu.pc == p.from
    ensures Step(after, execute, cpu).pc != p.to
  {
    BranchGoes(p.from, p.to, p.link);
  }

  // ----- The program

  method StoreWord(ram: array<u8>, at: nat, word: u32)
    requires ram.Length == SPACE && at + 4 <= SPACE
    modifies ram
    ensures ram[..] == Store(old(ram[..]), at, BigEndianBytes(word))
  {
    var bytes := BigEndianBytes(word);
    ram[at], ram[at + 1], ram[at + 2], ram[at + 3] := bytes[0], bytes[1], bytes[2], bytes[3];
  }

  method Memcpy(ram: array<u8>, dst: u32, src: u32, size: u32)
    requires ram.Length == SPACE && dst + size <= SPACE && src + size <= SPACE && Range(src, size).Apart(Range(dst, size))
    modifies ram
    ensures ram[..] == Store(old(ram[..]), dst, old(ram[src..src + size]))
  {
    var i := 0;
    while i < size
      invariant i <= size
      invariant forall x :: dst <= x < dst + i ==> ram[x] == old(ram[src + (x - dst)])
      invariant forall x :: 0 <= x < SPACE && !(dst <= x < dst + i) ==> ram[x] == old(ram[x])
    {
      ram[dst + i] := ram[src + i];
      i := i + 1;
    }
    StoreIs(old(ram[..]), dst, old(ram[src..src + size]), ram[..]);
  }

  method PatcherPatch(ram: array<u8>, layout: Layout, patches: seq<Patch>, binary: u32)
    requires ram.Length == SPACE && forall i :: 0 <= i < |patches| ==> Usable(patches[i])
    modifies ram
    ensures ram[..] == PassFrom(old(ram[..]), layout, patches, binary, 0)
  {
    hide Apply, Usable, PassFrom, GetBinary;
    var j := 0;
    PassMoves(ram[..], layout, patches, binary, 0);
    while j < |patches|
      invariant j <= |patches|
      invariant PassFrom(ram[..], layout, patches, binary, j) == PassFrom(old(ram[..]), layout, patches, binary, 0)
    {
      var patch := patches[j];
      PassMoves(ram[..], layout, patches, binary, j);
      j := j + 1;
      var dst;
      match patch {
        case Write(d, _, _) => dst := d;
        case Branch(from, _, _, _) => dst := from;
        case Unknown(_) => continue;
      }
      if GetBinary(layout, dst) != binary {
        continue;
      }
      ApplyPatch(ram, patch);
    }
    PassMoves(ram[..], layout, patches, binary, j);
  }

  lemma PassMoves(m: Memory, layout: Layout, patches: seq<Patch>, binary: u32, j: nat)
    requires j <= |patches| && forall i :: 0 <= i < |patches| ==> Usable(patches[i])
    ensures PassFrom(m, layout, patches, binary, j) ==
            if j == |patches| then m
            else PassFrom(if Applies(layout, patches[j], binary) then Apply(m, patches[j]) else m, layout, patches, binary, j + 1)
  {
  }

  /** The end of the loop body: the thunk, if there is one, and the copy. */
  method ApplyPatch(ram: array<u8>, patch: Patch)
    requires ram.Length == SPACE && Usable(patch) && !patch.Unknown?
    modifies ram
    ensures ram[..] == Apply(old(ram[..]), patch)
  {
    hide BranchWord, Store, BigEndian, IsBranch, Absolute, Links, BranchTarget, Reaches;
    if patch.Branch? && patch.thunk != 0 {
      var original := BigEndian(ram[patch.from..patch.from + 4]);
      StoreWord(ram, patch.thunk, original);
      BranchGoes(patch.thunk, patch.from, false);
      StoreWord(ram, patch.thunk + 4, BranchWord(patch.thunk, patch.from, false));
    }
    if patch.Write? {
      Memcpy(ram, patch.dst, patch.src, patch.size);
    } else {
      BranchGoes(patch.from, patch.to, patch.link);
      StoreWord(ram, patch.from, BranchWord(patch.from, patch.to, patch.link));
    }
  }
}
