/**
  The symbol map: the printer in generate_symbol_map.py (from the names it has settled on) and the
  parser and search in payload/sp/MapFile.cc.
 */
module MapFileModule {
  import opened Bytes
  import opened Wrappers

  datatype Symbol = Symbol(address: u32, name: string)

  const FIRST_ADDRESS: u32 := 0x8000_0000
  const SYMBOL_ADDRESS_LENGTH: nat := 10

  // ----- Printing

  function HexDigit(d: nat): (c: char)
    requires d < 16
    ensures IsHexDigit(c) && DigitValue(c) == d
  {
    if d < 10 then '0' + d as char else 'A' + (d - 10) as char
  }

  /** `{:X}`. */
  function Hex(n: nat): (s: string)
    ensures s != [] && AllHex(s) && HexValue(s) == n
    decreases n
  {
    if n < 16 then [HexDigit(n)]
    else
      var upper := Hex(n / 16);
      HexAppend(upper, HexDigit(n % 16));
      upper + [HexDigit(n % 16)]
  }

  function Line(symbol: Symbol): string {
    "0x" + Hex(symbol.address) + " " + symbol.name + "\n"
  }

  function Print(symbols: seq<Symbol>): string {
    if symbols == [] then "" else Line(symbols[0]) + Print(symbols[1..])
  }

  /** `sorted(dictionary.items())`, from address `a` on. */
  function Items(dictionary: map<u32, string>, a: nat): seq<Symbol>
    requires a <= U32_MODULUS
    decreases U32_MODULUS - a
  {
    if a == U32_MODULUS then []
    else if a in dictionary then [Symbol(a, dictionary[a])] + Items(dictionary, a + 1)
    else Items(dictionary, a + 1)
  }

  function Dictionary(symbols: seq<Symbol>): map<u32, string> {
    if symbols == [] then map[]
    else
      var last, before := symbols[|symbols| - 1], Dictionary(symbols[..|symbols| - 1]);
      if last.address < FIRST_ADDRESS then before else before[last.address := last.name]
  }

  /** The contents of the map made from a symbol table. */
  function SymbolMap(symbols: seq<Symbol>): seq<Symbol> {
    Items(Dictionary(symbols), 0)
  }

  /** The last name listed for an address. */
  function LastName(symbols: seq<Symbol>, address: u32): Option<string> {
    if symbols == [] then None
    else if symbols[|symbols| - 1].address == address then Some(symbols[|symbols| - 1].name)
    else LastName(symbols[..|symbols| - 1], address)
  }

  ghost predicate Increasing(symbols: seq<Symbol>) {
    forall i, j :: 0 <= i < j < |symbols| ==> symbols[i].address < symbols[j].address
  }

  lemma {:induction false} ItemsIncrease(dictionary: map<u32, string>, a: nat)
    requires a <= U32_MODULUS
    ensures Increasing(Items(dictionary, a))
    ensures forall s :: s in Items(dictionary, a) <==> s.address >= a && s.address in dictionary && dictionary[s.address] == s.name
    decreases U32_MODULUS - a
  {
    if a != U32_MODULUS {
      ItemsIncrease(dictionary, a + 1);
    }
  }

  /** The last name is the name in the last entry with that address. */
  lemma {:induction false} LastNameIs(symbols: seq<Symbol>, address: u32) returns (k: nat)
    ensures k <= |symbols| && forall j :: k <= j < |symbols| ==> symbols[j].address != address
    ensures LastName(symbols, address) == None <==> k == 0
    ensures k > 0 ==> symbols[k - 1].address == address && LastName(symbols, address) == Some(symbols[k - 1].name)
    decreases |symbols|
  {
    k := |symbols|;
    if symbols != [] && symbols[|symbols| - 1].address != address {
      k := LastNameIs(symbols[..|symbols| - 1], address);
    }
  }

  lemma {:induction false} DictionaryHolds(symbols: seq<Symbol>, a: u32)
    ensures a in Dictionary(symbols) <==> a >= 0x8000_0000 && LastName(symbols, a).Some?
    ensures a in Dictionary(symbols) ==> LastName(symbols, a) == Some(Dictionary(symbols)[a])
    decreases |symbols|
  {
    if symbols != [] {
      DictionaryHolds(symbols[..|symbols| - 1], a);
    }
  }

  /** The map has strictly increasing addresses and exactly the last name of every address it takes in. */
  lemma SymbolMapIs(symbols: seq<Symbol>, s: Symbol)
    ensures Increasing(SymbolMap(symbols))
    ensures s in SymbolMap(symbols) <==> s.address >= 0x8000_0000 && LastName(symbols, s.address) == Some(s.name)
  {
    ItemsIncrease(Dictionary(symbols), 0);
    DictionaryHolds(symbols, s.address);
  }

  /** Whatever the symbol table, names of one line give a printable map. */
  lemma SymbolMapPrintable(symbols: seq<Symbol>, i: nat)
    requires (forall k :: 0 <= k < |symbols| ==> OneLine(symbols[k].name)) && i < |SymbolMap(symbols)|
    ensures Printable(SymbolMap(symbols)[i])
  {
    hide OneLine, SymbolMap;
    var s := SymbolMap(symbols)[i];
    SymbolMapIs(symbols, s);
    LastNameListed(symbols, s.address);
  }

  lemma {:induction false} LastNameListed(symbols: seq<Symbol>, address: u32)
    requires LastName(symbols, address).Some?
    ensures exists k :: 0 <= k < |symbols| && symbols[k].name == LastName(symbols, address).value
    decreases |symbols|
  {
    if symbols[|symbols| - 1].address != address {
      LastNameListed(symbols[..|symbols| - 1], address);
      var k :| 0 <= k < |symbols| - 1 && symbols[..|symbols| - 1][k].name == LastName(symbols[..|symbols| - 1], address).value;
      assert symbols[k].name == LastName(symbols, address).value;
    }
  }

  // ----- Parsing

  predicate IsHexDigit(c: char) {
    '0' <= c <= '9' || 'A' <= c <= 'F' || 'a' <= c <= 'f'
  }

  function DigitValue(c: char): (d: nat)
    requires IsHexDigit(c)
    ensures d < 16
  {
    if '0' <= c <= '9' then (c - '0') as int
    else if 'A' <= c <= 'F' then (c - 'A') as int + 10
    else (c - 'a') as int + 10
  }

  predicate AllHex(s: string) {
    forall i :: 0 <= i < |s| ==> IsHexDigit(s[i])
  }

  /** `from_chars` in base 16. */
  function HexValue(s: string): (n: nat)
    requires AllHex(s)
  {
    if s == [] then 0 else 16 * HexValue(s[..|s| - 1]) + DigitValue(s[|s| - 1])
  }

  lemma HexAppend(s: string, c: char)
    requires AllHex(s) && IsHexDigit(c)
    ensures AllHex(s + [c]) && HexValue(s + [c]) == 16 * HexValue(s) + DigitValue(c)
  {
    assert (s + [c])[..|s|] == s;
  }

  function Power16(k: nat): (p: nat)
    ensures p > 0
  {
    if k == 0 then 1 else 16 * Power16(k - 1)
  }

  lemma {:induction false} HexValueBound(s: string)
    requires AllHex(s)
    ensures HexValue(s) < Power16(|s|)
  {
    if s != [] {
      HexValueBound(s[..|s| - 1]);
    }
  }

  /** An address of the map always takes eight digits. */
  lemma {:induction false} HexLength(n: nat, k: nat)
    requires k > 0 && Power16(k - 1) <= n < Power16(k)
    ensures |Hex(n)| == k
    decreases k
  {
    if k > 1 {
      HexLength(n / 16, k - 1);
    }
  }

  function Address(line: string): Option<u32> {
    if |line| < SYMBOL_ADDRESS_LENGTH || line[..2] != "0x" || !AllHex(line[2..10]) then None
    else
      HexValueBound(line[2..10]);
      assert Power16(8) == U32_MODULUS;
      Some(HexValue(line[2..10]))
  }

  function ParseLine(line: string): Option<Symbol> {
    if Address(line).None? then None
    else
      var name := line[SYMBOL_ADDRESS_LENGTH..];
      if name == "" || name[0] != ' ' || name == " " then None
      else Some(Symbol(Address(line).value, name[1..]))
  }

  /** A line is read exactly when it is `0x`, eight hexadecimal digits, a space and a name. */
  lemma ParseLineIs(line: string, address: u32, name: string)
    ensures ParseLine(line) == Some(Symbol(address, name)) <==>
            && |line| == 11 + |name| && name != "" && line[0] == '0' && line[1] == 'x' && line[10] == ' ' && line[11..] == name
            && AllHex(line[2..10]) && HexValue(line[2..10]) == address
  {
    hide HexValue;
    if |line| >= 11 {
      assert line[10..][1..] == line[11..];
      assert line[..2] == [line[0], line[1]];
    }
  }

  /** The value of a digit, in either case; each further digit counts sixteen times less than the one before. */
  lemma DigitIs(s: string, c: char)
    requires AllHex(s) && IsHexDigit(c)
    ensures HexValue("") == 0 && AllHex(s + [c])
    ensures HexValue(s + [c]) ==
            16 * HexValue(s) + if c <= '9' then (c - '0') as int else if c <= 'F' then 10 + (c - 'A') as int else 10 + (c - 'a') as int
  {
    HexAppend(s, c);
  }

  lemma HexDigits(c: char)
    ensures IsHexDigit(c) <==> '0' <= c <= '9' || 'A' <= c <= 'F' || 'a' <= c <= 'f'
  {
  }

  /** `find_first_not_of('\n')` from `pos` on. */
  function SkipNewlines(text: string, pos: nat): (start: nat)
    requires pos <= |text|
    ensures pos <= start <= |text| && (start < |text| ==> text[start] != '\n')
    ensures forall i :: pos <= i < start ==> text[i] == '\n'
    decreases |text| - pos
  {
    if pos == |text| || text[pos] != '\n' then pos else SkipNewlines(text, pos + 1)
  }

  /** `find('\n')` from `pos` on. */
  function LineEnd(text: string, pos: nat): (end: nat)
    requires pos <= |text|
    ensures pos <= end <= |text| && (end < |text| ==> text[end] == '\n')
    ensures forall i :: pos <= i < end ==> text[i] != '\n'
    decreases |text| - pos
  {
    if pos == |text| || text[pos] == '\n' then pos else LineEnd(text, pos + 1)
  }

  /** The symbol found from a position on, and the position after the call. */
  function Next(text: string, pos: nat): (r: (Option<Symbol>, nat))
    requires pos <= |text|
    ensures pos <= r.1 <= |text| && (r.0.Some? ==> r.1 > pos)
  {
    var start := SkipNewlines(text, pos);
    var end := LineEnd(text, start);
    (ParseLine(text[start..end]), end)
  }

  /** Found or not, a call leaves the position at the end of the line it looked at: the next that is not empty. */
  lemma NextMoves(text: string, pos: nat) returns (start: nat)
    requires pos <= |text|
    ensures pos <= start <= Next(text, pos).1 <= |text| && Next(text, pos).0 == ParseLine(text[start..Next(text, pos).1])
    ensures (forall i :: pos <= i < start ==> text[i] == '\n') && forall i :: start <= i < Next(text, pos).1 ==> text[i] != '\n'
    ensures start < |text| ==> text[start] != '\n'
    ensures Next(text, pos).1 < |text| ==> text[Next(text, pos).1] == '\n'
  {
    start := SkipNewlines(text, pos);
  }

  /** What repeated calls find before the first that finds nothing. */
  function AllSymbols(text: string, pos: nat): seq<Symbol>
    requires pos <= |text|
    decreases |text| - pos
  {
    var (symbol, end) := Next(text, pos);
    if symbol.None? then [] else [symbol.value] + AllSymbols(text, end)
  }

  /** A printed line, character by character; the digits are upper-case. */
  lemma LineIs(symbol: Symbol)
    requires symbol.address >= 0x8000_0000
    ensures var line := Line(symbol);
            && |line| == 12 + |symbol.name| && line[0] == '0' && line[1] == 'x' && line[10] == ' '
            && line[11..|line| - 1] == symbol.name && line[|line| - 1] == '\n'
            && forall i :: 2 <= i < 10 ==> '0' <= line[i] <= '9' || 'A' <= line[i] <= 'F'
  {
    hide HexValue;
    assert Power16(7) == 0x1000_0000 && Power16(8) == U32_MODULUS;
    HexLength(symbol.address, 8);
    HexUpper(symbol.address);
  }

  lemma {:induction false} HexUpper(n: nat)
    ensures forall i :: 0 <= i < |Hex(n)| ==> '0' <= Hex(n)[i] <= '9' || 'A' <= Hex(n)[i] <= 'F'
    decreases n
  {
    if n >= 16 {
      HexUpper(n / 16);
    }
  }

  lemma LineExample()
    ensures Line(Symbol(0x8000_60A4, "main")) == "0x800060A4 main\n"
  {
    hide Hex;
    HexExample();
  }

  lemma HexExample()
    ensures Hex(0x8000_60A4) == "800060A4"
  {
    hide Hex;
    HexMoves(0x8);
    HexMore(0x80, "8", '0');
    HexMore(0x800, "80", '0');
    HexMore(0x8000, "800", '0');
    HexMore(0x8_0006, "8000", '6');
    HexMore(0x80_0060, "80006", '0');
    HexMore(0x800_060A, "800060", 'A');
    HexMore(0x8000_60A4, "800060A", '4');
  }

  lemma HexMore(n: nat, upper: string, c: char)
    requires n >= 16 && Hex(n / 16) == upper && c == HexDigit(n % 16)
    ensures Hex(n) == upper + [c]
  {
    HexMoves(n);
  }

  lemma HexMoves(n: nat)
    ensures Hex(n) == if n < 16 then [HexDigit(n)] else Hex(n / 16) + [HexDigit(n % 16)]
  {
  }

  // ----- The parser reads back what the printer wrote

  predicate OneLine(name: string) {
    forall i :: 0 <= i < |name| ==> name[i] != '\n'
  }

  predicate Printable(symbol: Symbol) {
    symbol.address >= 0x8000_0000 && OneLine(symbol.name)
  }

  function BeforeNameless(symbols: seq<Symbol>): seq<Symbol> {
    if symbols == [] || symbols[0].name == "" then [] else [symbols[0]] + BeforeNameless(symbols[1..])
  }

  lemma LineParses(symbol: Symbol)
    requires Printable(symbol)
    ensures OneLine(Line(symbol)[..|Line(symbol)| - 1])
    ensures ParseLine(Line(symbol)[..|Line(symbol)| - 1]) == if symbol.name == "" then None else Some(symbol)
  {
    hide Hex, HexValue;
    var hex := Hex(symbol.address);
    assert Power16(7) == 0x1000_0000 && Power16(8) == U32_MODULUS;
    HexLength(symbol.address, 8);
    var line := Line(symbol)[..|Line(symbol)| - 1];
    assert line == "0x" + hex + " " + symbol.name;
    assert line[..2] == "0x" && line[2..10] == hex && line[10..] == " " + symbol.name;
  }

  /** At the start of a printed line, or on the newline before it. */
  predicate At(text: string, pos: nat, start: nat) {
    start <= |text| && (pos == start || (pos + 1 == start && text[pos] == '\n'))
  }

  lemma NextOfPrinted(text: string, pos: nat, start: nat, symbol: Symbol)
    requires Printable(symbol) && At(text, pos, start)
    requires start + |Line(symbol)| <= |text| && text[start..start + |Line(symbol)|] == Line(symbol)
    ensures Next(text, pos) == (if symbol.name == "" then None else Some(symbol), start + |Line(symbol)| - 1)
    ensures text[start + |Line(symbol)| - 1] == '\n'
  {
    hide Line, ParseLine, Hex;
    var line := Line(symbol);
    LineParses(symbol);
    LineShape(symbol);
    assert forall i :: start <= i < start + |line| ==> text[i] == line[i - start];
    assert SkipNewlines(text, pos) == start;
    LineEndIs(text, start, start + |line| - 1);
    assert text[start..start + |line| - 1] == line[..|line| - 1];
  }

  lemma LineShape(symbol: Symbol)
    ensures |Line(symbol)| > 1 && Line(symbol)[0] == '0' && Line(symbol)[|Line(symbol)| - 1] == '\n'
  {
  }

  lemma LineEndIs(text: string, pos: nat, end: nat)
    requires pos <= end < |text| && text[end] == '\n'
    requires forall i :: pos <= i < end ==> text[i] != '\n'
    ensures LineEnd(text, pos) == end
  {
  }

  lemma PrintHead(text: string, start: nat, symbols: seq<Symbol>)
    requires start <= |text| && text[start..] == Print(symbols) && symbols != []
    ensures var end := start + |Line(symbols[0])|;
            end <= |text| && text[start..end] == Line(symbols[0]) && text[end..] == Print(symbols[1..])
  {
    hide Line;
    var line := Line(symbols[0]);
    assert text[start..start + |line|] == Print(symbols)[..|line|];
    assert text[start + |line|..] == Print(symbols)[|line|..];
  }

  lemma NothingLeft(text: string, pos: nat)
    requires At(text, pos, |text|)
    ensures AllSymbols(text, pos) == []
  {
    assert SkipNewlines(text, pos) == |text|;
    assert text[|text|..] == "";
  }

  lemma {:induction false} PrintedFrom(text: string, pos: nat, start: nat, symbols: seq<Symbol>)
    requires At(text, pos, start) && text[start..] == Print(symbols)
    requires forall i :: 0 <= i < |symbols| ==> Printable(symbols[i])
    ensures AllSymbols(text, pos) == BeforeNameless(symbols)
    decreases |symbols|
  {
    hide Line, ParseLine, Next, SkipNewlines;
    if symbols == [] {
      NothingLeft(text, pos);
    } else {
      var line := Line(symbols[0]);
      PrintHead(text, start, symbols);
      NextOfPrinted(text, pos, start, symbols[0]);
      if symbols[0].name != "" {
        PrintedFrom(text, start + |line| - 1, start + |line|, symbols[1..]);
      }
    }
  }

  lemma NothingParses()
    ensures ParseLine("") == None
  {
  }

  lemma {:induction false} NamedIsAll(symbols: seq<Symbol>)
    ensures BeforeNameless(symbols) == symbols <==> forall i :: 0 <= i < |symbols| ==> symbols[i].name != ""
  {
    if symbols != [] {
      NamedIsAll(symbols[1..]);
      assert symbols == [symbols[0]] + symbols[1..];
      assert forall i :: 0 <= i < |symbols[1..]| ==> symbols[1..][i] == symbols[i + 1];
    }
  }

  /** Parsing the printed map gives the symbols up to the first without a name. */
  lemma RoundTrip(symbols: seq<Symbol>)
    requires forall i :: 0 <= i < |symbols| ==> Printable(symbols[i])
    ensures AllSymbols(Print(symbols), 0) == BeforeNameless(symbols)
  {
    PrintedFrom(Print(symbols), 0, 0, symbols);
  }

  /** From symbol table to parsed map: everything is read back exactly when every name in the map is non-empty. */
  lemma MapReadsBack(symbols: seq<Symbol>)
    requires forall k :: 0 <= k < |symbols| ==> OneLine(symbols[k].name)
    ensures AllSymbols(Print(SymbolMap(symbols)), 0) == SymbolMap(symbols) <==>
            forall i :: 0 <= i < |SymbolMap(symbols)| ==> SymbolMap(symbols)[i].name != ""
  {
    hide OneLine, SymbolMap, Print, AllSymbols, Printable;
    var items := SymbolMap(symbols);
    forall i | 0 <= i < |items| ensures Printable(items[i]) {
      SymbolMapPrintable(symbols, i);
    }
    RoundTrip(items);
    NamedIsAll(items);
  }

  // ----- The search

  /** Where the search stops: after the first entry, at the first that is not below the address. */
  function StopAt(symbols: seq<Symbol>, address: u32, k: nat): (stop: nat)
    requires k < |symbols|
    ensures k <= stop < |symbols|
    ensures forall j :: k < j <= stop ==> symbols[j].address < address
    ensures stop + 1 < |symbols| ==> symbols[stop + 1].address >= address
    decreases |symbols| - k
  {
    if k + 1 < |symbols| && symbols[k + 1].address < address then StopAt(symbols, address, k + 1) else k
  }

  function LowerBound(symbols: seq<Symbol>, address: u32): Option<Symbol> {
    if symbols == [] then None else Some(symbols[StopAt(symbols, address, 0)])
  }

  /**
    Over increasing addresses: the entry with the greatest address strictly below the query if there
    is one, and else the first.
   */
  lemma GreatestBelow(symbols: seq<Symbol>, address: u32)
    requires Increasing(symbols) && symbols != []
    ensures var r := LowerBound(symbols, address).value;
            if symbols[0].address < address
            then r in symbols && r.address < address
                 && forall j :: 0 <= j < |symbols| && symbols[j].address < address ==> symbols[j].address <= r.address
            else r == symbols[0]
  {
  }

  /** Looking an address up in the printed map finds the symbol it belongs to. */
  lemma PrintedLookup(symbols: seq<Symbol>, address: u32, k: nat)
    requires Increasing(symbols) && k < |symbols| && symbols[k].address < address
    requires forall i :: 0 <= i < |symbols| ==> Printable(symbols[i]) && symbols[i].name != ""
    requires k + 1 < |symbols| ==> address <= symbols[k + 1].address
    ensures LowerBound(AllSymbols(Print(symbols), 0), address) == Some(symbols[k])
  {
    hide Print, AllSymbols, BeforeNameless, Printable;
    RoundTrip(symbols);
    NamedIsAll(symbols);
    StopsAt(symbols, address, 0, k);
  }

  lemma {:induction false} StopsAt(symbols: seq<Symbol>, address: u32, from: nat, k: nat)
    requires Increasing(symbols) && from <= k < |symbols| && symbols[k].address < address
    requires k + 1 < |symbols| ==> address <= symbols[k + 1].address
    ensures StopAt(symbols, address, from) == k
    decreases k - from
  {
    if from < k {
      assert symbols[from + 1].address <= symbols[k].address;
      StopsAt(symbols, address, from + 1, k);
    }
  }

  // ----- The programs

  /** From the symbol table, names already cleaned, to the text of the map. */
  method GenerateSymbolMap(symbols: seq<Symbol>) returns (text: string)
    ensures text == Print(SymbolMap(symbols))
  {
    var dictionary := FillDictionary(symbols);
    text := WriteMap(Items(dictionary, 0));
  }

  method FillDictionary(symbols: seq<Symbol>) returns (dictionary: map<u32, string>)
    ensures dictionary == Dictionary(symbols)
  {
    dictionary := map[];
    var i := 0;
    while i < |symbols|
      invariant i <= |symbols| && dictionary == Dictionary(symbols[..i])
    {
      assert symbols[..i + 1][..i] == symbols[..i];
      if symbols[i].address >= FIRST_ADDRESS {
        dictionary := dictionary[symbols[i].address := symbols[i].name];
      }
      i := i + 1;
    }
    assert symbols[..i] == symbols;
  }

  method WriteMap(items: seq<Symbol>) returns (text: string)
    ensures text == Print(items)
  {
    hide Hex;
    text := "";
    var i := 0;
    while i < |items|
      invariant i <= |items|
      invariant text + Print(items[i..]) == Print(items)
    {
      ghost var was := text;
      text := text + "0x" + Hex(items[i].address) + " " + items[i].name + "\n";
      assert text == was + Line(items[i]);
      PrintStep(was, items, i);
      i := i + 1;
    }
  }

  lemma PrintStep(text: string, items: seq<Symbol>, i: nat)
    requires i < |items|
    ensures text + Line(items[i]) + Print(items[i + 1..]) == text + Print(items[i..])
  {
    hide Line;
    assert items[i..][1..] == items[i + 1..];
  }

  method GetSymbolAddress(line: string) returns (address: Option<u32>)
    ensures address == Address(line)
  {
    if |line| < SYMBOL_ADDRESS_LENGTH {
      return None;
    }
    var sv := line[..SYMBOL_ADDRESS_LENGTH];
    assert sv[..2] == line[..2] && sv[2..] == line[2..10];
    if sv[..2] != "0x" {
      return None;
    }
    var digits := sv[2..];
    var i := 0;
    while i < |digits|
      invariant i <= |digits| && AllHex(digits[..i])
    {
      if !IsHexDigit(digits[i]) {
        return None;
      }
      assert digits[..i + 1] == digits[..i] + [digits[i]];
      i := i + 1;
    }
    assert digits[..i] == digits;
    HexValueBound(digits);
    assert Power16(8) == U32_MODULUS;
    return Some(HexValue(digits));
  }

  class MapFile {
    var text: Option<string>

    constructor ()
      ensures text == None
    {
      text := None;
    }

    predicate IsLoaded()
      reads this
    {
      text.Some?
    }

    method GetNextSymbol(mapFilePos: nat) returns (symbol: Option<Symbol>, pos: nat)
      requires IsLoaded() && mapFilePos <= |text.value|
      ensures (symbol, pos) == Next(text.value, mapFilePos)
    {
      pos := mapFilePos;
      if pos == |text.value| {
        NothingParses();
        return None, pos;
      }
      pos := SkipNewlines(text.value, pos);
      var start := pos;
      pos := LineEnd(text.value, start);
      var line := text.value[start..pos];
      var symbolAddress := GetSymbolAddress(line);
      if symbolAddress.None? {
        return None, pos;
      }
      line := line[SYMBOL_ADDRESS_LENGTH..];
      if line == "" || line[0] != ' ' {
        return None, pos;
      }
      line := line[1..];
      if |line| == 0 {
        return None, pos;
      }
      return Some(Symbol(symbolAddress.value, line)), pos;
    }

    method SymbolLowerBound(address: u32) returns (found: Option<Symbol>)
      ensures found == if IsLoaded() then LowerBound(AllSymbols(text.value, 0), address) else None
    {
      if !IsLoaded() {
        return None;
      }
      var mapFilePos := 0;
      var prevSymbol;
      prevSymbol, mapFilePos := GetNextSymbol(mapFilePos);
      ghost var all := AllSymbols(text.value, 0);
      if prevSymbol.None? {
        return None;
      }
      ghost var k := 0;
      while true
        invariant IsLoaded() && mapFilePos <= |text.value| && k < |all|
        invariant prevSymbol == Some(all[k]) && all[k + 1..] == AllSymbols(text.value, mapFilePos)
        invariant StopAt(all, address, k) == StopAt(all, address, 0)
        decreases |text.value| - mapFilePos
      {
        var nextSymbol;
        nextSymbol, mapFilePos := GetNextSymbol(mapFilePos);
        assert nextSymbol.Some? ==> all[k + 1..][0] == nextSymbol.value && all[k + 1..][1..] == all[k + 2..];
        if nextSymbol.None? {
          break;
        }
        if nextSymbol.value.address >= address {
          break;
        }
        prevSymbol := nextSymbol;
        k := k + 1;
      }
      return prevSymbol;
    }
  }
}
