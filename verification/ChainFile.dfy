/** The growing block array and its CSV file (common/blockchain.c). */
module ChainFile {
  import opened Text
  import opened Blocks
  import opened Hashing
  import opened Validation
  import CsvCodec

  const HEADER := "index," + "timestamp," + "prev_hash," + "merkle_root," + "nonce," + "transactions"

  /** fgets reads at most this many characters into the 8192 byte line buffer. */
  const BUFFER_CHARS := 8191

  // ---- the file format ----

  /** The lines of the blocks that can be printed; the others are skipped. */
  function CsvLines(c: seq<Block>): seq<string> {
    if c == [] then []
    else (if Printable(c[0]) then [CsvLine(c[0])] else []) + CsvLines(c[1..])
  }

  function FileText(c: seq<Block>): string { HEADER + ("\n" + Lines(CsvLines(c))) }

  predicate AllPrintable(c: seq<Block>) { forall b :: b in c ==> Printable(b) }

  /** Block n is the first that cannot be printed. */
  predicate StopsAt(c: seq<Block>, n: int) {
    0 <= n < |c| && !Printable(c[n]) && AllPrintable(c[..n])
  }

  predicate AllParserShaped(c: seq<Block>) { forall b :: b in c ==> ParserShaped(b) }

  /** The next line without its newline, and the rest, as fgets and the length test read it. */
  function TakeLine(s: string): (r: Result<(string, string)>)
    ensures r.Ok? && s != "" ==> |r.value.1| < |s|
  {
    var i := LineEnd(s);
    if i >= BUFFER_CHARS then Err(FileFormat)
    else Ok((CutLine(s[..i]), if i < |s| then s[i + 1..] else ""))
  }

  function AppendBlock(c: seq<Block>, b: Block): Result<seq<Block>> {
    if |c| >= MAX_BLOCKS then Err(MemoryAllocation)
    else match AddAll(b.(transactions := []), b.transactions)
      case Err(e) => Err(e)
      case Ok(copy) => Ok(c + [copy])
  }

  function LoadLines(s: string, acc: seq<Block>): Result<seq<Block>>
    decreases |s|
  {
    if s == "" then Ok(acc)
    else match TakeLine(s)
      case Err(e) => Err(e)
      case Ok((line, rest)) =>
        if line == "" then LoadLines(rest, acc)
        else match FromCsv(line)
          case Err(e) => Err(e)
          case Ok(b) => match AppendBlock(acc, b)
            case Err(e) => Err(e)
            case Ok(acc') => LoadLines(rest, acc')
  }

  function LoadText(text: string): Result<seq<Block>> {
    if text == "" then Err(FileRead)
    else match TakeLine(text)
      case Err(e) => Err(e)
      case Ok((line, rest)) =>
        if line != HEADER then Err(FileFormat)
        else match LoadLines(rest, [])
          case Err(e) => Err(e)
          case Ok(c) => if c == [] then Err(FileFormat) else Ok(c)
  }

  // ---- round trip ----

  lemma AppendExact(c: seq<Block>, b: Block)
    ensures AppendBlock(c, b).Ok? <==> |c| < MAX_BLOCKS && Storable(b.transactions)
    ensures AppendBlock(c, b).Ok? ==> AppendBlock(c, b).value == c + [b]
  {
    AddAllExact(b.(transactions := []), b.transactions);
    assert [] + b.transactions == b.transactions;
  }

  lemma PrintedLine(b: Block)
    requires Printable(b)
    ensures LineText(CsvLine(b)) && '\r' !in CsvLine(b) && |CsvLine(b)| <= MAX_LINE
  {
    LineLength(b);
    CsvLineHasNo(b, '\n');
    CsvLineHasNo(b, '\r');
  }

  lemma {:induction false} PrintedLines(c: seq<Block>)
    ensures forall l :: l in CsvLines(c) ==> LineText(l)
    ensures forall l :: l in CsvLines(c) ==> |l| <= MAX_LINE
    ensures |CsvLines(c)| <= |c|
  {
    hide CsvLine, Printable;
    if c != [] {
      if Printable(c[0]) { PrintedLine(c[0]); }
      PrintedLines(c[1..]);
    }
  }

  lemma TakeFirstLine(line: string, rest: string)
    requires '\n' !in line && '\r' !in line && |line| < BUFFER_CHARS
    ensures TakeLine(line + ("\n" + rest)) == Ok((line, rest))
  {
    hide LineEnd, FindAny;
    LineEndAt(line, rest);
    FindAnyUnique(line, {'\r', '\n'}, |line|);
    assert CutLine(line) == line;
  }

  lemma {:induction false} LoadPrinted(c: seq<Block>, acc: seq<Block>)
    requires AllPrintable(c) && (forall b :: b in c ==> Shaped(b.transactions))
    requires |acc| + |c| <= MAX_BLOCKS
    ensures LoadLines(Lines(CsvLines(c)), acc) == Ok(acc + c)
    decreases |c|
  {
    hide CsvLine, Printable, FromCsv, TakeLine, AppendBlock, Shaped, CutLine, FindAny;
    if c == [] {
      assert acc + c == acc;
    } else {
      var b := c[0];
      assert b in c;
      PrintedLine(b);
      PrintThenParseShaped(b);
      TakeFirstLine(CsvLine(b), Lines(CsvLines(c[1..])));
      AppendExact(acc, b);
      LoadPrinted(c[1..], acc + [b]);
      var rest := CsvLines(c[1..]);
      assert CsvLines(c) == [CsvLine(b)] + rest;
      LoadOne(CsvLine(b), b, rest, acc);
      assert (acc + [b]) + c[1..] == acc + c;
    }
  }

  /** One line read and its block appended. */
  lemma LoadOne(line: string, b: Block, rest: seq<string>, acc: seq<Block>)
    requires LineText(line) && TakeLine(line + ("\n" + Lines(rest))) == Ok((line, Lines(rest)))
    requires FromCsv(line) == Ok(b) && AppendBlock(acc, b) == Ok(acc + [b])
    ensures LoadLines(Lines([line] + rest), acc) == LoadLines(Lines(rest), acc + [b])
  {
    hide FromCsv, AppendBlock, TakeLine;
    var lines := [line] + rest;
    assert lines[0] == line && lines[1..] == rest;
    assert Lines(lines) == line + ("\n" + Lines(rest));
  }

  lemma PrintThenParseShaped(b: Block)
    requires Printable(b) && Shaped(b.transactions)
    ensures FromCsv(CsvLine(b)) == Ok(b) && Storable(b.transactions)
  {
    RoundTripExact(b);
  }

  /** Whatever the file holds, every loaded block has the parser's shape. */
  lemma {:induction false} LoadedShape(s: string, acc: seq<Block>)
    requires AllParserShaped(acc) && LoadLines(s, acc).Ok?
    ensures AllParserShaped(LoadLines(s, acc).value)
    decreases |s|
  {
    hide FromCsv, AppendBlock, ParserShaped, CutLine;
    if s != "" {
      var (line, rest) := TakeLine(s).value;
      if line == "" {
        LoadedShape(rest, acc);
      } else {
        var b := FromCsv(line).value;
        ParserYieldsShape(line);
        AppendExact(acc, b);
        LoadedShape(rest, acc + [b]);
      }
    }
  }

  /** A saved chain is loaded back unchanged exactly when its transaction lists are Shaped. */
  lemma FileRoundTrip(c: seq<Block>)
    requires c != [] && |c| <= MAX_BLOCKS && AllPrintable(c)
    ensures LoadText(FileText(c)) == Ok(c) <==> AllShaped(c)
  {
    hide Shaped, ParserShaped, Printable, CsvLines, AllPrintable, LoadLines, TakeLine, Lines, Row;
    var body := Lines(CsvLines(c));
    HeaderLine();
    TakeFirstLine(HEADER, body);
    assert LoadText(FileText(c)) == Ok(c) <==> LoadLines(body, []) == Ok(c);
    if AllShaped(c) {
      LoadPrinted(c, []);
      assert [] + c == c;
    }
    if LoadLines(body, []) == Ok(c) {
      LoadedShape(body, []);
      ShapeIsShaped(c);
    }
  }

  lemma ShapeIsShaped(c: seq<Block>)
    requires AllParserShaped(c)
    ensures AllShaped(c)
  {
    hide Shaped;
    forall b | b in c ensures Shaped(b.transactions) { assert ParserShaped(b); }
  }

  lemma HeaderLine()
    ensures '\n' !in HEADER && '\r' !in HEADER && 0 < |HEADER| < BUFFER_CHARS
  {
    HeaderNames('\n');
    HeaderNames('\r');
  }

  lemma HeaderNames(c: char)
    requires c < ' '
    ensures c !in "index," && c !in "timestamp," && c !in "prev_hash," && c !in "merkle_root,"
    ensures c !in "nonce," && c !in "transactions"
  {
  }

  // ---- what the loader accepts ----

  function AfterLine(s: string): (rest: string)
    ensures s != "" ==> |rest| < |s|
  {
    if LineEnd(s) < |s| then s[LineEnd(s) + 1..] else ""
  }

  /** Every line fits the buffer of the C side. */
  predicate ShortLines(s: string)
    decreases |s|
  {
    s == "" || (LineEnd(s) < BUFFER_CHARS && ShortLines(AfterLine(s)))
  }

  lemma TokensCut(s: string)
    requires s != ""
    ensures Tokens(s) == (if LineEnd(s) == 0 then [] else [s[..LineEnd(s)]]) + Tokens(AfterLine(s))
  {
    hide LineEnd;
    NoTokens();
  }

  lemma FirstLine(s: string)
    ensures '\n' !in s[..LineEnd(s)]
  {
  }

  lemma LoadTooLong(s: string, acc: seq<Block>)
    requires s != "" && LineEnd(s) >= BUFFER_CHARS
    ensures LoadLines(s, acc).Err?
  {
    hide LineEnd, FromCsv, AppendBlock, CutLine;
  }

  /** The lines that count, cut where the loader cuts them. */
  function Rows(lines: seq<string>): seq<string> {
    if lines == [] then [] else (if CutLine(lines[0]) == "" then [] else [CutLine(lines[0])]) + Rows(lines[1..])
  }

  function FileRows(s: string): seq<string> { Rows(Tokens(s)) }

  /** Every row parses, to the block at the same place. */
  predicate Yields(rows: seq<string>, blocks: seq<Block>) {
    |rows| == |blocks| && forall i :: 0 <= i < |rows| ==> FromCsv(rows[i]) == Ok(blocks[i])
  }

  lemma YieldsCons(row: string, rows: seq<string>, blocks: seq<Block>)
    ensures Yields([row] + rows, blocks) <==> blocks != [] && FromCsv(row) == Ok(blocks[0]) && Yields(rows, blocks[1..])
  {
    hide FromCsv;
    var all := [row] + rows;
    assert all[0] == row && forall i :: 0 <= i < |rows| ==> all[i + 1] == rows[i];
    if blocks != [] && FromCsv(row) == Ok(blocks[0]) && Yields(rows, blocks[1..]) {
      forall i | 0 <= i < |all| ensures FromCsv(all[i]) == Ok(blocks[i]) {
        if i > 0 { assert FromCsv(rows[i - 1]) == Ok(blocks[1..][i - 1]); }
      }
    }
    if Yields(all, blocks) {
      forall i | 0 <= i < |rows| ensures FromCsv(rows[i]) == Ok(blocks[1..][i]) {
        assert FromCsv(all[i + 1]) == Ok(blocks[i + 1]);
      }
    }
  }

  lemma RowsStep(s: string)
    requires s != ""
    ensures var row := CutLine(s[..LineEnd(s)]);
            FileRows(s) == if row == "" then FileRows(AfterLine(s)) else [row] + FileRows(AfterLine(s))
  {
    hide LineEnd, Tokens, CutLine, AfterLine;
    TokensCut(s);
    var rest := Tokens(AfterLine(s));
    if LineEnd(s) == 0 {
      assert s[..0] == "" && CutLine("") == "" by { CutNothing(); }
      assert [] + rest == rest;
    } else {
      var lines := [s[..LineEnd(s)]] + rest;
      assert lines[0] == s[..LineEnd(s)] && lines[1..] == rest;
      assert [] + Rows(rest) == Rows(rest);
    }
  }

  lemma CutNothing()
    ensures CutLine("") == ""
  {
  }

  lemma NoRows()
    ensures FileRows("") == []
  {
    NoTokens();
  }

  lemma TakesLine(s: string)
    ensures TakeLine(s) == if LineEnd(s) >= BUFFER_CHARS then Err(FileFormat)
                           else Ok((CutLine(s[..LineEnd(s)]), AfterLine(s)))
  {
    hide LineEnd, CutLine;
  }

  /** One line of the loader. */
  lemma LoadStep(s: string, acc: seq<Block>)
    requires s != "" && |acc| <= MAX_BLOCKS
    ensures var row := CutLine(s[..LineEnd(s)]);
            LoadLines(s, acc) ==
            if LineEnd(s) >= BUFFER_CHARS then Err(FileFormat)
            else if row == "" then LoadLines(AfterLine(s), acc)
            else if FromCsv(row).Err? then Err(FromCsv(row).error)
            else if |acc| >= MAX_BLOCKS then Err(MemoryAllocation)
            else LoadLines(AfterLine(s), acc + [FromCsv(row).value])
  {
    hide LineEnd, FromCsv, AppendBlock, CutLine, Storable, TakeLine, AfterLine, Shaped;
    var row := CutLine(s[..LineEnd(s)]);
    TakesLine(s);
    if LineEnd(s) < BUFFER_CHARS && FromCsv(row).Ok? {
      ParserYieldsShape(row);
      AppendExact(acc, FromCsv(row).value);
      if |acc| >= MAX_BLOCKS { AppendFull(acc, FromCsv(row).value); }
    }
  }

  lemma AppendFull(c: seq<Block>, b: Block)
    requires |c| >= MAX_BLOCKS
    ensures AppendBlock(c, b) == Err(MemoryAllocation)
  {
  }

  lemma {:induction false} LoadLinesExact(s: string, acc: seq<Block>, v: seq<Block>)
    requires |acc| <= MAX_BLOCKS
    ensures LoadLines(s, acc) == Ok(v) <==>
            ShortLines(s) && |v| <= MAX_BLOCKS && acc <= v && Yields(FileRows(s), v[|acc|..])
    decreases |s|
  {
    hide LineEnd, FromCsv, CutLine, AfterLine, FileRows, Yields, LoadLines;
    if s == "" {
      NothingToLoad(acc, v);
    } else {
      LoadStep(s, acc);
      RowsStep(s);
      var row := CutLine(s[..LineEnd(s)]);
      if LineEnd(s) < BUFFER_CHARS && row == "" {
        LoadLinesExact(AfterLine(s), acc, v);
      } else if LineEnd(s) < BUFFER_CHARS {
        if acc <= v { YieldsCons(row, FileRows(AfterLine(s)), v[|acc|..]); }
        if FromCsv(row).Ok? && |acc| < MAX_BLOCKS {
          var next := acc + [FromCsv(row).value];
          LoadLinesExact(AfterLine(s), next, v);
          NextPrefix(acc, FromCsv(row).value, v);
        }
      }
    }
  }

  lemma NextPrefix(acc: seq<Block>, b: Block, v: seq<Block>)
    ensures acc + [b] <= v <==> acc <= v && |acc| < |v| && v[|acc|..][0] == b
    ensures acc + [b] <= v ==> v[|acc|..][1..] == v[|acc + [b]|..]
  {
    if acc <= v && |acc| < |v| && v[|acc|..][0] == b { assert v[..|acc| + 1] == acc + [b]; }
  }

  lemma NothingToLoad(acc: seq<Block>, v: seq<Block>)
    requires |acc| <= MAX_BLOCKS
    ensures LoadLines("", acc) == Ok(v) <==>
            ShortLines("") && |v| <= MAX_BLOCKS && acc <= v && Yields(FileRows(""), v[|acc|..])
  {
    hide FromCsv, FileRows;
    NoRows();
    if acc <= v && |v| == |acc| { assert acc == v; }
  }

  /** What the loader accepts, for every text and every chain: a header, lines that fit the buffer,
      and rows all of which parse, the chain being their blocks in order and not empty. */
  lemma LoadExact(text: string, c: seq<Block>)
    ensures LoadText(text) == Ok(c) <==>
            && text != "" && ShortLines(text) && CutLine(text[..LineEnd(text)]) == HEADER
            && c != [] && |c| <= MAX_BLOCKS && Yields(FileRows(AfterLine(text)), c)
  {
    hide LineEnd, FromCsv, CutLine, FileRows, Yields, LoadLines, Row;
    if text != "" {
      LoadLinesExact(AfterLine(text), [], c);
      assert c[0..] == c;
    }
  }

  // ---- lookups ----

  /** The first block that carries `index`. */
  function FindIndex(c: seq<Block>, index: nat): Option<Block> {
    if c == [] then None else if c[0].index == index then Some(c[0]) else FindIndex(c[1..], index)
  }

  lemma {:induction false} FindIndexFirst(c: seq<Block>, index: nat, i: nat)
    requires i < |c| && c[i].index == index && forall j :: 0 <= j < i ==> c[j].index != index
    ensures FindIndex(c, index) == Some(c[i])
  {
    if i > 0 { FindIndexFirst(c[1..], index, i - 1); }
  }

  lemma {:induction false} FindIndexAbsent(c: seq<Block>, index: nat)
    requires forall j :: 0 <= j < |c| ==> c[j].index != index
    ensures FindIndex(c, index) == None
  {
    if c != [] { FindIndexAbsent(c[1..], index); }
  }

  /** In a valid chain the search by index is array access. */
  lemma FindIndexValid(h: Hasher, c: seq<Block>, index: nat)
    requires EmptyOrValid(h, c) && |c| <= MAX_BLOCKS
    ensures FindIndex(c, index) == if index < |c| then Some(c[index]) else None
  {
    forall j | 0 <= j < |c| ensures c[j].index == j { IndexIsPosition(h, c, j); }
    if index < |c| { FindIndexFirst(c, index, index); } else { FindIndexAbsent(c, index); }
  }

  /** Block i is the first whose hash is `hash`. */
  predicate FirstWithHash(h: Hasher, c: seq<Block>, hash: string, i: int) {
    0 <= i < |c| && BlockHash(h, c[i]) == Ok(hash) && forall j :: 0 <= j < i ==> BlockHash(h, c[j]) != Ok(hash)
  }

  // ---- the array ----

  class Blockchain {
    var blocks: array<Block>
    var count: nat

    ghost predicate Valid()
      reads this
    {
      count <= blocks.Length
    }

    function View(): seq<Block>
      requires Valid()
      reads this, blocks
    {
      blocks[..count]
    }

    constructor ()
      ensures Valid() && View() == [] && fresh(blocks)
    {
      blocks := new Block[0];
      count := 0;
    }

    /** blockchain_grow: 4, then twice the capacity. */
    method Grow()
      requires Valid()
      modifies this`blocks
      ensures Valid() && View() == old(View()) && fresh(blocks)
      ensures blocks.Length == if old(blocks.Length) == 0 then 4 else 2 * old(blocks.Length)
    {
      var capacity := if blocks.Length == 0 then 4 else blocks.Length * 2;
      var larger, source := new Block[capacity], blocks;
      for i := 0 to count
        invariant source == blocks == old(blocks)
        invariant larger[..i] == source[..i]
      {
        larger[i] := source[i];
      }
      blocks := larger;
    }

    /** blockchain_append: a deep copy at the end, or no change at all. */
    method Append(b: Block) returns (v: Verdict)
      requires Valid()
      modifies this, blocks
      ensures Valid() && (blocks == old(blocks) || fresh(blocks))
      ensures AppendBlock(old(View()), b) == match v case Pass => Ok(View()) case Fail(e) => Err(e)
      ensures v.Fail? ==> View() == old(View())
      ensures v.Pass? <==> old(count) < MAX_BLOCKS && Storable(b.transactions)
      ensures v.Pass? ==> View() == old(View()) + [b]
    {
      AppendExact(View(), b);
      if count >= MAX_BLOCKS { return Fail(MemoryAllocation); }
      if count == blocks.Length { Grow(); }
      var copy := AddAll(b.(transactions := []), b.transactions);
      if copy.Err? { return Fail(copy.error); }
      blocks[count] := copy.value;
      count := count + 1;
      assert View() == old(View()) + [copy.value];
      v := Pass;
    }

    /** blockchain_get_by_index. */
    method GetByIndex(index: nat) returns (r: Option<Block>)
      requires Valid()
      ensures r == FindIndex(View(), index)
    {
      for i := 0 to count
        invariant FindIndex(View(), index) == FindIndex(View()[i..], index)
      {
        assert View()[i..][0] == blocks[i] && View()[i..][1..] == View()[i + 1..];
        if blocks[i].index == index { return Some(blocks[i]); }
      }
      r := None;
    }

    /** blockchain_get_by_hash: the first block with that hash. */
    method GetByHash(h: Hasher, hash: string) returns (r: Option<Block>)
      requires Valid()
      ensures r.Some? ==> exists i :: FirstWithHash(h, View(), hash, i) && r.value == View()[i]
      ensures r.None? <==> forall b :: b in View() ==> BlockHash(h, b) != Ok(hash)
    {
      hide HashInput;
      if |hash| != HASH_LENGTH { return None; }
      for i := 0 to count
        invariant forall j :: 0 <= j < i ==> BlockHash(h, View()[j]) != Ok(hash)
      {
        var calculated := CalculateBlockHash(h, blocks[i]);
        assert View()[i] == blocks[i];
        if calculated == Ok(hash) {
          assert FirstWithHash(h, View(), hash, i);
          return Some(blocks[i]);
        }
      }
      r := None;
    }

    /** blockchain_save_csv: on success the file holds every block; a block that cannot be
        printed stops the loop and leaves the blocks before it in the file. */
    method SaveCsv() returns (v: Verdict, file: string)
      requires Valid()
      ensures v.Pass? <==> AllPrintable(View())
      ensures v.Pass? ==> file == FileText(View())
      ensures v.Fail? ==> exists n :: StopsAt(View(), n) && file == FileText(View()[..n])
    {
      hide CsvLine, Printable, FileText, ToCsv, FromCsv, Shaped, Row, CsvLines, Lines, AllPrintable;
      file := HEADER + "\n";
      ghost var c := View();
      PrintableNone(c);
      NoBlocks();
      for i := 0 to count
        invariant AllPrintable(c[..i]) && file == FileText(c[..i])
      {
        var line := CsvCodec.PrintBlock(blocks[i]);
        assert blocks[i] == c[i];
        PrintsWhenPrintable(c[i]);
        PrintableSnoc(c, i);
        if line.Err? {
          assert StopsAt(c, i);
          return Fail(line.error), file;
        }
        LinesSnoc(c, i);
        file := file + line.value + "\n";
      }
      assert c[..count] == c;
      v := Pass;
    }

    /** The reading loop of blockchain_load_csv, into a chain of its own. */
    static method ReadBlocks(text: string) returns (v: Verdict, loaded: Blockchain)
      ensures loaded.Valid() && fresh(loaded) && fresh(loaded.blocks)
      ensures LoadLines(text, []) == match v case Pass => Ok(loaded.View()) case Fail(e) => Err(e)
    {
      hide FromCsv, AppendBlock, TakeLine, ParserShaped, CsvLine, AddAll, LineSpells;
      loaded := new Blockchain();
      var rest := text;
      while rest != ""
        invariant loaded.Valid() && fresh(loaded) && fresh(loaded.blocks)
        invariant LoadLines(text, []) == LoadLines(rest, loaded.View())
        decreases |rest|
      {
        var line := TakeLine(rest);
        if line.Err? { return Fail(line.error), loaded; }
        if line.value.0 != "" {
          var b := CsvCodec.ParseBlock(line.value.0);
          if b.Err? { return Fail(b.error), loaded; }
          var appended := loaded.Append(b.value);
          if appended.Fail? { return Fail(appended.error), loaded; }
        }
        rest := line.value.1;
      }
      v := Pass;
    }

    /** blockchain_load_csv: the destination changes only after the whole file was read. */
    method LoadCsv(text: string) returns (v: Verdict)
      requires Valid()
      modifies this
      ensures Valid()
      ensures LoadText(text) == match v case Pass => Ok(View()) case Fail(e) => Err(e)
      ensures v.Fail? ==> blocks == old(blocks) && count == old(count) && View() == old(View())
      ensures v.Pass? ==> AllParserShaped(View())
    {
      hide LoadLines, TakeLine, ParserShaped, Row;
      if text == "" { return Fail(FileRead); }
      var first := TakeLine(text);
      if first.Err? { return Fail(first.error); }
      if first.value.0 != HEADER { return Fail(FileFormat); }
      var loaded;
      v, loaded := ReadBlocks(first.value.1);
      if v.Fail? { return; }
      if loaded.count == 0 { return Fail(FileFormat); }
      LoadedShape(first.value.1, []);
      blocks, count := loaded.blocks, loaded.count;
    }
  }

  lemma CsvLinesCons(b: Block, rest: seq<Block>)
    ensures CsvLines([b] + rest) == (if Printable(b) then [CsvLine(b)] else []) + CsvLines(rest)
  {
    hide Printable, CsvLine;
    var c := [b] + rest;
    assert c[0] == b && c[1..] == rest;
  }

  lemma {:induction false} CsvLinesConcat(a: seq<Block>, b: seq<Block>)
    ensures CsvLines(a + b) == CsvLines(a) + CsvLines(b)
    decreases |a|
  {
    hide CsvLines, Printable, CsvLine;
    if a == [] {
      assert a + b == b && CsvLines([]) == [] by { NoCsvLines(); }
      assert [] + CsvLines(b) == CsvLines(b);
    } else {
      var rest := a[1..];
      assert a == [a[0]] + rest && a + b == [a[0]] + (rest + b);
      CsvLinesCons(a[0], rest);
      CsvLinesCons(a[0], rest + b);
      CsvLinesConcat(rest, b);
    }
  }

  lemma NoCsvLines()
    ensures CsvLines([]) == []
  {
  }

  lemma NoBlocks()
    ensures FileText([]) == HEADER + "\n"
  {
    hide Row;
    assert HEADER + ("\n" + "") == HEADER + "\n";
  }

  lemma PrintableNone(c: seq<Block>)
    ensures AllPrintable(c[..0])
  {
  }

  lemma PrintableSnoc(c: seq<Block>, i: nat)
    requires i < |c|
    ensures AllPrintable(c) ==> Printable(c[i])
    ensures AllPrintable(c[..i]) && Printable(c[i]) ==> AllPrintable(c[..i + 1])
  {
    hide Printable;
    assert c[..i + 1] == c[..i] + [c[i]];
  }

  lemma TextSnoc(head: string, text: string, line: string)
    ensures head + ("\n" + (text + (line + ("\n" + "")))) == head + ("\n" + text) + line + "\n"
  {
  }

  lemma LinesSnoc(c: seq<Block>, i: nat)
    requires i < |c| && Printable(c[i])
    ensures FileText(c[..i + 1]) == FileText(c[..i]) + CsvLine(c[i]) + "\n"
  {
    hide CsvLine, Printable, Row;
    assert c[..i + 1] == c[..i] + [c[i]];
    CsvLinesConcat(c[..i], [c[i]]);
    assert [c[i]][1..] == [] && CsvLines([c[i]]) == [CsvLine(c[i])];
    assert [CsvLine(c[i])][1..] == [] && Lines([CsvLine(c[i])]) == CsvLine(c[i]) + ("\n" + "");
    LinesConcat(CsvLines(c[..i]), [CsvLine(c[i])]);
    TextSnoc(HEADER, Lines(CsvLines(c[..i])), CsvLine(c[i]));
  }
}
