/** The script and the C side on the same file, whatever its text. */
module AnyFile {
  import opened Text
  import opened Hex
  import opened Blocks
  import opened Merkle
  import opened Hashing
  import opened Validation
  import opened ChainFile
  import opened BashVerifier
  import opened Candidates
  import opened ShellAgreement

  // ---- rows ----

  /** A row that is the printed form of the block it parses to, with no comma in its payload. */
  predicate Canonical(row: string) {
    match FromCsv(row)
    case Err(_) => false
    case Ok(b) => CsvLine(b) == row && ',' !in Join(b.transactions)
  }

  /** The limits that only the C side has: 16 pieces of at most 255 characters, nothing after
      the closing quote, no carriage return inside. */
  predicate WithinRow(row: string) {
    && '\r' !in row && row != "" && row[|row| - 1] == '"'
    && match ReadFields(row)
       case None => false
       case Some(f) => Storable(Split(f.transactions))
  }

  /** The encodings that the script demands of a row. */
  predicate WellEncoded(f: Fields) {
    IsU64Hex(f.index) && IsU64Hex(f.timestamp) && IsU64Hex(f.nonce) && IsHash(f.previousHash) && IsHash(f.merkleRoot)
  }

  lemma CanonicalReads(row: string)
    requires Canonical(row)
    ensures ParserShaped(FromCsv(row).value) && ReadFields(row) == Some(FieldsOf(FromCsv(row).value))
    ensures WellEncoded(FieldsOf(FromCsv(row).value)) && WithinRow(row)
  {
    hide FromCsv, CsvLine, ReadFields, Join, Split, HexText, Shaped, IsHash;
    var b := FromCsv(row).value;
    ParserYieldsShape(row);
    ReadCommaFree(b);
    SplitJoin(b.transactions);
    CsvLineHasNo(b, '\r');
    assert row != "" && row[|row| - 1] == '"' by { LineEnds(b); }
  }

  lemma LineEnds(b: Block)
    ensures CsvLine(b) != "" && CsvLine(b)[|CsvLine(b)| - 1] == '"'
  {
    hide Row, Join, HexText;
    RowEnds(HeaderFields(b), Quoted(Join(b.transactions)));
  }

  lemma ReadsHex16(s: string)
    requires IsU64Hex(s)
    ensures HexValue(s) < U64_COUNT && Hex16(HexValue(s)) == s && ParseHexU64(s) == Ok(HexValue(s))
  {
    hide HexText, HexValue, StrToU64;
    Pow16Is64Bits();
    HexTextOfValue(s);
    ReadsDigits(s);
  }

  lemma ExtraEnds(rest: string, i: nat)
    requires i <= |rest|
    ensures i < |rest| && rest[i] == ',' && (rest[i + 1..] == "" || rest[i + 1..] == ",") ==> rest[|rest| - 1] == ','
  {
    if i < |rest| - 1 { assert rest[i + 1..][|rest| - i - 2] == rest[|rest| - 1]; }
  }

  /** The five fields and the quoted transactions that the script read are the row. */
  lemma FieldsAreRow(row: string)
    requires WithinRow(row)
    ensures var f := ReadFields(row).value;
            && CutFields(row, 5) ==
                 Some(([f.index, f.timestamp, f.previousHash, f.merkleRoot, f.nonce], Quoted(f.transactions)))
            && ',' !in f.transactions
  {
    hide CutFields, Row, FindAny, Split;
    RowOfCut(row, 5);
    var (f, rest) := CutFields(row, 5).value;
    var i := FindAny(rest, {','});
    RowEnds(f, rest);
    ExtraEnds(rest, i);
    assert rest[..i] == rest == Quoted(rest[1..|rest| - 1]);
    assert f == [f[0], f[1], f[2], f[3], f[4]];
    assert forall k :: 1 <= k < |rest| - 1 ==> rest[1..|rest| - 1][k - 1] == rest[k];
  }

  /** What the script reads, with the encodings it demands and within the limits, is the
      canonical row of the same block. */
  lemma ReadsCanonical(row: string)
    requires WithinRow(row) && '\n' !in row && WellEncoded(ReadFields(row).value)
    ensures Canonical(row)
  {
    hide CutFields, Row, FindAny, Split, Join, HexText, HexValue, StrToU64, ParseHexU64, ReadFields, IsHash, Storable;
    var f := ReadFields(row).value;
    FieldsAreRow(row);
    CutLineNone(row);
    ReadsHex16(f.index);
    ReadsHex16(f.timestamp);
    ReadsHex16(f.nonce);
    var header := Block(HexValue(f.index), HexValue(f.timestamp), f.previousHash, f.merkleRoot, HexValue(f.nonce), []);
    AddPieces(header, f.transactions);
    JoinSplit(f.transactions);
    RowOfCut(row, 5);
  }

  lemma CutLineNone(row: string)
    requires '\r' !in row && '\n' !in row
    ensures CutLine(row) == row
  {
    hide FindAny;
    FindAnyUnique(row, {'\r', '\n'}, |row|);
  }

  lemma AddPieces(header: Block, body: string)
    requires header.transactions == [] && Storable(Split(body))
    ensures body != "" && AddAll(header, Split(body)) == Ok(header.(transactions := Split(body)))
  {
    hide Split, FindSep;
    AddAllExact(header, Split(body));
    assert [] + Split(body) == Split(body);
    SplitStep(body);
    assert StorableTx(Split(body)[0]);
  }

  // ---- lines ----

  predicate AllCanonical(lines: seq<string>) {
    forall l :: l in lines && StripCr(l) != "" ==> Canonical(StripCr(l))
  }

  predicate AllWithin(lines: seq<string>) {
    forall l :: l in lines && StripCr(l) != "" ==> WithinRow(StripCr(l))
  }

  lemma AllCons(line: string, rest: seq<string>)
    ensures AllCanonical([line] + rest) <==> (StripCr(line) != "" ==> Canonical(StripCr(line))) && AllCanonical(rest)
    ensures AllWithin([line] + rest) <==> (StripCr(line) != "" ==> WithinRow(StripCr(line))) && AllWithin(rest)
  {
    hide StripCr, Canonical, WithinRow;
    assert forall l :: l in [line] + rest <==> l == line || l in rest;
  }

  /** Cutting at the first carriage return and dropping the last one agree on a line that has
      no other. */
  lemma CutIsStrip(line: string)
    requires '\n' !in line && '\r' !in StripCr(line)
    ensures CutLine(line) == StripCr(line)
  {
    hide FindAny;
    var cut := StripCr(line);
    assert forall j :: 0 <= j < |cut| ==> line[j] == cut[j];
    FindAnyUnique(line, {'\r', '\n'}, |cut|);
  }

  // ---- one step of both readers ----

  lemma LoadBlank(s: string, acc: seq<Block>)
    requires s != "" && LineEnd(s) < BUFFER_CHARS && StripCr(s[..LineEnd(s)]) == ""
    ensures LoadLines(s, acc) == LoadLines(AfterLine(s), acc)
  {
    hide LineEnd, FromCsv, AppendBlock, CutLine, StripCr;
    FirstLine(s);
    CutIsStrip(s[..LineEnd(s)]);
  }

  lemma LoadRow(s: string, acc: seq<Block>, b: Block)
    requires s != "" && LineEnd(s) < BUFFER_CHARS && |acc| < MAX_BLOCKS
    requires var row := StripCr(s[..LineEnd(s)]); row != "" && '\r' !in row && FromCsv(row) == Ok(b)
    requires Storable(b.transactions)
    ensures LoadLines(s, acc) == LoadLines(AfterLine(s), acc + [b])
  {
    hide LineEnd, FromCsv, AppendBlock, CutLine, StripCr, Storable;
    FirstLine(s);
    CutIsStrip(s[..LineEnd(s)]);
    AppendExact(acc, b);
  }

  lemma ShellBlank(h: Hasher, s: string, i: nat, previous: Option<Fields>)
    requires s != "" && StripCr(s[..LineEnd(s)]) == ""
    ensures RowsOk(h, Tokens(s), i, previous) <==> RowsOk(h, Tokens(AfterLine(s)), i, previous)
    ensures AllCanonical(Tokens(s)) <==> AllCanonical(Tokens(AfterLine(s)))
    ensures AllWithin(Tokens(s)) <==> AllWithin(Tokens(AfterLine(s)))
  {
    hide LineEnd, Tokens, RowOk, ReadFields, StripCr, AllCanonical, AllWithin, AfterLine;
    var line, rest := s[..LineEnd(s)], Tokens(AfterLine(s));
    TokensCut(s);
    AllCons(line, rest);
    assert [] + rest == rest;
    var lines := [line] + rest;
    assert lines[0] == line && lines[1..] == rest;
  }

  lemma ShellRow(h: Hasher, s: string, i: nat, previous: Option<Fields>)
    requires s != "" && StripCr(s[..LineEnd(s)]) != ""
    ensures var row, rest := StripCr(s[..LineEnd(s)]), Tokens(AfterLine(s));
            && (AllCanonical(Tokens(s)) <==> Canonical(row) && AllCanonical(rest))
            && (AllWithin(Tokens(s)) <==> WithinRow(row) && AllWithin(rest))
            && (RowsOk(h, Tokens(s), i, previous) <==>
                  ReadFields(row).Some? && RowOk(h, ReadFields(row).value, i, previous)
                  && RowsOk(h, rest, i + 1, ReadFields(row)))
  {
    hide LineEnd, Tokens, RowOk, ReadFields, AllCanonical, AllWithin, Canonical, WithinRow, AfterLine;
    var line, rest := s[..LineEnd(s)], Tokens(AfterLine(s));
    TokensCut(s);
    AllCons(line, rest);
    var lines := [line] + rest;
    assert lines[0] == line && lines[1..] == rest;
  }

  // ---- all rows ----

  predicate LinkedFrom(h: Hasher, c: seq<Block>, n: nat) {
    c != [] && forall j :: n <= j < |c| ==> LinkedAt(h, c, j)
  }

  /** The C side loads the rest of the text onto acc, every new block linked. */
  predicate LoadsLinked(h: Hasher, s: string, acc: seq<Block>) {
    LoadLines(s, acc).Ok? && LinkedFrom(h, LoadLines(s, acc).value, |acc|)
  }

  lemma {:induction false} LoadExtends(s: string, acc: seq<Block>)
    requires LoadLines(s, acc).Ok?
    ensures acc <= LoadLines(s, acc).value
    decreases |s|
  {
    hide FromCsv, AppendBlock, CutLine, LineEnd, Storable;
    if s != "" {
      var (line, rest) := TakeLine(s).value;
      if line == "" {
        LoadExtends(rest, acc);
      } else {
        AppendExact(acc, FromCsv(line).value);
        LoadExtends(rest, acc + [FromCsv(line).value]);
      }
    }
  }

  lemma LinkedCons(h: Hasher, s: string, acc: seq<Block>, b: Block)
    ensures LoadsLinked(h, s, acc + [b]) && LinkedAt(h, acc + [b], |acc|) <==>
            LoadLines(s, acc + [b]).Ok? && LinkedFrom(h, LoadLines(s, acc + [b]).value, |acc|)
  {
    hide LoadLines, ValidBlock, HashOf;
    if LoadLines(s, acc + [b]).Ok? {
      LoadExtends(s, acc + [b]);
      var v, n := LoadLines(s, acc + [b]).value, |acc|;
      assert v[n] == b && (n > 0 ==> v[n - 1] == (acc + [b])[n - 1]);
      assert LinkedAt(h, v, n) <==> LinkedAt(h, acc + [b], n);
    }
  }

  lemma RowEncoded(h: Hasher, f: Fields, i: nat, previous: Option<Fields>)
    requires RowOk(h, f, i, previous)
    ensures WellEncoded(f)
  {
    hide Matches, MerkleRoot, Split, HexValue;
  }

  /** A row that the C side takes as b, on top of acc. */
  lemma RowAgrees(h: Hasher, acc: seq<Block>, b: Block)
    requires |acc| < MAX_BLOCKS && ParserShaped(b)
    ensures RowOk(h, FieldsOf(b), |acc|, Previous(acc, |acc|)) <==> LinkedAt(h, acc + [b], |acc|)
    ensures Previous(acc + [b], |acc| + 1) == Some(FieldsOf(b))
  {
    hide RowOk, LinkedAt, ShellLinkedAt, FieldsOf, Shaped;
    RowOfBlock(h, acc + [b], |acc|);
    ShellIsLinked(h, acc + [b], |acc|);
  }

  lemma {:induction false} RowsAgree(h: Hasher, s: string, acc: seq<Block>)
    requires |acc| + |s| <= MAX_BLOCKS
    ensures LoadsLinked(h, s, acc) && AllCanonical(Tokens(s)) <==>
            RowsOk(h, Tokens(s), |acc|, Previous(acc, |acc|)) && ShortLines(s) && AllWithin(Tokens(s))
    decreases |s|
  {
    hide LineEnd, LoadLines, Tokens, RowsOk, RowOk, Canonical, WithinRow, AllCanonical, AllWithin;
    hide LinkedFrom, LinkedAt, FieldsOf, ReadFields, StripCr, ParserShaped, Storable, FromCsv, AfterLine;
    if s == "" {
      NothingLeft(h, acc);
    } else if LineEnd(s) >= BUFFER_CHARS {
      LoadTooLong(s, acc);
    } else if StripCr(s[..LineEnd(s)]) == "" {
      LoadBlank(s, acc);
      ShellBlank(h, s, |acc|, Previous(acc, |acc|));
      RowsAgree(h, AfterLine(s), acc);
    } else {
      ShellRow(h, s, |acc|, Previous(acc, |acc|));
      var row := StripCr(s[..LineEnd(s)]);
      if Canonical(row) {
        CanonicalRow(row);
        var b := FromCsv(row).value;
        LoadRow(s, acc, b);
        LinkedCons(h, AfterLine(s), acc, b);
        RowAgrees(h, acc, b);
        RowsAgree(h, AfterLine(s), acc + [b]);
      } else {
        NotCanonical(h, row, s, |acc|, Previous(acc, |acc|));
      }
    }
  }

  lemma NothingLeft(h: Hasher, acc: seq<Block>)
    ensures LoadsLinked(h, "", acc) <==> acc != []
    ensures Tokens("") == [] && ShortLines("") && AllCanonical([]) && AllWithin([])
    ensures RowsOk(h, [], |acc|, Previous(acc, |acc|)) <==> acc != []
  {
    hide LinkedAt, Canonical, WithinRow, FieldsOf;
    NoTokens();
  }

  lemma CanonicalRow(row: string)
    requires Canonical(row)
    ensures FromCsv(row).Ok? && ParserShaped(FromCsv(row).value) && Storable(FromCsv(row).value.transactions)
    ensures '\r' !in row && WithinRow(row) && ReadFields(row) == Some(FieldsOf(FromCsv(row).value))
  {
    hide FromCsv, ReadFields, Shaped, FieldsOf;
    CanonicalReads(row);
  }

  lemma NotCanonical(h: Hasher, row: string, s: string, i: nat, previous: Option<Fields>)
    requires !Canonical(row) && s != "" && row == StripCr(s[..LineEnd(s)])
    ensures !(WithinRow(row) && ReadFields(row).Some? && RowOk(h, ReadFields(row).value, i, previous))
  {
    hide LineEnd, Canonical, WithinRow, ReadFields, RowOk, WellEncoded;
    FirstLine(s);
    assert '\n' !in row;
    if WithinRow(row) && ReadFields(row).Some? && RowOk(h, ReadFields(row).value, i, previous) {
      RowEncoded(h, ReadFields(row).value, i, previous);
      ReadsCanonical(row);
    }
  }

  // ---- files ----

  /** The header and every row are as the printer writes them, blank lines and one carriage
      return before a newline aside. */
  predicate AsPrinted(text: string) {
    StripCr(text[..LineEnd(text)]) == HEADER && AllCanonical(Tokens(AfterLine(text)))
  }

  /** The file keeps the limits that only the C side has. */
  predicate WithinLimits(text: string) { ShortLines(text) && AllWithin(Tokens(AfterLine(text))) }

  /** For every file text without NUL bytes: the C side loads a chain from it that is valid apart from timestamps,
      and the text is as printed, exactly when the script accepts it and it keeps the limits. */
  lemma TextsAgree(h: Hasher, text: string)
    requires |text| <= MAX_BLOCKS && '\0' !in text
    ensures LoadText(text).Ok? && ValidButTime(h, LoadText(text).value) && AsPrinted(text)
            <==> Accepts(h, text) && WithinLimits(text)
  {
    hide LineEnd, LoadLines, Tokens, RowsOk, AllCanonical, AllWithin, LinkedAt, StripCr, CutLine, Row, AfterLine;
    HeaderLine();
    SameHeader();
    if text == "" || LineEnd(text) >= BUFFER_CHARS {
      EmptyText(h, text);
    } else if StripCr(text[..LineEnd(text)]) == HEADER {
      FirstLine(text);
      CutIsStrip(text[..LineEnd(text)]);
      RowsAgree(h, AfterLine(text), []);
      AfterHeader(h, text);
    }
  }

  lemma EmptyText(h: Hasher, text: string)
    requires text == "" || LineEnd(text) >= BUFFER_CHARS
    ensures LoadText(text).Err? && !(Accepts(h, text) && WithinLimits(text))
  {
    hide LineEnd, LoadLines, Tokens, RowsOk, AllWithin, StripCr, Row;
  }

  lemma AfterHeader(h: Hasher, text: string)
    requires text != "" && LineEnd(text) < BUFFER_CHARS
    requires StripCr(text[..LineEnd(text)]) == HEADER && CutLine(text[..LineEnd(text)]) == HEADER
    ensures LoadText(text).Ok? && ValidButTime(h, LoadText(text).value) <==> LoadsLinked(h, AfterLine(text), [])
    ensures ShortLines(text) <==> ShortLines(AfterLine(text))
    ensures Accepts(h, text) <==> RowsOk(h, Tokens(AfterLine(text)), 0, None)
  {
    hide LineEnd, LoadLines, RowOk, LinkedAt, StripCr, CutLine, Row;
    SameHeader();
    NoTokens();
  }

  // ---- what the script reads, and what only it accepts ----

  /** A line of six fields without commas, the last one quoted, and up to two commas behind it. */
  predicate LineFields(line: string, f: Fields, tail: string) {
    var header := [f.index, f.timestamp, f.previousHash, f.merkleRoot, f.nonce];
    && line == Row(header, Quoted(f.transactions) + tail) && tail in {"", ",", ",,"}
    && (forall x :: x in header ==> ',' !in x) && ',' !in f.transactions
  }

  lemma {:induction false} CutHoldsNoComma(s: string, n: nat)
    requires CutFields(s, n).Some?
    ensures forall x :: x in CutFields(s, n).value.0 ==> ',' !in x
    decreases n
  {
    hide CutFields, FindAny;
    if n > 0 {
      var i := FindAny(s, {','});
      CutStep(s, n);
      CutHoldsNoComma(s[i + 1..], n - 1);
      assert ',' !in s[..i];
    } else {
      CutNone(s);
    }
  }

  lemma LastField(transactions: string, tail: string)
    requires ',' !in transactions && tail in {"", ",", ",,"}
    ensures var rest := Quoted(transactions) + tail;
            var i := FindAny(rest, {','});
            && rest[..i] == Quoted(transactions)
            && (i < |rest| ==> rest[i + 1..] == "" || rest[i + 1..] == ",")
            && rest[..i][1..i - 1] == transactions
  {
    hide FindAny;
    var q := Quoted(transactions);
    var rest := q + tail;
    assert ',' !in q && forall k :: 0 <= k < |q| ==> rest[k] == q[k];
    FindAnyUnique(rest, {','}, |q|);
    assert rest[..|q|] == q && q[1..|q| - 1] == transactions;
  }

  lemma FieldsRead(line: string, f: Fields, tail: string)
    requires LineFields(line, f, tail)
    ensures ReadFields(line) == Some(f)
  {
    hide CutFields, Row, FindAny;
    CutRow([f.index, f.timestamp, f.previousHash, f.merkleRoot, f.nonce], Quoted(f.transactions) + tail);
    LastField(f.transactions, tail);
  }

  lemma QuotedBack(s: string)
    requires |s| >= 2 && s[0] == '"' && s[|s| - 1] == '"'
    ensures s == Quoted(s[1..|s| - 1])
  {
  }

  lemma TailCases(rest: string, i: nat)
    requires i <= |rest| && (i < |rest| ==> rest[i] == ',' && (rest[i + 1..] == "" || rest[i + 1..] == ","))
    ensures rest[i..] in {"", ",", ",,"}
  {
    var tail := rest[i..];
    if i < |rest| {
      assert tail == [','] + rest[i + 1..];
      if rest[i + 1..] == "" { assert tail == ","; } else { assert tail == ",,"; }
    } else {
      assert tail == "";
    }
  }

  lemma QuotedFront(rest: string, i: nat)
    requires 2 <= i <= |rest| && rest[0] == '"' && rest[i - 1] == '"'
    ensures rest == Quoted(rest[1..i - 1]) + rest[i..] && rest[..i][1..i - 1] == rest[1..i - 1]
  {
    hide Quoted;
    QuotedBack(rest[..i]);
    assert rest[..i][1..i - 1] == rest[1..i - 1] && rest == rest[..i] + rest[i..];
  }

  lemma LastFieldBack(rest: string)
    requires var i := FindAny(rest, {','}); i >= 2 && rest[0] == '"' && rest[i - 1] == '"'
    requires var i := FindAny(rest, {','}); i < |rest| ==> rest[i + 1..] == "" || rest[i + 1..] == ","
    ensures var i := FindAny(rest, {','});
            && rest == Quoted(rest[1..i - 1]) + rest[i..] && rest[i..] in {"", ",", ",,"}
            && ',' !in rest[1..i - 1] && rest[..i][1..i - 1] == rest[1..i - 1]
  {
    hide FindAny, Quoted;
    var i := FindAny(rest, {','});
    assert i < |rest| ==> rest[i] == ',';
    TailCases(rest, i);
    QuotedFront(rest, i);
    assert forall k :: 1 <= k < i - 1 ==> rest[k] != ',';
  }

  lemma ReadHasFields(line: string)
    requires ReadFields(line).Some?
    ensures exists tail :: LineFields(line, ReadFields(line).value, tail)
  {
    hide CutFields, Row, FindAny, Quoted;
    RowOfCut(line, 5);
    CutHoldsNoComma(line, 5);
    var (f, rest) := CutFields(line, 5).value;
    var i := FindAny(rest, {','});
    assert f == [f[0], f[1], f[2], f[3], f[4]];
    assert rest[..i][0] == rest[0] && rest[..i][i - 1] == rest[i - 1];
    LastFieldBack(rest);
    assert LineFields(line, ReadFields(line).value, rest[i..]);
  }

  /** What the script reads, for every line and all fields. */
  lemma ReadFieldsExact(line: string, f: Fields)
    ensures ReadFields(line) == Some(f) <==> exists tail :: LineFields(line, f, tail)
  {
    hide ReadFields, LineFields;
    if ReadFields(line) == Some(f) { ReadHasFields(line); }
    forall tail | LineFields(line, f, tail) ensures ReadFields(line) == Some(f) { FieldsRead(line, f, tail); }
  }

  /** The limits matter: for every hash function there is a file that the script accepts and the C
      side does not load. Its genesis block holds seventeen transactions. */
  lemma ScriptAcceptsMore(h: Hasher)
    ensures exists text :: Accepts(h, text) && LoadText(text).Err?
  {
    hide Row, CsvLine, Lines, RawLines, Accepts, LoadText, MerkleRoot, Join, Split, HexText, Matches;
    var ts := Copies("a", 17);
    var b := Block(0, 0, ZEROS, MerkleRoot(h, ts), 0, ts);
    var text := HEADER + ("\n" + Lines(RawLines([b])));
    PlainShaped(ts);
    SplitJoin(ts);
    JoinChars(ts, ',');
    JoinChars(ts, '\n');
    JoinChars(ts, '\r');
    assert OneLine(b) && ShellLinkedAt(h, [b], 0);
    ScriptExact(h, [b]);
    TooManyRefused(b);
    OneRowText(b);
  }

  lemma TooManyRefused(b: Block)
    requires OneLine(b) && Shaped(b.transactions) && |b.transactions| > MAX_TRANSACTIONS
    ensures FromCsv(CsvLine(b)).Err?
  {
    hide Row, Join, Split, HexText, ParseHexU64, CutFields, IsHash;
    OneLineText(b);
    CutLineNone(CsvLine(b));
    CutHeader(b);
    SplitJoin(b.transactions);
    var last := Quoted(Join(b.transactions));
    assert last[1..|last| - 1] == Join(b.transactions);
    if ParseHexU64(Hex16(b.index)).Ok? && ParseHexU64(Hex16(b.timestamp)).Ok? && ParseHexU64(Hex16(b.nonce)).Ok? {
      var header := Block(ParseHexU64(Hex16(b.index)).value, ParseHexU64(Hex16(b.timestamp)).value,
                          b.previousHash, b.merkleRoot, ParseHexU64(Hex16(b.nonce)).value, []);
      AddAllExact(header, b.transactions);
      assert [] + b.transactions == b.transactions;
    }
  }

  lemma OneRowText(b: Block)
    requires OneLine(b) && FromCsv(CsvLine(b)).Err?
    ensures LoadText(HEADER + ("\n" + Lines(RawLines([b])))).Err?
  {
    hide Row, CsvLine, FromCsv, Join, LineEnd, CutLine, LoadText, LoadLines, AfterLine;
    var line, text := CsvLine(b), HEADER + ("\n" + Lines(RawLines([b])));
    var body := Lines(RawLines([b]));
    OneLineText(b);
    assert [b][1..] == [] && RawLines([b]) == [line] + [];
    LinesCons(line, []);
    NoLines();
    assert body == line + ("\n" + "");
    LineEndAt(line, "");
    CutLineNone(line);
    LoadStep(body, []);
    HeaderLine();
    LineEndAt(HEADER, body);
    AfterHeaderIs(body);
    forall c ensures LoadText(text) != Ok(c) {
      LoadExact(text, c);
      LoadLinesExact(body, [], c);
      assert c[0..] == c;
    }
  }

  lemma AfterHeaderIs(body: string)
    ensures ShortLines(HEADER + ("\n" + body)) ==> ShortLines(body)
    ensures AfterLine(HEADER + ("\n" + body)) == body
  {
    hide Row, LineEnd;
    HeaderLine();
    LineEndAt(HEADER, body);
  }
}
