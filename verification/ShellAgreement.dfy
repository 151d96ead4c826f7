/** How the shell verifier compares with the C validation on saved chains. */
module ShellAgreement {
  import opened Text
  import opened Hex
  import opened Blocks
  import opened Merkle
  import opened Hashing
  import opened Validation
  import opened ChainFile
  import opened BashVerifier
  import opened Candidates

  // ---- validity apart from time ----

  /** validate_blockchain without its timestamp test. */
  predicate LinkedAt(h: Hasher, c: seq<Block>, i: int)
    requires 0 <= i < |c|
  {
    && ValidBlock(h, c[i]) && c[i].index == i
    && (i > 0 ==> c[i].previousHash == HashOf(h, c[i - 1]))
  }

  predicate ValidButTime(h: Hasher, c: seq<Block>) {
    c != [] && forall i :: 0 <= i < |c| ==> LinkedAt(h, c, i)
  }

  predicate TimesRise(c: seq<Block>) { forall i :: 1 <= i < |c| ==> TimeStep(c, i) }

  predicate TimeStep(c: seq<Block>, i: int)
    requires 1 <= i < |c|
  {
    c[i - 1].timestamp <= c[i].timestamp
  }

  lemma ValidSplitsTime(h: Hasher, c: seq<Block>)
    requires |c| <= MAX_BLOCKS
    ensures ValidChain(h, c) <==> ValidButTime(h, c) && TimesRise(c)
  {
    hide ValidBlock, HashInput;
    if ValidChain(h, c) {
      forall i | 0 <= i < |c| ensures LinkedAt(h, c, i) {
        IndexIsPosition(h, c, i);
        if i > 0 { assert LinkAt(h, c, i); }
      }
      forall i | 1 <= i < |c| ensures TimeStep(c, i) { assert LinkAt(h, c, i); }
    }
    if ValidButTime(h, c) && TimesRise(c) {
      assert LinkedAt(h, c, 0);
      forall i | 0 <= i < |c| ensures ValidBlock(h, c[i]) { assert LinkedAt(h, c, i); }
      forall i | 1 <= i < |c| ensures LinkAt(h, c, i) {
        assert LinkedAt(h, c, i - 1) && LinkedAt(h, c, i) && TimeStep(c, i);
      }
    }
  }

  // ---- one row ----

  function FieldsOf(b: Block): Fields {
    Fields(Hex16(b.index), Hex16(b.timestamp), b.previousHash, b.merkleRoot, Hex16(b.nonce), Join(b.transactions))
  }

  lemma CommaInQuotes(joined: string)
    requires '"' !in joined
    ensures var last := Quoted(joined);
            var i := FindAny(last, {','});
            if ',' in joined
            then i < |last| && (i < 2 || last[..i][i - 1] != '"') && i + 1 < |last| && last[i + 1..] != ","
            else i == |last|
  {
    var last := Quoted(joined);
    var i := FindAny(last, {','});
    assert last[0] == '"' && last[|last| - 1] == '"' && last[1..|last| - 1] == joined;
    assert forall k :: 0 <= k < |joined| ==> last[k + 1] == joined[k];
    if ',' in joined {
      var j :| 0 <= j < |joined| && joined[j] == ',';
      assert last[j + 1] == ',';
      assert i >= 2 ==> last[..i][i - 1] == joined[i - 2];
      assert last[i + 1..][|last| - i - 2] == '"';
    }
  }

  predicate HashFieldsOk(b: Block) { IsHash(b.previousHash) && IsHash(b.merkleRoot) }

  /** The header fields of a row hold no comma. */
  lemma CutHeader(b: Block)
    requires HashFieldsOk(b)
    ensures CutFields(CsvLine(b), 5) == Some((HeaderFields(b), Quoted(Join(b.transactions))))
  {
    hide Join, Row, CutFields, HexText;
    CutRow(HeaderFields(b), Quoted(Join(b.transactions)));
  }

  /** A line as the printer writes it is read back field by field if no comma cuts it. */
  lemma ReadCommaFree(b: Block)
    requires HashFieldsOk(b) && ',' !in Join(b.transactions)
    ensures ReadFields(CsvLine(b)) == Some(FieldsOf(b))
  {
    hide Join, Row, CutFields, FindAny, HexText, CsvLine;
    var joined := Join(b.transactions);
    var last := Quoted(joined);
    CutHeader(b);
    FindAnyUnique(last, {','}, |last|);
    assert last[..|last|] == last && last[1..|last| - 1] == joined;
  }

  /** A printed line is read back field by field, unless a comma in the payload cuts it. */
  lemma ReadPrinted(b: Block)
    requires Printable(b)
    ensures ReadFields(CsvLine(b)) == if ',' in Join(b.transactions) then None else Some(FieldsOf(b))
  {
    hide Join, Row, CutFields, FindAny, NoSep, HexText, CsvLine;
    var joined := Join(b.transactions);
    if ',' in joined {
      CutHeader(b);
      JoinChars(b.transactions, '"');
      CommaInQuotes(joined);
    } else {
      ReadCommaFree(b);
    }
  }

  /** The transactions as the script reads them back from the line. */
  function Pieces(b: Block): seq<string> { Split(Join(b.transactions)) }

  /** The payload as the script sees it: no empty piece, and the stored root is theirs. */
  predicate Rereads(h: Hasher, b: Block) {
    (forall p :: p in Pieces(b) ==> p != "") && MerkleRoot(h, Pieces(b)) == b.merkleRoot
  }

  /** The checks of the script on block i of a chain. */
  predicate ShellLinkedAt(h: Hasher, c: seq<Block>, i: int)
    requires 0 <= i < |c|
  {
    && HashFieldsOk(c[i]) && c[i].index == i && Rereads(h, c[i])
    && (i > 0 ==> forall p :: p in Pieces(c[i]) ==> Matches(p))
    && (i > 0 ==> c[i].previousHash == HashOf(h, c[i - 1]))
  }

  lemma HashFieldsIsHash(h: Hasher, b: Block)
    ensures HashFields(h, FieldsOf(b)) == HashOf(h, b)
  {
    hide Join, HexText;
  }

  lemma SignedIndex(b: Block, i: nat)
    requires i <= MAX_BLOCKS
    ensures IsU64Hex(Hex16(b.index))
    ensures ToSigned(HexValue(Hex16(b.index))) == i < MAX_BLOCKS <==> b.index == i < MAX_BLOCKS
  {
    hide HexText, HexValue;
    Pow16Is64Bits();
    HexRoundTrip(b.index, 16);
  }

  /** The fields of block i, checked after those of block i - 1. */
  lemma RowOfBlock(h: Hasher, c: seq<Block>, i: nat)
    requires i < |c| <= MAX_BLOCKS
    ensures RowOk(h, FieldsOf(c[i]), i, if i == 0 then None else Some(FieldsOf(c[i - 1]))) <==> ShellLinkedAt(h, c, i)
  {
    hide Matches, MerkleRoot, HexValue, Join, HexText, Split, HashFields, HashOf, ToSigned, IsHash, AllLowerHex;
    SignedIndex(c[i], i);
    SignedIndex(c[i].(index := c[i].timestamp), i);
    SignedIndex(c[i].(index := c[i].nonce), i);
    if i > 0 { HashFieldsIsHash(h, c[i - 1]); }
  }

  /** On the lists that the parser yields the script checks what the C side checks. */
  lemma ShellIsLinked(h: Hasher, c: seq<Block>, i: nat)
    requires i < |c| && Storable(c[i].transactions) && c[i].transactions != [] && Shaped(c[i].transactions)
    ensures Pieces(c[i]) == c[i].transactions
    ensures ShellLinkedAt(h, c, i) <==> LinkedAt(h, c, i)
  {
    hide Matches, MerkleRoot, Join, Split, HashOf, IsHash, Shaped;
    SplitJoin(c[i].transactions);
  }

  // ---- saved chains ----

  /** A row after the first that passes the pattern holds no comma. */
  lemma CommaBreaksRow(h: Hasher, c: seq<Block>, i: nat)
    requires 0 < i < |c| && ShellLinkedAt(h, c, i)
    ensures ',' !in Join(c[i].transactions)
  {
    hide MerkleRoot, Matches, Join, Split;
    var ps := Pieces(c[i]);
    JoinSplit(Join(c[i].transactions));
    JoinChars(ps, ',');
    forall p | p in ps ensures ',' !in p { SentenceChars(p); }
  }

  predicate RowReads(h: Hasher, c: seq<Block>, i: int)
    requires 0 <= i < |c|
  {
    ShellLinkedAt(h, c, i) && ',' !in Join(c[i].transactions)
  }

  predicate RowsRead(h: Hasher, c: seq<Block>, i: nat) { forall j :: i <= j < |c| ==> RowReads(h, c, j) }

  lemma RowsReadStep(h: Hasher, c: seq<Block>, i: nat)
    requires i < |c|
    ensures RowsRead(h, c, i) <==> RowReads(h, c, i) && RowsRead(h, c, i + 1)
  {
    hide RowReads;
  }

  lemma ShellCons(h: Hasher, line: string, rest: seq<string>, i: nat, previous: Option<Fields>)
    requires line != "" && '\r' !in line
    ensures RowsOk(h, [line] + rest, i, previous) <==>
            match ReadFields(line)
            case None => false
            case Some(f) => RowOk(h, f, i, previous) && RowsOk(h, rest, i + 1, Some(f))
  {
    hide RowOk, ReadFields;
    var lines := [line] + rest;
    assert lines[0] == line && lines[1..] == rest && StripCr(line) == line;
  }

  function Previous(c: seq<Block>, i: nat): Option<Fields>
    requires i <= |c|
  {
    if i == 0 then None else Some(FieldsOf(c[i - 1]))
  }

  lemma {:induction false} RowsOfChain(h: Hasher, c: seq<Block>, i: nat)
    requires i <= |c| <= MAX_BLOCKS && c != [] && AllPrintable(c)
    ensures RowsOk(h, CsvLines(c[i..]), i, Previous(c, i)) <==> RowsRead(h, c, i)
    decreases |c| - i
  {
    hide Printable, CsvLine, RowOk, ReadFields, ShellLinkedAt, FieldsOf, Join, RowsRead, CsvLines;
    if i < |c| {
      assert c[i] in c;
      var rest := CsvLines(c[i + 1..]);
      TailLines(c, i);
      PrintedLine(c[i]);
      ReadPrinted(c[i]);
      RowOfBlock(h, c, i);
      ShellCons(h, CsvLine(c[i]), rest, i, Previous(c, i));
      RowsOfChain(h, c, i + 1);
      RowsReadStep(h, c, i);
    } else {
      assert c[i..] == [] && CsvLines([]) == [] by { NoCsvLines(); }
      assert RowsRead(h, c, i) by { NoRows(h, c); }
    }
  }

  lemma TailLines(c: seq<Block>, i: nat)
    requires i < |c| && Printable(c[i])
    ensures CsvLines(c[i..]) == [CsvLine(c[i])] + CsvLines(c[i + 1..])
  {
    hide Printable, CsvLine;
    assert c[i..][0] == c[i] && c[i..][1..] == c[i + 1..];
  }

  lemma NoRows(h: Hasher, c: seq<Block>)
    ensures RowsRead(h, c, |c|)
  {
    hide RowReads;
  }

  predicate ShellValid(h: Hasher, c: seq<Block>) { forall i :: 0 <= i < |c| ==> ShellLinkedAt(h, c, i) }

  lemma RowsAreLinks(h: Hasher, c: seq<Block>)
    requires c != []
    ensures RowsRead(h, c, 0) <==> ShellValid(h, c) && ',' !in Join(c[0].transactions)
  {
    hide ShellLinkedAt, Join;
    assert RowReads(h, c, 0) <==> ShellLinkedAt(h, c, 0) && ',' !in Join(c[0].transactions);
    forall i | 0 < i < |c| && ShellLinkedAt(h, c, i) ensures RowReads(h, c, i) { CommaBreaksRow(h, c, i); }
    forall i | 0 <= i < |c| && RowReads(h, c, i) ensures ShellLinkedAt(h, c, i) { }
    if RowsRead(h, c, 0) { assert RowReads(h, c, 0); }
  }

  /** The script's header is the one that the C side writes. */
  lemma SameHeader()
    ensures HEADER == EXPECTED_HEADER
  {
  }

  lemma AcceptsRows(h: Hasher, lines: seq<string>)
    requires forall l :: l in lines ==> LineText(l)
    ensures Accepts(h, HEADER + ("\n" + Lines(lines))) <==> RowsOk(h, lines, 0, None)
  {
    hide RowsOk, Row, Lines, LineEnd, Tokens;
    HeaderLine();
    SameHeader();
    LineEndAt(HEADER, Lines(lines));
    TokensOfLines(lines);
  }

  lemma AcceptsSaved(h: Hasher, c: seq<Block>)
    requires AllPrintable(c)
    ensures Accepts(h, FileText(c)) <==> RowsOk(h, CsvLines(c), 0, None)
  {
    hide Printable, CsvLine, RowsOk, Row, CsvLines, Lines, Accepts;
    PrintedLines(c);
    AcceptsRows(h, CsvLines(c));
  }

  lemma ShellValidIsValid(h: Hasher, c: seq<Block>)
    requires c != [] && AllPrintable(c) && AllShaped(c)
    ensures ShellValid(h, c) <==> ValidButTime(h, c)
  {
    hide ShellLinkedAt, LinkedAt, Shaped, NoSep;
    forall i | 0 <= i < |c| ensures ShellLinkedAt(h, c, i) <==> LinkedAt(h, c, i) {
      assert c[i] in c;
      PrintableStores(c[i]);
      ShellIsLinked(h, c, i);
    }
  }

  lemma PrintableStores(b: Block)
    requires Printable(b)
    ensures Storable(b.transactions) && b.transactions != []
  {
    hide NoSep;
    assert forall t :: t in b.transactions ==> PrintableTx(t);
  }

  /** The script accepts a saved chain exactly when every block passes its checks and the
      genesis payload holds no comma. For the lists that the parser yields those checks are
      the C validation without its timestamp test. */
  lemma BashAgrees(h: Hasher, c: seq<Block>)
    requires c != [] && |c| <= MAX_BLOCKS && AllPrintable(c)
    ensures Accepts(h, FileText(c)) <==> ShellValid(h, c) && ',' !in Join(c[0].transactions)
    ensures AllShaped(c) ==> (ShellValid(h, c) <==> ValidButTime(h, c))
  {
    hide AllPrintable, AllShaped, ShellValid, Join, RowsOk, FileText, Accepts, CsvLines, RowsRead;
    AcceptsSaved(h, c);
    assert c[0..] == c;
    RowsOfChain(h, c, 0);
    RowsAreLinks(h, c);
    if AllShaped(c) { ShellValidIsValid(h, c); }
  }

  /** What the C side accepts and saves, the script accepts, with exactly two exceptions, both in
      the genesis payload: a comma, or a list that does not survive its own line. Every other
      block of a valid chain does, and so does every list that the parser yields. */
  lemma CAcceptanceImpliesBash(h: Hasher, c: seq<Block>)
    requires ValidChain(h, c) && |c| <= MAX_BLOCKS && AllPrintable(c)
    ensures Accepts(h, FileText(c)) <==> ',' !in Join(c[0].transactions) && Rereads(h, c[0])
    ensures Shaped(c[0].transactions) ==> Rereads(h, c[0])
  {
    hide ValidChain, AllPrintable, Shaped, Join, LinkedAt, ShellLinkedAt, Rereads, FileText, Accepts, AllShaped;
    ValidSplitsTime(h, c);
    BashAgrees(h, c);
    forall i | 0 < i < |c| ensures ShellLinkedAt(h, c, i) { LaterBlock(h, c, i); }
    assert LinkedAt(h, c, 0);
    GenesisBlock(h, c);
  }

  lemma LaterBlock(h: Hasher, c: seq<Block>, i: nat)
    requires 0 < i < |c| && LinkedAt(h, c, i)
    ensures ShellLinkedAt(h, c, i)
  {
    hide ShellLinkedAt, Shaped, Storable, MerkleRoot, Matches, HashOf;
    ValidIsPrintable(h, c[i]);
    ShellIsLinked(h, c, i);
  }

  lemma GenesisBlock(h: Hasher, c: seq<Block>)
    requires c != [] && LinkedAt(h, c, 0)
    ensures ShellLinkedAt(h, c, 0) <==> Rereads(h, c[0])
    ensures Shaped(c[0].transactions) ==> Rereads(h, c[0])
  {
    hide Rereads, Shaped, MerkleRoot, Matches, IsHash;
    if Shaped(c[0].transactions) {
      assert forall t :: t in c[0].transactions ==> AllowedTx(0, t);
      ShellIsLinked(h, c, 0);
    }
  }

  // ---- rows of any size ----

  /** A row that reads as one line and six fields; nothing is asked of its transactions' number or
      length. */
  predicate OneLine(b: Block) {
    var joined := Join(b.transactions);
    HashFieldsOk(b) && ',' !in joined && '\n' !in joined && '\r' !in joined
  }

  function RawLines(c: seq<Block>): seq<string> { if c == [] then [] else [CsvLine(c[0])] + RawLines(c[1..]) }

  lemma OneLineText(b: Block)
    requires OneLine(b)
    ensures LineText(CsvLine(b)) && '\r' !in CsvLine(b)
  {
    hide Row, HexText, CsvLine, Join;
    JoinChars(b.transactions, '\n');
    JoinChars(b.transactions, '\r');
    CsvLineHasNo(b, '\n');
    CsvLineHasNo(b, '\r');
    NotEmptyRow(b);
  }

  lemma NotEmptyRow(b: Block)
    ensures CsvLine(b) != ""
  {
    hide Row, HexText, Join;
    RowEnds(HeaderFields(b), Quoted(Join(b.transactions)));
  }

  lemma {:induction false} RawRows(h: Hasher, c: seq<Block>, i: nat)
    requires i <= |c| <= MAX_BLOCKS && c != [] && forall b :: b in c ==> OneLine(b)
    ensures RowsOk(h, RawLines(c[i..]), i, Previous(c, i)) <==> forall j :: i <= j < |c| ==> ShellLinkedAt(h, c, j)
    ensures forall l :: l in RawLines(c[i..]) ==> LineText(l)
    decreases |c| - i
  {
    hide CsvLine, RowOk, ReadFields, ShellLinkedAt, FieldsOf, Join, HashFieldsOk;
    if i < |c| {
      assert c[i] in c && OneLine(c[i]) && c[i..][0] == c[i] && c[i..][1..] == c[i + 1..];
      OneLineText(c[i]);
      ReadCommaFree(c[i]);
      RowOfBlock(h, c, i);
      ShellCons(h, CsvLine(c[i]), RawLines(c[i + 1..]), i, Previous(c, i));
      RawRows(h, c, i + 1);
      assert RawLines(c[i..]) == [CsvLine(c[i])] + RawLines(c[i + 1..]);
      assert (forall j :: i <= j < |c| ==> ShellLinkedAt(h, c, j))
        <==> ShellLinkedAt(h, c, i) && forall j :: i + 1 <= j < |c| ==> ShellLinkedAt(h, c, j);
    } else {
      assert c[i..] == [];
    }
  }

  /** The script on rows of any size: it accepts exactly if every block passes its checks. It knows
      no limit on the number or the length of transactions. */
  lemma ScriptExact(h: Hasher, c: seq<Block>)
    requires c != [] && |c| <= MAX_BLOCKS && forall b :: b in c ==> OneLine(b)
    ensures Accepts(h, HEADER + ("\n" + Lines(RawLines(c)))) <==> ShellValid(h, c)
  {
    hide CsvLine, OneLine, RowsOk, Row, Lines, RawLines, Accepts, ShellLinkedAt;
    assert c[0..] == c;
    RawRows(h, c, 0);
    AcceptsRows(h, RawLines(c));
  }

  /** The converse fails for every hash function: a block older than its predecessor is loaded
      and rejected by the C side and accepted by the script. */
  lemma BashIgnoresTime(h: Hasher)
    ensures exists c :: LoadText(FileText(c)) == Ok(c) && !ValidChain(h, c) && Accepts(h, FileText(c))
  {
    hide Matches, CsvLine, FromCsv, HashInput, MerkleRoot, Printable, ParserShaped, ValidBlock;
    hide FileText, Accepts, LoadText;
    SampleTx();
    var batch := [SAMPLE_TX];
    var g := Candidate(h, 0, ZEROS, 1, 0, batch);
    CandidateValid(h, 0, ZEROS, 1, 0, batch);
    var b := Candidate(h, 1, HashOf(h, g), 0, 0, batch);
    CandidateValid(h, 1, HashOf(h, g), 0, 0, batch);
    var c := [g, b];
    assert AllPrintable(c) && AllShaped(c) by { ShapeIsShaped(c); }
    assert LinkedAt(h, c, 0) && LinkedAt(h, c, 1);
    assert !TimeStep(c, 1);
    ValidSplitsTime(h, c);
    ValidTxShape(SAMPLE_TX);
    JoinChars(batch, ',');
    BashAgrees(h, c);
    FileRoundTrip(c);
  }
}
