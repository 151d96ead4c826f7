/** Blocks and their CSV line (common/block.c). */
module Blocks {
  import opened Text
  import opened Hex

  const HASH_LENGTH := 64
  const MAX_TRANSACTION_LENGTH := 256
  const MAX_TRANSACTIONS := 16
  const MAX_LINE := 4293

  predicate IsHash(s: string) { |s| == HASH_LENGTH && AllLowerHex(s) }

  const ZEROS: string := HexText(0, HASH_LENGTH)

  type Digest = s: string | IsHash(s) witness ZEROS

  /** SHA-256 (FIPS 180-4) as any function from byte strings to 64 lowercase hex digits. */
  type Hasher = string -> Digest

  datatype Block = Block(
    index: U64,
    timestamp: U64,
    previousHash: string,
    merkleRoot: string,
    nonce: U64,
    transactions: seq<string>)

  lemma {:induction false} ZerosAreZeros(width: nat, i: nat)
    requires i < width
    ensures HexText(0, width)[i] == '0'
  {
    if i < width - 1 { ZerosAreZeros(width - 1, i); }
  }

  // ---- block_add_transaction and the loops that call it ----

  predicate StorableTx(t: string) { 0 < |t| < MAX_TRANSACTION_LENGTH }

  predicate Storable(ts: seq<string>) {
    |ts| <= MAX_TRANSACTIONS && forall t :: t in ts ==> StorableTx(t)
  }

  function AddTransaction(b: Block, t: string): Result<Block> {
    if !StorableTx(t) then Err(InvalidTransaction)
    else if |b.transactions| >= MAX_TRANSACTIONS then Err(InvalidBlock)
    else Ok(b.(transactions := b.transactions + [t]))
  }

  /** Adds the transactions one by one and stops at the first that is refused. */
  function AddAll(b: Block, ts: seq<string>): Result<Block>
    decreases |ts|
  {
    if ts == [] then Ok(b)
    else match AddTransaction(b, ts[0])
      case Err(e) => Err(e)
      case Ok(b') => AddAll(b', ts[1..])
  }

  lemma {:induction false} AddAllExact(b: Block, ts: seq<string>)
    requires Storable(b.transactions)
    ensures AddAll(b, ts).Ok? <==> Storable(b.transactions + ts)
    ensures AddAll(b, ts).Ok? ==> AddAll(b, ts).value == b.(transactions := b.transactions + ts)
    decreases |ts|
  {
    if ts == [] {
      assert b.transactions + ts == b.transactions;
    } else {
      var all := b.transactions + ts;
      assert ts[0] in all;
      if AddTransaction(b, ts[0]).Ok? {
        var b' := b.(transactions := b.transactions + [ts[0]]);
        assert b'.transactions + ts[1..] == all;
        AddAllExact(b', ts[1..]);
      }
    }
  }

  // ---- block_to_csv ----

  predicate PrintableTx(t: string) {
    StorableTx(t) && NoSep(t) && '"' !in t && '\n' !in t && '\r' !in t
  }

  predicate Printable(b: Block) {
    && IsHash(b.previousHash) && IsHash(b.merkleRoot)
    && 0 < |b.transactions| <= MAX_TRANSACTIONS
    && forall t :: t in b.transactions ==> PrintableTx(t)
  }

  function HeaderFields(b: Block): seq<string> {
    [Hex16(b.index), Hex16(b.timestamp), b.previousHash, b.merkleRoot, Hex16(b.nonce)]
  }

  function Quoted(s: string): string { "\"" + s + "\"" }

  function CsvLine(b: Block): string { Row(HeaderFields(b), Quoted(Join(b.transactions))) }

  function ToCsv(b: Block): Result<string> {
    if !IsHash(b.previousHash) || !IsHash(b.merkleRoot) then Err(InvalidBlock)
    else if !(0 < |b.transactions| <= MAX_TRANSACTIONS) then Err(InvalidBlock)
    else if exists t :: t in b.transactions && !PrintableTx(t) then Err(InvalidTransaction)
    else Ok(CsvLine(b))
  }

  lemma PrintsWhenPrintable(b: Block)
    ensures ToCsv(b).Ok? <==> Printable(b)
    ensures Printable(b) ==> ToCsv(b) == Ok(CsvLine(b))
    ensures ToCsv(b) == Err(InvalidTransaction) <==>
              && IsHash(b.previousHash) && IsHash(b.merkleRoot)
              && 0 < |b.transactions| <= MAX_TRANSACTIONS && !Printable(b)
    ensures ToCsv(b).Err? ==> ToCsv(b).error in {InvalidBlock, InvalidTransaction}
  {
  }

  // ---- block_from_csv ----

  /** The line up to its first carriage return or newline. */
  function CutLine(line: string): string { line[..FindAny(line, {'\r', '\n'})] }

  function ParseFields(f: seq<string>, body: string): Result<Block>
    requires |f| == 5
  {
    match (ParseHexU64(f[0]), ParseHexU64(f[1]), ParseHexU64(f[4]))
    case (Ok(index), Ok(timestamp), Ok(nonce)) =>
      if !IsHash(f[2]) || !IsHash(f[3]) || body == "" then Err(FileFormat)
      else AddAll(Block(index, timestamp, f[2], f[3], nonce, []), Split(body))
    case _ => Err(FileFormat)
  }

  function FromCsv(line: string): Result<Block> {
    match CutFields(CutLine(line), 5)
    case None => Err(FileFormat)
    case Some((f, last)) =>
      if |f| != 5 || |last| < 2 || last[0] != '"' || last[|last| - 1] != '"' then Err(FileFormat)
      else ParseFields(f, last[1..|last| - 1])
  }

  /** What every block that left the parser looks like. */
  predicate ParserShaped(b: Block) {
    && IsHash(b.previousHash) && IsHash(b.merkleRoot)
    && b.transactions != [] && Storable(b.transactions) && Shaped(b.transactions)
    && forall t :: t in b.transactions ==> '\n' !in t && '\r' !in t
  }

  // ---- round trips ----

  lemma CsvLineHasNo(b: Block, c: char)
    requires IsHash(b.previousHash) && IsHash(b.merkleRoot)
    requires !IsLowerHex(c) && c != ',' && c != '"' && c != ':'
    requires forall t :: t in b.transactions ==> c !in t
    ensures c !in CsvLine(b)
  {
    JoinChars(b.transactions, c);
    RowChars(HeaderFields(b), Quoted(Join(b.transactions)), c);
  }

  /** Printing and parsing back returns the block exactly when its transaction list is
      Shaped. Quotes inside a transaction do not matter here: only the printer bans them. */
  lemma RoundTripExact(b: Block)
    requires IsHash(b.previousHash) && IsHash(b.merkleRoot)
    requires b.transactions != [] && Storable(b.transactions)
    requires forall t :: t in b.transactions ==> '\n' !in t && '\r' !in t
    ensures FromCsv(CsvLine(b)) == Ok(b) <==> Shaped(b.transactions)
  {
    var line, f, joined := CsvLine(b), HeaderFields(b), Join(b.transactions);
    CsvLineHasNo(b, '\n');
    CsvLineHasNo(b, '\r');
    FindAnyUnique(line, {'\r', '\n'}, |line|);
    assert CutLine(line) == line;
    CutRow(f, Quoted(joined));
    ParseHex16(b.index);
    ParseHex16(b.timestamp);
    ParseHex16(b.nonce);
    var last := Quoted(joined);
    assert last[1..|last| - 1] == joined;
    assert joined != "" by { assert b.transactions[0] in b.transactions; }
    var empty := b.(transactions := []);
    assert FromCsv(line) == AddAll(empty, Split(joined));
    AddAllExact(empty, Split(joined));
    assert [] + Split(joined) == Split(joined);
    SplitJoinExact(b.transactions);
  }

  /** Every printable block whose non-final transactions do not end in a colon is read back. */
  lemma PrintThenParse(b: Block)
    requires Printable(b)
    ensures ToCsv(b) == Ok(CsvLine(b))
    ensures FromCsv(CsvLine(b)) == Ok(b) <==>
            forall i :: 0 <= i < |b.transactions| - 1 ==> !EndsInColon(b.transactions[i])
  {
    assert forall t :: t in b.transactions ==> PrintableTx(t);
    RoundTripExact(b);
  }

  lemma FieldsYieldShape(f: seq<string>, body: string)
    requires |f| == 5 && ParseFields(f, body).Ok?
    requires '\n' !in body && '\r' !in body
    ensures ParserShaped(ParseFields(f, body).value)
  {
    var b := Block(ParseHexU64(f[0]).value, ParseHexU64(f[1]).value, f[2], f[3], ParseHexU64(f[4]).value, []);
    assert ParseFields(f, body) == AddAll(b, Split(body));
    AddAllExact(b, Split(body));
    assert [] + Split(body) == Split(body);
    SplitShaped(body);
    JoinSplit(body);
    JoinChars(Split(body), '\n');
    JoinChars(Split(body), '\r');
  }

  /** The parser only yields ParserShaped blocks, whatever the line. */
  lemma ParserYieldsShape(line: string)
    requires FromCsv(line).Ok?
    ensures ParserShaped(FromCsv(line).value)
  {
    var cut := CutLine(line);
    var (f, last) := CutFields(cut, 5).value;
    CutFieldsChars(cut, 5, '\n');
    CutFieldsChars(cut, 5, '\r');
    FieldsYieldShape(f, last[1..|last| - 1]);
  }

  lemma {:induction false} CutFieldsChars(s: string, n: nat, c: char)
    requires c !in s && CutFields(s, n).Some?
    ensures c !in CutFields(s, n).value.1
  {
    if n > 0 { CutFieldsChars(s[FindAny(s, {','}) + 1..], n - 1, c); }
  }

  /** The line, up to its end, is a row of five fields and a quoted payload that spells b. */
  predicate RowSpells(line: string, b: Block, index: string, timestamp: string, nonce: string) {
    && CutLine(line) == Row([index, timestamp, b.previousHash, b.merkleRoot, nonce], Quoted(Join(b.transactions)))
    && ParseHexU64(index) == Ok(b.index) && ParseHexU64(timestamp) == Ok(b.timestamp)
    && ParseHexU64(nonce) == Ok(b.nonce)
  }

  ghost predicate LineSpells(line: string, b: Block) {
    ParserShaped(b) && exists index, timestamp, nonce :: RowSpells(line, b, index, timestamp, nonce)
  }

  lemma HashHoldsNoComma(s: string)
    requires IsHash(s)
    ensures ',' !in s
  {
  }

  /** FromCsv on a row whose five fields hold no comma. */
  lemma FromRow(line: string, f: seq<string>, body: string)
    requires |f| == 5 && CutLine(line) == Row(f, Quoted(body)) && forall x :: x in f ==> ',' !in x
    ensures FromCsv(line) == ParseFields(f, body)
  {
    hide Row, CutFields, CutLine, ParseFields;
    CutRow(f, Quoted(body));
    var last := Quoted(body);
    assert last[0] == '"' && last[|last| - 1] == '"' && last[1..|last| - 1] == body;
  }

  lemma SpelledParses(line: string, b: Block, index: string, timestamp: string, nonce: string)
    requires ParserShaped(b) && RowSpells(line, b, index, timestamp, nonce)
    ensures FromCsv(line) == Ok(b)
  {
    hide Row, CutFields, CutLine, ParseHexU64, Join, Split, IsHash, FromCsv;
    var f, body := [index, timestamp, b.previousHash, b.merkleRoot, nonce], Join(b.transactions);
    NumberHoldsNoComma(index);
    NumberHoldsNoComma(timestamp);
    NumberHoldsNoComma(nonce);
    HashHoldsNoComma(b.previousHash);
    HashHoldsNoComma(b.merkleRoot);
    FromRow(line, f, body);
    SplitJoin(b.transactions);
    AddAllExact(b.(transactions := []), b.transactions);
    assert [] + b.transactions == b.transactions;
    JoinNotEmpty(b.transactions);
  }

  lemma JoinNotEmpty(ts: seq<string>)
    requires ts != [] && ts[0] != ""
    ensures Join(ts) != ""
  {
  }

  lemma ParsedSpells(line: string, b: Block)
    requires FromCsv(line) == Ok(b)
    ensures LineSpells(line, b)
  {
    hide Row, CutFields, ParseHexU64, Join, Split, IsHash, Shaped;
    var cut := CutLine(line);
    var (f, last) := CutFields(cut, 5).value;
    var body := last[1..|last| - 1];
    RowOfCut(cut, 5);
    assert f == [f[0], f[1], f[2], f[3], f[4]];
    assert last == Quoted(body);
    ParserYieldsShape(line);
    var empty := Block(ParseHexU64(f[0]).value, ParseHexU64(f[1]).value, f[2], f[3], ParseHexU64(f[4]).value, []);
    AddAllExact(empty, Split(body));
    assert [] + Split(body) == Split(body);
    JoinSplit(body);
    assert RowSpells(line, b, f[0], f[1], f[4]);
  }

  /** What the parser accepts, for every line and every block: exactly the rows that spell the
      block, the payload between quotes. */
  lemma ParserExact(line: string, b: Block)
    ensures FromCsv(line) == Ok(b) <==> LineSpells(line, b)
  {
    hide FromCsv, ParserShaped, RowSpells;
    if FromCsv(line) == Ok(b) { ParsedSpells(line, b); }
    forall index, timestamp, nonce | ParserShaped(b) && RowSpells(line, b, index, timestamp, nonce)
      ensures FromCsv(line) == Ok(b)
    {
      SpelledParses(line, b, index, timestamp, nonce);
    }
  }

  /** The first transaction that cannot be added decides the error. */
  lemma {:induction false} AddAllRefuses(b: Block, ts: seq<string>, i: nat)
    requires Storable(b.transactions) && i < |ts| && |b.transactions| + i <= MAX_TRANSACTIONS
    requires (forall j :: 0 <= j < i ==> StorableTx(ts[j]))
    requires !StorableTx(ts[i]) || |b.transactions| + i == MAX_TRANSACTIONS
    ensures AddAll(b, ts) == Err(if StorableTx(ts[i]) then InvalidBlock else InvalidTransaction)
    decreases i
  {
    if i > 0 {
      var b' := b.(transactions := b.transactions + [ts[0]]);
      assert StorableTx(ts[0]) && ts[1..][i - 1] == ts[i];
      AddAllRefuses(b', ts[1..], i - 1);
    }
  }

  lemma NoCommaNoBlock(payload: string)
    requires ',' !in payload
    ensures FromCsv(payload).Err?
  {
    var cut := CutLine(payload);
    FindAnyUnique(cut, {','}, |cut|);
  }

  lemma EmptyPayload()
    ensures FromCsv("").Err?
  {
    NoCommaNoBlock("");
  }

  /** Normal form: for every line, the parsed block printed and parsed again is the same block. */
  lemma ParserNormalForm(line: string)
    requires FromCsv(line).Ok?
    ensures FromCsv(CsvLine(FromCsv(line).value)) == FromCsv(line)
    ensures Printable(FromCsv(line).value) <==>
            forall t :: t in FromCsv(line).value.transactions ==> '"' !in t
  {
    ParserYieldsShape(line);
    RoundTripExact(FromCsv(line).value);
  }

  lemma ShapedRoundTrip(b: Block)
    requires ParserShaped(b)
    ensures FromCsv(CsvLine(b)) == Ok(b)
  {
    RoundTripExact(b);
  }

  lemma JoinTwo(s: string, t: string)
    ensures Join([s, t]) == s + ("::" + t)
  {
    assert [s, t][1..] == [t];
  }

  /** Two different lists can print alike: moving a colon across the separator changes the
      block and not the line, and the parser picks the second reading. */
  lemma ColonAmbiguity(b: Block, s: string, t: string)
    requires IsHash(b.previousHash) && IsHash(b.merkleRoot)
    requires PrintableTx(s + ":") && PrintableTx(":" + t) && PrintableTx(s) && PrintableTx(t)
    ensures var x, y := b.(transactions := [s + ":", t]), b.(transactions := [s, ":" + t]);
            Printable(x) && Printable(y) && x != y && CsvLine(x) == CsvLine(y) && FromCsv(CsvLine(x)) == Ok(y)
  {
    var x, y := b.(transactions := [s + ":", t]), b.(transactions := [s, ":" + t]);
    JoinTwo(s + ":", t);
    JoinTwo(s, ":" + t);
    assert (s + ":") + ("::" + t) == s + ("::" + (":" + t));
    assert x.transactions[0] != y.transactions[0];
    assert !SepAt(s + ":", |s| - 1);
    RoundTripExact(y);
  }

  // ---- lengths ----

  /** The printed length is the precomputed one and never exceeds 4293 bytes. */
  lemma LineLength(b: Block)
    requires Printable(b)
    ensures |CsvLine(b)| == 183 + JoinedLength(b.transactions) <= MAX_LINE
  {
    JoinedLengthExact(b.transactions);
    JoinedLengthBound(b.transactions, MAX_TRANSACTION_LENGTH - 1);
    HeaderLength(b, Quoted(Join(b.transactions)));
  }

  lemma HeaderLength(b: Block, last: string)
    requires IsHash(b.previousHash) && IsHash(b.merkleRoot)
    ensures |Row(HeaderFields(b), last)| == 181 + |last|
  {
    var f := HeaderFields(b);
    assert f[1..][0] == f[1] && f[2..][0] == f[2] && f[3..][0] == f[3] && f[4..][0] == f[4];
    assert f[1..][1..] == f[2..] && f[2..][1..] == f[3..] && f[3..][1..] == f[4..] && f[4..][1..] == [];
    assert |Row(f[4..], last)| == 17 + |last|;
    assert |Row(f[3..], last)| == 65 + |Row(f[4..], last)|;
    assert |Row(f[2..], last)| == 65 + |Row(f[3..], last)|;
    assert |Row(f[1..], last)| == 17 + |Row(f[2..], last)|;
  }
}
