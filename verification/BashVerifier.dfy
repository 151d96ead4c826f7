/** The shell verifier (bash/blockchain.sh). */
module BashVerifier {
  import opened Text
  import opened Hex
  import opened Blocks
  import opened Merkle
  import opened Validation
  import opened ChainFile

  const EXPECTED_HEADER := "index," + "timestamp," + "prev_hash," + "merkle_root," + "nonce," + "transactions"

  // ---- fields ----

  /** The six fields of a row as text, the transactions without their quotes. */
  datatype Fields = Fields(
    index: string,
    timestamp: string,
    previousHash: string,
    merkleRoot: string,
    nonce: string,
    transactions: string)

  predicate IsU64Hex(s: string) { |s| == 16 && AllLowerHex(s) }

  /** IFS=',' read with seven variables, the emptiness and quoting tests, and the removal of
      the quotes. The seventh variable takes what follows the sixth comma; read drops that
      text when it is one more comma. */
  function ReadFields(line: string): Option<Fields> {
    match CutFields(line, 5)
    case None => None
    case Some((f, rest)) =>
      var i := FindAny(rest, {','});
      var transactions := rest[..i];
      var extra := if i < |rest| then rest[i + 1..] else "";
      if |f| != 5 || (extra != "" && extra != ",") then None
      else if |transactions| < 2 || transactions[0] != '"' || transactions[|transactions| - 1] != '"' then None
      else Some(Fields(f[0], f[1], f[2], f[3], f[4], transactions[1..|transactions| - 1]))
  }

  /** A 64-bit shell integer. */
  function ToSigned(n: nat): int { if n < MAX_BLOCKS then n else n - U64_COUNT }

  /** split_transactions fails on any empty piece. */
  predicate SplitOk(s: string) { forall p :: p in Split(s) ==> p != "" }

  function HashFields(h: Hasher, f: Fields): Digest {
    h(f.index + f.timestamp + f.previousHash + f.merkleRoot + f.nonce + f.transactions)
  }

  /** The checks on one row, given the row before it. */
  predicate RowOk(h: Hasher, f: Fields, expected: nat, previous: Option<Fields>) {
    && IsU64Hex(f.index) && IsU64Hex(f.timestamp) && IsU64Hex(f.nonce)
    && IsHash(f.previousHash) && IsHash(f.merkleRoot)
    && ToSigned(HexValue(f.index)) == expected
    && SplitOk(f.transactions)
    && (expected > 0 ==> forall t :: t in Split(f.transactions) ==> Matches(t))
    && MerkleRoot(h, Split(f.transactions)) == f.merkleRoot
    && (expected > 0 ==> previous.Some? && f.previousHash == HashFields(h, previous.value))
  }

  /** One trailing carriage return is dropped. */
  function StripCr(s: string): string {
    if s != "" && s[|s| - 1] == '\r' then s[..|s| - 1] else s
  }

  predicate RowsOk(h: Hasher, lines: seq<string>, expected: nat, previous: Option<Fields>)
    decreases |lines|
  {
    if lines == [] then expected > 0
    else
      var line := StripCr(lines[0]);
      if line == "" then RowsOk(h, lines[1..], expected, previous)
      else match ReadFields(line)
        case None => false
        case Some(f) => RowOk(h, f, expected, previous) && RowsOk(h, lines[1..], expected + 1, Some(f))
  }

  /** verify_blockchain on the text of a file. */
  predicate Accepts(h: Hasher, text: string) {
    var i := LineEnd(text);
    i < |text| && StripCr(text[..i]) == EXPECTED_HEADER && RowsOk(h, Tokens(text[i + 1..]), 0, None)
  }

  // ---- the loops of the script ----

  /** split_transactions. */
  method SplitTransactions(input: string) returns (ok: bool, parts: seq<string>)
    ensures ok <==> SplitOk(input)
    ensures ok ==> parts == Split(input)
  {
    hide FindSep, Split;
    parts := [];
    var remaining := input;
    assert [] + Split(input) == Split(input);
    while FindSep(remaining) < |remaining|
      invariant Split(input) == parts + Split(remaining)
      invariant forall p :: p in parts ==> p != ""
      decreases |remaining|
    {
      var sep := FindSep(remaining);
      var piece, rest := remaining[..sep], remaining[sep + 2..];
      SplitStep(remaining);
      Append(parts, piece, Split(rest));
      if piece == "" { return false, parts; }
      parts, remaining := parts + [piece], rest;
    }
    SplitStep(remaining);
    Append(parts, remaining, []);
    if remaining == "" { return false, parts; }
    parts := parts + [remaining];
    assert parts == Split(input);
    ok := true;
  }

  lemma Append(parts: seq<string>, piece: string, rest: seq<string>)
    ensures parts + ([piece] + rest) == (parts + [piece]) + rest
    ensures piece in parts + ([piece] + rest)
    ensures parts + [piece] == parts + ([piece] + [])
  {
    assert (parts + ([piece] + rest))[|parts|] == piece;
  }

  /** The level loop of the script's calculate_merkle_root, on growing arrays. */
  method ComputeRoot(h: Hasher, txs: seq<string>) returns (root: string)
    requires txs != []
    ensures root == MerkleRoot(h, txs)
  {
    hide Node, Preimage, DepthFrom, SlotInputs, Level, Inputs;
    NoLevel(h, txs);
    var level: seq<string> := [];
    for i := 0 to |txs|
      invariant level == Level(h, txs, 0, i)
    {
      LeafSlot(h, txs, i);
      level := level + [h(txs[i])];
    }
    ghost var k := 0;
    var again := true;
    while again
      invariant |level| == Count(|txs|, k) > 0
      invariant level == Level(h, txs, k, |level|)
      invariant k <= Depth(|txs|) && (again <==> k < Depth(|txs|))
      decreases Depth(|txs|) - k
    {
      if |level| % 2 != 0 {
        PadStep(h, txs, k);
        level := level + [h("")];
      }
      level := PairLevelSeq(h, txs, k, level);
      k := k + 1;
      again := |level| != 1;
    }
    LevelAt(h, txs, k, 1, 0);
    root := level[0];
  }

  lemma NoLevel(h: Hasher, txs: seq<string>)
    ensures Level(h, txs, 0, 0) == []
  {
  }

  lemma LeafSlot(h: Hasher, txs: seq<string>, i: nat)
    requires i < |txs|
    ensures Level(h, txs, 0, i + 1) == Level(h, txs, 0, i) + [h(txs[i])]
  {
  }

  /** The inner for loop of the script's calculate_merkle_root. */
  method PairLevelSeq(h: Hasher, ghost txs: seq<string>, ghost k: nat, level: seq<string>) returns (next: seq<string>)
    requires |level| == 2 * Count(|txs|, k + 1) && level == Level(h, txs, k, |level|)
    ensures |next| == Count(|txs|, k + 1) && next == Level(h, txs, k + 1, |next|)
  {
    hide Level, Count, SlotInputs, Pair;
    next := [];
    var index := 0;
    ghost var hashed: set<string> := {};
    NoSlots(h, txs, k);
    NoSlots(h, txs, k + 1);
    while index < |level|
      invariant index == 2 * |next| <= |level|
      invariant next == Level(h, txs, k + 1, |next|)
      invariant SlotInputs(h, txs, k + 1, |next|) == SlotInputs(h, txs, k, 2 * |next|) + hashed
    {
      PairStep(h, txs, k, level, |next|, hashed);
      var combined := Pair(level[index], level[index + 1]);
      next := next + [h(combined)];
      hashed := hashed + {combined};
      index := index + 2;
    }
  }

  /** The checks of one pass through the while loop of verify_blockchain. */
  method CheckRow(h: Hasher, f: Fields, expected: nat, previous: Option<Fields>) returns (ok: bool)
    requires expected > 0 ==> previous.Some?
    ensures ok <==> RowOk(h, f, expected, previous)
  {
    hide Matches, MerkleRoot, HexValue, Split, IsHash;
    if !IsU64Hex(f.index) || !IsU64Hex(f.timestamp) || !IsU64Hex(f.nonce) { return false; }
    if !IsHash(f.previousHash) || !IsHash(f.merkleRoot) { return false; }
    if ToSigned(HexValue(f.index)) != expected { return false; }
    var split, parts := SplitTransactions(f.transactions);
    if !split { return false; }
    if expected > 0 {
      for i := 0 to |parts|
        invariant forall j :: 0 <= j < i ==> Matches(parts[j])
      {
        assert parts[i] in parts;
        if !Matches(parts[i]) { return false; }
      }
    }
    var root := ComputeRoot(h, parts);
    if root != f.merkleRoot { return false; }
    if expected > 0 && f.previousHash != HashFields(h, previous.value) { return false; }
    ok := true;
  }

  /** verify_blockchain. */
  method Verify(h: Hasher, text: string) returns (ok: bool)
    ensures ok <==> Accepts(h, text)
  {
    hide RowOk, ReadFields, StripCr, Row, Tokens, LineEnd;
    var i := LineEnd(text);
    if i == |text| { return false; }
    if StripCr(text[..i]) != EXPECTED_HEADER { return false; }
    var lines := Tokens(text[i + 1..]);
    var expected, previous := 0, None;
    ghost var all := lines;
    while lines != []
      invariant RowsOk(h, all, 0, None) <==> RowsOk(h, lines, expected, previous)
      invariant expected > 0 ==> previous.Some?
      decreases |lines|
    {
      var line := StripCr(lines[0]);
      if line != "" {
        var f := ReadFields(line);
        if f.None? { return false; }
        var row := CheckRow(h, f.value, expected, previous);
        if !row { return false; }
        previous, expected := f, expected + 1;
      }
      lines := lines[1..];
    }
    ok := expected > 0;
  }
}
