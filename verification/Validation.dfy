/** Block and chain validation (common/validation.c). */
module Validation {
  import opened Text
  import opened Hex
  import opened Blocks
  import opened Merkle
  import opened Hashing
  import CsvCodec

  /** A chain of more blocks than this does not fit in a 64-bit address space, so an append
      to it fails to allocate. */
  const MAX_BLOCKS := 0x8000_0000_0000_0000

  datatype Verdict = Pass | Fail(error: Error)

  // ---- transactions: ^[[:alnum:]]+ pays [[:alnum:]]+ [1-9][0-9]* coins$ ----

  predicate AllAlnum(s: string) { forall i :: 0 <= i < |s| ==> IsAlnum(s[i]) }

  predicate Word(s: string) { s != "" && AllAlnum(s) }

  predicate Amount(s: string) {
    s != "" && '1' <= s[0] <= '9' && forall i :: 0 <= i < |s| ==> IsDigit(s[i])
  }

  /** The three parts spell a sentence of the pattern. */
  predicate Sentence(payer: string, payee: string, amount: string) {
    Word(payer) && Word(payee) && Amount(amount)
  }

  function Spell(payer: string, payee: string, amount: string): string {
    payer + (" pays " + (payee + (" " + (amount + " coins"))))
  }

  /** The language of the pattern. */
  ghost predicate InPattern(t: string) {
    exists payer, payee, amount :: Sentence(payer, payee, amount) && t == Spell(payer, payee, amount)
  }

  /** The length of the longest prefix of letters and digits. */
  function AlnumSpan(s: string): (n: nat)
    ensures n <= |s| && AllAlnum(s[..n])
    ensures n < |s| ==> !IsAlnum(s[n])
  {
    if s == "" || !IsAlnum(s[0]) then 0
    else var n := AlnumSpan(s[1..]); assert s[..n + 1] == [s[0]] + s[1..][..n]; 1 + n
  }

  // One left-to-right pass, no backtracking.

  predicate MatchesAmount(s: string) {
    var k := AlnumSpan(s);
    Amount(s[..k]) && s[k..] == " coins"
  }

  predicate MatchesPayee(s: string) {
    var k := AlnumSpan(s);
    0 < k < |s| && s[k] == ' ' && MatchesAmount(s[k + 1..])
  }

  predicate Matches(t: string) {
    var k := AlnumSpan(t);
    0 < k <= |t| - 6 && t[k..k + 6] == " pays " && MatchesPayee(t[k + 6..])
  }

  lemma SpanOf(w: string, rest: string)
    requires AllAlnum(w) && rest != "" && !IsAlnum(rest[0])
    ensures AlnumSpan(w + rest) == |w| && (w + rest)[..|w|] == w && (w + rest)[|w|..] == rest
  {
    var s := w + rest;
    assert s[|w|] == rest[0];
    assert forall i :: 0 <= i < |w| ==> s[i] == w[i];
  }

  /** A word, then a text that starts with a blank: where the span ends and what follows it. */
  lemma WordThen(w: string, middle: string, rest: string)
    requires AllAlnum(w) && middle != "" && !IsAlnum(middle[0])
    ensures var s := w + (middle + rest);
            AlnumSpan(s) == |w| && s[..|w|] == w && s[|w|] == middle[0] && s[|w|..] == middle + rest
            && s[|w|..|w| + |middle|] == middle && s[|w| + |middle|..] == rest
  {
    SpanOf(w, middle + rest);
  }

  lemma SpellMatches(payer: string, payee: string, amount: string)
    requires Sentence(payer, payee, amount)
    ensures Matches(Spell(payer, payee, amount))
  {
    var v := amount + " coins";
    var u := payee + (" " + v);
    assert MatchesAmount(v) by { SpanOf(amount, " coins"); }
    assert MatchesPayee(u) by { WordThen(payee, " ", v); }
    WordThen(payer, " pays ", u);
  }

  lemma MatchesSpell(t: string)
    requires Matches(t)
    ensures InPattern(t)
  {
    var n := AlnumSpan(t);
    var u := t[n + 6..];
    var m := AlnumSpan(u);
    var v := u[m + 1..];
    var k := AlnumSpan(v);
    assert Sentence(t[..n], u[..m], v[..k]);
    Cut(v, k, " coins", "");
    Cut(u, m, " ", v);
    Cut(t, n, " pays ", u);
    assert " coins" + "" == " coins";
    assert t == Spell(t[..n], u[..m], v[..k]);
  }

  lemma Cut(s: string, k: nat, middle: string, rest: string)
    requires k + |middle| <= |s| && s[k..k + |middle|] == middle && s[k + |middle|..] == rest
    ensures s == s[..k] + (middle + rest)
  {
    assert s == s[..k] + s[k..k + |middle|] + s[k + |middle|..];
  }

  /** The single pass accepts exactly the language of the pattern. */
  lemma MatchesPattern(t: string)
    ensures Matches(t) <==> InPattern(t)
  {
    if Matches(t) { MatchesSpell(t); }
    forall payer, payee, amount | Sentence(payer, payee, amount) && t == Spell(payer, payee, amount)
      ensures Matches(t)
    {
      SpellMatches(payer, payee, amount);
    }
  }

  predicate Plain(s: string) { forall i :: 0 <= i < |s| ==> IsAlnum(s[i]) || s[i] == ' ' }

  lemma PlainConcat(s: string, k: nat)
    requires k <= |s| && Plain(s[..k]) && Plain(s[k..])
    ensures Plain(s)
  {
    assert s == s[..k] + s[k..];
  }

  lemma PlainCut(s: string, k: nat, middle: string, rest: string)
    requires k + |middle| <= |s| && s[k..k + |middle|] == middle && s[k + |middle|..] == rest
    requires AllAlnum(s[..k]) && Plain(middle) && Plain(rest)
    ensures Plain(s)
  {
    var u := s[k..];
    assert u[..|middle|] == middle && u[|middle|..] == rest;
    PlainConcat(u, |middle|);
    PlainConcat(s, k);
  }

  lemma AmountChars(v: string)
    requires MatchesAmount(v)
    ensures Plain(v)
  {
    hide AlnumSpan;
    PlainConcat(v, AlnumSpan(v));
  }

  lemma PayeeChars(u: string)
    requires MatchesPayee(u)
    ensures Plain(u)
  {
    hide AlnumSpan, MatchesAmount, Plain;
    var m := AlnumSpan(u);
    AmountChars(u[m + 1..]);
    assert u[m..m + 1] == " " && Plain(" ") by { OneBlank(); }
    PlainCut(u, m, " ", u[m + 1..]);
  }

  lemma OneBlank()
    ensures Plain(" ") && Plain(" pays ")
  {
  }

  /** A sentence holds letters, digits and spaces only, and at least one space. */
  lemma SentenceChars(t: string)
    requires Matches(t)
    ensures Plain(t) && ' ' in t
  {
    hide AlnumSpan, MatchesPayee, Plain;
    var n := AlnumSpan(t);
    PayeeChars(t[n + 6..]);
    OneBlank();
    PlainCut(t, n, " pays ", t[n + 6..]);
    assert t[n] == t[n..n + 6][0];
  }

  predicate ValidTx(t: string) { StorableTx(t) && Matches(t) }

  predicate AllValidTx(ts: seq<string>) { forall t :: t in ts ==> ValidTx(t) }

  lemma ValidTxShape(t: string)
    requires ValidTx(t)
    ensures PrintableTx(t) && !EndsInColon(t) && ',' !in t && LeafText(t)
  {
    SentenceChars(t);
  }

  /** Merkle binding for the lists the system stores: no sentence of the pattern is empty or
      looks like two digests. */
  lemma ValidListsBind(h: Hasher, a: seq<string>, b: seq<string>)
    requires a != [] && b != [] && AllValidTx(a) && AllValidTx(b)
    ensures MerkleRoot(h, a) == MerkleRoot(h, b)
            ==> a == b || Collision(h, MerkleInputs(h, a), MerkleInputs(h, b))
  {
    hide Matches, MerkleRoot, MerkleInputs;
    forall t | t in a || t in b ensures LeafText(t) { ValidTxShape(t); }
    if MerkleRoot(h, a) == MerkleRoot(h, b) { MerkleBinding(h, a, b); }
  }

  // ---- blocks ----

  /** The genesis block is exempt from the pattern. */
  predicate AllowedTx(index: U64, t: string) { if index == 0 then StorableTx(t) else ValidTx(t) }

  predicate ValidStructure(b: Block) {
    && IsHash(b.previousHash) && IsHash(b.merkleRoot)
    && 0 < |b.transactions| <= MAX_TRANSACTIONS
    && forall t :: t in b.transactions ==> AllowedTx(b.index, t)
  }

  /** Structure and Merkle root, as validate_block_merkle_root checks them together. */
  predicate ValidBlock(h: Hasher, b: Block) {
    ValidStructure(b) && b.merkleRoot == MerkleRoot(h, b.transactions)
  }

  predicate ValidLink(h: Hasher, previous: Block, current: Block) {
    && ValidBlock(h, previous) && ValidBlock(h, current)
    && current.index == Inc(previous.index)
    && previous.timestamp <= current.timestamp
    && current.previousHash == HashOf(h, previous)
  }

  predicate LinkAt(h: Hasher, c: seq<Block>, i: int)
    requires 1 <= i < |c|
  {
    ValidLink(h, c[i - 1], c[i])
  }

  predicate ValidChain(h: Hasher, c: seq<Block>) {
    && c != [] && c[0].index == 0
    && (forall i :: 0 <= i < |c| ==> ValidBlock(h, c[i]))
    && (forall i :: 1 <= i < |c| ==> LinkAt(h, c, i))
  }

  // ---- the checks as the code runs them ----

  /** validate_transaction. */
  method ValidateTransaction(t: string) returns (v: Verdict)
    ensures v == if StorableTx(t) && Matches(t) then Pass else Fail(InvalidTransaction)
    ensures v.Pass? <==> StorableTx(t) && InPattern(t)
  {
    MatchesPattern(t);
    if |t| == 0 || |t| >= MAX_TRANSACTION_LENGTH { return Fail(InvalidTransaction); }
    if !Matches(t) { return Fail(InvalidTransaction); }
    v := Pass;
  }

  /** validate_block_structure. */
  method ValidateStructure(b: Block) returns (v: Verdict)
    ensures v == if ValidStructure(b) then Pass else Fail(InvalidBlock)
  {
    hide Matches, IsHash;
    var previousOk := CsvCodec.IsLowercaseHexHash(b.previousHash);
    if !previousOk { return Fail(InvalidBlock); }
    var rootOk := CsvCodec.IsLowercaseHexHash(b.merkleRoot);
    if !rootOk { return Fail(InvalidBlock); }
    if |b.transactions| == 0 || |b.transactions| > MAX_TRANSACTIONS { return Fail(InvalidBlock); }
    for i := 0 to |b.transactions|
      invariant forall j :: 0 <= j < i ==> AllowedTx(b.index, b.transactions[j])
    {
      var t := b.transactions[i];
      assert t in b.transactions;
      if b.index == 0 {
        if |t| == 0 || |t| >= MAX_TRANSACTION_LENGTH { return Fail(InvalidBlock); }
      } else {
        var ok := ValidateTransaction(t);
        if ok.Fail? { return Fail(InvalidBlock); }
      }
    }
    v := Pass;
  }

  /** validate_block_merkle_root. */
  method ValidateMerkleRoot(h: Hasher, b: Block) returns (v: Verdict)
    ensures v == if ValidBlock(h, b) then Pass else Fail(InvalidBlock)
  {
    v := ValidateStructure(b);
    if v.Fail? { return; }
    var root, _ := CalculateMerkleRoot(h, b.transactions);
    v := if root.value == b.merkleRoot then Pass else Fail(InvalidBlock);
  }

  /** validate_block_link. */
  method ValidateLink(h: Hasher, previous: Block, current: Block) returns (v: Verdict)
    ensures v.Pass? <==> ValidLink(h, previous, current)
    ensures v == Fail(InvalidBlock) <==> !ValidBlock(h, previous) || !ValidBlock(h, current)
    ensures v.Fail? ==> v.error in {InvalidBlock, InvalidBlockchain}
  {
    v := ValidateMerkleRoot(h, previous);
    if v.Fail? { return; }
    v := ValidateMerkleRoot(h, current);
    if v.Fail? { return; }
    if current.index != Inc(previous.index) { return Fail(InvalidBlockchain); }
    if current.timestamp < previous.timestamp { return Fail(InvalidBlockchain); }
    var hash := CalculateBlockHash(h, previous);
    v := if hash.value == current.previousHash then Pass else Fail(InvalidBlockchain);
  }

  /** validate_blockchain. */
  method ValidateChain(h: Hasher, c: seq<Block>) returns (v: Verdict)
    ensures v == if ValidChain(h, c) then Pass else Fail(InvalidBlockchain)
  {
    hide ValidBlock, ValidLink;
    if |c| == 0 { return Fail(InvalidBlockchain); }
    if c[0].index != 0 { return Fail(InvalidBlockchain); }
    for i := 0 to |c|
      invariant forall j :: 0 <= j < i ==> ValidBlock(h, c[j])
    {
      var ok := ValidateMerkleRoot(h, c[i]);
      if ok.Fail? { return Fail(InvalidBlockchain); }
    }
    for i := 1 to |c|
      invariant forall j :: 1 <= j < i ==> LinkAt(h, c, j)
    {
      var ok := ValidateLink(h, c[i - 1], c[i]);
      assert LinkAt(h, c, i) <==> ok.Pass?;
      if ok.Fail? { return Fail(InvalidBlockchain); }
    }
    v := Pass;
  }

  // ---- incremental validation ----

  /** The checks run before an append: the block itself, then index 0 on an empty chain or the
      link to the last block. */
  predicate Acceptable(h: Hasher, c: seq<Block>, b: Block) {
    && ValidBlock(h, b)
    && if c == [] then b.index == 0 else ValidLink(h, c[|c| - 1], b)
  }

  predicate EmptyOrValid(h: Hasher, c: seq<Block>) { c == [] || ValidChain(h, c) }

  /** Checking the new block alone is the same as validating the whole longer chain. */
  lemma IncrementalIsWhole(h: Hasher, c: seq<Block>, b: Block)
    requires EmptyOrValid(h, c)
    ensures ValidChain(h, c + [b]) <==> Acceptable(h, c, b)
  {
    hide ValidBlock, ValidLink;
    var d := c + [b];
    assert d[|c|] == b && forall i :: 0 <= i < |c| ==> d[i] == c[i];
    forall i | 1 <= i < |c| ensures LinkAt(h, d, i) <==> LinkAt(h, c, i) { }
    if c == [] {
      assert ValidChain(h, d) ==> ValidBlock(h, d[0]);
    } else {
      assert LinkAt(h, d, |c|) <==> ValidLink(h, c[|c| - 1], b);
      assert ValidChain(h, d) ==> ValidBlock(h, d[|c|]) && LinkAt(h, d, |c|);
      LinkValid(h, c[|c| - 1], b);
    }
  }

  lemma LinkValid(h: Hasher, previous: Block, current: Block)
    ensures ValidLink(h, previous, current) ==> ValidBlock(h, current)
  {
  }

  lemma {:induction false} IndexIsPosition(h: Hasher, c: seq<Block>, i: nat)
    requires ValidChain(h, c) && i < |c| <= MAX_BLOCKS
    ensures c[i].index == i
  {
    if i > 0 {
      IndexIsPosition(h, c, i - 1);
      assert LinkAt(h, c, i);
    }
  }

  lemma PrefixValid(h: Hasher, c: seq<Block>, n: nat)
    requires EmptyOrValid(h, c) && n <= |c|
    ensures EmptyOrValid(h, c[..n])
  {
    var d := c[..n];
    assert forall i :: 1 <= i < |d| ==> LinkAt(h, d, i) == LinkAt(h, c, i);
  }

  /** After the genesis block every valid block can be printed, whatever its origin. */
  lemma ValidIsPrintable(h: Hasher, b: Block)
    requires ValidBlock(h, b) && b.index > 0
    ensures Printable(b) && ParserShaped(b)
  {
    forall t | t in b.transactions ensures PrintableTx(t) && !EndsInColon(t) { ValidTxShape(t); }
  }

  /** Given valid blocks as the parser yields them, only a quote in the genesis payload stops
      the printer. */
  lemma UnprintableIsQuotedGenesis(h: Hasher, b: Block)
    requires ValidBlock(h, b) && ParserShaped(b)
    ensures Printable(b) <==> !(b.index == 0 && exists t :: t in b.transactions && '"' in t)
  {
    if b.index > 0 { ValidIsPrintable(h, b); }
  }

  // ---- history binding ----

  predicate AllShaped(c: seq<Block>) { forall b :: b in c ==> Shaped(b.transactions) }

  /** Strings hashed for a chain: the inputs of its block hashes, and those of its genesis root. */
  function HashedFor(h: Hasher, c: seq<Block>): set<string>
    requires c != []
  {
    (set b | b in c :: HashInput(b)) + MerkleInputs(h, c[0].transactions)
  }

  lemma CollisionWiden(h: Hasher, xs: set<string>, ys: set<string>, xs': set<string>, ys': set<string>)
    requires Collision(h, xs, ys) && xs <= xs' && ys <= ys'
    ensures Collision(h, xs', ys')
  {
  }

  /** Two valid blocks with the same hash input are the same block, or their roots collide. */
  lemma BlocksBind(h: Hasher, a: Block, b: Block)
    requires ValidBlock(h, a) && ValidBlock(h, b) && HashInput(a) == HashInput(b)
    ensures a.index == b.index
    ensures a == b || (a.index == 0 && Collision(h, MerkleInputs(h, a.transactions), MerkleInputs(h, b.transactions)))
  {
    hide HashInput, MerkleRoot, MerkleInputs, Shaped, Matches, Collision, NoEmptyText;
    HashInputParts(a, b);
    if a.index > 0 {
      ValidIsPrintable(h, a);
      ValidIsPrintable(h, b);
      HashInputInjective(a, b);
    } else {
      ValidHasTexts(h, a);
      ValidHasTexts(h, b);
      JoinedBinding(h, a.transactions, b.transactions);
      assert a == a.(transactions := []).(transactions := a.transactions);
    }
  }

  lemma ValidHasTexts(h: Hasher, b: Block)
    requires ValidBlock(h, b)
    ensures b.transactions != [] && NoEmptyText(b.transactions)
  {
    hide Matches, MerkleRoot;
    forall i | 0 <= i < |b.transactions| ensures b.transactions[i] != "" {
      assert AllowedTx(b.index, b.transactions[i]);
    }
  }

  /** Equal tip hashes mean equal tips at equal heights, or a collision. */
  lemma TipsBind(h: Hasher, c: seq<Block>, d: seq<Block>)
    requires ValidChain(h, c) && ValidChain(h, d) && |c| <= MAX_BLOCKS && |d| <= MAX_BLOCKS
    requires HashOf(h, c[|c| - 1]) == HashOf(h, d[|d| - 1])
    ensures (|c| == |d| && c[|c| - 1] == d[|d| - 1]) || Collision(h, HashedFor(h, c), HashedFor(h, d))
  {
    hide ValidBlock, HashInput, MerkleInputs;
    var a, b := c[|c| - 1], d[|d| - 1];
    assert HashInput(a) in HashedFor(h, c) && HashInput(b) in HashedFor(h, d);
    if HashInput(a) == HashInput(b) {
      assert ValidBlock(h, a) && ValidBlock(h, b);
      BlocksBind(h, a, b);
      IndexIsPosition(h, c, |c| - 1);
      IndexIsPosition(h, d, |d| - 1);
      if a != b {
        var xs, ys := MerkleInputs(h, a.transactions), MerkleInputs(h, b.transactions);
        CollisionWiden(h, xs, ys, HashedFor(h, c), HashedFor(h, d));
      }
    }
  }

  lemma HashedForPrefix(h: Hasher, c: seq<Block>, m: nat)
    requires 0 < m <= |c|
    ensures HashedFor(h, c[..m]) <= HashedFor(h, c)
  {
    hide HashInput, MerkleInputs;
  }

  /** Two valid chains whose tips have the same hash are the same chain, lengths included, or two
      of the strings hashed for them collide. */
  lemma {:induction false} HistoryBinding(h: Hasher, c: seq<Block>, d: seq<Block>)
    requires ValidChain(h, c) && ValidChain(h, d) && |c| <= MAX_BLOCKS && |d| <= MAX_BLOCKS
    requires HashOf(h, c[|c| - 1]) == HashOf(h, d[|d| - 1])
    ensures c == d || Collision(h, HashedFor(h, c), HashedFor(h, d))
    decreases |c|
  {
    hide ValidBlock, HashInput, HashedFor, IsHash, Collision;
    TipsBind(h, c, d);
    var m := |c| - 1;
    if |c| == |d| && c[m] == d[m] {
      assert c == c[..m] + [c[m]] && d == d[..m] + [d[m]];
      if m > 0 {
        PrefixValid(h, c, m);
        PrefixValid(h, d, m);
        assert LinkAt(h, c, m) && LinkAt(h, d, m);
        HistoryBinding(h, c[..m], d[..m]);
        HashedForPrefix(h, c, m);
        HashedForPrefix(h, d, m);
        if Collision(h, HashedFor(h, c[..m]), HashedFor(h, d[..m])) {
          CollisionWiden(h, HashedFor(h, c[..m]), HashedFor(h, d[..m]), HashedFor(h, c), HashedFor(h, d));
        }
      }
    }
  }
}
