/** The hash of a block (common/crypto.c): fixed-width header fields, then the joined
    transactions, with no separators at all. */
module Hashing {
  import opened Text
  import opened Hex
  import opened Blocks
  import opened CsvCodec

  function HashHeader(b: Block): string {
    Hex16(b.index) + Hex16(b.timestamp) + b.previousHash + b.merkleRoot + Hex16(b.nonce)
  }

  function HashInput(b: Block): string { HashHeader(b) + Join(b.transactions) }

  predicate Hashable(b: Block) {
    |b.previousHash| == HASH_LENGTH && |b.merkleRoot| == HASH_LENGTH && b.transactions != []
  }

  function HashOf(h: Hasher, b: Block): Digest { h(HashInput(b)) }

  function BlockHash(h: Hasher, b: Block): Result<string> {
    if Hashable(b) then Ok(HashOf(h, b)) else Err(InvalidBlock)
  }

  /** The header widths alone separate the fields: equal inputs have equal headers and equal
      joined transactions. */
  lemma HashInputParts(a: Block, b: Block)
    requires Hashable(a) && Hashable(b) && HashInput(a) == HashInput(b)
    ensures a.(transactions := []) == b.(transactions := [])
    ensures Join(a.transactions) == Join(b.transactions)
  {
    var s := HashInput(a);
    HeaderSlices(a);
    HeaderSlices(b);
    Hex16Injective(a.index, b.index);
    Hex16Injective(a.timestamp, b.timestamp);
    Hex16Injective(a.nonce, b.nonce);
  }

  lemma HeaderSlices(b: Block)
    requires Hashable(b)
    ensures var s := HashInput(b);
            |s| >= 176 && s[..16] == Hex16(b.index) && s[16..32] == Hex16(b.timestamp)
            && s[32..96] == b.previousHash && s[96..160] == b.merkleRoot
            && s[160..176] == Hex16(b.nonce) && s[176..] == Join(b.transactions)
  {
  }

  /** Blocks with the parser's transaction shape have different inputs when they differ. */
  lemma HashInputInjective(a: Block, b: Block)
    requires Hashable(a) && Hashable(b)
    requires Shaped(a.transactions) && Shaped(b.transactions)
    ensures HashInput(a) == HashInput(b) <==> a == b
  {
    if HashInput(a) == HashInput(b) {
      HashInputParts(a, b);
      SplitJoin(a.transactions);
      SplitJoin(b.transactions);
      assert a == a.(transactions := []).(transactions := a.transactions);
    }
  }

  /** build_block_hash_input: one buffer, one moving offset. */
  method BuildHashInput(b: Block) returns (r: Result<string>)
    ensures r == if Hashable(b) then Ok(HashInput(b)) else Err(InvalidBlock)
  {
    if |b.previousHash| != HASH_LENGTH || |b.merkleRoot| != HASH_LENGTH { return Err(InvalidBlock); }
    if |b.transactions| == 0 { return Err(InvalidBlock); }
    var length := 0;
    for i := 0 to |b.transactions|
      invariant length + JoinedLength(b.transactions[i..]) == JoinedLength(b.transactions)
    {
      assert b.transactions[i..][1..] == b.transactions[i + 1..];
      length := length + |b.transactions[i]|;
      if i + 1 < |b.transactions| { length := length + 2; }
    }
    var fixed := 16 + 16 + HASH_LENGTH + HASH_LENGTH + 16;
    JoinedLengthExact(b.transactions);
    var buffer := new char[fixed + length];
    var offset := CopyAt(buffer, 0, HashHeader(b));
    assert buffer[..0] + HashHeader(b) == HashHeader(b);
    offset := WriteJoined(buffer, offset, b.transactions);
    assert offset == buffer.Length && buffer[..offset] == buffer[..];
    r := Ok(buffer[..]);
  }

  /** calculate_block_hash. */
  method CalculateBlockHash(h: Hasher, b: Block) returns (r: Result<string>)
    ensures r == BlockHash(h, b)
  {
    var input := BuildHashInput(b);
    r := match input case Ok(s) => Ok(h(s)) case Err(e) => Err(e);
  }
}
