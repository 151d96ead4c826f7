/** The message handlers of a node (node/node.c) as functions of its chain, the class that
    runs them under chain_lock, and what one sync exchange achieves. */
module NodeHandlers {
  import opened Text
  import opened Blocks
  import opened Hashing
  import opened Validation
  import opened ChainFile
  import CsvCodec

  const MAX_PAYLOAD := 65536

  // ---- handlers ----

  datatype Reply = Empty | Malformed | Invalid | AppendFailed | Accepted

  datatype Handled = Handled(chain: seq<Block>, reply: Reply, broadcast: Option<string>)

  /** handle_block_proposal at node 0. */
  function OnProposal(h: Hasher, c: seq<Block>, payload: string): Handled {
    if payload == "" then Handled(c, Empty, None)
    else match FromCsv(payload)
      case Err(_) => Handled(c, Malformed, None)
      case Ok(b) =>
        if !Acceptable(h, c, b) then Handled(c, Invalid, None)
        else match AppendBlock(c, b)
          case Err(_) => Handled(c, AppendFailed, None)
          case Ok(c') => Handled(c', Accepted, if Printable(b) then Some(CsvLine(b)) else None)
  }

  datatype CommitAction = Unreadable | Refused | Appended | Old | Behind(from: nat)

  /** The locked part of handle_block_commit at a follower. */
  function OnCommit(h: Hasher, c: seq<Block>, payload: string): (CommitAction, seq<Block>) {
    match FromCsv(payload)
    case Err(_) => (Unreadable, c)
    case Ok(b) =>
      if b.index < |c| then (Old, c)
      else if b.index > |c| then (Behind(|c|), c)
      else
        var last := if |c| > 0 then FindIndex(c, |c| - 1) else None;
        if ValidBlock(h, b) && (if last.None? then b.index == 0 else ValidLink(h, last.value, b)) then
          match AppendBlock(c, b)
            case Err(_) => (Refused, c)
            case Ok(c') => (Appended, c')
        else (Refused, c)
  }

  /** handle_sync_request: the lines from position `from` on, if they fit in one message. */
  function SyncText(c: seq<Block>, from: nat): string { Lines(CsvLines(if from <= |c| then c[from..] else [])) }

  function OnSyncRequest(c: seq<Block>, from: nat): Option<string> {
    if |SyncText(c, from)| <= MAX_PAYLOAD then Some(SyncText(c, from)) else None
  }

  /** One turn of the sync-apply loop. Index 0 is not demanded on an empty chain. */
  function ApplyLine(h: Hasher, c: seq<Block>, line: string): seq<Block> {
    match FromCsv(line)
    case Err(_) => c
    case Ok(b) =>
      if ValidBlock(h, b) && (c == [] || ValidLink(h, c[|c| - 1], b)) then
        match AppendBlock(c, b)
          case Err(_) => c
          case Ok(c') => c'
      else c
  }

  function ApplyLines(h: Hasher, c: seq<Block>, lines: seq<string>): seq<Block>
    decreases |lines|
  {
    if lines == [] then c else ApplyLines(h, ApplyLine(h, c, lines[0]), lines[1..])
  }

  function OnSyncReply(h: Hasher, c: seq<Block>, text: string): seq<Block> { ApplyLines(h, c, Tokens(text)) }

  /** handle_query_block for "--index <n>". */
  function OnQueryIndex(c: seq<Block>, index: nat): string {
    match FindIndex(c, index)
    case None => "block not found"
    case Some(b) => if Printable(b) then CsvLine(b) else "serialization failed"
  }

  // ---- the class ----

  class Node {
    const chain: Blockchain

    ghost predicate Valid()
      reads this, chain
    {
      chain.Valid()
    }

    function View(): seq<Block>
      requires Valid()
      reads this, chain, chain.blocks
    {
      chain.View()
    }

    constructor (initial: Blockchain)
      requires initial.Valid()
      ensures chain == initial
    {
      chain := initial;
    }

    /** The validation both proposal and sync share: structure, root, then the link. */
    method Check(h: Hasher, b: Block, last: Option<Block>) returns (ok: bool)
      ensures ok <==> ValidBlock(h, b) && (last.Some? ==> ValidLink(h, last.value, b))
    {
      var v := ValidateStructure(b);
      if v.Fail? { return false; }
      v := ValidateMerkleRoot(h, b);
      if v.Fail? { return false; }
      if last.Some? {
        v := ValidateLink(h, last.value, b);
        return v.Pass?;
      }
      ok := true;
    }

    method HandleProposal(h: Hasher, payload: string) returns (reply: Reply, broadcast: Option<string>)
      requires Valid()
      modifies chain, chain.blocks
      ensures Valid() && (chain.blocks == old(chain.blocks) || fresh(chain.blocks))
      ensures Handled(View(), reply, broadcast) == OnProposal(h, old(View()), payload)
    {
      hide FromCsv, ValidBlock, ValidLink, CsvLine, Printable, ParserShaped, AddAll, LineSpells;
      if payload == "" { return Empty, None; }
      var parsed := CsvCodec.ParseBlock(payload);
      if parsed.Err? { return Malformed, None; }
      var b := parsed.value;
      var last := if chain.count > 0 then Some(chain.blocks[chain.count - 1]) else None;
      assert last.Some? ==> last.value == View()[|View()| - 1];
      var valid := Check(h, b, last);
      if valid && last.None? { valid := b.index == 0; }
      assert valid <==> Acceptable(h, View(), b);
      if !valid { return Invalid, None; }
      var appended := chain.Append(b);
      if appended.Fail? { return AppendFailed, None; }
      var line := CsvCodec.PrintBlock(b);
      PrintsWhenPrintable(b);
      return Accepted, if line.Ok? then Some(line.value) else None;
    }

    /** handle_block_commit up to the point where the lock is dropped. */
    method HandleCommit(h: Hasher, payload: string) returns (action: CommitAction)
      requires Valid()
      modifies chain, chain.blocks
      ensures Valid() && (chain.blocks == old(chain.blocks) || fresh(chain.blocks))
      ensures (action, View()) == OnCommit(h, old(View()), payload)
      ensures GoodChain(h, old(View())) ==>
                (action.Appended? <==>
                   FromCsv(payload).Ok? && Extends(h, old(View()), FromCsv(payload).value))
    {
      hide FromCsv, ValidBlock, ValidLink, CsvLine, Printable, ParserShaped, AddAll, FindIndex, LineSpells;
      hide GoodChain, ValidChain;
      if GoodChain(h, View()) { CommitExact(h, View(), payload); }
      var parsed := CsvCodec.ParseBlock(payload);
      if parsed.Err? { return Unreadable; }
      var b := parsed.value;
      var expected := chain.count;
      if b.index == expected {
        var last := None;
        if chain.count > 0 { last := chain.GetByIndex(chain.count - 1); }
        var valid := Check(h, b, last);
        if valid && last.None? { valid := b.index == 0; }
        if !valid { return Refused; }
        var appended := chain.Append(b);
        return if appended.Pass? then Appended else Refused;
      }
      if b.index < expected { return Old; }
      action := Behind(expected);
    }

    /** The loop of handle_sync_request over the blocks from `from` on. */
    method HandleSyncRequest(from: nat) returns (reply: Option<string>)
      requires Valid()
      ensures reply == OnSyncRequest(View(), from)
      ensures reply.None? <==> |SyncText(View(), from)| > 65536
    {
      hide CsvLine, Printable, CsvLines, Lines, ToCsv, FromCsv, Shaped;
      var text := "";
      NoText();
      ghost var tail := if from <= |View()| then View()[from..] else [];
      var i := from;
      while i < chain.count
        invariant from <= i && i - from <= |tail|
        invariant text == Lines(CsvLines(tail[..i - from]))
      {
        var line := CsvCodec.PrintBlock(chain.blocks[i]);
        PrintsWhenPrintable(chain.blocks[i]);
        assert tail[i - from] == chain.blocks[i];
        SyncSnoc(tail, i - from);
        if line.Ok? { text := text + line.value + "\n"; }
        i := i + 1;
      }
      assert tail[..|tail|] == tail;
      reply := if |text| <= MAX_PAYLOAD then Some(text) else None;
    }

    /** One turn of the sync-apply loop. */
    method ApplySynced(h: Hasher, line: string)
      requires Valid()
      modifies chain, chain.blocks
      ensures Valid() && (chain.blocks == old(chain.blocks) || fresh(chain.blocks))
      ensures View() == ApplyLine(h, old(View()), line)
    {
      hide FromCsv, ValidBlock, ValidLink, CsvLine, Printable, ParserShaped, AddAll, Storable, AppendBlock, LineSpells;
      var parsed := CsvCodec.ParseBlock(line);
      if parsed.Ok? {
        var last := if chain.count > 0 then Some(chain.blocks[chain.count - 1]) else None;
        assert last.Some? ==> last.value == View()[|View()| - 1];
        var valid := Check(h, parsed.value, last);
        if valid { var _ := chain.Append(parsed.value); }
      }
    }

    /** The sync-apply loop, under the lock again. */
    method HandleSyncReply(h: Hasher, text: string)
      requires Valid()
      modifies chain, chain.blocks
      ensures Valid() && (chain.blocks == old(chain.blocks) || fresh(chain.blocks))
      ensures View() == OnSyncReply(h, old(View()), text)
    {
      hide ApplyLine, Tokens;
      var lines := Tokens(text);
      while lines != []
        invariant Valid() && (chain.blocks == old(chain.blocks) || fresh(chain.blocks))
        invariant ApplyLines(h, View(), lines) == OnSyncReply(h, old(View()), text)
        decreases |lines|
      {
        ApplySynced(h, lines[0]);
        lines := lines[1..];
      }
    }

    method HandleQueryIndex(index: nat) returns (reply: string)
      requires Valid()
      ensures reply == OnQueryIndex(View(), index)
    {
      hide CsvLine, Printable, FindIndex;
      var found := chain.GetByIndex(index);
      if found.None? { return "block not found"; }
      var line := CsvCodec.PrintBlock(found.value);
      PrintsWhenPrintable(found.value);
      reply := if line.Ok? then line.value else "serialization failed";
    }
  }

  lemma NoText()
    ensures Lines(CsvLines([])) == ""
  {
  }

  lemma SyncSnoc(c: seq<Block>, i: nat)
    requires i < |c|
    ensures Lines(CsvLines(c[..i + 1])) ==
            if Printable(c[i]) then Lines(CsvLines(c[..i])) + CsvLine(c[i]) + "\n" else Lines(CsvLines(c[..i]))
  {
    hide CsvLine, Printable;
    assert c[..i + 1] == c[..i] + [c[i]];
    CsvLinesConcat(c[..i], [c[i]]);
    assert [c[i]][1..] == [];
    if Printable(c[i]) {
      assert CsvLines([c[i]]) == [CsvLine(c[i])] && [CsvLine(c[i])][1..] == [];
      LinesConcat(CsvLines(c[..i]), [CsvLine(c[i])]);
      var text := Lines(CsvLines(c[..i]));
      assert text + (CsvLine(c[i]) + ("\n" + "")) == text + CsvLine(c[i]) + "\n";
    } else {
      assert CsvLines([c[i]]) == [] && CsvLines(c[..i]) + [] == CsvLines(c[..i]);
    }
  }

  // ---- one exchange ----

  /** A chain as node 0 holds it: empty or valid, every block out of the parser. */
  predicate GoodChain(h: Hasher, c: seq<Block>) {
    EmptyOrValid(h, c) && AllParserShaped(c) && |c| <= MAX_BLOCKS
  }

  lemma GoodBlock(h: Hasher, c: seq<Block>, j: nat)
    requires GoodChain(h, c) && j < |c|
    ensures ValidBlock(h, c[j]) && c[j].index == j && ParserShaped(c[j]) && Storable(c[j].transactions)
    ensures FromCsv(CsvLine(c[j])) == Ok(c[j])
    ensures j > 0 ==> Printable(c[j])
  {
    assert c[j] in c;
    IndexIsPosition(h, c, j);
    ShapedRoundTrip(c[j]);
    if j > 0 { ValidIsPrintable(h, c[j]); }
  }

  lemma GoodPrefix(h: Hasher, c: seq<Block>, n: nat)
    requires GoodChain(h, c) && n <= |c|
    ensures GoodChain(h, c[..n])
  {
    hide ValidChain, ParserShaped;
    PrefixValid(h, c, n);
  }

  lemma GoodLink(h: Hasher, c: seq<Block>, k: nat)
    requires GoodChain(h, c) && 0 < k < |c|
    ensures ValidLink(h, c[k - 1], c[k])
  {
    hide ValidLink, ValidBlock, ParserShaped;
    assert LinkAt(h, c, k);
  }

  /** A chain built on `lo` loaded blocks, of which nothing is known but the shape: every later
      block was checked when it was appended. Positions and indices differ by `shift`. */
  predicate Grown(h: Hasher, lo: nat, shift: int, c: seq<Block>) {
    && lo <= |c| <= MAX_BLOCKS && AllParserShaped(c)
    && (if lo == 0 then shift == 0 else c[lo - 1].index + shift == lo - 1)
    && forall j :: lo <= j < |c| ==> GrownAt(h, shift, c, j)
  }

  predicate GrownAt(h: Hasher, shift: int, c: seq<Block>, j: int)
    requires 0 <= j < |c|
  {
    ValidBlock(h, c[j]) && c[j].index + shift == j && (j > 0 ==> ValidLink(h, c[j - 1], c[j]))
  }

  lemma GoodIsGrown(h: Hasher, c: seq<Block>)
    requires GoodChain(h, c)
    ensures Grown(h, 0, 0, c)
  {
    hide ValidChain, AllParserShaped, ParserShaped, ValidBlock, ValidLink, FromCsv, CsvLine, Printable, Storable;
    forall j | 0 <= j < |c| ensures GrownAt(h, 0, c, j) {
      GoodBlock(h, c, j);
      if j > 0 { GoodLink(h, c, j); }
    }
  }

  lemma GrownBlock(h: Hasher, lo: nat, shift: int, c: seq<Block>, j: nat)
    requires Grown(h, lo, shift, c) && lo <= j < |c|
    ensures GrownAt(h, shift, c, j) && ParserShaped(c[j]) && Storable(c[j].transactions)
    ensures FromCsv(CsvLine(c[j])) == Ok(c[j]) && (j > 0 ==> c[j].index > 0 && Printable(c[j]))
  {
    hide ValidBlock, ValidLink, FromCsv, CsvLine, Printable, Shaped;
    assert GrownAt(h, shift, c, j) && c[j] in c;
    ShapedRoundTrip(c[j]);
    if j > 0 { ValidIsPrintable(h, c[j]); }
  }

  lemma GrownIndex(h: Hasher, lo: nat, shift: int, c: seq<Block>, p: nat)
    requires Grown(h, lo, shift, c) && lo <= p <= |c| && p > 0
    ensures c[p - 1].index + shift == p - 1 < MAX_BLOCKS
  {
    hide ParserShaped, ValidBlock, ValidLink;
    if p > lo { assert GrownAt(h, shift, c, p - 1); }
  }

  /** Only the block that follows links to the last one. */
  lemma LinksOnlyNext(h: Hasher, lo: nat, shift: int, c: seq<Block>, k: nat, j: nat)
    requires Grown(h, lo, shift, c) && 0 < k <= |c| && lo <= k && lo <= j < |c|
    ensures ValidLink(h, c[k - 1], c[j]) <==> j == k
  {
    hide Grown, ValidBlock, HashOf, ParserShaped, FromCsv, CsvLine, Printable, Storable;
    GrownIndex(h, lo, shift, c, k);
    GrownBlock(h, lo, shift, c, j);
  }

  /** A line of node 0's chain at a follower whose last block is block p - 1 of that chain. */
  lemma ApplyAt(h: Hasher, lo: nat, shift: int, c: seq<Block>, d: seq<Block>, p: nat, j: nat)
    requires Grown(h, lo, shift, c) && 0 < p <= |c| && lo <= p && lo <= j < |c|
    requires d != [] && |d| <= p && d[|d| - 1] == c[p - 1]
    ensures ApplyLine(h, d, CsvLine(c[j])) == if j == p then d + [c[j]] else d
  {
    hide Grown, FromCsv, CsvLine, ParserShaped, ValidBlock, ValidLink, Printable, Storable, AppendBlock;
    GrownIndex(h, lo, shift, c, |c|);
    GrownBlock(h, lo, shift, c, j);
    LinksOnlyNext(h, lo, shift, c, p, j);
    AppendExact(d, c[j]);
  }

  /** An empty follower takes any block for its first one. */
  lemma ApplyFirst(h: Hasher, c: seq<Block>, j: nat)
    requires GoodChain(h, c) && j < |c|
    ensures ApplyLine(h, [], CsvLine(c[j])) == [c[j]]
  {
    hide GoodChain, FromCsv, CsvLine, ParserShaped, ValidBlock, ValidLink, Printable, Storable, AppendBlock;
    GoodBlock(h, c, j);
    AppendExact([], c[j]);
    assert [] + [c[j]] == [c[j]];
  }

  lemma GoodSize(h: Hasher, c: seq<Block>)
    requires GoodChain(h, c)
    ensures |c| <= MAX_BLOCKS
  {
  }

  function Max(a: nat, b: nat): nat { if a < b then b else a }

  lemma LinesOfTail(c: seq<Block>, j: nat, n: nat)
    requires j < n <= |c| && AllPrintable(c[j..n])
    ensures CsvLines(c[j..n]) == [CsvLine(c[j])] + CsvLines(c[j + 1..n]) && AllPrintable(c[j + 1..n])
  {
    hide CsvLine, Printable;
    var tail, rest := c[j..n], c[j + 1..n];
    assert tail[0] == c[j] && tail[1..] == rest && c[j] in tail;
    assert forall b :: b in rest ==> b in tail;
  }

  lemma ApplyCons(h: Hasher, d: seq<Block>, line: string, rest: seq<string>)
    ensures ApplyLines(h, d, [line] + rest) == ApplyLines(h, ApplyLine(h, d, line), rest)
  {
    hide ApplyLine;
    var lines := [line] + rest;
    assert lines[0] == line && lines[1..] == rest;
  }

  /** The lines of c[j..n], applied where the last block is c[p - 1] and j <= p, add c[p..n]. */
  lemma {:induction false} ApplyTail(
    h: Hasher, lo: nat, shift: int, c: seq<Block>, d: seq<Block>, p: nat, j: nat, n: nat)
    requires Grown(h, lo, shift, c) && 0 < p <= |c| && lo <= j <= n <= |c| && j <= p
    requires d != [] && |d| <= p && d[|d| - 1] == c[p - 1] && AllPrintable(c[j..n])
    ensures ApplyLines(h, d, CsvLines(c[j..n])) == d + c[p..Max(p, n)]
    decreases n - j
  {
    hide Grown, ApplyLine, ApplyLines, CsvLines, CsvLine, AllPrintable;
    if j == n {
      assert c[j..n] == [] && d + c[p..p] == d;
      NoLinesApplied(h, d);
    } else {
      LinesOfTail(c, j, n);
      ApplyCons(h, d, CsvLine(c[j]), CsvLines(c[j + 1..n]));
      ApplyAt(h, lo, shift, c, d, p, j);
      if j == p {
        ApplyTail(h, lo, shift, c, d + [c[p]], p + 1, j + 1, n);
        assert (d + [c[p]]) + c[p + 1..n] == d + c[p..n];
      } else {
        ApplyTail(h, lo, shift, c, d, p, j + 1, n);
      }
    }
  }

  lemma ApplyFresh(h: Hasher, c: seq<Block>, j: nat, n: nat)
    requires GoodChain(h, c) && j <= n <= |c| && AllPrintable(c[j..n])
    ensures ApplyLines(h, [], CsvLines(c[j..n])) == c[j..n]
  {
    hide GoodChain, ApplyLine, ApplyLines, CsvLines, CsvLine, AllPrintable;
    if j == n {
      assert c[j..n] == [];
      NoLinesApplied(h, []);
    } else {
      LinesOfTail(c, j, n);
      ApplyCons(h, [], CsvLine(c[j]), CsvLines(c[j + 1..n]));
      ApplyFirst(h, c, j);
      GoodIsGrown(h, c);
      ApplyTail(h, 0, 0, c, [c[j]], j + 1, j + 1, n);
      assert [c[j]] + c[j + 1..n] == c[j..n];
    }
  }

  lemma NoLinesApplied(h: Hasher, d: seq<Block>)
    ensures ApplyLines(h, d, CsvLines([])) == d
  {
    hide ApplyLine, CsvLine;
  }

  lemma TailPrintable(h: Hasher, lo: nat, shift: int, c: seq<Block>, j: nat, n: nat)
    requires Grown(h, lo, shift, c) && lo <= j <= n <= |c|
    requires j == 0 && n > 0 ==> Printable(c[0])
    ensures AllPrintable(c[j..n])
  {
    hide Printable, Grown, GrownAt, FromCsv, CsvLine, ParserShaped, Storable;
    forall b | b in c[j..n] ensures Printable(b) {
      var i :| 0 <= i < n - j && c[j..n][i] == b;
      if j + i > 0 { GrownBlock(h, lo, shift, c, j + i); }
    }
  }

  lemma SkipGenesis(c: seq<Block>)
    requires c != [] && !Printable(c[0])
    ensures CsvLines(c) == CsvLines(c[1..])
  {
    hide Printable, CsvLine;
    assert [] + CsvLines(c[1..]) == CsvLines(c[1..]);
  }

  lemma SyncTokens(c: seq<Block>, from: nat)
    ensures Tokens(SyncText(c, from)) == CsvLines(if from <= |c| then c[from..] else [])
  {
    hide CsvLine, Printable;
    var tail := if from <= |c| then c[from..] else [];
    PrintedLines(tail);
    TokensOfLines(CsvLines(tail));
  }

  /** The answer node 0 computes from its first n blocks: the lines from `from` on, without the
      genesis block if that cannot be printed. */
  lemma AnswerLines(h: Hasher, lo: nat, shift: int, c: seq<Block>, n: nat, from: nat)
    requires Grown(h, lo, shift, c) && lo <= from <= n <= |c|
    ensures var j := if from == 0 && n > 0 && !Printable(c[0]) then 1 else from;
            j <= n && AllPrintable(c[j..n]) && Tokens(SyncText(c[..n], from)) == CsvLines(c[j..n])
  {
    hide Grown, Printable, Tokens, SyncText, CsvLines, AllPrintable;
    SyncTokens(c[..n], from);
    assert c[..n][from..] == c[from..n];
    if from == 0 && n > 0 && !Printable(c[0]) {
      SkipGenesis(c[0..n]);
      assert c[0..n][1..] == c[1..n];
      TailPrintable(h, lo, shift, c, 1, n);
    } else {
      TailPrintable(h, lo, shift, c, from, n);
    }
  }

  /** The same answer, empty when the request lies behind node 0's blocks, applied where the
      last block is c[p - 1]: everything that follows is added. */
  lemma SyncAtLast(h: Hasher, lo: nat, shift: int, c: seq<Block>, d: seq<Block>, p: nat, n: nat, from: nat)
    requires Grown(h, lo, shift, c) && 0 < p <= |c| && n <= |c| && lo <= from <= p
    requires d != [] && |d| <= p && d[|d| - 1] == c[p - 1]
    ensures OnSyncReply(h, d, SyncText(c[..n], from)) == d + c[p..Max(p, n)]
  {
    hide Grown, Printable, Tokens, SyncText, CsvLines, ApplyLines, AllPrintable;
    if from <= n {
      AnswerLines(h, lo, shift, c, n, from);
      ApplyTail(h, lo, shift, c, d, p, if from == 0 && n > 0 && !Printable(c[0]) then 1 else from, n);
    } else {
      SyncTokens(c[..n], from);
      NoLinesApplied(h, d);
      assert d + c[p..p] == d;
    }
  }

  /** A follower at height k applies an answer computed from node 0's first n blocks for a
      request made at height `from` <= k: whatever happened in between, it ends with the
      longer of the two prefixes, except that an empty follower never gets a genesis block that
      cannot be printed and takes the rest without it. */
  lemma SyncCatchesUp(h: Hasher, c: seq<Block>, k: nat, n: nat, from: nat)
    requires GoodChain(h, c) && k <= |c| && n <= |c| && from <= k
    ensures OnSyncReply(h, c[..k], SyncText(c[..n], from)) ==
            if k == 0 && n > 0 && !Printable(c[0]) then c[1..n] else c[..Max(k, n)]
  {
    hide GoodChain, Grown, Printable, Tokens, SyncText, CsvLines, ApplyLines, AllPrintable;
    GoodIsGrown(h, c);
    if k == 0 {
      AnswerLines(h, 0, 0, c, n, 0);
      ApplyFresh(h, c, if n > 0 && !Printable(c[0]) then 1 else 0, n);
      assert c[..k] == [] && c[0..n] == c[..n];
    } else {
      SyncAtLast(h, 0, 0, c, c[..k], k, n, from);
      assert c[..k] + c[k..Max(k, n)] == c[..Max(k, n)];
    }
  }

  /** Exactly one situation makes a sync go wrong: an empty follower, at least two blocks at
      node 0, and a genesis block that cannot be printed. The answer then skips it and the
      follower takes block 1 for its first block. */
  lemma SyncExact(h: Hasher, c: seq<Block>, k: nat)
    requires GoodChain(h, c) && k <= |c|
    ensures OnSyncReply(h, c[..k], SyncText(c, k)) <= c <==> !(k == 0 && |c| >= 2 && !Printable(c[0]))
    ensures k == 0 && |c| >= 2 && !Printable(c[0]) ==> OnSyncReply(h, c[..k], SyncText(c, k)) == c[1..]
  {
    hide GoodChain, Printable, SyncText, OnSyncReply;
    assert c[..|c|] == c && (c != [] ==> c[1..|c|] == c[1..]);
    SyncCatchesUp(h, c, k, |c|, k);
    if |c| >= 2 {
      GoodBlocksDiffer(h, c);
      assert c[1..][0] == c[1];
    }
  }

  // ---- commits away from the prefix ----

  /** A follower that lacks the first a blocks counts a blocks less than it should: at height
      k - a the commit of block k - a looks like the next one, the search for index count - 1
      finds the block before it, and block k - a is appended a second time. */
  lemma RepeatAppend(h: Hasher, c: seq<Block>, a: nat, k: nat)
    requires GoodChain(h, c) && 0 < a && 2 * a < k <= |c|
    ensures OnCommit(h, c[a..k], CsvLine(c[k - a])) == (Appended, c[a..k] + [c[k - a]])
  {
    hide GoodChain, FromCsv, CsvLine, ParserShaped, ValidBlock, ValidLink, Printable, Storable, AppendBlock, FindIndex;
    GoodSize(h, c);
    GoodBlock(h, c, k - a);
    GoodLink(h, c, k - a);
    var d := c[a..k];
    forall i | 0 <= i < |d| ensures d[i].index == a + i { GoodBlock(h, c, a + i); }
    FindIndexFirst(d, k - a - 1, k - 2 * a - 1);
    AppendExact(d, c[k - a]);
  }

  lemma GoodBlocksDiffer(h: Hasher, c: seq<Block>)
    requires GoodChain(h, c) && |c| >= 2
    ensures c[0] != c[1]
  {
    hide GoodChain, ValidBlock, ParserShaped, FromCsv, CsvLine, Printable;
    GoodBlock(h, c, 0);
    GoodBlock(h, c, 1);
  }

  /** The answer for a gap of up to 15 blocks always fits in one message. */
  lemma ShortGapFits(c: seq<Block>, from: nat)
    requires |c| <= from + 15
    ensures OnSyncRequest(c, from) == Some(SyncText(c, from))
  {
    hide CsvLine, Printable;
    var tail := if from <= |c| then c[from..] else [];
    PrintedLines(tail);
    LinesLength(CsvLines(tail), MAX_LINE);
    MulBound(|CsvLines(tail)|, 15, MAX_LINE + 1);
  }

  lemma MulBound(a: nat, b: nat, c: nat)
    requires a <= b
    ensures a * c <= b * c
  {
  }

  // ---- proposals ----

  /** Whatever is proposed, node 0's chain stays good and only grows by the accepted block. */
  lemma ProposalKeepsGood(h: Hasher, c: seq<Block>, payload: string)
    requires GoodChain(h, c)
    ensures var r := OnProposal(h, c, payload);
            GoodChain(h, r.chain)
            && (r.reply.Accepted? ==>
                  |r.chain| == |c| + 1 && r.chain[..|c|] == c
                  && r.chain[|c|].index == |c| && FromCsv(payload) == Ok(r.chain[|c|]))
            && (!r.reply.Accepted? ==> r.chain == c && r.broadcast == None)
            && (r.broadcast.Some? ==> Printable(r.chain[|c|]) && r.broadcast.value == CsvLine(r.chain[|c|]))
  {
    hide ValidChain, ParserShaped, FromCsv, CsvLine, Printable, Acceptable;
    var r := OnProposal(h, c, payload);
    if r.reply.Accepted? {
      var b := FromCsv(payload).value;
      ParserYieldsShape(payload);
      AppendExact(c, b);
      IncrementalIsWhole(h, c, b);
      IndexIsPosition(h, c + [b], |c|);
    }
  }

  // ---- any payload at a good chain ----

  lemma GoodLookup(h: Hasher, c: seq<Block>, i: nat)
    requires GoodChain(h, c)
    ensures FindIndex(c, i) == if i < |c| then Some(c[i]) else None
  {
    hide ValidChain, FindIndex;
    FindIndexValid(h, c, i);
  }

  /** Block b may come next: the longer chain is valid as a whole and fits in memory. */
  predicate Extends(h: Hasher, c: seq<Block>, b: Block) { |c| < MAX_BLOCKS && ValidChain(h, c + [b]) }

  lemma AcceptableExtends(h: Hasher, c: seq<Block>, payload: string)
    requires GoodChain(h, c) && FromCsv(payload).Ok?
    ensures var b := FromCsv(payload).value;
            && (ValidChain(h, c + [b]) <==> Acceptable(h, c, b))
            && AppendBlock(c, b) == (if |c| < MAX_BLOCKS then Ok(c + [b]) else Err(MemoryAllocation))
            && (Extends(h, c, b) ==> b.index == |c|)
  {
    hide ValidChain, ParserShaped, FromCsv, Acceptable, Storable, Shaped, AppendBlock;
    var b := FromCsv(payload).value;
    ParserYieldsShape(payload);
    ShapeStores(b);
    AppendExact(c, b);
    if |c| >= MAX_BLOCKS { AppendFull(c, b); }
    IncrementalIsWhole(h, c, b);
    if Extends(h, c, b) { IndexIsPosition(h, c + [b], |c|); }
  }

  lemma ShapeStores(b: Block)
    requires ParserShaped(b)
    ensures Storable(b.transactions)
  {
  }

  /** Node 0 on any payload: it accepts exactly the blocks that extend its chain to a valid one, and
      each other reply has its own cause and changes nothing. */
  lemma ProposalExact(h: Hasher, c: seq<Block>, payload: string)
    requires GoodChain(h, c)
    ensures var r, parsed := OnProposal(h, c, payload), FromCsv(payload);
            && (r.reply.Accepted? <==> parsed.Ok? && Extends(h, c, parsed.value))
            && (r.reply.Accepted? ==>
                  r.chain == c + [parsed.value]
                  && r.broadcast == if Printable(parsed.value) then Some(CsvLine(parsed.value)) else None)
            && (!r.reply.Accepted? ==> r.chain == c && r.broadcast == None)
            && (r.reply.Empty? <==> payload == "")
            && (r.reply.Malformed? <==> payload != "" && parsed.Err?)
            && (r.reply.Invalid? <==> parsed.Ok? && !ValidChain(h, c + [parsed.value]))
  {
    hide GoodChain, ValidChain, FromCsv, Acceptable, AppendBlock, Printable, CsvLine;
    EmptyPayload();
    if FromCsv(payload).Ok? { AcceptableExtends(h, c, payload); }
  }

  /** A follower on any commit: the block is appended exactly if it extends the chain to a valid
      one, anything else leaves the chain as it is, and only a later index asks for a sync. */
  lemma CommitExact(h: Hasher, c: seq<Block>, payload: string)
    requires GoodChain(h, c)
    ensures var r, parsed := OnCommit(h, c, payload), FromCsv(payload);
            && (r.0.Appended? <==> parsed.Ok? && Extends(h, c, parsed.value))
            && r.1 == (if r.0.Appended? then c + [parsed.value] else c)
            && (r.0.Unreadable? <==> parsed.Err?)
            && (r.0.Old? <==> parsed.Ok? && parsed.value.index < |c|)
            && (r.0.Behind? <==> parsed.Ok? && parsed.value.index > |c|)
            && (r.0.Behind? ==> r.0.from == |c|)
  {
    hide GoodChain, ValidChain, FromCsv, ValidBlock, ValidLink, AppendBlock, FindIndex;
    if FromCsv(payload).Ok? {
      AcceptableExtends(h, c, payload);
      if c != [] { GoodLookup(h, c, |c| - 1); }
    }
  }

  /** A synced line on a non-empty chain: the same. */
  lemma ApplyExact(h: Hasher, c: seq<Block>, line: string)
    requires GoodChain(h, c) && c != []
    ensures ApplyLine(h, c, line) ==
            if FromCsv(line).Ok? && Extends(h, c, FromCsv(line).value) then c + [FromCsv(line).value] else c
  {
    hide GoodChain, ValidChain, FromCsv, ValidBlock, ValidLink, AppendBlock;
    if FromCsv(line).Ok? { AcceptableExtends(h, c, line); }
  }

  /** On an empty chain it need not be a genesis block. */
  lemma ApplyExactEmpty(h: Hasher, line: string)
    ensures ApplyLine(h, [], line) ==
            if FromCsv(line).Ok? && ValidBlock(h, FromCsv(line).value) then [FromCsv(line).value] else []
  {
    hide FromCsv, ValidBlock, ValidLink, AppendBlock, ParserShaped, Storable;
    if FromCsv(line).Ok? {
      ParserYieldsShape(line);
      ShapeStores(FromCsv(line).value);
      AppendExact([], FromCsv(line).value);
      assert [] + [FromCsv(line).value] == [FromCsv(line).value];
    }
  }

  lemma {:induction false} ApplyConcat(h: Hasher, c: seq<Block>, a: seq<string>, b: seq<string>)
    ensures ApplyLines(h, c, a + b) == ApplyLines(h, ApplyLines(h, c, a), b)
    decreases |a|
  {
    hide ApplyLine;
    if a == [] {
      assert a + b == b;
    } else {
      assert (a + b)[0] == a[0] && (a + b)[1..] == a[1..] + b;
      ApplyConcat(h, ApplyLine(h, c, a[0]), a[1..], b);
    }
  }

  /** A line that does not parse is skipped, and the lines after it still count. */
  lemma JunkSkipped(h: Hasher, c: seq<Block>, a: seq<string>, junk: string, b: seq<string>)
    requires FromCsv(junk).Err?
    ensures ApplyLines(h, c, a + ([junk] + b)) == ApplyLines(h, c, a + b)
  {
    hide FromCsv, ApplyLines;
    ApplyConcat(h, c, a, [junk] + b);
    ApplyConcat(h, c, a, b);
    ApplyCons(h, ApplyLines(h, c, a), junk, b);
  }

  /** A loaded chain whose last block is not valid takes no proposal and no synced line. */
  lemma InvalidTipStays(h: Hasher, c: seq<Block>, payload: string)
    requires c != [] && !ValidBlock(h, c[|c| - 1])
    ensures OnProposal(h, c, payload).chain == c && ApplyLine(h, c, payload) == c
  {
    hide FromCsv, ValidBlock, AppendBlock, CsvLine, Printable;
  }

  /** The answer to an index query reads as the block at that position, or as no block at all. */
  lemma QueryExact(h: Hasher, c: seq<Block>, i: nat)
    requires GoodChain(h, c)
    ensures if i < |c| && Printable(c[i]) then FromCsv(OnQueryIndex(c, i)) == Ok(c[i])
            else FromCsv(OnQueryIndex(c, i)).Err?
  {
    hide GoodChain, FromCsv, Printable, CsvLine, FindIndex;
    GoodLookup(h, c, i);
    assert ',' !in "serialization failed" && ',' !in "block not found";
    NoCommaNoBlock("serialization failed");
    NoCommaNoBlock("block not found");
    if i < |c| { GoodBlock(h, c, i); }
  }
}
