/** Runs that start from any loaded file. A node does not validate its initial file, so nothing is
    known of the loaded blocks but the shape that the parser gives them. */
module LoadedRuns {
  import opened Hex
  import opened Blocks
  import opened Validation
  import opened ChainFile
  import opened NodeHandlers
  import opened Protocol

  /** What the nodes may start from: no file, or any chain that the loader yields. */
  predicate Startable(initial: seq<Block>) { |initial| <= MAX_BLOCKS && AllParserShaped(initial) }

  /** How far the last block's position lies above its index. */
  function Shift(initial: seq<Block>): int
    requires initial != []
  {
    |initial| - 1 - initial[|initial| - 1].index
  }

  /** Node 0 has not yet appended so many blocks to the file that the index wrapped to 0. */
  predicate NoWrap(initial: seq<Block>, c: seq<Block>)
    requires initial != []
  {
    initial[|initial| - 1].index + |c| < U64_COUNT + |initial|
  }

  /** A follower with the first k blocks would accept the commit of block j, which carries index k
      but is not block k, because the search for index k - 1 finds a block that it links to. */
  predicate WrongAt(h: Hasher, c: seq<Block>, j: int, k: int) {
    && 0 <= j < |c| && 0 < k <= |c| && k < MAX_BLOCKS && j != k && c[j].index == k
    && FindIndex(c[..k], k - 1).Some? && ValidLink(h, FindIndex(c[..k], k - 1).value, c[j])
  }

  /** From height g node 0's first k blocks can be fetched in one sync: one of their commits finds
      the follower behind, and the answer fits in a message. */
  predicate Hop(shift: int, c: seq<Block>, g: nat, k: nat)
    requires k <= |c|
  {
    g < k - 1 - shift && OnSyncRequest(c[..k], g).Some?
  }

  /** A height at which a follower can be that started with `lo` blocks and went through syncs. Where
      positions and indices agree commits lead to every height. */
  predicate Stop(lo: nat, shift: int, c: seq<Block>, k: nat)
    requires k <= |c|
    decreases k
  {
    shift == 0 || k == lo || exists g :: lo <= g < k && Stop(lo, shift, c, g) && Hop(shift, c, g, k)
  }

  lemma {:induction false} StopGrows(lo: nat, shift: int, c: seq<Block>, c': seq<Block>, k: nat)
    requires k <= |c| && c <= c' && Stop(lo, shift, c, k)
    ensures Stop(lo, shift, c', k)
    decreases k
  {
    hide OnSyncRequest;
    assert c'[..k] == c[..k];
    if shift != 0 && k != lo {
      var g :| lo <= g < k && Stop(lo, shift, c, g) && Hop(shift, c, g, k);
      StopGrows(lo, shift, c, c', g);
      assert Hop(shift, c', g, k);
    }
  }

  /** Where indices run ahead every height is one: each block can be fetched on its own. */
  lemma {:induction false} AheadStops(lo: nat, shift: int, c: seq<Block>, k: nat)
    requires lo <= k <= |c| && shift < 0
    ensures Stop(lo, shift, c, k)
    decreases k
  {
    hide OnSyncRequest;
    if k > lo {
      AheadStops(lo, shift, c, k - 1);
      ShortGapFits(c[..k], k - 1);
      assert Hop(shift, c, k - 1, k);
    }
  }

  /** Some commit is accepted at a wrong height that a follower can be at. */
  predicate Wrong(h: Hasher, initial: seq<Block>, c: seq<Block>)
    requires initial != []
  {
    exists j, k :: |initial| <= j < |c| && |initial| <= k <= |c| && WrongHere(h, initial, c, j, k)
  }

  predicate WrongHere(h: Hasher, initial: seq<Block>, c: seq<Block>, j: int, k: int)
    requires initial != [] && 0 <= k <= |c|
  {
    Stop(|initial|, Shift(initial), c, k) && WrongAt(h, c, j, k)
  }

  lemma WrongGrows(h: Hasher, initial: seq<Block>, c: seq<Block>, c': seq<Block>)
    requires initial != [] && c <= c' && Wrong(h, initial, c)
    ensures Wrong(h, initial, c')
  {
    hide ValidLink, FindIndex, Stop;
    var j, k :| |initial| <= j < |c| && |initial| <= k <= |c| && WrongHere(h, initial, c, j, k);
    assert c'[..k] == c[..k] && c'[j] == c[j];
    StopGrows(|initial|, Shift(initial), c, c', k);
    assert WrongHere(h, initial, c', j, k);
  }

  /** A chain that node 0 can hold after starting from the file. */
  predicate Built(h: Hasher, initial: seq<Block>, c: seq<Block>)
    requires initial != []
  {
    initial <= c && Grown(h, |initial|, Shift(initial), c)
  }

  // When no commit can be accepted at the wrong height.

  /** The last loaded block has its position for an index. */
  lemma PlacedNeverWrong(h: Hasher, initial: seq<Block>, c: seq<Block>)
    requires initial != [] && Built(h, initial, c) && Shift(initial) == 0
    ensures !Wrong(h, initial, c)
  {
    hide ValidLink, ValidBlock, FindIndex, AllParserShaped, Stop;
    forall j, k | |initial| <= j < |c| && |initial| <= k <= |c| ensures !WrongHere(h, initial, c, j, k) {
      assert GrownAt(h, 0, c, j);
    }
  }

  /** Every loaded index lies below the last position: later commits look old, and the block
      before them is never found. */
  lemma LowNeverWrong(h: Hasher, initial: seq<Block>, c: seq<Block>)
    requires initial != [] && Built(h, initial, c)
    requires forall i :: 0 <= i < |initial| ==> initial[i].index < |initial| - 1
    ensures !Wrong(h, initial, c)
  {
    hide ValidLink, ValidBlock, FindIndex, AllParserShaped, Stop;
    var lo, shift := |initial|, Shift(initial);
    assert forall i :: 0 <= i < lo ==> c[i] == initial[i];
    forall j, k | lo <= j < |c| && lo <= k <= |c| ensures !WrongHere(h, initial, c, j, k) {
      var d := c[..k];
      forall i | 0 <= i < |d| ensures d[i].index != k - 1 {
        if i >= lo { assert GrownAt(h, shift, c, i); }
      }
      FindIndexAbsent(d, k - 1);
    }
  }

  /** The last loaded index lies ahead, and node 0 has not grown past it: every commit finds every
      follower behind. */
  lemma AheadNotYetWrong(h: Hasher, initial: seq<Block>, c: seq<Block>)
    requires initial != [] && Built(h, initial, c) && |c| <= initial[|initial| - 1].index
    ensures !Wrong(h, initial, c)
  {
    hide ValidLink, ValidBlock, FindIndex, AllParserShaped, Stop;
    forall j, k | |initial| <= j < |c| && |initial| <= k <= |c| ensures !WrongHere(h, initial, c, j, k) {
      assert GrownAt(h, Shift(initial), c, j);
    }
  }

  // ---- the invariant ----

  /** A commit of a block that node 0 appended itself. */
  ghost predicate NewLine(lo: nat, c: seq<Block>, line: string) {
    exists j :: lo <= j < |c| && Printable(c[j]) && line == CsvLine(c[j])
  }

  ghost predicate NewCommits(lo: nat, c: seq<Block>, commits: set<string>) {
    forall line :: line in commits ==> NewLine(lo, c, line)
  }

  /** An answer that takes a follower from a height it can be at to another. */
  ghost predicate GoodAnswer(lo: nat, shift: int, c: seq<Block>, height: nat, text: string) {
    exists n: nat, from: nat :: AnswerAt(lo, shift, c, height, text, n, from)
  }

  predicate AnswerAt(lo: nat, shift: int, c: seq<Block>, height: nat, text: string, n: nat, from: nat) {
    && n <= |c| && lo <= from <= height && from <= |c| && text == SyncText(c[..n], from)
    && Stop(lo, shift, c, from) && (shift == 0 || n <= from || Hop(shift, c, from, n))
  }

  /** A request that some commit has caused. */
  predicate GoodRequest(lo: nat, shift: int, c: seq<Block>, from: nat) {
    lo <= from <= |c| && Stop(lo, shift, c, from) && (shift == 0 || from < |c| - 1 - shift)
  }

  predicate OnLine(lo: nat, shift: int, c: seq<Block>, d: seq<Block>) { d <= c && Stop(lo, shift, c, |d|) }

  predicate AllOnLine(lo: nat, shift: int, c: seq<Block>, fs: map<nat, seq<Block>>) {
    forall f :: f in fs ==> OnLine(lo, shift, c, fs[f])
  }

  predicate GoodRequests(
    lo: nat, shift: int, c: seq<Block>, fs: map<nat, seq<Block>>, requests: set<(nat, nat)>)
  {
    forall r :: r in requests ==> r.0 in fs && r.1 <= |fs[r.0]| && GoodRequest(lo, shift, c, r.1)
  }

  ghost predicate GoodReplies(
    lo: nat, shift: int, c: seq<Block>, fs: map<nat, seq<Block>>, replies: set<(nat, string)>)
  {
    forall r :: r in replies ==> r.0 in fs && GoodAnswer(lo, shift, c, |fs[r.0]|, r.1)
  }

  /** The followers hold prefixes of node 0's chain, and all messages keep them there. */
  ghost predicate Course(s: State)
    requires s.initial != []
  {
    var lo, shift := |s.initial|, Shift(s.initial);
    && AllOnLine(lo, shift, s.chain, s.followers) && GoodRequests(lo, shift, s.chain, s.followers, s.requests)
    && GoodReplies(lo, shift, s.chain, s.followers, s.replies)
  }

  ghost predicate LoadedBody(h: Hasher, s: State)
    requires s.initial != []
  {
    && Built(h, s.initial, s.chain) && NewCommits(|s.initial|, s.chain, s.commits)
    && FollowersStarted(s.initial, s.followers)
    && (Wrong(h, s.initial, s.chain) || Course(s))
  }

  ghost predicate LoadedInv(h: Hasher, s: State) {
    s.initial != [] && (NoWrap(s.initial, s.chain) ==> LoadedBody(h, s))
  }

  // ---- node 0 ----

  lemma NextGrown(h: Hasher, lo: nat, shift: int, c: seq<Block>, b: Block)
    requires Grown(h, lo, shift, c) && c != [] && |c| < MAX_BLOCKS && ParserShaped(b) && Acceptable(h, c, b)
    requires c[|c| - 1].index < U64_COUNT - 1
    ensures Grown(h, lo, shift, c + [b])
  {
    hide ValidBlock, ParserShaped;
    GrownIndex(h, lo, shift, c, |c|);
    var d := c + [b];
    forall j | lo <= j < |d| ensures GrownAt(h, shift, d, j) {
      if j < |c| { assert GrownAt(h, shift, c, j); }
    }
  }

  /** Whatever is proposed, the part that node 0 built itself stays linked. */
  lemma ProposalKeepsGrown(h: Hasher, lo: nat, shift: int, c: seq<Block>, payload: string)
    requires Grown(h, lo, shift, c) && c != []
    requires c[|c| - 1].index < U64_COUNT - 1 || OnProposal(h, c, payload).chain == c
    ensures var r := OnProposal(h, c, payload);
            && Grown(h, lo, shift, r.chain) && c <= r.chain
            && (r.broadcast.Some? ==>
                  |c| < |r.chain| && Printable(r.chain[|c|]) && r.broadcast.value == CsvLine(r.chain[|c|]))
  {
    hide Grown, Acceptable, FromCsv, CsvLine, Printable, AppendBlock, Storable, ParserShaped;
    if FromCsv(payload).Ok? {
      var b := FromCsv(payload).value;
      ParserYieldsShape(payload);
      AppendExact(c, b);
      assert |c + [b]| == |c| + 1;
      if payload != "" && Acceptable(h, c, b) && AppendBlock(c, b).Ok? { NextGrown(h, lo, shift, c, b); }
    }
  }

  lemma NewLineGrows(lo: nat, c: seq<Block>, c': seq<Block>, line: string)
    requires c <= c' && NewLine(lo, c, line)
    ensures NewLine(lo, c', line)
  {
    hide Printable, CsvLine;
    var j :| lo <= j < |c| && Printable(c[j]) && line == CsvLine(c[j]);
    assert c'[j] == c[j];
  }

  lemma AnswerMoves(lo: nat, shift: int, c: seq<Block>, c': seq<Block>, height: nat, height': nat, text: string)
    requires c <= c' && height <= height' && GoodAnswer(lo, shift, c, height, text)
    ensures GoodAnswer(lo, shift, c', height', text)
  {
    hide SyncText, Stop, OnSyncRequest;
    var n: nat, from: nat :| AnswerAt(lo, shift, c, height, text, n, from);
    assert c'[..n] == c[..n];
    StopGrows(lo, shift, c, c', from);
    assert AnswerAt(lo, shift, c', height', text, n, from);
  }

  lemma RequestGrows(lo: nat, shift: int, c: seq<Block>, c': seq<Block>, from: nat)
    requires c <= c' && GoodRequest(lo, shift, c, from)
    ensures GoodRequest(lo, shift, c', from)
  {
    hide Stop;
    StopGrows(lo, shift, c, c', from);
  }

  /** Node 0's chain grows under a state on course. */
  lemma CourseGrows(s: State, n: State)
    requires s.initial == n.initial != [] && s.chain <= n.chain && Course(s)
    requires n.followers == s.followers && n.requests == s.requests && n.replies == s.replies
    ensures Course(n)
  {
    hide Stop, GoodRequest, GoodAnswer;
    var lo, shift := |s.initial|, Shift(s.initial);
    forall f | f in s.followers ensures OnLine(lo, shift, n.chain, s.followers[f]) {
      assert OnLine(lo, shift, s.chain, s.followers[f]);
      StopGrows(lo, shift, s.chain, n.chain, |s.followers[f]|);
    }
    forall r | r in s.requests ensures GoodRequest(lo, shift, n.chain, r.1) {
      RequestGrows(lo, shift, s.chain, n.chain, r.1);
    }
    forall r | r in s.replies ensures GoodAnswer(lo, shift, n.chain, |s.followers[r.0]|, r.1) {
      AnswerMoves(lo, shift, s.chain, n.chain, |s.followers[r.0]|, |s.followers[r.0]|, r.1);
    }
  }

  lemma NewLineHere(lo: nat, c: seq<Block>, j: nat)
    requires lo <= j < |c| && Printable(c[j])
    ensures NewLine(lo, c, CsvLine(c[j]))
  {
  }

  lemma LastIndex(h: Hasher, s: State)
    requires s.initial != [] && s.initial <= s.chain && Grown(h, |s.initial|, Shift(s.initial), s.chain)
    ensures NoWrap(s.initial, s.chain + [s.initial[0]]) <==> s.chain[|s.chain| - 1].index < U64_COUNT - 1
  {
    hide AllParserShaped, ValidBlock, ValidLink;
    GrownIndex(h, |s.initial|, Shift(s.initial), s.chain, |s.chain|);
  }

  lemma ProposalAdds(h: Hasher, c: seq<Block>, payload: string)
    ensures |OnProposal(h, c, payload).chain| <= |c| + 1
    ensures c <= OnProposal(h, c, payload).chain
  {
    hide Acceptable, FromCsv, CsvLine, Printable, AppendBlock, Storable;
    if FromCsv(payload).Ok? { AppendExact(c, FromCsv(payload).value); }
  }

  lemma ProposeFrame(h: Hasher, s: State, payload: string)
    ensures var n, r := Next(h, s, Propose(payload)), OnProposal(h, s.chain, payload);
            && n.chain == r.chain && n.initial == s.initial && n.followers == s.followers
            && n.requests == s.requests && n.replies == s.replies
            && n.commits == s.commits + (if r.broadcast.Some? then {r.broadcast.value} else {})
  {
    hide OnProposal;
  }

  lemma ProposeLoaded(h: Hasher, s: State, payload: string)
    requires s.initial != [] && LoadedBody(h, s) && NoWrap(s.initial, OnProposal(h, s.chain, payload).chain)
    ensures LoadedBody(h, Next(h, s, Propose(payload)))
  {
    hide Grown, OnProposal, NewLine, Printable, CsvLine, Wrong, Course, Next;
    var lo, r, n := |s.initial|, OnProposal(h, s.chain, payload), Next(h, s, Propose(payload));
    ProposeFrame(h, s, payload);
    LastIndex(h, s);
    ProposalAdds(h, s.chain, payload);
    ProposalKeepsGrown(h, lo, Shift(s.initial), s.chain, payload);
    forall line | line in n.commits ensures NewLine(lo, r.chain, line) {
      if line in s.commits { NewLineGrows(lo, s.chain, r.chain, line); } else { NewLineHere(lo, r.chain, |s.chain|); }
    }
    if Wrong(h, s.initial, s.chain) { WrongGrows(h, s.initial, s.chain, r.chain); } else { CourseGrows(s, n); }
  }

  // ---- followers ----

  /** A commit of block j at a prefix adds the next block, or nothing, or it goes wrong. */
  lemma CommitStays(h: Hasher, lo: nat, shift: int, c: seq<Block>, k: nat, j: nat)
    requires Grown(h, lo, shift, c) && 0 < lo <= k <= |c| && lo <= j < |c|
    ensures var r := OnCommit(h, c[..k], CsvLine(c[j]));
            && (r.0.Behind? ==> r.0.from == k && k < j - shift)
            && (r.1 == c[..k] || (j == k && shift == 0 && r.1 == c[..k + 1]) || WrongAt(h, c, j, k))
  {
    hide Grown, FromCsv, CsvLine, ValidBlock, ValidLink, ParserShaped, FindIndex, Storable, Printable, AppendBlock;
    GrownBlock(h, lo, shift, c, j);
    AppendExact(c[..k], c[j]);
    if j == k { assert c[..k + 1] == c[..k] + [c[k]]; }
  }

  /** And it does go wrong there. */
  lemma CommitGoesWrong(h: Hasher, lo: nat, shift: int, c: seq<Block>, k: nat, j: nat)
    requires Grown(h, lo, shift, c) && lo > 0 && lo <= j && WrongAt(h, c, j, k)
    ensures OnCommit(h, c[..k], CsvLine(c[j])) == (Appended, c[..k] + [c[j]])
  {
    hide Grown, FromCsv, CsvLine, ValidBlock, ValidLink, ParserShaped, FindIndex, Storable, Printable, AppendBlock;
    GrownBlock(h, lo, shift, c, j);
    AppendExact(c[..k], c[j]);
  }

  /** What a commit does to a follower on its line, and what it asks for. */
  lemma CommitOnLine(h: Hasher, initial: seq<Block>, c: seq<Block>, d: seq<Block>, line: string)
    requires initial != [] && Built(h, initial, c) && !Wrong(h, initial, c) && NewLine(|initial|, c, line)
    requires |initial| <= |d| && OnLine(|initial|, Shift(initial), c, d)
    ensures var r := OnCommit(h, d, line);
            && OnLine(|initial|, Shift(initial), c, r.1)
            && (r.0.Behind? ==> GoodRequest(|initial|, Shift(initial), c, r.0.from))
  {
    hide Grown, Printable, CsvLine, OnCommit, WrongAt, Stop;
    var lo, shift, k := |initial|, Shift(initial), |d|;
    var j :| lo <= j < |c| && Printable(c[j]) && line == CsvLine(c[j]);
    assert d == c[..k];
    CommitStays(h, lo, shift, c, k, j);
    assert WrongAt(h, c, j, k) ==> WrongHere(h, initial, c, j, k);
    if shift == 0 && j == k { PlacedStops(lo, c, k + 1); }
  }

  lemma PlacedStops(lo: nat, c: seq<Block>, k: nat)
    requires k <= |c|
    ensures Stop(lo, 0, c, k)
  {
  }

  lemma AnswerOnLine(h: Hasher, initial: seq<Block>, c: seq<Block>, d: seq<Block>, text: string)
    requires initial != [] && Built(h, initial, c) && |initial| <= |d|
    requires OnLine(|initial|, Shift(initial), c, d) && GoodAnswer(|initial|, Shift(initial), c, |d|, text)
    ensures OnLine(|initial|, Shift(initial), c, OnSyncReply(h, d, text))
  {
    hide Grown, SyncText, OnSyncReply, OnSyncRequest;
    var lo, shift, k := |initial|, Shift(initial), |d|;
    var n: nat, from: nat :| AnswerAt(lo, shift, c, k, text, n, from);
    assert d == c[..k];
    SyncAtLast(h, lo, shift, c, d, k, n, from);
    assert c[..k] + c[k..Max(k, n)] == c[..Max(k, n)];
  }

  /** One follower is replaced by a longer chain, on its line. */
  lemma CourseMoves(s: State, f: nat, d: seq<Block>, requests: set<(nat, nat)>)
    requires s.initial != [] && Course(s) && OnLine(|s.initial|, Shift(s.initial), s.chain, d)
    requires f in s.followers ==> |s.followers[f]| <= |d|
    requires GoodRequests(|s.initial|, Shift(s.initial), s.chain, s.followers[f := d], requests)
    ensures Course(s.(followers := s.followers[f := d], requests := requests))
  {
    hide OnLine, GoodAnswer;
    var lo, shift, fs := |s.initial|, Shift(s.initial), s.followers[f := d];
    forall r | r in s.replies ensures r.0 in fs && GoodAnswer(lo, shift, s.chain, |fs[r.0]|, r.1) {
      AnswerMoves(lo, shift, s.chain, s.chain, |s.followers[r.0]|, |fs[r.0]|, r.1);
    }
  }

  lemma FollowerLoaded(h: Hasher, s: State, f: nat, d: seq<Block>, requests: set<(nat, nat)>)
    requires s.initial != [] && LoadedBody(h, s) && |s.initial| <= |d|
    requires f in s.followers ==> |s.followers[f]| <= |d|
    requires !Wrong(h, s.initial, s.chain) ==>
               OnLine(|s.initial|, Shift(s.initial), s.chain, d)
               && GoodRequests(|s.initial|, Shift(s.initial), s.chain, s.followers[f := d], requests)
    ensures LoadedBody(h, s.(followers := s.followers[f := d], requests := requests))
  {
    hide Built, NewCommits, Course, GoodRequests, OnLine, Wrong;
    if !Wrong(h, s.initial, s.chain) { CourseMoves(s, f, d, requests); }
  }

  lemma OneMoreRequest(
    lo: nat, shift: int, c: seq<Block>, fs: map<nat, seq<Block>>, requests: set<(nat, nat)>,
    f: nat, d: seq<Block>, k: nat)
    requires GoodRequests(lo, shift, c, fs, requests) && (f in fs ==> |fs[f]| <= |d|)
    requires k <= |d| && GoodRequest(lo, shift, c, k)
    ensures GoodRequests(lo, shift, c, fs[f := d], requests + {(f, k)})
  {
    hide GoodRequest;
  }

  lemma SameRequests(
    lo: nat, shift: int, c: seq<Block>, fs: map<nat, seq<Block>>, requests: set<(nat, nat)>, f: nat, d: seq<Block>)
    requires GoodRequests(lo, shift, c, fs, requests) && (f in fs ==> |fs[f]| <= |d|)
    ensures GoodRequests(lo, shift, c, fs[f := d], requests)
  {
    hide GoodRequest;
  }

  lemma DeliverLoaded(h: Hasher, s: State, f: nat, line: string)
    requires s.initial != [] && LoadedBody(h, s)
    ensures LoadedBody(h, Next(h, s, DeliverCommit(f, line)))
  {
    hide Built, NewLine, GoodRequests, GoodReplies, GoodRequest, OnLine, OnCommit, Wrong;
    if f in s.followers && line in s.commits {
      var lo, shift, d := |s.initial|, Shift(s.initial), s.followers[f];
      var r := OnCommit(h, d, line);
      CommitGrows(h, d, line);
      if !Wrong(h, s.initial, s.chain) {
        CommitOnLine(h, s.initial, s.chain, d, line);
        SameRequests(lo, shift, s.chain, s.followers, s.requests, f, r.1);
        if r.0.Behind? { OneMoreRequest(lo, shift, s.chain, s.followers, s.requests, f, r.1, r.0.from); }
      }
      assert s.requests + {} == s.requests;
      FollowerLoaded(h, s, f, r.1, s.requests + (if r.0.Behind? then {(f, r.0.from)} else {}));
    }
  }

  lemma ApplyLoaded(h: Hasher, s: State, f: nat, text: string)
    requires s.initial != [] && LoadedBody(h, s)
    ensures LoadedBody(h, Next(h, s, ApplySync(f, text)))
  {
    hide Built, NewCommits, GoodRequests, GoodAnswer, OnLine, OnSyncReply, Wrong;
    if f in s.followers && (f, text) in s.replies {
      var d := s.followers[f];
      ReplyGrows(h, d, text);
      if !Wrong(h, s.initial, s.chain) {
        AnswerOnLine(h, s.initial, s.chain, d, text);
        SameRequests(|s.initial|, Shift(s.initial), s.chain, s.followers, s.requests, f, OnSyncReply(h, d, text));
      }
      FollowerLoaded(h, s, f, OnSyncReply(h, d, text), s.requests);
    }
  }

  lemma AnswerSent(lo: nat, shift: int, c: seq<Block>, height: nat, from: nat)
    requires GoodRequest(lo, shift, c, from) && from <= height && OnSyncRequest(c, from).Some?
    ensures GoodAnswer(lo, shift, c, height, SyncText(c, from))
  {
    hide SyncText, Stop, OnSyncRequest;
    assert c[..|c|] == c;
    assert AnswerAt(lo, shift, c, height, SyncText(c, from), |c|, from);
  }

  lemma ServeLoaded(h: Hasher, s: State, f: nat, from: nat)
    requires s.initial != [] && LoadedBody(h, s)
    ensures LoadedBody(h, Next(h, s, ServeSync(f, from)))
  {
    hide Built, NewCommits, AllOnLine, GoodRequest, GoodAnswer, Wrong, SyncText;
    if (f, from) in s.requests && OnSyncRequest(s.chain, from).Some? && !Wrong(h, s.initial, s.chain) {
      AnswerSent(|s.initial|, Shift(s.initial), s.chain, |s.followers[f]|, from);
    }
  }

  lemma StartOnLine(lo: nat, shift: int, initial: seq<Block>, c: seq<Block>)
    requires initial <= c && lo == |initial|
    ensures OnLine(lo, shift, c, initial)
  {
  }

  lemma StartLoaded(h: Hasher, s: State, f: nat)
    requires s.initial != [] && LoadedBody(h, s)
    ensures LoadedBody(h, Next(h, s, StartNode(f)))
  {
    hide Grown, NewCommits, AllOnLine, GoodRequests, GoodReplies, OnLine, Wrong;
    if f !in s.followers {
      StartOnLine(|s.initial|, Shift(s.initial), s.initial, s.chain);
      if !Wrong(h, s.initial, s.chain) {
        SameRequests(|s.initial|, Shift(s.initial), s.chain, s.followers, s.requests, f, s.initial);
      }
      FollowerLoaded(h, s, f, s.initial, s.requests);
    }
  }

  lemma LoadedFrame(h: Hasher, s: State, s': State)
    requires s.initial != [] && LoadedBody(h, s) && SameNodes(s, s')
    ensures LoadedBody(h, s')
  {
    hide Built, NewCommits, AllOnLine, GoodRequests, GoodReplies, Wrong, FollowersStarted;
  }

  lemma BodyKeeps(h: Hasher, s: State, step: Step)
    requires s.initial != [] && LoadedBody(h, s) && NoWrap(s.initial, Next(h, s, step).chain)
    ensures Next(h, s, step).initial == s.initial && LoadedBody(h, Next(h, s, step))
  {
    hide LoadedBody, Next, NoWrap;
    NextInitial(h, s, step);
    match step
    case Propose(payload) =>
      ProposeFrame(h, s, payload);
      ProposeLoaded(h, s, payload);
    case DeliverCommit(f, line) => DeliverLoaded(h, s, f, line);
    case ServeSync(f, from) => ServeLoaded(h, s, f, from);
    case ApplySync(f, text) => ApplyLoaded(h, s, f, text);
    case StartNode(f) => StartLoaded(h, s, f);
    case _ =>
      MinerStepRests(h, s, step);
      LoadedFrame(h, s, Next(h, s, step));
  }

  lemma NextLoaded(h: Hasher, s: State, step: Step)
    requires LoadedInv(h, s)
    ensures LoadedInv(h, Next(h, s, step))
  {
    hide LoadedBody, Next;
    NextInitial(h, s, step);
    NextGrows(h, s, step);
    if NoWrap(s.initial, Next(h, s, step).chain) { BodyKeeps(h, s, step); }
  }

  lemma {:induction false} RunLoaded(h: Hasher, s: State, steps: seq<Step>)
    requires LoadedInv(h, s)
    ensures LoadedInv(h, Run(h, s, steps))
    decreases |steps|
  {
    hide Next, LoadedInv;
    if steps != [] {
      NextLoaded(h, s, steps[0]);
      RunLoaded(h, Next(h, s, steps[0]), steps[1..]);
    }
  }

  lemma InitLoaded(h: Hasher, initial: seq<Block>)
    requires Startable(initial) && initial != []
    ensures LoadedInv(h, Init(initial))
  {
    hide ParserShaped, Stop;
  }

  // ---- agreement ----

  /** No message can make a follower that holds a prefix leave node 0's chain. From the empty start
      that takes a genesis block that can be sent, from a file that no commit is accepted at the
      wrong height. */
  predicate Settled(h: Hasher, s: State) {
    if s.initial == [] then |s.chain| < 2 || Printable(s.chain[0])
    else NoWrap(s.initial, s.chain) && !Wrong(h, s.initial, s.chain)
  }

  lemma LoadedPrefixes(h: Hasher, initial: seq<Block>, steps: seq<Step>)
    requires Startable(initial) && initial != []
    ensures var s := Run(h, Init(initial), steps);
            s.initial == initial && (Settled(h, s) ==> forall f :: f in s.followers ==> s.followers[f] <= s.chain)
  {
    hide Run, Built, NewCommits, GoodRequests, GoodReplies, Startable, Stop, Wrong, NoWrap;
    SameInitial(h, Init(initial), steps);
    InitLoaded(h, initial);
    RunLoaded(h, Init(initial), steps);
  }

  /** From no file and from every file that loads: in every reachable state that is settled each
      follower holds a prefix of node 0's chain, so no two nodes differ at a common height. */
  lemma Agreement(h: Hasher, initial: seq<Block>, steps: seq<Step>)
    requires Startable(initial)
    ensures var s := Run(h, Init(initial), steps);
            && s.initial == initial
            && (Settled(h, s) ==>
                  && (forall f :: f in s.followers ==> s.followers[f] <= s.chain)
                  && (forall f, g, i :: f in s.followers && g in s.followers
                        && 0 <= i < |s.followers[f]| && i < |s.followers[g]|
                        ==> s.followers[f][i] == s.followers[g][i]))
  {
    hide Run, Startable, Wrong, NoWrap, Printable;
    SameInitial(h, Init(initial), steps);
    if initial == [] { GoodAgreement(h, initial, steps); } else { LoadedPrefixes(h, initial, steps); }
  }
}
