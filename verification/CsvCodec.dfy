/** The printing and parsing loops of common/block.c, writing through a moving offset and
    reading with moving cursors, proved against ToCsv and FromCsv. */
module CsvCodec {
  import opened Text
  import opened Hex
  import opened Blocks

  /** memcpy(buffer + offset, s, |s|); offset += |s|. */
  method CopyAt(buffer: array<char>, offset: nat, s: string) returns (end: nat)
    requires offset + |s| <= buffer.Length
    modifies buffer
    ensures end == offset + |s|
    ensures buffer[..end] == old(buffer[..offset]) + s
  {
    for i := 0 to |s|
      invariant buffer[..offset + i] == old(buffer[..offset]) + s[..i]
    {
      buffer[offset + i] := s[i];
    }
    end := offset + |s|;
  }

  /** One transaction, with "::" after it unless it is the last. */
  method WritePiece(buffer: array<char>, start: nat, parts: seq<string>, i: nat) returns (offset: nat)
    requires i < |parts| && start + |JoinPiece(parts, i)| <= buffer.Length
    modifies buffer
    ensures offset == start + |JoinPiece(parts, i)|
    ensures buffer[..offset] == old(buffer[..start]) + JoinPiece(parts, i)
  {
    offset := CopyAt(buffer, start, parts[i]);
    if i + 1 < |parts| {
      offset := CopyAt(buffer, offset, "::");
    }
  }

  lemma Assoc(a: string, b: string, c: string)
    ensures (a + b) + c == a + (b + c)
  {
  }

  /** The loop over the transactions that block_to_csv and build_block_hash_input share. */
  method WriteJoined(buffer: array<char>, start: nat, parts: seq<string>) returns (offset: nat)
    requires start + |Join(parts)| <= buffer.Length
    modifies buffer
    ensures offset == start + |Join(parts)|
    ensures buffer[..offset] == old(buffer[..start]) + Join(parts)
  {
    offset := start;
    ghost var before, done := buffer[..start], "";
    assert parts[0..] == parts && parts[|parts|..] == [] && Join([]) == "";
    hide Join, JoinPiece;
    for i := 0 to |parts|
      invariant offset == start + |done| <= buffer.Length
      invariant buffer[..offset] == before + done
      invariant done + Join(parts[i..]) == Join(parts)
    {
      JoinStep(parts, i);
      ghost var piece := JoinPiece(parts, i);
      Assoc(done, piece, Join(parts[i + 1..]));
      Assoc(before, done, piece);
      offset := WritePiece(buffer, offset, parts, i);
      done := done + piece;
    }
  }

  ghost function JoinPiece(parts: seq<string>, i: nat): string
    requires i < |parts|
  {
    if i + 1 < |parts| then parts[i] + "::" else parts[i]
  }

  lemma JoinStep(parts: seq<string>, i: nat)
    requires i < |parts|
    ensures Join(parts[i..]) == JoinPiece(parts, i) + Join(parts[i + 1..])
  {
    var tail := parts[i..];
    assert tail[0] == parts[i] && tail[1..] == parts[i + 1..];
  }

  method IsLowercaseHexHash(hash: string) returns (ok: bool)
    ensures ok <==> IsHash(hash)
  {
    if |hash| != HASH_LENGTH { return false; }
    for i := 0 to HASH_LENGTH
      invariant AllLowerHex(hash[..i])
    {
      if !IsLowerHex(hash[i]) { return false; }
      assert hash[..i + 1] == hash[..i] + [hash[i]];
    }
    assert hash[..HASH_LENGTH] == hash;
    return true;
  }

  /** The validation loop of block_to_csv, which also adds up the transactions' length. */
  method MeasureTransactions(ts: seq<string>) returns (ok: bool, length: nat)
    ensures ok <==> forall t :: t in ts ==> PrintableTx(t)
    ensures ok ==> length == JoinedLength(ts)
  {
    length := 0;
    for i := 0 to |ts|
      invariant length + JoinedLength(ts[i..]) == JoinedLength(ts)
      invariant forall j :: 0 <= j < i ==> PrintableTx(ts[j])
    {
      var t := ts[i];
      assert t in ts && ts[i..][1..] == ts[i + 1..];
      if |t| == 0 || |t| >= MAX_TRANSACTION_LENGTH { return false, 0; }
      if '"' in t || FindSep(t) != |t| || '\n' in t || '\r' in t { return false, 0; }
      length := length + |t|;
      if i + 1 < |ts| { length := length + 2; }
    }
    ok := true;
  }

  /** The writing half of block_to_csv: the buffer is filled exactly. */
  method WriteLine(b: Block, total: nat) returns (line: string)
    requires Printable(b) && total == |CsvLine(b)|
    ensures line == CsvLine(b)
  {
    var header, joined := Row(HeaderFields(b), "\""), Join(b.transactions);
    RowAppend(HeaderFields(b), "\"", joined + "\"");
    assert Quoted(joined) == "\"" + (joined + "\"");
    assert CsvLine(b) == header + (joined + "\"");
    var buffer := new char[total];
    var offset := CopyAt(buffer, 0, header);
    assert buffer[..0] == "" && "" + header == header;
    offset := WriteJoined(buffer, offset, b.transactions);
    offset := CopyAt(buffer, offset, "\"");
    assert buffer[..] == buffer[..offset] == header + joined + "\"";
    line := buffer[..];
  }

  /** block_to_csv. */
  method PrintBlock(b: Block) returns (r: Result<string>)
    ensures r == ToCsv(b)
    ensures r.Ok? ==> (FromCsv(r.value) == Ok(b) <==> Shaped(b.transactions))
  {
    var previousOk := IsLowercaseHexHash(b.previousHash);
    var rootOk := IsLowercaseHexHash(b.merkleRoot);
    if !previousOk || !rootOk { return Err(InvalidBlock); }
    if |b.transactions| == 0 || |b.transactions| > MAX_TRANSACTIONS { return Err(InvalidBlock); }
    var ok, length := MeasureTransactions(b.transactions);
    if !ok { return Err(InvalidTransaction); }
    LineLength(b);
    RoundTripExact(b);
    var total := 16 + 1 + 16 + 1 + HASH_LENGTH + 1 + HASH_LENGTH + 1 + 16 + 1 + 2 + length;
    var line := WriteLine(b, total);
    r := Ok(line);
  }

  lemma {:induction false} RowAppend(fields: seq<string>, last: string, more: string)
    ensures Row(fields, last + more) == Row(fields, last) + more
  {
    if fields != [] {
      RowAppend(fields[1..], last, more);
      assert Row(fields, last + more) == fields[0] + ("," + (Row(fields[1..], last) + more));
    }
  }

  ghost function Prepend(fields: seq<string>, r: Option<(seq<string>, string)>): Option<(seq<string>, string)> {
    match r
    case None => None
    case Some((fs, rest)) => Some((fields + fs, rest))
  }

  lemma PrependField(fields: seq<string>, s: string, n: nat)
    requires n > 0 && FindAny(s, {','}) < |s|
    ensures var i := FindAny(s, {','});
            Prepend(fields, CutFields(s, n)) == Prepend(fields + [s[..i]], CutFields(s[i + 1..], n - 1))
  {
    hide FindAny;
    var i := FindAny(s, {','});
    var next := CutFields(s[i + 1..], n - 1);
    if next.Some? {
      assert fields + ([s[..i]] + next.value.0) == (fields + [s[..i]]) + next.value.0;
    }
  }

  lemma NoField(fields: seq<string>, s: string, n: nat)
    ensures n > 0 && FindAny(s, {','}) == |s| ==> Prepend(fields, CutFields(s, n)) == None
    ensures Prepend(fields, CutFields(s, 0)) == Some((fields, s))
    ensures Prepend([], CutFields(s, n)) == CutFields(s, n)
  {
    hide FindAny;
    assert fields + [] == fields;
    var cut := CutFields(s, n);
    if cut.Some? { assert [] + cut.value.0 == cut.value.0; }
  }

  /** The comma searches of block_from_csv (n is 5 there). The cursor is a C pointer, that
      is, the rest of the string. */
  method TakeFields(s: string, n: nat) returns (ok: bool, fields: seq<string>, rest: string)
    ensures CutFields(s, n) == if ok then Some((fields, rest)) else None
    ensures ok ==> |fields| == n
  {
    hide FindAny, CutFields, Prepend;
    var cursor := s;
    fields := [];
    NoField([], s, n);
    var left := n;
    while left > 0
      invariant |fields| + left == n
      invariant CutFields(s, n) == Prepend(fields, CutFields(cursor, left))
    {
      NoField(fields, cursor, left);
      var comma := FindAny(cursor, {','});
      if comma == |cursor| { return false, fields, cursor; }
      PrependField(fields, cursor, left);
      fields := fields + [cursor[..comma]];
      cursor, left := cursor[comma + 1..], left - 1;
    }
    NoField(fields, cursor, 0);
    return true, fields, cursor;
  }

  /** The transaction loop of block_from_csv. */
  method TakeTransactions(header: Block, body: string) returns (r: Result<Block>)
    ensures r == AddAll(header, Split(body))
  {
    r := Ok(header);
    var cursor := Some(body);
    while r.Ok? && cursor.Some?
      invariant AddAll(header, Split(body)) ==
                if r.Ok? && cursor.Some? then AddAll(r.value, Split(cursor.value)) else r
      decreases cursor.Some?, if cursor.Some? then |cursor.value| else 0
    {
      var tail := cursor.value;
      var sep := FindSep(tail);
      assert Split(tail)[0] == tail[..sep];
      assert sep < |tail| ==> Split(tail)[1..] == Split(tail[sep + 2..]);
      r := AddTransaction(r.value, tail[..sep]);
      cursor := if sep == |tail| then None else Some(tail[sep + 2..]);
    }
  }

  /** block_from_csv. */
  method ParseBlock(line: string) returns (r: Result<Block>)
    ensures r == FromCsv(line)
    ensures r.Ok? ==> LineSpells(line, r.value) && FromCsv(CsvLine(r.value)) == r
    ensures r.Err? ==> forall b :: !LineSpells(line, b)
  {
    forall b ensures FromCsv(line) == Ok(b) <==> LineSpells(line, b) { ParserExact(line, b); }
    if FromCsv(line).Ok? {
      ParserYieldsShape(line);
      ParserNormalForm(line);
    }
    var copy := line[..FindAny(line, {'\r', '\n'})];
    var ok, fields, last := TakeFields(copy, 5);
    if !ok { return Err(FileFormat); }
    if |last| == 0 || last[0] != '"' { return Err(FileFormat); }
    if |last| < 2 || last[|last| - 1] != '"' { return Err(FileFormat); }
    var body := last[1..|last| - 1];

    var index := ParseHexU64(fields[0]);
    if index.Err? { return Err(FileFormat); }
    var timestamp := ParseHexU64(fields[1]);
    if timestamp.Err? { return Err(FileFormat); }
    var previousOk := IsLowercaseHexHash(fields[2]);
    if !previousOk { return Err(FileFormat); }
    var rootOk := IsLowercaseHexHash(fields[3]);
    if !rootOk { return Err(FileFormat); }
    var nonce := ParseHexU64(fields[4]);
    if nonce.Err? { return Err(FileFormat); }
    if body == "" { return Err(FileFormat); }
    r := TakeTransactions(
      Block(index.value, timestamp.value, fields[2], fields[3], nonce.value, []), body);
  }
}
