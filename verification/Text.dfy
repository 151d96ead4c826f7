/** C and shell string primitives shared by every other module. A C string is the
    sequence of its bytes before the terminating NUL, so no NUL appears in the model. */
module Text {

  datatype Option<+T> = None | Some(value: T)

  datatype Error =
    | InvalidArgument
    | InvalidTransaction
    | InvalidBlock
    | InvalidBlockchain
    | MemoryAllocation
    | FileRead
    | FileFormat

  datatype Result<+T> = Ok(value: T) | Err(error: Error)

  predicate IsDigit(c: char) { '0' <= c <= '9' }

  predicate IsLowerHex(c: char) { IsDigit(c) || 'a' <= c <= 'f' }

  predicate IsAlnum(c: char) { IsDigit(c) || 'a' <= c <= 'z' || 'A' <= c <= 'Z' }

  // ---- strchr / strcspn ----

  /** The position of the first character of `s` that lies in `stop`, or |s| if there is none. */
  function FindAny(s: string, stop: set<char>): (i: nat)
    ensures i <= |s|
    ensures forall j :: 0 <= j < i ==> s[j] !in stop
    ensures i < |s| ==> s[i] in stop
  {
    if s == "" || s[0] in stop then 0 else 1 + FindAny(s[1..], stop)
  }

  lemma FindAnyUnique(s: string, stop: set<char>, k: nat)
    requires k <= |s|
    requires forall j :: 0 <= j < k ==> s[j] !in stop
    requires k < |s| ==> s[k] in stop
    ensures FindAny(s, stop) == k
  {
  }

  /** A text without stop characters, then one, then anything. */
  lemma CutAtStop(p: string, stop: string, rest: string, stops: set<char>)
    requires (forall j :: 0 <= j < |p| ==> p[j] !in stops) && |stop| == 1 && stop[0] in stops
    ensures var s := p + (stop + rest);
            FindAny(s, stops) == |p| && s[..|p|] == p && s[|p| + 1..] == rest
  {
    hide FindAny;
    var s := p + (stop + rest);
    assert forall j :: 0 <= j < |p| ==> s[j] == p[j];
    assert s[|p|] == stop[0];
    FindAnyUnique(s, stops, |p|);
  }

  // ---- comma separated rows ----

  /** The fields followed by commas, then `last` as it is. */
  function Row(fields: seq<string>, last: string): string {
    if fields == [] then last else fields[0] + ("," + Row(fields[1..], last))
  }

  /** Cuts `n` fields off the front of `s` at its first `n` commas. */
  function CutFields(s: string, n: nat): Option<(seq<string>, string)> {
    if n == 0 then Some(([], s))
    else
      var i := FindAny(s, {','});
      if i == |s| then None
      else match CutFields(s[i + 1..], n - 1)
        case None => None
        case Some((fs, rest)) => Some(([s[..i]] + fs, rest))
  }

  lemma RowCons(field: string, fields: seq<string>, last: string)
    ensures Row([field] + fields, last) == field + ("," + Row(fields, last))
  {
    var all := [field] + fields;
    assert all[0] == field && all[1..] == fields;
  }

  lemma CutCons(field: string, rest: string, n: nat)
    requires ',' !in field && CutFields(rest, n).Some?
    ensures CutFields(field + ("," + rest), n + 1)
         == Some(([field] + CutFields(rest, n).value.0, CutFields(rest, n).value.1))
  {
    hide FindAny;
    CutAtStop(field, ",", rest, {','});
  }

  /** CutFields inverts Row whenever no field holds a comma. */
  lemma {:induction false} CutRow(fields: seq<string>, last: string)
    requires forall f :: f in fields ==> ',' !in f
    ensures CutFields(Row(fields, last), |fields|) == Some((fields, last))
    decreases |fields|
  {
    if fields != [] {
      hide Row, CutFields;
      var field, rest := fields[0], fields[1..];
      assert fields == [field] + rest;
      CutRow(rest, last);
      RowCons(field, rest, last);
      CutCons(field, Row(rest, last), |rest|);
    }
  }

  lemma CutStep(s: string, n: nat)
    requires n > 0 && CutFields(s, n).Some?
    ensures var i := FindAny(s, {','});
            i < |s| && s == s[..i] + ("," + s[i + 1..]) && CutFields(s[i + 1..], n - 1).Some?
            && CutFields(s, n).value.0 == [s[..i]] + CutFields(s[i + 1..], n - 1).value.0
            && CutFields(s, n).value.1 == CutFields(s[i + 1..], n - 1).value.1
  {
    hide FindAny;
  }

  /** What CutFields cuts is a row of the same text. */
  lemma {:induction false} RowOfCut(s: string, n: nat)
    requires CutFields(s, n).Some?
    ensures |CutFields(s, n).value.0| == n && s == Row(CutFields(s, n).value.0, CutFields(s, n).value.1)
    decreases n
  {
    hide FindAny, Row, CutFields;
    if n > 0 {
      var i := FindAny(s, {','});
      CutStep(s, n);
      RowOfCut(s[i + 1..], n - 1);
      RowCons(s[..i], CutFields(s[i + 1..], n - 1).value.0, CutFields(s, n).value.1);
    } else {
      CutNone(s);
      RowNone(s);
    }
  }

  lemma CutNone(s: string)
    ensures CutFields(s, 0) == Some(([], s))
  {
  }

  lemma RowNone(last: string)
    ensures Row([], last) == last
  {
  }

  lemma {:induction false} RowEnds(fields: seq<string>, last: string)
    requires last != ""
    ensures Row(fields, last) != "" && Row(fields, last)[|Row(fields, last)| - 1] == last[|last| - 1]
  {
    if fields != [] { RowEnds(fields[1..], last); }
  }

  /** Every character of a row comes from a field, a comma or the last part. */
  lemma {:induction false} RowChars(fields: seq<string>, last: string, c: char)
    requires c != ','
    requires forall f :: f in fields ==> c !in f
    requires c !in last
    ensures c !in Row(fields, last)
  {
    if fields != [] { RowChars(fields[1..], last, c); }
  }

  lemma {:induction false} RowLength(fields: seq<string>, last: string, bound: nat)
    requires forall f :: f in fields ==> |f| <= bound
    ensures |last| <= |Row(fields, last)| <= |fields| * (bound + 1) + |last|
  {
    if fields != [] {
      assert fields[0] in fields;
      RowLength(fields[1..], last, bound);
      MulSucc(|fields| - 1, bound + 1);
    }
  }

  // ---- the "::" separator ----

  predicate SepAt(s: string, i: int)
    requires 0 <= i < |s| - 1
  {
    s[i] == ':' && s[i + 1] == ':'
  }

  /** strstr(s, "::"): the first separator of `s`, or |s| if there is none. */
  function FindSep(s: string): (i: nat)
    ensures i <= |s|
    ensures i < |s| ==> i < |s| - 1 && SepAt(s, i)
    ensures forall j :: 0 <= j < i && j < |s| - 1 ==> !SepAt(s, j)
  {
    if |s| < 2 then |s|
    else if SepAt(s, 0) then 0
    else
      var k := FindSep(s[1..]);
      assert forall j :: 1 <= j < |s| - 1 ==> SepAt(s, j) == SepAt(s[1..], j - 1);
      1 + k
  }

  predicate NoSep(s: string) { forall i :: 0 <= i < |s| - 1 ==> !SepAt(s, i) }

  predicate EndsInColon(s: string) { s != "" && s[|s| - 1] == ':' }

  function Join(parts: seq<string>): string {
    if parts == [] then ""
    else if |parts| == 1 then parts[0]
    else parts[0] + ("::" + Join(parts[1..]))
  }

  /** First-match splitting, as both parsers do it. */
  function Split(s: string): (parts: seq<string>)
    ensures |parts| >= 1
    decreases |s|
  {
    var i := FindSep(s);
    if i == |s| then [s] else [s[..i]] + Split(s[i + 2..])
  }

  /** The lists that survive a join and a split. */
  predicate Shaped(parts: seq<string>) {
    && (forall p :: p in parts ==> NoSep(p))
    && (forall i :: 0 <= i < |parts| - 1 ==> !EndsInColon(parts[i]))
  }

  // One step of Join and of Split.

  lemma JoinOne(s: string)
    ensures Join([s]) == s
  {
  }

  lemma JoinCons(p: string, parts: seq<string>)
    requires parts != []
    ensures Join([p] + parts) == p + ("::" + Join(parts))
  {
    var all := [p] + parts;
    assert all[0] == p && all[1..] == parts;
  }

  lemma SplitStep(s: string)
    ensures var i := FindSep(s);
            Split(s) == if i == |s| then [s] else [s[..i]] + Split(s[i + 2..])
  {
    hide FindSep;
  }

  lemma CutAtSep(s: string, i: nat)
    requires i < |s| - 1 && SepAt(s, i)
    ensures s == s[..i] + ("::" + s[i + 2..])
  {
    assert s[i..i + 2] == "::";
    assert s == s[..i] + (s[i..i + 2] + s[i + 2..]);
  }

  /** The two sides of a separator. */
  lemma Sides(p: string, rest: string)
    ensures var s := p + ("::" + rest); s[..|p|] == p && s[|p| + 2..] == rest && |s| == |p| + 2 + |rest|
  {
  }

  lemma NoSepFound(s: string)
    requires NoSep(s)
    ensures FindSep(s) == |s|
  {
    hide FindSep;
  }

  lemma ShapedTail(p: string, tail: seq<string>)
    requires Shaped([p] + tail)
    ensures NoSep(p) && Shaped(tail) && (tail != [] ==> !EndsInColon(p))
  {
    hide NoSep, EndsInColon;
    var all := [p] + tail;
    assert all[0] == p && p in all && forall q :: q in tail ==> q in all;
    assert forall i :: 0 <= i < |tail| ==> all[i + 1] == tail[i];
  }

  lemma {:induction false} JoinSplit(s: string)
    ensures Join(Split(s)) == s
    decreases |s|
  {
    hide FindSep, Join, Split;
    var i := FindSep(s);
    SplitStep(s);
    if i == |s| {
      JoinOne(s);
    } else {
      JoinSplit(s[i + 2..]);
      JoinCons(s[..i], Split(s[i + 2..]));
      CutAtSep(s, i);
    }
  }

  /** What first-match splitting cuts off holds no separator and does not end in a colon. */
  lemma FirstPiece(s: string)
    requires FindSep(s) < |s|
    ensures NoSep(s[..FindSep(s)]) && !EndsInColon(s[..FindSep(s)])
  {
    hide FindSep;
    var i := FindSep(s);
    var head := s[..i];
    assert forall j :: 0 <= j && j + 1 < i ==> SepAt(head, j) == SepAt(s, j);
    if i > 0 { assert !SepAt(s, i - 1); }
  }

  lemma ShapedCons(p: string, tail: seq<string>)
    requires NoSep(p) && !EndsInColon(p) && Shaped(tail)
    ensures Shaped([p] + tail)
  {
    hide NoSep, EndsInColon;
    var all := [p] + tail;
    assert forall i :: 1 <= i < |all| ==> all[i] == tail[i - 1];
  }

  lemma ShapedOne(s: string)
    requires FindSep(s) == |s|
    ensures Shaped([s])
  {
    hide FindSep;
  }

  lemma {:induction false} SplitShaped(s: string)
    ensures Shaped(Split(s))
    decreases |s|
  {
    hide FindSep, Split, Shaped;
    var i := FindSep(s);
    SplitStep(s);
    if i == |s| {
      ShapedOne(s);
    } else {
      SplitShaped(s[i + 2..]);
      FirstPiece(s);
      ShapedCons(s[..i], Split(s[i + 2..]));
    }
  }

  /** The first separator after a piece that holds none and does not end in a colon. */
  lemma FirstSep(p: string, rest: string)
    requires NoSep(p) && !EndsInColon(p)
    ensures FindSep(p + ("::" + rest)) == |p|
  {
    hide FindSep;
    var s := p + ("::" + rest);
    assert SepAt(s, |p|);
    forall j | 0 <= j < |p| ensures !SepAt(s, j) {
      if j < |p| - 1 { assert !SepAt(p, j); }
    }
  }

  lemma {:induction false} SplitJoin(parts: seq<string>)
    requires parts != [] && Shaped(parts)
    ensures Split(Join(parts)) == parts
    decreases |parts|
  {
    hide FindSep, Join, Split, Shaped, NoSep, EndsInColon;
    var p, tail := parts[0], parts[1..];
    assert parts == [p] + tail;
    ShapedTail(p, tail);
    if tail == [] {
      assert parts == [p];
      JoinOne(p);
      NoSepFound(p);
      SplitStep(p);
    } else {
      SplitJoin(tail);
      JoinCons(p, tail);
      FirstSep(p, Join(tail));
      Sides(p, Join(tail));
      SplitStep(Join(parts));
    }
  }

  /** Joining a non-empty list loses nothing exactly when the list is Shaped. */
  lemma SplitJoinExact(parts: seq<string>)
    requires parts != []
    ensures Split(Join(parts)) == parts <==> Shaped(parts)
  {
    hide Split, Join, Shaped;
    SplitShaped(Join(parts));
    if Shaped(parts) { SplitJoin(parts); }
  }

  // How many pieces a text has.

  lemma SplitFront(s: string)
    requires |s| >= 2
    ensures SepAt(s, 0) ==> |Split(s)| == 1 + |Split(s[2..])|
    ensures !SepAt(s, 0) ==> |Split(s)| == |Split(s[1..])|
  {
    hide Split;
    SplitStep(s);
    SplitStep(s[1..]);
    var i := FindSep(s);
    if !SepAt(s, 0) && i < |s| { assert s[1..][i - 1 + 2..] == s[i + 2..]; }
  }

  lemma SplitShort(s: string)
    requires |s| < 2
    ensures Split(s) == [s]
  {
  }

  /** One character more adds at most one piece and takes none away. */
  lemma {:induction false} SplitDrop(s: string)
    requires s != ""
    ensures |Split(s[1..])| <= |Split(s)| <= 1 + |Split(s[1..])|
    decreases |s|
  {
    hide Split;
    if |s| == 1 {
      SplitShort(s);
      SplitShort(s[1..]);
    } else {
      SplitFront(s);
      SplitDrop(s[1..]);
      assert s[1..][1..] == s[2..];
    }
  }

  lemma {:induction false} SplitSuffix(u: string, v: string)
    ensures |Split(v)| <= |Split(u + v)|
    decreases |u|
  {
    hide Split;
    if u == "" {
      assert u + v == v;
    } else {
      SplitDrop(u + v);
      assert (u + v)[1..] == u[1..] + v;
      SplitSuffix(u[1..], v);
    }
  }

  /** A joined list never splits into fewer pieces than it had. */
  lemma {:induction false} JoinCount(parts: seq<string>)
    requires parts != []
    ensures |parts| <= |Split(Join(parts))|
    decreases |parts|
  {
    hide Split, Join;
    if |parts| > 1 {
      var p, tail := parts[0], parts[1..];
      var rest := "::" + Join(tail);
      assert parts == [p] + tail && rest[2..] == Join(tail);
      JoinCons(p, tail);
      JoinCount(tail);
      SplitFront(rest);
      SplitSuffix(p, rest);
    }
  }

  lemma {:induction false} JoinChars(parts: seq<string>, c: char)
    requires c != ':'
    ensures c in Join(parts) <==> exists p :: p in parts && c in p
  {
    if |parts| > 1 {
      JoinChars(parts[1..], c);
      assert parts == [parts[0]] + parts[1..];
      assert Join(parts) == parts[0] + ("::" + Join(parts[1..]));
    } else if |parts| == 1 {
      assert parts[0] in parts;
    }
  }

  /** The number of bytes the C printers reserve for the joined transactions. */
  function JoinedLength(parts: seq<string>): nat {
    if parts == [] then 0
    else |parts[0]| + (if |parts| > 1 then 2 else 0) + JoinedLength(parts[1..])
  }

  lemma MulSucc(n: nat, c: nat)
    ensures (n + 1) * c == n * c + c
  {
  }

  lemma {:induction false} JoinedLengthExact(parts: seq<string>)
    ensures |Join(parts)| == JoinedLength(parts)
  {
    if parts != [] { JoinedLengthExact(parts[1..]); }
  }

  lemma {:induction false} JoinedLengthBound(parts: seq<string>, bound: nat)
    requires forall p :: p in parts ==> |p| <= bound
    ensures parts != [] ==> JoinedLength(parts) + 2 <= |parts| * (bound + 2)
  {
    if parts != [] {
      assert parts[0] in parts;
      JoinedLengthBound(parts[1..], bound);
      MulSucc(|parts| - 1, bound + 2);
    }
  }

  // ---- lines ----

  /** The position of the first newline, or |s|. */
  function LineEnd(s: string): (i: nat)
    ensures i <= |s|
  {
    FindAny(s, {'\n'})
  }

  lemma LineEndAt(line: string, rest: string)
    requires '\n' !in line
    ensures var s := line + ("\n" + rest);
            LineEnd(s) == |line| && s[..|line|] == line && s[|line| + 1..] == rest
  {
    CutAtStop(line, "\n", rest, {'\n'});
  }

  /** The newline separated pieces of `s` that are not empty, as strtok_r returns them. */
  function Tokens(s: string): seq<string>
    decreases |s|
  {
    var i := LineEnd(s);
    var head := if i == 0 then [] else [s[..i]];
    if i == |s| then head else head + Tokens(s[i + 1..])
  }

  /** Each line followed by a newline. */
  function Lines(lines: seq<string>): string {
    if lines == [] then "" else lines[0] + ("\n" + Lines(lines[1..]))
  }

  lemma LinesCons(line: string, rest: seq<string>)
    ensures Lines([line] + rest) == line + ("\n" + Lines(rest))
  {
    var all := [line] + rest;
    assert all[0] == line && all[1..] == rest;
  }

  lemma {:induction false} LinesConcat(a: seq<string>, b: seq<string>)
    ensures Lines(a + b) == Lines(a) + Lines(b)
    decreases |a|
  {
    hide Lines;
    if a == [] {
      assert a + b == b && Lines(a) == "" by { NoLines(); }
    } else {
      var line, rest := a[0], a[1..];
      assert a == [line] + rest && a + b == [line] + (rest + b);
      LinesConcat(rest, b);
      LinesCons(line, rest);
      LinesCons(line, rest + b);
      Regroup(line, Lines(rest), Lines(b));
    }
  }

  lemma NoLines()
    ensures Lines([]) == ""
  {
  }

  lemma Regroup(line: string, s: string, t: string)
    ensures line + ("\n" + (s + t)) == (line + ("\n" + s)) + t
  {
  }

  predicate LineText(s: string) { s != "" && '\n' !in s }

  lemma TokensStep(s: string)
    requires 0 < LineEnd(s) < |s|
    ensures Tokens(s) == [s[..LineEnd(s)]] + Tokens(s[LineEnd(s) + 1..])
  {
    hide LineEnd;
  }

  lemma TokensCons(line: string, rest: string)
    requires LineText(line)
    ensures Tokens(line + ("\n" + rest)) == [line] + Tokens(rest)
  {
    hide Tokens, LineEnd;
    LineEndAt(line, rest);
    TokensStep(line + ("\n" + rest));
  }

  lemma {:induction false} TokensOfLines(lines: seq<string>)
    requires forall l :: l in lines ==> LineText(l)
    ensures Tokens(Lines(lines)) == lines
    decreases |lines|
  {
    hide Tokens, Lines;
    if lines == [] {
      NoLines();
      NoTokens();
    } else {
      var line, rest := lines[0], lines[1..];
      assert lines == [line] + rest && LineText(line);
      LinesCons(line, rest);
      TokensCons(line, Lines(rest));
      TokensOfLines(rest);
    }
  }

  lemma NoTokens()
    ensures Tokens("") == []
  {
  }

  lemma {:induction false} LinesLength(lines: seq<string>, bound: nat)
    requires forall l :: l in lines ==> |l| <= bound
    ensures |Lines(lines)| <= |lines| * (bound + 1)
  {
    if lines != [] {
      assert lines[0] in lines;
      LinesLength(lines[1..], bound);
      MulSucc(|lines| - 1, bound + 1);
    }
  }
}
