/** What becomes of a text that is encoded and decoded again, over the two programs as they read their input in
pieces. */
module RunLengthRoundTrip {

  import opened CStrings
  import opened RunLength
  import opened RunLengthPrograms
  import opened RunLengthStreams
  import opened Sequences

  // ---------- an encoded line that is cut at an odd position ----------

  /** The pairs the decoder reads, as runs that may be empty and may continue one another. */
  function Blocks(s: string): (blocks: seq<Run>)
    ensures |blocks| == |s| / 2
  {
    if |s| < 2 then [] else [Run(Count(s[0]), s[1])] + Blocks(s[2..])
  }

  lemma {:induction false} BlocksDecode(s: string)
    ensures Decode(s) == Expand(Blocks(s))
  {
    if |s| >= 2 {
      BlocksDecode(s[2..]);
      ExpandCons(Run(Count(s[0]), s[1]), Blocks(s[2..]));
    }
  }

  lemma {:induction false} ExpandSplit(a: seq<Run>, b: seq<Run>)
    ensures Expand(a + b) == Expand(a) + Expand(b)
  {
    if b == [] {
      assert a + b == a;
    } else {
      var front, r := b[..|b| - 1], b[|b| - 1];
      ExpandSplit(a, front);
      ExpandNext(a + front, r);
      ExpandNext(front, r);
      assert front + [r] == b && a + front + [r] == a + b;
      Associative(Expand(a), Expand(front), Repeat(r.ch, r.count));
    }
  }

  /** Putting characters in front of a text that begins with another one, or with them. */
  lemma RunInFront(ch: char, n: nat, s: string, m: nat)
    requires n > 0 && m <= |s| && (forall i | 0 <= i < m :: s[i] == ch) && (m < |s| ==> s[m] != ch)
    ensures Runs(Repeat(ch, n) + s) == [Run(n + m, ch)] + Runs(s[m..])
  {
    hide Runs, FirstRun;
    var t := Repeat(ch, n) + s;
    assert forall i | n <= i < |t| :: t[i] == s[i - n];
    FirstRunIs(t, n + m);
    assert t[n + m..] == s[m..];
    RunsNext(t);
  }

  /** Putting a run in front adds at most one maximal run. */
  lemma OneMoreRun(ch: char, n: nat, s: string)
    ensures |Runs(Repeat(ch, n) + s)| <= |Runs(s)| + 1
  {
    hide Runs;
    if n == 0 {
      assert Repeat(ch, n) + s == s;
    } else if s != [] && s[0] == ch {
      var m := FirstRun(s);
      assert forall i | 0 <= i < m :: s[..m][i] == s[i];
      RunInFront(ch, n, s, m);
      RunsNext(s);
    } else {
      RunInFront(ch, n, s, 0);
      assert s[0..] == s;
    }
  }

  /** Blocks make up a text of no more maximal runs than there are blocks. */
  lemma {:induction false} RunsOfBlocks(blocks: seq<Run>)
    ensures |Runs(Expand(blocks))| <= |blocks|
  {
    hide Runs;
    NoRuns();
    if blocks != [] {
      RunsOfBlocks(blocks[1..]);
      OneMoreRun(blocks[0].ch, blocks[0].count, Expand(blocks[1..]));
    }
  }

  lemma MaximalShorter(front: seq<Run>, r: Run, n: nat)
    requires Maximal(front + [r]) && n > 0
    ensures Maximal(front + [Run(n, r.ch)])
  {
    var a, b := front + [r], front + [Run(n, r.ch)];
    assert forall i | 0 <= i < |b| :: b[i].ch == a[i].ch && (i < |front| ==> b[i] == a[i]);
  }

  /** What is left of a line when less than its last run is missing at the end has as many runs as the line. */
  lemma RunsKept(line: string, x: string, y: string)
    requires line != [] && line == x + y
    requires |y| < Runs(line)[|Runs(line)| - 1].count
    ensures |Runs(x)| == |Runs(line)|
  {
    hide Runs, Maximal, Expand;
    var runs := Runs(line);
    RunsAreMaximal(line);
    var front, r := runs[..|runs| - 1], runs[|runs| - 1];
    var left := Run(r.count - |y|, r.ch);
    assert runs == front + [r];
    MaximalShorter(front, r, left.count);
    RunsAreUnique(front + [left]);
    ExpandNext(front, r);
    ExpandNext(front, left);
    assert x == line[..|line| - |y|] == Expand(front) + Repeat(r.ch, left.count);
  }

  lemma FewerRuns(line: string, x: string, y: string)
    requires line != [] && |Runs(x)| < |Runs(line)|
    requires |y| < Runs(line)[|Runs(line)| - 1].count
    ensures x + y != line
  {
    if x + y == line {
      RunsKept(line, x, y);
      assert false;
    }
  }

  lemma DecodedRuns(a: string, b: string)
    ensures |Runs(Decode(a) + Decode(b))| <= |a| / 2 + |b| / 2
  {
    BlocksDecode(a);
    BlocksDecode(b);
    ExpandSplit(Blocks(a), Blocks(b));
    RunsOfBlocks(Blocks(a) + Blocks(b));
  }

  lemma CountSumFrom(s: string, k: nat)
    requires k <= |s|
    ensures CountSum(s[..k]) + CountSum(s[k..]) == CountSum(s)
  {
    assert s == s[..k] + s[k..];
    CountSumSplit(s[..k], s[k..]);
  }

  lemma {:induction false} CountSumOfOne(ch: char)
    ensures CountSum([ch]) == Count(ch) && CountSum([]) == 0
  {
    assert [ch][..0] == [];
  }

  /** What the decoder gets out of the print of a run that it does not read from its first digit on. */
  lemma Misread(count: nat, ch: char, j: nat)
    requires count > 0 && 0 < j <= |Digits(count)|
    ensures var t := Digits(count) + [ch]; |Decode(t[..j])| + |Decode(t[j..])| < count
  {
    hide Digits, Decode, CountSum;
    var d := Digits(count);
    var t := d + [ch];
    DigitSum(count);
    assert t[..j] == d[..j - 1] + [d[j - 1]] && t[j..] == d[j..] + [ch];
    DecodedLength(d[..j - 1], d[j - 1]);
    DecodedLength(d[j..], ch);
    CountSumFrom(d, j);
    CountSumFrom(d[..j], j - 1);
    assert d[..j][..j - 1] == d[..j - 1] && d[..j][j - 1..] == [d[j - 1]];
    CountSumOfOne(d[j - 1]);
    if count < 10 {
      OneDigit(count);
      assert d[..0] == [] && d[1..] == [];
      CountSumOfOne(ch);
    }
  }

  lemma OneDigit(n: nat)
    requires n < 10
    ensures |Digits(n)| == 1
  {
  }

  lemma PrintedLast(line: string)
    requires line != []
    ensures var runs := Runs(line);
      && 0 < |runs| && runs[|runs| - 1].count > 0
      && var front, r := runs[..|runs| - 1], runs[|runs| - 1];
         Printed(runs) == Pairs(front) + (Digits(r.count) + [r.ch])
  {
    RunsAreMaximal(line);
  }

  /** Cut at an odd position, an encoded line is never decoded to the line again: behind the cut, the counts and the
      characters trade places, and the pairs that are left make up too few runs. */
  lemma CutAtOdd(line: string, k: nat)
    requires line != [] && k % 2 == 1 && k < |Printed(Runs(line))|
    ensures var e := Printed(Runs(line)); Decode(e[..k]) + Decode(e[k..]) != line
  {
    hide Runs, Printed, Decode, Pairs, Digits;
    var runs, e := Runs(line), Printed(Runs(line));
    PrintedLast(line);
    var front, r := runs[..|runs| - 1], runs[|runs| - 1];
    var a, t := Pairs(front), Digits(r.count) + [r.ch];
    if k < |a| {
      CutInPairs(line, a, t, k, r.count, r.ch);
    } else {
      var j := k - |a|;
      assert e[..k] == a + t[..j] && e[k..] == t[j..];
      DecodeSplit(a, t[..j]);
      Misread(r.count, r.ch, j);
      var x, y := Decode(a), Decode(t[..j]) + Decode(t[j..]);
      DecodedRuns(a, []);
      DecodeNext([]);
      assert x + Decode([]) == x;
      FewerRuns(line, x, y);
      Associative(Decode(a), Decode(t[..j]), Decode(t[j..]));
    }
  }

  lemma CutInPairs(line: string, a: string, t: string, k: nat, count: nat, ch: char)
    requires k % 2 == 1 && |a| % 2 == 0 && k < |a| && count > 0 && t == Digits(count) + [ch]
    requires line != [] && |Runs(line)| == |a| / 2 + 1 && Runs(line)[|Runs(line)| - 1].count == count
    ensures Decode((a + t)[..k]) + Decode((a + t)[k..]) != line
  {
    hide Runs, Decode, Digits;
    var e, b := a + t, a[k..] + [t[0]];
    assert e[..k] == a[..k] && e[k..] == b + t[1..];
    DecodeSplit(b, t[1..]);
    Misread(count, ch, 1);
    DecodedRuns(a[..k], b);
    FewerRuns(line, Decode(a[..k]) + Decode(b), Decode(t[1..]));
    Associative(Decode(a[..k]), Decode(b), Decode(t[1..]));
  }

  // ---------- reading an encoded line back ----------

  predicate Terminated(line: string) {
    line != [] && line[|line| - 1] == '\n'
  }

  /** What one read returns: a newline is at the end only, and it fits the buffer. */
  predicate Piece(line: string) {
    line != [] && |line| < BUFSIZ && forall i | 0 <= i < |line| - 1 :: line[i] != '\n'
  }

  /** Lines read in one piece each: all but the last end with a newline. */
  predicate OnePiece(lines: seq<string>) {
    && (forall i | 0 <= i < |lines| :: Piece(lines[i]))
    && (forall i | 0 <= i < |lines| - 1 :: Terminated(lines[i]))
  }

  predicate AllShort(lines: seq<string>) {
    forall i | 0 <= i < |lines| :: Short(Runs(lines[i]))
  }

  /** The encoding of a line fits the decoder's buffer. */
  predicate Fits(line: string) {
    |Printed(Runs(line))| < BUFSIZ
  }

  predicate AllFit(lines: seq<string>) {
    forall i | 0 <= i < |lines| :: Fits(lines[i])
  }

  /** The encoder reads each line of the text in one piece: no piece but the last lacks a newline. */
  predicate ReadWhole(text: string) {
    forall i | 0 <= i < |Lines(text)| - 1 :: Terminated(Lines(text)[i])
  }

  lemma {:induction false} LinesArePieces(s: string)
    ensures forall i | 0 <= i < |Lines(s)| :: Piece(Lines(s)[i])
  {
    if s != [] {
      LinesArePieces(s[|Line(s)|..]);
    }
  }

  lemma {:induction false} LineLengthIs(s: string, limit: nat, n: nat)
    requires 0 < n <= |s| && n <= limit
    requires forall i | 0 <= i < n - 1 :: s[i] != '\n'
    requires s[n - 1] == '\n' || n == |s|
    ensures LineLength(s, limit) == n
  {
    if n > 1 {
      assert s[0] != '\n';
      assert forall i | 0 <= i < n - 2 :: s[1..][i] == s[i + 1];
      LineLengthIs(s[1..], limit - 1, n - 1);
    }
  }

  lemma {:induction false} LineLengthFull(s: string, limit: nat)
    requires 0 < limit <= |s| && forall i | 0 <= i < limit :: s[i] != '\n'
    ensures LineLength(s, limit) == limit
  {
    if limit > 1 && |s| > 1 {
      assert forall i | 0 <= i < limit - 1 :: s[1..][i] == s[i + 1];
      LineLengthFull(s[1..], limit - 1);
    }
  }

  /** A piece is read as such, whatever follows it, if it ends with a newline. */
  lemma ReadBack(e: string, rest: string)
    requires Piece(e) && (Terminated(e) || rest == [])
    ensures Line(e + rest) == e
  {
    var s := e + rest;
    assert forall k | 0 <= k < |e| :: s[k] == e[k];
    LineLengthIs(s, BUFSIZ - 1, |e|);
    assert s[..|e|] == e;
  }

  lemma ReadFull(e: string, rest: string)
    requires |e| >= BUFSIZ && forall k | 0 <= k < |e| - 1 :: e[k] != '\n'
    ensures Line(e + rest) == e[..BUFSIZ - 1]
  {
    var s := e + rest;
    assert forall k | 0 <= k < |e| :: s[k] == e[k];
    LineLengthFull(s, BUFSIZ - 1);
    assert s[..BUFSIZ - 1] == e[..BUFSIZ - 1];
  }

  lemma PieceNext(e: string, rest: string)
    requires e != [] && Line(e + rest) == e
    ensures Decoded(Lines(e + rest)) == Decode(e) + Decoded(Lines(rest))
  {
    NothingDecoded(e + rest);
    assert (e + rest)[|e|..] == rest;
  }

  lemma {:induction false} PairCharacters(runs: seq<Run>)
    ensures forall k | 0 <= k < |Pairs(runs)| ::
              '0' <= Pairs(runs)[k] <= '9' || (k % 2 == 1 && Pairs(runs)[k] == runs[k / 2].ch)
  {
    if runs != [] {
      var front, r := runs[..|runs| - 1], runs[|runs| - 1];
      PairCharacters(front);
      DigitSum(r.count);
    }
  }

  lemma MaximalAppended(runs: seq<Run>, r: Run)
    requires Maximal(runs) && r.count > 0 && (runs != [] ==> runs[|runs| - 1].ch != r.ch)
    ensures Maximal(runs + [r])
  {
  }

  /** A line that ends with a newline is printed as the rest of it, and then a one and the newline. */
  lemma PrintedTerminated(body: string)
    requires '\n' !in body
    ensures Runs(body + ['\n']) == Runs(body) + [Run(1, '\n')]
    ensures Printed(Runs(body + ['\n'])) == Pairs(Runs(body)) + ['1', '\n']
  {
    hide Runs, Expand, Maximal;
    var runs, r := Runs(body), Run(1, '\n');
    RunsAreMaximal(body);
    RunCharacters(body);
    assert runs != [] ==> runs[|runs| - 1] in runs;
    MaximalAppended(runs, r);
    ExpandNext(runs, r);
    assert Repeat('\n', 1) == ['\n'];
    RunsAreUnique(runs + [r]);
    PrintedNext(runs, r);
    assert Digits(1) == [Digit(1)];
  }

  lemma NoNewlinePairs(runs: seq<Run>)
    requires forall r | r in runs :: r.ch != '\n'
    ensures '\n' !in Pairs(runs) && '\n' !in Printed(runs)
  {
    PairCharacters(runs);
    if runs != [] {
      PairCharacters(runs[..|runs| - 1]);
      DigitSum(runs[|runs| - 1].count);
    }
  }

  lemma {:induction false} ExpandLength(runs: seq<Run>)
    requires forall i | 0 <= i < |runs| :: runs[i].count > 0
    ensures |runs| <= |Expand(runs)|
  {
    if runs != [] {
      ExpandLength(runs[1..]);
    }
  }

  lemma PrintedLength(line: string)
    requires line != []
    ensures 0 < |Printed(Runs(line))| <= 2 * |line|
  {
    hide Runs, Pairs, Expand;
    var runs := Runs(line);
    RunsAreMaximal(line);
    PrintedLast(line);
    var front, r := runs[..|runs| - 1], runs[|runs| - 1];
    ExpandLength(front);
    ExpandNext(front, r);
    assert runs == front + [r];
    DigitsLength(r.count);
  }

  /** A piece is a body without newlines, and perhaps a newline. */
  lemma Body(line: string) returns (body: string)
    requires Piece(line)
    ensures '\n' !in body && line == if Terminated(line) then body + ['\n'] else body
  {
    body := if Terminated(line) then line[..|line| - 1] else line;
  }

  /** The encoding of a line has a newline exactly where the line has one, at the end. */
  lemma EncodedNewline(line: string)
    requires Piece(line)
    ensures var e := Printed(Runs(line));
      && 0 < |e| <= 2 * (BUFSIZ - 1) && (forall k | 0 <= k < |e| - 1 :: e[k] != '\n')
      && (Terminated(e) <==> Terminated(line)) && (Terminated(line) ==> |e| % 2 == 0)
  {
    hide Runs, Printed, Pairs;
    PrintedLength(line);
    var body := Body(line);
    RunCharacters(body);
    NoNewlinePairs(Runs(body));
    if Terminated(line) {
      PrintedTerminated(body);
    }
  }

  /** What the decoder makes of the encoding of a line. */
  function Got(line: string): (s: string) {
    var e := Printed(Runs(line));
    if |e| < BUFSIZ then Decode(e) else Decode(e[..BUFSIZ - 1]) + Decode(e[BUFSIZ - 1..])
  }

  lemma LineRead(line: string, rest: string)
    requires Piece(line) && (Terminated(line) || rest == [])
    ensures Decoded(Lines(Printed(Runs(line)) + rest)) == Got(line) + Decoded(Lines(rest))
  {
    hide Runs, Printed, Line, Lines, Decode, Decoded;
    var e := Printed(Runs(line));
    EncodedNewline(line);
    if |e| < BUFSIZ {
      ReadBack(e, rest);
      PieceNext(e, rest);
    } else {
      var p, q := e[..BUFSIZ - 1], e[BUFSIZ - 1..];
      assert e + rest == p + (q + rest);
      ReadFull(e, rest);
      PieceNext(p, q + rest);
      ReadBack(q, rest);
      PieceNext(q, rest);
      Associative(Decode(p), Decode(q), Decoded(Lines(rest)));
    }
  }

  lemma Tail(lines: seq<string>)
    requires OnePiece(lines) && lines != []
    ensures Piece(lines[0]) && OnePiece(lines[1..]) && (Terminated(lines[0]) || lines[1..] == [])
    ensures AllShort(lines) <==> Short(Runs(lines[0])) && AllShort(lines[1..])
    ensures AllFit(lines) <==> Fits(lines[0]) && AllFit(lines[1..])
  {
    hide Runs, Printed, Short, Piece, Terminated, Fits;
    assert forall i | 0 < i < |lines| :: lines[i] == lines[1..][i - 1];
  }

  lemma NothingLong()
    ensures AllShort([]) && AllFit([])
  {
  }

  lemma ReadNext(e: string, rest: string)
    requires e != [] && Line(e + rest) == e
    ensures Lines(e + rest) == [e] + Lines(rest)
  {
    assert (e + rest)[|e|..] == rest;
  }

  /** The decoder reads the very lines that the encoder wrote. */
  lemma {:induction false} LinesRecovered(lines: seq<string>)
    requires OnePiece(lines) && AllFit(lines)
    ensures |Lines(Encoded(lines))| == |lines|
    ensures forall i | 0 <= i < |lines| :: Lines(Encoded(lines))[i] == Printed(Runs(lines[i]))
  {
    hide OnePiece, AllFit, AllShort, Runs, Printed, Line, Lines;
    NoLines();
    NothingLong();
    if lines != [] {
      var e, rest := Printed(Runs(lines[0])), Encoded(lines[1..]);
      Tail(lines);
      LinesRecovered(lines[1..]);
      EncodedNewline(lines[0]);
      ReadBack(e, rest);
      ReadNext(e, rest);
    }
  }

  /** A line comes back if and only if its runs are short and its encoding fits the buffer. */
  lemma GotExactly(line: string)
    requires Piece(line)
    ensures Got(line) == line <==> Short(Runs(line)) && Fits(line)
  {
    hide Runs, Printed, Decode, Short;
    if Fits(line) {
      RoundTripIff(line);
    } else {
      CutAtOdd(line, BUFSIZ - 1);
    }
  }

  // ---------- counting newlines ----------

  function Newlines(s: string): (n: nat) {
    if s == [] then 0 else Newlines(s[..|s| - 1]) + if s[|s| - 1] == '\n' then 1 else 0
  }

  lemma {:induction false} NewlinesSplit(a: string, b: string)
    ensures Newlines(a + b) == Newlines(a) + Newlines(b)
  {
    if b == [] {
      assert a + b == a;
    } else {
      assert (a + b)[..|a + b| - 1] == a + b[..|b| - 1];
      NewlinesSplit(a, b[..|b| - 1]);
    }
  }

  lemma {:induction false} NoNewlines(s: string)
    requires '\n' !in s
    ensures Newlines(s) == 0
  {
    if s != [] {
      NoNewlines(s[..|s| - 1]);
    }
  }

  lemma {:induction false} OneNewline(body: string)
    requires '\n' !in body
    ensures Newlines(body + ['\n']) == 1
  {
    NoNewlines(body);
    assert (body + ['\n'])[..|body|] == body;
  }

  /** The decoder emits no character but those at odd positions. */
  lemma {:induction false} NotEmitted(s: string)
    requires forall k | 0 <= k < |s| && k % 2 == 1 :: s[k] != '\n'
    ensures '\n' !in Decode(s)
  {
    if |s| >= 2 {
      assert s[1] != '\n';
      forall k | 0 <= k < |s| - 2 && k % 2 == 1
        ensures s[2..][k] != '\n'
      {
        assert s[k + 2] != '\n';
      }
      NotEmitted(s[2..]);
    }
  }

  /** The newline of a line comes back if its encoding fits, and is lost otherwise. */
  lemma GotNewline(line: string) returns (x: string)
    requires Piece(line)
    ensures '\n' !in x && Got(line) == if Terminated(line) && Fits(line) then x + ['\n'] else x
  {
    hide Runs, Printed, Decode, Pairs;
    var e := Printed(Runs(line));
    EncodedNewline(line);
    if !Fits(line) {
      NotEmitted(e[..BUFSIZ - 1]);
      NotEmitted(e[BUFSIZ - 1..]);
      x := Got(line);
    } else if Terminated(line) {
      var body := Body(line);
      var pairs := Pairs(Runs(body));
      PrintedTerminated(body);
      RunCharacters(body);
      NoNewlinePairs(Runs(body));
      DecodeSplit(pairs, ['1', '\n']);
      OnePair();
      assert forall k | 0 <= k < |pairs| :: pairs[k] in pairs;
      NotEmitted(pairs);
      x := Decode(pairs);
    } else {
      NotEmitted(e);
      x := Got(line);
    }
  }

  lemma OnePair()
    ensures Decode(['1', '\n']) == ['\n']
  {
    assert ['1', '\n'][2..] == [] && Repeat('\n', 1) == ['\n'];
  }

  /** What the decoder emits for the encoding of some lines. */
  function Back(lines: seq<string>): (s: string) {
    Decoded(Lines(Encoded(lines)))
  }

  lemma BackNext(lines: seq<string>)
    requires OnePiece(lines) && lines != []
    ensures Back(lines) == Got(lines[0]) + Back(lines[1..]) && Joined(lines) == lines[0] + Joined(lines[1..])
  {
    hide OnePiece, Runs, Printed, Lines, Decoded, Got;
    Tail(lines);
    if lines[1..] == [] {
      NoLines();
    NothingLong();
    }
    LineRead(lines[0], Encoded(lines[1..]));
  }

  lemma {:induction false} NoMoreNewlines(lines: seq<string>)
    requires OnePiece(lines)
    ensures Newlines(Back(lines)) <= Newlines(Joined(lines))
  {
    hide Back, OnePiece, Piece, Got, Newlines, Terminated, Fits;
    NoLines();
    NothingLong();
    if lines == [] {
      BackOfNothing();
    } else {
      var line := lines[0];
      Tail(lines);
      BackNext(lines);
      NoMoreNewlines(lines[1..]);
      NewlinesSplit(Got(line), Back(lines[1..]));
      NewlinesSplit(line, Joined(lines[1..]));
      LineNewlines(line);
    }
  }

  lemma BackOfNothing()
    ensures Back([]) == []
  {
  }

  lemma LineNewlines(line: string)
    requires Piece(line)
    ensures Newlines(line) == if Terminated(line) then 1 else 0
    ensures Newlines(Got(line)) == if Terminated(line) && Fits(line) then 1 else 0
  {
    hide Newlines, Got, Fits;
    var x := GotNewline(line);
    var body := Body(line);
    NoNewlines(x);
    NoNewlines(body);
    OneNewline(x);
    OneNewline(body);
  }

  // ---------- the round trip ----------

  /** Two texts that begin with a line each are equal if and only if the lines are, and what follows. */
  lemma FirstLine(a: string, b: string, x: string, y: string)
    requires '\n' !in a && '\n' !in b
    ensures a + ['\n'] + x == b + ['\n'] + y <==> a == b && x == y
  {
    var s, t := a + ['\n'] + x, b + ['\n'] + y;
    if s == t {
      assert s[|a|] == '\n' && t[|b|] == '\n';
      assert forall k | 0 <= k < |a| :: s[k] in a;
      assert forall k | 0 <= k < |b| :: t[k] in b;
      assert |a| == |b|;
      assert s[..|a|] == a && t[..|b|] == b && s[|a| + 1..] == x && t[|b| + 1..] == y;
    }
  }

  lemma OneLineMore(line: string, back: string, rest: string)
    requires Piece(line) && Terminated(line) && Newlines(back) <= Newlines(rest)
    ensures Got(line) + back == line + rest <==> Short(Runs(line)) && Fits(line) && back == rest
  {
    hide Runs, Short, Fits, Got, Newlines, Piece;
    GotExactly(line);
    var x := GotNewline(line);
    var body := Body(line);
    if Fits(line) {
      FirstLine(x, body, back, rest);
      FirstLine(x, body, [], []);
      assert x + ['\n'] + [] == Got(line) && body + ['\n'] + [] == line;
    } else {
      NewlinesSplit(Got(line), back);
      NewlinesSplit(line, rest);
      LineNewlines(line);
    }
  }

  lemma {:induction false} LinesRoundTrip(lines: seq<string>)
    requires OnePiece(lines)
    ensures Back(lines) == Joined(lines) <==> AllShort(lines) && AllFit(lines)
  {
    hide Back, OnePiece, Piece, Terminated, Got, AllShort, AllFit, Short, Fits, Newlines, Runs;
    NoLines();
    NothingLong();
    BackOfNothing();
    if lines != [] {
      var line := lines[0];
      Tail(lines);
      BackNext(lines);
      if lines[1..] == [] {
        GotExactly(line);
        assert Got(line) + [] == Got(line) && line + [] == line;
      } else {
        LinesRoundTrip(lines[1..]);
        NoMoreNewlines(lines[1..]);
        OneLineMore(line, Back(lines[1..]), Joined(lines[1..]));
      }
    }
  }

  /** Where the encoder reads each line in one piece, decoding its output gives back the text if and only if no line
      has a run of ten characters and no encoded line is too long for the decoder's buffer. */
  lemma StreamRoundTripIff(text: string)
    requires ReadWhole(text)
    ensures Decoded(Lines(Encoded(Lines(text)))) == text <==> AllShort(Lines(text)) && AllFit(Lines(text))
  {
    hide Lines, Terminated, Piece;
    LinesArePieces(text);
    LinesJoined(text);
    LinesRoundTrip(Lines(text));
  }

  /** The same in plain terms, for lines of at most 8191 characters: all but the last end with a newline. */
  lemma StreamRoundTripMeans(text: string)
    requires forall i | 0 <= i < |Lines(text)| - 1 ::
               Lines(text)[i] != [] && Lines(text)[i][|Lines(text)[i]| - 1] == '\n'
    ensures Decoded(Lines(Encoded(Lines(text)))) == text <==>
              forall line | line in Lines(text) ::
                |Printed(Runs(line))| <= 8191 && forall r | r in Runs(line) :: r.count <= 9
  {
    hide Lines, Encoded, Decoded, Printed, Runs;
    StreamRoundTripIff(text);
    if AllShort(Lines(text)) && AllFit(Lines(text)) {
      forall line | line in Lines(text)
        ensures |Printed(Runs(line))| <= 8191 && forall r | r in Runs(line) :: r.count <= 9
      {
        var i :| 0 <= i < |Lines(text)| && Lines(text)[i] == line;
        assert Short(Runs(Lines(text)[i])) && Fits(Lines(text)[i]);
      }
    }
    if forall line | line in Lines(text) ::
         |Printed(Runs(line))| <= 8191 && forall r | r in Runs(line) :: r.count <= 9 {
      assert forall i | 0 <= i < |Lines(text)| :: Lines(text)[i] in Lines(text);
    }
  }

  // ---------- lines that the encoder reads in several pieces ----------

  lemma {:induction false} EvenPieces(pieces: seq<string>)
    requires forall p | p in pieces :: |p| % 2 == 0
    ensures Decoded(pieces) == Decode(Joined(pieces))
  {
    if pieces != [] {
      EvenPieces(pieces[1..]);
      DecodeSplit(pieces[0], Joined(pieces[1..]));
    }
  }

  lemma ShortTail(lines: seq<string>)
    requires AllShort(lines) && lines != []
    ensures Short(Runs(lines[0])) && AllShort(lines[1..])
  {
    hide Runs, Short;
    assert forall i | 0 < i < |lines| :: lines[i] == lines[1..][i - 1];
  }

  lemma {:induction false} ShortLinesDecode(lines: seq<string>)
    requires AllShort(lines)
    ensures Decode(Encoded(lines)) == Joined(lines)
  {
    hide AllShort, Short, Runs, Printed, Decode;
    if lines == [] {
      DecodeNext([]);
    } else {
      var runs := Runs(lines[0]);
      ShortTail(lines);
      ShortLinesDecode(lines[1..]);
      RoundTripIff(lines[0]);
      PrintedDecodes(runs);
      DecodeSplit(Printed(runs), Encoded(lines[1..]));
    }
  }

  /** For any text, also one with lines that are read in several pieces: it comes back if all runs of the pieces are
      short and no read of the decoder ends between a count and its character. */
  lemma EvenReadsRoundTrip(text: string)
    requires AllShort(Lines(text)) && forall p | p in Lines(Encoded(Lines(text))) :: |p| % 2 == 0
    ensures Decoded(Lines(Encoded(Lines(text)))) == text
  {
    var e := Encoded(Lines(text));
    EvenPieces(Lines(e));
    LinesJoined(e);
    LinesJoined(text);
    ShortLinesDecode(Lines(text));
  }

  // ---------- the two programs in a row ----------

  lemma {:induction false} NulFreeLines(s: string)
    requires NUL !in s
    ensures forall i | 0 <= i < |Lines(s)| :: NUL !in Lines(s)[i]
  {
    if s != [] {
      NoNul(s, |Line(s)|);
      NulFreeLines(s[|Line(s)|..]);
    }
  }

  method RoundTrip(text: string) returns (back: string)
    requires NUL !in text
    ensures ReadWhole(text) ==> (back == text <==> AllShort(Lines(text)) && AllFit(Lines(text)))
    ensures AllShort(Lines(text)) && (forall p | p in Lines(Encoded(Lines(text))) :: |p| % 2 == 0) ==> back == text
  {
    hide Lines, Encoded, Decoded, AllShort, AllFit, ReadWhole;
    var encoded := EncodeStream(text);
    NulFreeLines(text);
    EncodedHasNoNul(Lines(text));
    back := DecodeStream(encoded);
    if ReadWhole(text) {
      StreamRoundTripIff(text);
    }
    if AllShort(Lines(text)) && forall p | p in Lines(encoded) :: |p| % 2 == 0 {
      EvenReadsRoundTrip(text);
    }
  }
}
