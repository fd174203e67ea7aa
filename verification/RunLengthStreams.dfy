/** The encoder and decoder programs as filters on a stream, which they read in pieces with a bounded line buffer. */
module RunLengthStreams {

  import opened CStrings
  import opened RunLength
  import opened RunLengthPrograms
  import opened Sequences

  const BUFSIZ: nat := 8192

  /** How much one read takes: up to and with the first newline, and no more than fits the buffer. */
  function LineLength(s: string, limit: nat): (n: nat)
    requires s != [] && limit > 0
    ensures 0 < n <= |s| && n <= limit
    ensures forall i | 0 <= i < n - 1 :: s[i] != '\n'
    ensures s[n - 1] == '\n' || n == |s| || n == limit
  {
    if s[0] == '\n' || |s| == 1 || limit == 1 then 1 else 1 + LineLength(s[1..], limit - 1)
  }

  function Line(s: string): (line: string)
    requires s != []
    ensures line != [] && line <= s
  {
    s[..LineLength(s, BUFSIZ - 1)]
  }

  /** The pieces a stream is read in. */
  function Lines(s: string): (lines: seq<string>) {
    if s == [] then [] else [Line(s)] + Lines(s[|Line(s)|..])
  }

  function Encoded(lines: seq<string>): (s: string) {
    if lines == [] then [] else Printed(Runs(lines[0])) + Encoded(lines[1..])
  }

  function Decoded(lines: seq<string>): (s: string) {
    if lines == [] then [] else Decode(lines[0]) + Decoded(lines[1..])
  }

  function Joined(lines: seq<string>): (s: string) {
    if lines == [] then [] else lines[0] + Joined(lines[1..])
  }

  lemma {:induction false} LinesJoined(s: string)
    ensures Joined(Lines(s)) == s
  {
    if s != [] {
      LinesJoined(s[|Line(s)|..]);
    }
  }

  lemma LinesNext(s: string)
    requires s != []
    ensures Lines(s) == [Line(s)] + Lines(s[|Line(s)|..]) && s == Line(s) + s[|Line(s)|..]
  {
    hide Line;
    assert s == s[..|Line(s)|] + s[|Line(s)|..];
  }

  lemma LineIs(s: string)
    requires s != []
    ensures var line := Line(s);
      && 0 < |line| <= 8191 && (forall k | 0 <= k < |line| - 1 :: line[k] != '\n')
      && (|line| == 8191 || line[|line| - 1] == '\n' || s[|line|..] == [])
  {
  }

  /** The pieces make up the stream; each has at most 8191 characters and a newline at its end only, and is as long as
      these allow. */
  lemma {:induction false} LinesAre(s: string)
    ensures Joined(Lines(s)) == s
    ensures forall i | 0 <= i < |Lines(s)| ::
              0 < |Lines(s)[i]| <= 8191 && forall k | 0 <= k < |Lines(s)[i]| - 1 :: Lines(s)[i][k] != '\n'
    ensures forall i | 0 <= i < |Lines(s)| - 1 ::
              |Lines(s)[i]| == 8191 || (Lines(s)[i] != [] && Lines(s)[i][|Lines(s)[i]| - 1] == '\n')
  {
    hide Line, Lines, Joined;
    NoLines();
    if s != [] {
      LinesNext(s);
      LineIs(s);
      LinesAre(s[|Line(s)|..]);
      JoinedNext(Line(s), Lines(s[|Line(s)|..]));
    }
  }

  lemma NoLines()
    ensures Lines([]) == [] && Encoded([]) == [] && Decoded([]) == [] && Joined([]) == []
  {
  }

  lemma JoinedNext(line: string, lines: seq<string>)
    ensures Joined([]) == [] && Joined([line] + lines) == line + Joined(lines)
  {
    assert ([line] + lines)[1..] == lines;
  }

  // ---------- the programs ----------

  lemma NoNul(s: string, n: nat)
    requires NUL !in s && n <= |s|
    ensures NUL !in s[..n] && NUL !in s[n..]
  {
  }

  lemma PrintedOnce(line: string, size: nat, before: seq<char>, after: seq<char>)
    requires line != [] && NUL !in line && size == 2 * |Runs(line)|
    requires Output(after, before, Runs(line), |Runs(line)|, size)
    ensures HasString(after, Printed(Runs(line))) && NUL !in Printed(Runs(line))
  {
    var runs := Runs(line);
    assert Min(|runs|, size / 2) == |runs| && runs[..|runs|] == runs;
    RunCharacters(line);
    NoNulPrinted(runs);
  }

  lemma {:induction false} ReachBelow(runs: seq<Run>, m: nat)
    requires forall r | r in runs :: |Digits(r.count)| <= m
    ensures Reach(runs) <= 2 * |runs| + m
  {
    if runs != [] {
      assert runs[|runs| - 1] in runs;
      ReachBelow(runs[..|runs| - 1], m);
    }
  }

  lemma ReachFits(line: string)
    ensures var size := 2 * |Runs(line)|; Roomy(size + |line|, size, line)
  {
    hide Reach, Runs, Digits, PrintedRuns;
    RunsFit(line);
    ReachBelow(Runs(line), |line|);
    AllPrinted(Runs(line));
  }

  /** Writes out the string in the buffer: everything up to its first terminator. */
  method PrintString(buffer: array<char>, ghost text: string) returns (s: string)
    requires HasString(buffer[..], text) && NUL !in text
    ensures s == text
  {
    ghost var held := buffer[..];
    assert forall k | 0 <= k < |text| :: buffer[k] == held[..|text|][k] == text[k];
    assert buffer[|text|] == NUL && forall k | 0 <= k < |text| :: text[k] != NUL;
    var n := 0;
    while buffer[n] != NUL
      invariant n <= |text|
      decreases |text| - n
    {
      n := n + 1;
    }
    assert buffer[..n] == held[..n];
    return buffer[..n];
  }

  /** Each line is encoded twice: first for its size, then into a buffer of that size and room for what the last
      print puts behind it. */
  method EncodeStream(stdin: string) returns (stdout: string)
    requires NUL !in stdin
    ensures stdout == Encoded(Lines(stdin))
  {
    hide Runs, Printed, Output, Lines, Encoded, HasString, Roomy, Line;
    stdout := [];
    var rest := stdin;
    NothingEncoded(stdin);
    while rest != []
      invariant NUL !in rest
      invariant stdout + Encoded(Lines(rest)) == Encoded(Lines(stdin))
      decreases |rest|
    {
      var line := Line(rest);
      NoNul(rest, |line|);
      ReachFits(line);
      var _, size := Encode(Text(line), null, Size(0));
      var buffer := new char[size.value + |line|];
      ghost var before := buffer[..];
      var _, _ := Encode(Text(line), buffer, size);
      PrintedOnce(line, size.value, before, buffer[..]);
      var printed := PrintString(buffer, Printed(Runs(line)));
      NothingEncoded(rest);
      Associative(stdout, printed, Encoded(Lines(rest[|line|..])));
      stdout := stdout + printed;
      rest := rest[|line|..];
    }
    NothingEncoded(rest);
  }

  lemma NothingEncoded(s: string)
    ensures Encoded(Lines(s)) == if s == [] then [] else Printed(Runs(Line(s))) + Encoded(Lines(s[|Line(s)|..]))
  {
  }

  method DecodeStream(stdin: string) returns (stdout: string)
    requires NUL !in stdin
    ensures stdout == Decoded(Lines(stdin))
  {
    hide Decode, Lines, Decoded;
    stdout := [];
    var rest := stdin;
    NothingDecoded(stdin);
    while rest != []
      invariant NUL !in rest
      invariant stdout + Decoded(Lines(rest)) == Decoded(Lines(stdin))
      decreases |rest|
    {
      var line := Line(rest);
      NoNul(rest, |line|);
      var _, emitted := DecodeLine(Text(line));
      NothingDecoded(rest);
      Associative(stdout, emitted, Decoded(Lines(rest[|line|..])));
      stdout := stdout + emitted;
      rest := rest[|line|..];
    }
    NothingDecoded(rest);
  }

  lemma NothingDecoded(s: string)
    ensures Decoded(Lines(s)) == if s == [] then [] else Decode(Line(s)) + Decoded(Lines(s[|Line(s)|..]))
  {
  }

  /** What the encoder writes can be given to the decoder as it is. */
  lemma {:induction false} EncodedHasNoNul(lines: seq<string>)
    requires forall i | 0 <= i < |lines| :: NUL !in lines[i]
    ensures NUL !in Encoded(lines)
  {
    if lines != [] {
      RunCharacters(lines[0]);
      NoNulPrinted(Runs(lines[0]));
      EncodedHasNoNul(lines[1..]);
    }
  }
}
