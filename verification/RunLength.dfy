/** Run lengths: what the encoder writes for a line and what the decoder makes of it.

Every run takes two places in the encoder's output, whatever its length: the count in decimal and then the character
are printed there, and the next run is printed two places further on, over whatever reaches that far.  */
module RunLength {

  datatype Run = Run(count: nat, ch: char)

  function Repeat(ch: char, n: nat): (s: string)
    ensures |s| == n && forall i | 0 <= i < n :: s[i] == ch
  {
    seq(n, i => ch)
  }

  // ---------- runs ----------

  /** The length of the run that a text begins with. */
  function FirstRun(s: string): (n: nat)
    requires s != []
    ensures 0 < n <= |s| && s[..n] == Repeat(s[0], n) && (n < |s| ==> s[n] != s[0])
  {
    if |s| > 1 && s[1] == s[0] then
      assert s[..FirstRun(s[1..]) + 1] == [s[0]] + s[1..][..FirstRun(s[1..])];
      FirstRun(s[1..]) + 1
    else
      1
  }

  function Runs(s: string): (runs: seq<Run>) {
    if s == [] then [] else [Run(FirstRun(s), s[0])] + Runs(s[FirstRun(s)..])
  }

  function Expand(runs: seq<Run>): (s: string) {
    if runs == [] then [] else Repeat(runs[0].ch, runs[0].count) + Expand(runs[1..])
  }

  /** No run is empty, and neighbours differ. */
  predicate Maximal(runs: seq<Run>) {
    && (forall i | 0 <= i < |runs| :: runs[i].count > 0)
    && (forall i | 0 < i < |runs| :: runs[i - 1].ch != runs[i].ch)
  }

  lemma NoRuns()
    ensures Runs([]) == [] && Maximal([]) && Expand([]) == []
  {
  }

  lemma RunsNext(s: string)
    requires s != []
    ensures Runs(s) == [Run(FirstRun(s), s[0])] + Runs(s[FirstRun(s)..])
  {
  }

  lemma MaximalNext(r: Run, runs: seq<Run>)
    requires Maximal(runs) && r.count > 0 && (runs != [] ==> r.ch != runs[0].ch)
    ensures Maximal([r] + runs)
  {
  }

  lemma ExpandCons(r: Run, runs: seq<Run>)
    ensures Expand([r] + runs) == Repeat(r.ch, r.count) + Expand(runs)
  {
    assert ([r] + runs)[1..] == runs;
  }

  lemma FirstRunSplit(s: string)
    requires s != []
    ensures Repeat(s[0], FirstRun(s)) + s[FirstRun(s)..] == s
  {
    assert s[..FirstRun(s)] + s[FirstRun(s)..] == s;
  }

  /** The runs of a text make it up, none is empty, and neighbours differ. */
  lemma {:induction false} RunsAreMaximal(s: string)
    ensures Maximal(Runs(s)) && Expand(Runs(s)) == s
    ensures s != [] ==> Runs(s) != [] && Runs(s)[0].ch == s[0]
  {
    hide Maximal, FirstRun, Runs, Expand, Repeat;
    NoRuns();
    if s != [] {
      var n := FirstRun(s);
      var r, rest := Run(n, s[0]), Runs(s[n..]);
      RunsNext(s);
      RunsAreMaximal(s[n..]);
      MaximalNext(r, rest);
      ExpandCons(r, rest);
      FirstRunSplit(s);
    }
  }

  lemma FirstRunIs(s: string, n: nat)
    requires 0 < n <= |s| && (forall i | 0 <= i < n :: s[i] == s[0]) && (n < |s| ==> s[n] != s[0])
    ensures FirstRun(s) == n
  {
    var k := FirstRun(s);
    assert forall i | 0 <= i < k :: s[..k][i] == s[i] == s[0];
  }

  lemma FirstRunOf(r: Run, rest: string)
    requires r.count > 0 && (rest != [] ==> rest[0] != r.ch)
    ensures var s := Repeat(r.ch, r.count) + rest;
      s != [] && s[0] == r.ch && FirstRun(s) == r.count && s[r.count..] == rest
  {
    FirstRunIs(Repeat(r.ch, r.count) + rest, r.count);
  }

  lemma MaximalTail(runs: seq<Run>)
    requires Maximal(runs) && runs != []
    ensures Maximal(runs[1..]) && runs[0].count > 0 && (runs[1..] != [] ==> runs[0].ch != runs[1..][0].ch)
  {
  }

  /** There is only one way to cut a text into maximal runs. */
  lemma {:induction false} RunsAreUnique(runs: seq<Run>)
    requires Maximal(runs)
    ensures Runs(Expand(runs)) == runs
    ensures runs != [] ==> Expand(runs) != [] && Expand(runs)[0] == runs[0].ch
  {
    hide Maximal, FirstRun, Runs;
    if runs == [] {
      NoRuns();
    } else {
      var s, rest := Expand(runs), Expand(runs[1..]);
      MaximalTail(runs);
      RunsAreUnique(runs[1..]);
      FirstRunOf(runs[0], rest);
      RunsNext(s);
    }
  }

  // ---------- decimal numbers ----------

  function Digit(d: nat): (c: char)
    requires d < 10
  {
    '0' + d as char
  }

  function Digits(n: nat): (s: string)
    ensures 0 < |s| && (|s| == 1 <==> n < 10)
  {
    if n < 10 then [Digit(n)] else Digits(n / 10) + [Digit(n % 10)]
  }

  /** The number that a string of digits stands for. */
  function NumberOf(s: string): (n: int) {
    if s == [] then 0 else 10 * NumberOf(s[..|s| - 1]) + (s[|s| - 1] as int - '0' as int)
  }

  lemma NumberOfNext(s: string, ch: char)
    ensures NumberOf([]) == 0 && NumberOf(s + [ch]) == 10 * NumberOf(s) + (ch as int - 48)
  {
    assert (s + [ch])[..|s|] == s;
  }

  /** A count is printed in decimal: digits only, none that is not needed, and they stand for the count. */
  lemma {:induction false} DigitsAre(n: nat)
    ensures NumberOf(Digits(n)) == n
    ensures forall i | 0 <= i < |Digits(n)| :: '0' <= Digits(n)[i] <= '9'
    ensures n > 0 ==> Digits(n)[0] != '0'
  {
    if n < 10 {
      NumberOfNext([], Digit(n));
      assert [] + [Digit(n)] == [Digit(n)];
    } else {
      DigitsAre(n / 10);
      NumberOfNext(Digits(n / 10), Digit(n % 10));
    }
  }

  /** What the decoder takes a character for when it expects a count. */
  function Count(ch: char): (n: nat) {
    if ch > '0' then ch as nat - '0' as nat else 0
  }

  function CountSum(s: string): (n: nat) {
    if s == [] then 0 else CountSum(s[..|s| - 1]) + Count(s[|s| - 1])
  }

  /** The digits of a number add up to less than the number, unless it is a digit itself. */
  lemma {:induction false} DigitSum(n: nat)
    ensures CountSum(Digits(n)) <= n
    ensures n >= 10 ==> CountSum(Digits(n)) < n
    ensures forall i | 0 <= i < |Digits(n)| :: '0' <= Digits(n)[i] <= '9'
  {
    if n < 10 {
      assert CountSum([Digit(n)]) == CountSum([]) + n;
    } else {
      DigitSum(n / 10);
      assert Digits(n)[..|Digits(n)| - 1] == Digits(n / 10);
    }
  }

  // ---------- the encoder's output ----------

  /** What is printed for a run. */
  function Image(r: Run): (s: string)
    ensures 2 <= |s| && (|s| == 2 <==> r.count < 10)
  {
    Digits(r.count) + [r.ch]
  }

  /** What is left of all the runs but the last: two characters of each. */
  function Pairs(runs: seq<Run>): (s: string)
    ensures |s| == 2 * |runs|
  {
    if runs == [] then [] else Pairs(runs[..|runs| - 1]) + Image(runs[|runs| - 1])[..2]
  }

  /** The string in the buffer after printing the runs one after the other. */
  function Printed(runs: seq<Run>): (s: string) {
    if runs == [] then [] else Pairs(runs[..|runs| - 1]) + Image(runs[|runs| - 1])
  }

  /** The string that is left ends with the whole print of the last run: its count in decimal, and its character. */
  lemma LastPrint(runs: seq<Run>)
    requires runs != []
    ensures var p, at, r := Printed(runs), 2 * (|runs| - 1), runs[|runs| - 1];
      && at + 2 <= |p| && p[|p| - 1] == r.ch && NumberOf(p[at..|p| - 1]) == r.count
      && (forall i | at <= i < |p| - 1 :: '0' <= p[i] <= '9') && (r.count > 0 ==> p[at] != '0')
  {
    hide Digits, Pairs, NumberOf;
    var r := runs[|runs| - 1];
    var a, d := Pairs(runs[..|runs| - 1]), Digits(r.count);
    DigitsAre(r.count);
    var p := a + (d + [r.ch]);
    assert Printed(runs) == p;
    assert p[|a|..|p| - 1] == d;
    assert forall i | |a| <= i < |p| - 1 :: p[i] == d[i - |a|];
  }

  /** Of the print of any other run it has the first two characters. */
  lemma {:induction false} OtherPrint(runs: seq<Run>, k: nat) returns (count: string)
    requires k < |runs| - 1
    ensures NumberOf(count) == runs[k].count && (forall i | 0 <= i < |count| :: '0' <= count[i] <= '9')
    ensures count != [] && 2 * k + 2 <= |Printed(runs)|
    ensures Printed(runs)[2 * k..2 * k + 2] == (count + [runs[k].ch])[..2]
  {
    count := Digits(runs[k].count);
    DigitsAre(runs[k].count);
    PairAt(runs[..|runs| - 1], k);
    assert Printed(runs)[2 * k..2 * k + 2] == Pairs(runs[..|runs| - 1])[2 * k..2 * k + 2];
  }

  lemma {:induction false} PairAt(runs: seq<Run>, k: nat)
    requires k < |runs|
    ensures Pairs(runs)[2 * k..2 * k + 2] == (Digits(runs[k].count) + [runs[k].ch])[..2]
  {
    var front := runs[..|runs| - 1];
    if k < |front| {
      PairAt(front, k);
      assert Pairs(runs)[2 * k..2 * k + 2] == Pairs(front)[2 * k..2 * k + 2];
    }
  }

  predicate Short(runs: seq<Run>) {
    forall r | r in runs :: r.count < 10
  }

  // ---------- the decoder ----------

  function Decode(s: string): (text: string) {
    if |s| < 2 then [] else Repeat(s[1], Count(s[0])) + Decode(s[2..])
  }

  lemma {:induction false} DecodeSplit(a: string, b: string)
    requires |a| % 2 == 0
    ensures Decode(a + b) == Decode(a) + Decode(b)
  {
    if a == [] {
      assert a + b == b;
    } else {
      assert (a + b)[2..] == a[2..] + b;
      DecodeSplit(a[2..], b);
      assert Repeat(a[1], Count(a[0])) + (Decode(a[2..]) + Decode(b))
          == (Repeat(a[1], Count(a[0])) + Decode(a[2..])) + Decode(b);
    }
  }

  lemma {:induction false} CountSumSplit(a: string, b: string)
    ensures CountSum(a + b) == CountSum(a) + CountSum(b)
  {
    if b == [] {
      assert a + b == a;
    } else {
      assert (a + b)[..|a + b| - 1] == a + b[..|b| - 1];
      CountSumSplit(a, b[..|b| - 1]);
    }
  }

  /** The decoder takes no more than every other character for a count, and never the last one. */
  lemma {:induction false} DecodedLength(s: string, last: char)
    ensures |Decode(s + [last])| <= CountSum(s)
  {
    var t := s + [last];
    if |s| == 1 {
      assert t[2..] == [];
      assert s[..0] == [];
    } else if |s| > 1 {
      DecodedLength(s[2..], last);
      assert t[2..] == s[2..] + [last];
      CountSumSplit([s[0], s[1]], s[2..]);
      assert s == [s[0], s[1]] + s[2..];
      assert [s[0], s[1]][..1] == [s[0]] && [s[0]][..0] == [];
    }
  }

  lemma ImageDecodes(r: Run)
    ensures |Decode(Image(r))| <= r.count && |Decode(Image(r)[..2])| <= r.count
    ensures r.count < 10 ==> Image(r)[..2] == Image(r) && Decode(Image(r)) == Repeat(r.ch, r.count)
    ensures r.count >= 10 ==> |Decode(Image(r))| < r.count && |Decode(Image(r)[..2])| < r.count
  {
    DigitSum(r.count);
    DecodedLength(Digits(r.count), r.ch);
    var pair := Image(r)[..2];
    assert pair[2..] == [];
    assert |Decode(pair)| == Count(pair[0]) && pair[0] == Digits(r.count)[0];
    if r.count < 10 {
      assert Image(r) == pair;
    }
  }

  lemma {:induction false} ExpandNext(runs: seq<Run>, r: Run)
    ensures Expand(runs + [r]) == Expand(runs) + Repeat(r.ch, r.count)
  {
    if runs == [] {
      assert Expand([r]) == Repeat(r.ch, r.count) + Expand([]);
    } else {
      assert (runs + [r])[1..] == runs[1..] + [r];
      ExpandNext(runs[1..], r);
    }
  }

  lemma ShortNext(runs: seq<Run>, r: Run)
    ensures Short(runs + [r]) <==> Short(runs) && r.count < 10
  {
    assert (runs + [r])[|runs|] == r && forall i | 0 <= i < |runs| :: runs[i] == (runs + [r])[i];
  }

  /** One run more: nothing is lost as long as the run is short, and else some of it is. */
  lemma OneRunMore(runs: seq<Run>, r: Run, image: string)
    requires |Decode(Pairs(runs))| <= |Expand(runs)|
    requires Short(runs) ==> Decode(Pairs(runs)) == Expand(runs)
    requires !Short(runs) ==> |Decode(Pairs(runs))| < |Expand(runs)|
    requires image == Image(r) || image == Image(r)[..2]
    ensures |Decode(Pairs(runs) + image)| <= |Expand(runs + [r])|
    ensures Short(runs + [r]) ==> Decode(Pairs(runs) + image) == Expand(runs + [r])
    ensures !Short(runs + [r]) ==> |Decode(Pairs(runs) + image)| < |Expand(runs + [r])|
  {
    hide Pairs, Image, Decode, Expand, Short;
    DecodeSplit(Pairs(runs), image);
    ImageDecodes(r);
    ExpandNext(runs, r);
    ShortNext(runs, r);
  }

  lemma {:induction false} PairsDecode(runs: seq<Run>)
    ensures |Decode(Pairs(runs))| <= |Expand(runs)|
    ensures Short(runs) ==> Decode(Pairs(runs)) == Expand(runs)
    ensures !Short(runs) ==> |Decode(Pairs(runs))| < |Expand(runs)|
  {
    if runs != [] {
      var front, r := runs[..|runs| - 1], runs[|runs| - 1];
      PairsDecode(front);
      OneRunMore(front, r, Image(r)[..2]);
      assert runs == front + [r];
    }
  }

  lemma PrintedNext(runs: seq<Run>, r: Run)
    ensures Printed(runs + [r]) == Pairs(runs) + Image(r)
    ensures Pairs(runs + [r]) == Pairs(runs) + Image(r)[..2]
  {
    assert (runs + [r])[..|runs|] == runs;
  }

  /** What was printed decodes to the text exactly if no run is longer than 9; else the result is shorter. */
  lemma PrintedDecodes(runs: seq<Run>)
    ensures Decode(Printed(runs)) == Expand(runs) <==> Short(runs)
    ensures !Short(runs) ==> |Decode(Printed(runs))| < |Expand(runs)|
    ensures Short(runs) ==> Printed(runs) == Pairs(runs)
  {
    if runs != [] {
      hide Pairs, Image, Decode, Expand, Short, Printed;
      var front, r := runs[..|runs| - 1], runs[|runs| - 1];
      assert runs == front + [r];
      PairsDecode(front);
      OneRunMore(front, r, Image(r));
      PrintedNext(front, r);
      ShortNext(front, r);
      ImageDecodes(r);
    }
  }

  /** Decoding an encoded line gives back the line exactly if it has no run of ten characters. */
  lemma RoundTripIff(line: string)
    ensures Decode(Printed(Runs(line))) == line <==> forall r | r in Runs(line) :: r.count <= 9
    ensures Decode(Printed(Runs(line))) == line <==> Short(Runs(line))
  {
    RunsAreMaximal(line);
    PrintedDecodes(Runs(line));
  }

  lemma TenRuns()
    ensures Runs("aaaaaaaaaa") == [Run(10, 'a')]
  {
    var line := "aaaaaaaaaa";
    FirstRunIs(line, 10);
    RunsNext(line);
    NoRuns();
    assert line[10..] == [];
  }

  /** Twelve of the same are printed as 12a, of which the next print leaves 12. */
  lemma TwelveExample()
    ensures Printed(Runs("aaaaaaaaaaaa")) == "12a" && Printed(Runs("aaaaaaaaaaaab")) == "121b"
  {
    var a, ab := "aaaaaaaaaaaa", "aaaaaaaaaaaab";
    TwelveRuns(a, []);
    TwelveRuns(ab, "b");
    FirstRunIs("b", 1);
    RunsNext("b");
    NoRuns();
    assert "b"[1..] == [];
    TwelvePrinted();
  }

  lemma TwelveRuns(s: string, rest: string)
    requires s == "aaaaaaaaaaaa" + rest && (rest == [] || rest == "b")
    ensures Runs(s) == [Run(12, 'a')] + Runs(rest)
  {
    hide Runs, FirstRun;
    FirstRunIs(s, 12);
    RunsNext(s);
    assert s[12..] == rest;
  }

  lemma TwelvePrinted()
    ensures Printed([Run(12, 'a')]) == "12a" && Printed([Run(12, 'a'), Run(1, 'b')]) == "121b"
  {
    hide Printed, Pairs;
    var r := Run(12, 'a');
    assert Digits(12) == Digits(1) + [Digit(2)] && Digits(1) == "1";
    PrintedNext([], r);
    PrintedNext([r], Run(1, 'b'));
    NoPairs();
    assert [] + [r] == [r] && [r] + [Run(1, 'b')] == [r, Run(1, 'b')];
    assert Image(r) == "12a" && "12a"[..2] == "12" && Image(Run(1, 'b')) == "1b";
  }

  lemma NoPairs()
    ensures Pairs([]) == []
  {
  }

  /** Ten characters come back as a single one, and not even the right one: "10a" is read as one zero. */
  lemma RoundTripExample()
    ensures Printed(Runs("aaaaaaaaaa")) == "10a" && Decode("10a") == "0" != "aaaaaaaaaa"
  {
    TenRuns();
    assert Digits(10) == Digits(1) + [Digit(0)];
    assert [Run(10, 'a')][..0] == [] && Pairs([]) == [];
    assert "10a"[2..] == "a";
    assert Repeat('0', 1) == "0";
  }

  lemma {:induction false} ExpandPrefix(runs: seq<Run>, w: nat)
    requires w <= |runs|
    ensures Expand(runs[..w]) <= Expand(runs)
  {
    if w > 0 {
      assert runs[..w][1..] == runs[1..][..w - 1];
      ExpandPrefix(runs[1..], w - 1);
    }
  }

  /** The whole pairs that fit a smaller buffer decode to the beginning of the line. */
  lemma PrefixDecodes(line: string, w: nat)
    requires w <= |Runs(line)| && Short(Runs(line))
    ensures Decode(Printed(Runs(line)[..w])) == Expand(Runs(line)[..w]) <= line
  {
    RunsAreMaximal(line);
    PrintedDecodes(Runs(line)[..w]);
    ExpandPrefix(Runs(line), w);
  }
}
