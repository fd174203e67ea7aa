/** The encoder and the decoder programs: the two functions over their buffers, and the loops that read lines. */
module RunLengthPrograms {

  import opened CStrings
  import opened RunLength
  import opened Sequences

  /** A pointer to a size, which may be null. */
  datatype Size = NoSize | Size(value: nat)

  /** A buffer that holds a NUL-terminated string. */
  predicate HasString(buffer: seq<char>, text: string) {
    |text| < |buffer| && buffer[..|text|] == text && buffer[|text|] == NUL
  }

  function Min(a: nat, b: nat): (m: nat) {
    if a < b then a else b
  }

  // ---------- lemmas about one more run ----------

  predicate AllSame(s: string, start: nat, end: nat)
    requires start <= end <= |s|
  {
    forall k | start <= k < end :: s[k] == s[start]
  }

  /** Finding the next maximal run. */
  lemma NextRun(s: string, runs: seq<Run>, done: nat, start: nat, n: nat)
    requires start + n <= |s| && done <= |runs| && Runs(s[start..]) == runs[done..]
    requires 0 < n && AllSame(s, start, start + n)
    requires start + n < |s| ==> s[start + n] != s[start]
    ensures done < |runs| && runs[done] == Run(n, s[start]) && Runs(s[start + n..]) == runs[done + 1..]
  {
    var t := s[start..];
    assert forall i | 0 <= i < n :: t[i] == s[start + i];
    FirstRunIs(t, n);
    assert t[n..] == s[start + n..];
    assert Runs(t)[1..] == Runs(s[start + n..]) && runs[done..][1..] == runs[done + 1..];
  }

  lemma PairsKept(runs: seq<Run>)
    requires runs != []
    ensures Pairs(runs) <= Printed(runs)
  {
  }

  lemma {:induction false} DigitsLength(n: nat)
    ensures |Digits(n)| <= n + 1
    ensures n > 0 ==> |Digits(n)| <= n
  {
    if n >= 10 {
      DigitsLength(n / 10);
    }
  }

  lemma {:induction false} RunsFit(s: string)
    ensures forall r | r in Runs(s) :: |Digits(r.count)| <= |s|
  {
    if s != [] {
      DigitsLength(FirstRun(s));
      RunsFit(s[FirstRun(s)..]);
    }
  }

  lemma {:induction false} NoNulPrinted(runs: seq<Run>)
    requires forall r | r in runs :: r.ch != NUL
    ensures NUL !in Pairs(runs) && NUL !in Printed(runs)
  {
    if runs != [] {
      NoNulPrinted(runs[..|runs| - 1]);
      DigitSum(runs[|runs| - 1].count);
    }
  }

  lemma {:induction false} RunCharacters(s: string)
    ensures forall r | r in Runs(s) :: r.ch in s
  {
    if s != [] {
      RunCharacters(s[FirstRun(s)..]);
    }
  }

  // ---------- the encoder ----------

  /** How far printing the runs one after the other reaches: the position behind the last one that is written. */
  function Reach(runs: seq<Run>): (end: nat) {
    if runs == [] then
      0
    else
      var front, own := Reach(runs[..|runs| - 1]), 2 * (|runs| - 1) + |Image(runs[|runs| - 1])| + 1;
      if front > own then front else own
  }

  /** It is the largest of the ends of the single prints, each with its terminator. */
  lemma {:induction false} ReachIs(runs: seq<Run>)
    ensures forall i | 0 <= i < |runs| :: 2 * i + |Digits(runs[i].count)| + 2 <= Reach(runs)
    ensures runs != [] ==> exists i: nat :: i < |runs| && 2 * i + |Digits(runs[i].count)| + 2 == Reach(runs)
  {
    if runs != [] {
      var front, n := runs[..|runs| - 1], |runs| - 1;
      ReachIs(front);
      assert forall i | 0 <= i < n :: runs[i] == front[i];
      if Reach(runs) == Reach(front) && front != [] {
        var i: nat :| i < n && 2 * i + |Digits(front[i].count)| + 2 == Reach(front);
        assert 2 * i + |Digits(runs[i].count)| + 2 == Reach(runs);
      } else {
        assert 2 * n + |Digits(runs[n].count)| + 2 == Reach(runs);
      }
    }
  }

  lemma ReachNext(runs: seq<Run>, n: nat)
    requires n < |runs|
    ensures Reach(runs[..n]) <= Reach(runs[..n + 1])
    ensures 2 * n + |Image(runs[n])| + 1 <= Reach(runs[..n + 1])
  {
    assert runs[..n + 1][..n] == runs[..n];
  }

  lemma {:induction false} ReachGrows(runs: seq<Run>, m: nat, n: nat)
    requires m <= n <= |runs|
    ensures Reach(runs[..m]) <= Reach(runs[..n])
  {
    if m < n {
      ReachGrows(runs, m, n - 1);
      ReachNext(runs, n - 1);
    }
  }

  /** The runs that are printed: those that the size has room for. */
  function PrintedRuns(runs: seq<Run>, size: nat): (printed: seq<Run>) {
    runs[..Min(|runs|, size / 2)]
  }

  /** Every byte that is written is in the buffer. */
  predicate Roomy(length: nat, size: nat, s: string) {
    Reach(PrintedRuns(Runs(s), size)) <= length
  }

  /** A buffer of the size that the first pass returns is too short for every line: the prints write the position
      behind its end.  They write only this one beyond it if and only if no count has digits that reach further, as
      with short runs; the last position written is in general the furthest end of a print. */
  lemma SecondPassOverruns(line: string)
    requires line != []
    ensures var runs, size := Runs(line), 2 * |Runs(line)|;
      && !Roomy(size, size, line) && Reach(PrintedRuns(runs, size)) == Reach(runs) > size
      && (Reach(runs) == size + 1 <==> forall i | 0 <= i < |runs| :: 2 * i + |Digits(runs[i].count)| < size)
      && (Short(runs) ==> Reach(runs) == size + 1)
      && (forall i | 0 <= i < |runs| :: 2 * i + |Digits(runs[i].count)| + 2 <= Reach(runs))
      && exists i: nat :: i < |runs| && 2 * i + |Digits(runs[i].count)| + 2 == Reach(runs)
  {
    hide Runs, Reach, Digits, Short;
    var runs := Runs(line);
    RunsAreMaximal(line);
    ReachIs(runs);
    AllPrinted(runs);
    var last := |runs| - 1;
    assert 2 * last + |Digits(runs[last].count)| + 2 <= Reach(runs);
    if Short(runs) {
      ShortDigits(runs);
    }
  }

  lemma AllPrinted(runs: seq<Run>)
    ensures PrintedRuns(runs, 2 * |runs|) == runs
  {
  }

  lemma ShortDigits(runs: seq<Run>)
    requires Short(runs)
    ensures forall i | 0 <= i < |runs| :: |Digits(runs[i].count)| == 1
  {
    assert forall i | 0 <= i < |runs| :: runs[i] in runs;
  }

  /** A run of ten: three characters and a terminator are printed where there are two places. */
  lemma OverrunExample()
    ensures Runs("aaaaaaaaaa") == [Run(10, 'a')] && Reach(Runs("aaaaaaaaaa")) == 4
  {
    TenRuns();
    assert Digits(10) == Digits(1) + [Digit(0)];
    assert Reach([]) == 0;
    assert [Run(10, 'a')][..0] == [];
  }

  method Sprintf(out: array<char>, at: nat, count: nat, ch: char)
    requires at + |Image(Run(count, ch))| < out.Length
    modifies out
    ensures var text := Image(Run(count, ch)) + [NUL];
      out[..] == old(out[..at]) + text + old(out[at + |text|..])
  {
    var text := Digits(count) + [ch] + [NUL];
    forall k | 0 <= k < |text| {
      out[at + k] := text[k];
    }
  }

  /** Printing a run behind those already there. */
  lemma Appended(before: seq<char>, after: seq<char>, runs: seq<Run>, r: Run)
    requires runs != [] ==> HasString(before, Printed(runs))
    requires var at, text := 2 * |runs|, Image(r) + [NUL];
      at + |text| <= |before| && after == before[..at] + text + before[at + |text|..]
    ensures HasString(after, Printed(runs + [r]))
  {
    PrintedNext(runs, r);
    var at := 2 * |runs|;
    if runs != [] {
      PairsKept(runs);
      assert before[..at] == before[..|Printed(runs)|][..at] == Pairs(runs);
    }
    assert after[..at + |Image(r)|] == Pairs(runs) + Image(r);
  }

  /** What the buffer holds after n runs: those printed for which the size had room, and else what it held before. */
  ghost predicate Output(now: seq<char>, was: seq<char>, runs: seq<Run>, n: nat, size: nat)
    requires n <= |runs|
  {
    var w := Min(n, size / 2);
    && |now| == |was|
    && (w == 0 ==> now == was)
    && (w > 0 ==> HasString(now, Printed(runs[..w])))
    && (forall k | Reach(runs[..w]) <= k < |now| :: now[k] == was[k])
  }

  lemma OutputNext(before: seq<char>, after: seq<char>, was: seq<char>, runs: seq<Run>, n: nat, size: nat)
    requires n < |runs| && Output(before, was, runs, n, size)
    requires size < 2 * n + 2 ==> after == before
    requires size >= 2 * n + 2 ==>
               var text := Image(runs[n]) + [NUL];
               2 * n + |text| <= |before| && after == before[..2 * n] + text + before[2 * n + |text|..]
    ensures Output(after, was, runs, n + 1, size)
  {
    hide Image, Printed, HasString, Pairs, Reach;
    if size >= 2 * n + 2 {
      assert Min(n, size / 2) == n && Min(n + 1, size / 2) == n + 1;
      assert runs[..n + 1] == runs[..n] + [runs[n]];
      NoPrint();
      Appended(before, after, runs[..n], runs[n]);
      ReachNext(runs, n);
    } else {
      assert Min(n, size / 2) == Min(n + 1, size / 2);
    }
  }

  /** When all runs are through, the buffer holds the string that was printed, which ends with the last run's count in
      decimal and its character, and nothing behind the prints has changed. */
  lemma OutputMeans(now: seq<char>, was: seq<char>, runs: seq<Run>, size: nat)
    requires runs != [] && size >= 2 && Output(now, was, runs, |runs|, size)
    ensures PrintedRuns(runs, size) == runs[..if |runs| < size / 2 then |runs| else size / 2] != []
    ensures var printed := PrintedRuns(runs, size);
      var p := Printed(printed);
      && |p| < |now| == |was| && now[..|p|] == p && now[|p|] == '\0'
      && 2 * |printed| <= |p| && p[|p| - 1] == printed[|printed| - 1].ch
      && NumberOf(p[2 * (|printed| - 1)..|p| - 1]) == printed[|printed| - 1].count
      && forall k | Reach(printed) <= k < |now| :: now[k] == was[k]
  {
    hide Printed, Reach, NumberOf;
    LastPrint(PrintedRuns(runs, size));
  }

  lemma NoRoom(now: seq<char>, was: seq<char>, runs: seq<Run>, n: nat, size: nat)
    requires n <= |runs| && size < 2 && Output(now, was, runs, n, size)
    ensures now == was
  {
  }

  lemma NoOutput(was: seq<char>, runs: seq<Run>, size: nat)
    ensures Output(was, was, runs, 0, size)
  {
  }

  lemma NoPrint()
    ensures Printed([]) == []
  {
  }

  /** With a null buffer, only the size is computed: two for each run.  Otherwise as many whole runs are printed as
      the given size has room for. */
  method Encode(input: Text, out: array?<char>, size: Size)
    returns (status: int, newSize: Size)
    requires input.Text? ==> NUL !in input.value
    requires out != null && input.Text? && size.Size? ==> Roomy(out.Length, size.value, input.value)
    modifies out
    ensures status == (if input.NoText? || |input.value| == 0 || size.NoSize? then -2 else 0)
    ensures status == -2 ==> newSize == size && (out != null ==> out[..] == old(out[..]))
    ensures status == 0 ==> newSize == Size(2 * |Runs(input.value)|)
    ensures status == 0 && out != null ==>
              Output(out[..], old(out[..]), Runs(input.value), |Runs(input.value)|, size.value)
    ensures status == 0 && out != null && |Runs(input.value)| > 0 && size.value >= 2 ==>
              var runs := PrintedRuns(Runs(input.value), size.value);
              var p := Printed(runs);
              && runs != [] && |p| < out.Length && out[..|p|] == p && out[|p|] == '\0'
              && 2 * |runs| <= |p| && p[|p| - 1] == runs[|runs| - 1].ch
              && NumberOf(p[2 * (|runs| - 1)..|p| - 1]) == runs[|runs| - 1].count
              && forall k | Reach(runs) <= k < out.Length :: out[k] == old(out[k])
    ensures out != null && size.Size? && size.value < 2 ==> out[..] == old(out[..])
  {
    hide Runs, Printed, Image, Pairs, Output, Digits, Reach, NumberOf;
    if input.NoText? || |input.value| == 0 || size.NoSize? {
      return -2, size;
    }
    var s := input.value;
    var buffer := s + [NUL];
    var length := 0;
    var i := 0;
    ghost var runs, done: nat := Runs(s), 0;
    NoOutput(if out == null then [] else out[..], runs, size.value);
    assert s[0..] == s;
    while i < |s|
      invariant i <= |s| && done <= |runs| && length == 2 * done && Runs(s[i..]) == runs[done..]
      invariant out != null ==> Output(out[..], old(out[..]), runs, done, size.value)
    {
      var counter := 1;
      ghost var start := i;
      while buffer[i] == buffer[i + 1]
        invariant start <= i < |s| && counter == i - start + 1
        invariant AllSame(s, start, i + 1)
        decreases |s| - i
      {
        counter := counter + 1;
        i := i + 1;
      }
      NextRun(s, runs, done, start, counter);
      if size.value >= 2 * done + 2 {
        ReachNext(runs, done);
        ReachGrows(runs, done + 1, Min(|runs|, size.value / 2));
      }
      var required := length + 2;
      label Print:
      if out != null && size.value >= required {
        Sprintf(out, length, counter, buffer[i]);
        OutputNext(old@Print(out[..]), out[..], old(out[..]), runs, done, size.value);
      } else if out != null {
        OutputNext(out[..], out[..], old(out[..]), runs, done, size.value);
      }
      length := required;
      done := done + 1;
      i := i + 1;
    }
    NoRuns();
    assert s[i..] == [] && runs[done..] == [];
    if out != null && |runs| > 0 && size.value >= 2 {
      OutputMeans(out[..], old(out[..]), runs, size.value);
    } else if out != null && size.value < 2 {
      NoRoom(out[..], old(out[..]), runs, done, size.value);
    }
    return 0, Size(length);
  }

  // ---------- the decoder ----------

  lemma RepeatNext(ch: char, n: nat)
    ensures Repeat(ch, n + 1) == Repeat(ch, n) + [ch] && Repeat(ch, 0) == []
  {
  }

  lemma DecodeNext(s: string)
    ensures Decode(s) == if |s| < 2 then [] else Repeat(s[1], Count(s[0])) + Decode(s[2..])
    ensures |s| > 0 ==> var d := s[0] as int - '0' as int; Count(s[0]) == if d > 0 then d else 0
  {
  }

  /** Emits what each pair stands for; a last character without a partner is dropped. */
  method DecodeLine(input: Text) returns (status: int, emitted: string)
    ensures status == (if input.NoText? || |input.value| == 0 then -2 else 0)
    ensures emitted == if input.NoText? then [] else Decode(input.value)
  {
    hide Decode, Repeat, Count;
    emitted := [];
    if input.NoText? || |input.value| == 0 {
      DecodeNext([]);
      return -2, [];
    }
    var s := input.value;
    var i := 0;
    assert s[0..] == s;
    while i < |s| - 1
      invariant i <= |s| && emitted + Decode(s[i..]) == Decode(s)
    {
      var currentChar := s[i + 1];
      var charactersCount := s[i] as int - '0' as int;
      ghost var before, done: nat := emitted, 0;
      DecodeNext(s[i..]);
      RepeatNext(currentChar, 0);
      while charactersCount > 0
        invariant done + (if charactersCount > 0 then charactersCount else 0) == Count(s[i])
        invariant emitted == before + Repeat(currentChar, done)
      {
        RepeatNext(currentChar, done);
        emitted := emitted + [currentChar];
        charactersCount := charactersCount - 1;
        done := done + 1;
      }
      assert s[i..][2..] == s[i + 2..];
      Associative(before, Repeat(currentChar, done), Decode(s[i + 2..]));
      i := i + 2;
    }
    DecodeNext(s[i..]);
    status := 0;
  }
}
