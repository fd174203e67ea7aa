/** The string converter that reverses every word of a string where it stands. */
module WordReverser {

  import opened CStrings
  import opened Sequences

  const BUFFER_SIZE: nat := 1024

  function Reversed(s: string): (r: string)
    ensures |r| == |s|
  {
    seq(|s|, i requires 0 <= i < |s| => s[|s| - 1 - i])
  }

  /** The length of the word that a string begins with, which may be empty. */
  function WordLength(s: string): (n: nat)
    ensures n <= |s| && (forall i | 0 <= i < n :: s[i] != ' ') && (n < |s| ==> s[n] == ' ')
  {
    if s == [] || s[0] == ' ' then 0 else 1 + WordLength(s[1..])
  }

  /** The words of a string reversed one by one, with single spaces between them. */
  function Words(s: string): (r: string) {
    var n := WordLength(s);
    if n == |s| then Reversed(s) else Reversed(s[..n]) + [' '] + Words(s[n + 1..])
  }

  // ---------- what reversing the words means ----------

  lemma WordLengthIs(s: string, n: nat)
    requires n <= |s| && (forall i | 0 <= i < n :: s[i] != ' ') && (n < |s| ==> s[n] == ' ')
    ensures WordLength(s) == n
  {
  }

  lemma WordsOf(word: string, rest: string)
    requires forall k | 0 <= k < |word| :: word[k] != ' '
    ensures Words(word) == Reversed(word)
    ensures Words(word + [' '] + rest) == Reversed(word) + [' '] + Words(rest)
  {
    WordLengthIs(word, |word|);
    var s := word + [' '] + rest;
    assert forall i | 0 <= i < |word| :: s[i] == word[i];
    assert s[|word|] == ' ';
    WordLengthIs(s, |word|);
    assert s[..|word|] == word && s[|word| + 1..] == rest;
  }

  /** A string is a word, or a word and a space and more. */
  lemma Split(s: string) returns (word: string, rest: string)
    ensures forall k | 0 <= k < |word| :: word[k] != ' '
    ensures s == word || (s == word + [' '] + rest && |rest| < |s|)
  {
    var n := WordLength(s);
    word := s[..n];
    rest := if n == |s| then [] else s[n + 1..];
  }

  lemma {:induction false} SpacesKept(s: string)
    ensures |Words(s)| == |s| && forall i | 0 <= i < |s| :: Words(s)[i] == ' ' <==> s[i] == ' '
    decreases |s|
  {
    hide Words;
    var word, rest := Split(s);
    WordsOf(word, rest);
    if s != word {
      SpacesKept(rest);
    }
  }

  lemma InFirstWord(word: string, rest: string, i: nat)
    requires i <= |word| && forall k | 0 <= k < |word| :: word[k] != ' '
    ensures var s := word + [' '] + rest;
      (s[i] == ' ' <==> i == |word|) && (i < |word| ==> Words(s)[i] == s[|word| - 1 - i])
  {
    WordsOf(word, rest);
  }

  lemma InRest(word: string, rest: string, i: nat)
    requires |word| < i < |word| + 1 + |rest| && forall k | 0 <= k < |word| :: word[k] != ' '
    ensures var s, j := word + [' '] + rest, i - |word| - 1;
      s[i] == rest[j] && |Words(rest)| == |rest| && |Words(s)| == |s| && Words(s)[i] == Words(rest)[j]
  {
    hide Words, Reversed;
    WordsOf(word, rest);
    SpacesKept(rest);
    Third(word, ' ', rest, i);
    Third(Reversed(word), ' ', Words(rest), i);
  }

  lemma Third(a: string, ch: char, b: string, i: nat)
    requires |a| < i < |a| + 1 + |b|
    ensures (a + [ch] + b)[i] == b[i - |a| - 1]
  {
  }

  /** Every character stands as far from the end of its word as it stood from the beginning: s[a..b] is the word that
      position i lies in.  The spaces stay where they are. */
  lemma {:induction false} WordsAt(s: string, a: nat, b: nat, i: nat)
    requires a <= i < b <= |s| && forall k | a <= k < b :: s[k] != ' '
    requires (a > 0 ==> s[a - 1] == ' ') && (b < |s| ==> s[b] == ' ')
    ensures |Words(s)| == |s| && Words(s)[i] == s[a + b - 1 - i]
    decreases |s|, 1
  {
    hide Words, Reversed, WordLength;
    SpacesKept(s);
    var word, rest := Split(s);
    if s == word {
      OneWord(word);
    } else {
      LaterWord(word, rest, a, b, i);
    }
  }

  lemma OneWord(word: string)
    requires forall k | 0 <= k < |word| :: word[k] != ' '
    ensures forall i | 0 <= i < |word| :: Words(word)[i] == word[|word| - 1 - i]
  {
    WordsOf(word, []);
  }

  lemma {:induction false} LaterWord(word: string, rest: string, a: nat, b: nat, i: nat)
    requires forall k | 0 <= k < |word| :: word[k] != ' '
    requires var s := word + [' '] + rest;
      && a <= i < b <= |s| && (forall k | a <= k < b :: s[k] != ' ')
      && (a > 0 ==> s[a - 1] == ' ') && (b < |s| ==> s[b] == ' ')
    ensures var s := word + [' '] + rest;
      |Words(s)| == |s| && Words(s)[i] == s[a + b - 1 - i]
    decreases |rest| + |word| + 1, 0
  {
    hide Words, Reversed, WordLength;
    var s, n := word + [' '] + rest, |word|;
    SpacesKept(s);
    InFirstWord(word, rest, n);
    if i < n {
      InFirstWord(word, rest, i);
      assert forall k | 0 <= k < n :: s[k] == word[k];
      assert a == 0 && b == n;
    } else {
      assert a > n;
      forall k | a - n - 1 <= k < b - n - 1
        ensures rest[k] != ' '
      {
        InRest(word, rest, k + n + 1);
      }
      if a > n + 1 {
        InRest(word, rest, a - 1);
      }
      if b < |s| {
        InRest(word, rest, b);
      }
      InRest(word, rest, i);
      InRest(word, rest, a + b - 1 - i);
      WordsAt(rest, a - n - 1, b - n - 1, i - n - 1);
    }
  }

  lemma ReversedTwice(word: string)
    ensures Reversed(Reversed(word)) == word
    ensures (forall k | 0 <= k < |word| :: word[k] != ' ') ==> forall k | 0 <= k < |word| :: Reversed(word)[k] != ' '
  {
  }

  /** Reversing the words again gives back the string, with any spaces that were put behind it. */
  lemma {:induction false} WordsTwice(s: string)
    ensures Words(Words(s)) == s && Words(Words(s) + [' ']) == s + [' ']
    decreases |s|
  {
    hide Words, Reversed, WordLength;
    var word, rest := Split(s);
    var r := Reversed(word);
    WordsOf(word, rest);
    ReversedTwice(word);
    WordsOf(r, Words(rest));
    if s == word {
      NoWords();
      WordsOf(r, []);
      assert r + [' '] + [] == r + [' '] && word + [' '] + [] == s + [' '];
    } else {
      WordsTwice(rest);
      WordsOf(r, Words(rest) + [' ']);
      Associative(r + [' '], Words(rest), [' ']);
      Associative(word + [' '], rest, [' ']);
    }
  }

  lemma NoWords()
    ensures Words([]) == []
  {
  }

  // ---------- the converter ----------

  /** Copies a word backwards to a position of the destination. */
  method ReverseToken(source: array<char>, start: nat, length: nat, destination: array<char>, writePos: nat)
    requires source != destination && start + length <= source.Length && writePos + length <= destination.Length
    modifies destination
    ensures forall k | 0 <= k < destination.Length ::
              destination[k] == if writePos <= k < writePos + length then source[start + length - (k - writePos) - 1]
                                else old(destination[k])
  {
    for i := 0 to length
      invariant forall k | 0 <= k < destination.Length ::
                  destination[k] == if writePos <= k < writePos + i then source[start + length - (k - writePos) - 1]
                                    else old(destination[k])
    {
      destination[writePos + i] := source[start + length - i - 1];
    }
  }

  /** Where the word that begins at a position ends. */
  function WordEnd(s: string, at: nat): (e: nat)
    requires at <= |s|
    ensures at <= e <= |s| && (forall k | at <= k < e :: s[k] != ' ') && (e < |s| ==> s[e] == ' ')
    decreases |s| - at
  {
    if at == |s| || s[at] == ' ' then at else WordEnd(s, at + 1)
  }

  lemma WordEndIs(s: string, at: nat, e: nat)
    requires at <= e <= |s| && (forall k | at <= k < e :: s[k] != ' ') && (e < |s| ==> s[e] == ' ')
    ensures WordEnd(s, at) == e
  {
  }

  /** The buffer still holds the string from a position on, with its terminator. */
  predicate Holds(work: array<char>, s: string, rest: nat)
    reads work
  {
    |s| < work.Length && work[|s|] == NUL && forall k | rest <= k < |s| :: work[k] == s[k]
  }

  /** Cuts the next word off the string in the buffer: a space behind it becomes a terminator.  A position of -1
      stands for the null pointer. */
  method Strsep(work: array<char>, rest: nat, ghost s: string) returns (next: int)
    requires rest <= |s| && Holds(work, s, rest) && NUL !in s
    modifies work
    ensures var e := WordEnd(s, rest);
      && e < work.Length && work[e] == NUL && (forall k | rest <= k < e :: work[k] == s[k])
      && next == (if e < |s| then e + 1 else -1)
      && (e < |s| ==> Holds(work, s, e + 1))
  {
    assert forall k | rest <= k < |s| :: s[k] in s;
    var e := rest;
    while work[e] != ' ' && work[e] != NUL
      invariant rest <= e <= |s| && forall k | rest <= k < e :: s[k] != ' '
      decreases |s| - e
    {
      e := e + 1;
    }
    WordEndIs(s, rest, e);
    if work[e] == ' ' {
      work[e] := NUL;
      next := e + 1;
    } else {
      next := -1;
    }
  }

  method Strlen(work: array<char>, start: nat, ghost s: string, ghost end: nat) returns (n: nat)
    requires start <= end <= |s| && end < work.Length && work[end] == NUL && NUL !in s
    requires forall k | start <= k < end :: work[k] == s[k]
    ensures start + n == end
  {
    assert forall k | start <= k < end :: s[k] in s;
    n := 0;
    while work[start + n] != NUL
      invariant start + n <= end
      decreases end - n
    {
      n := n + 1;
    }
  }

  /** The word at a position, and what stands there in the reversed string. */
  lemma NextWord(s: string, rest: nat)
    requires rest <= |s| && (rest > 0 ==> s[rest - 1] == ' ')
    ensures var e, all := WordEnd(s, rest), Words(s) + [' '];
      && |all| == |s| + 1 && all[e] == ' '
      && forall i | rest <= i < e :: all[i] == s[e - 1 - (i - rest)]
  {
    hide Words, WordEnd;
    var e := WordEnd(s, rest);
    SpacesKept(s);
    forall i | rest <= i < e
      ensures Words(s)[i] == s[e - 1 - (i - rest)]
    {
      WordsAt(s, rest, e, i);
    }
  }

  /** Writes the string with its words reversed, one more space, and the terminator; a string that does not fit the
      work buffer leaves the output as it is. */
  method ReverseStringWords(incoming: Text, work: array<char>, output: array<char>)
    requires work != output && work.Length == 1024
    requires incoming.Text? ==> '\0' !in incoming.value
    requires incoming.Text? && |incoming.value| + 1 <= 1024 ==> |incoming.value| + 2 <= output.Length
    modifies work, output
    ensures output[..] == if incoming.NoText? || |incoming.value| + 1 > 1024 then old(output[..])
                          else Words(incoming.value) + [' ', '\0'] + old(output[|incoming.value| + 2..])
  {
    hide Words, WordEnd, Written;
    if incoming.NoText? {
      return;
    }
    var s := incoming.value;
    var sourceLength := |s|;
    if sourceLength + 1 > BUFFER_SIZE {
      return;
    }
    forall k | 0 <= k <= |s| {
      work[k] := if k < |s| then s[k] else NUL;
    }
    var writePosition := 0;
    var rest := 0;
    WordsLength(s);
    assert output[..] == old(output[..]);
    NothingWritten(output[..], Words(s) + [' ']);
    while rest >= 0
      invariant -1 <= rest <= |s| && writePosition == if rest >= 0 then rest else |s| + 1
      invariant rest >= 0 ==> Holds(work, s, rest)
      invariant rest > 0 ==> s[rest - 1] == ' '
      invariant Written(output[..], old(output[..]), Words(s) + [' '], writePosition)
      decreases if rest >= 0 then |s| - rest + 1 else 0
    {
      ghost var before := output[..];
      var token := rest;
      rest := Strsep(work, token, s);
      var tokenLength := Strlen(work, token, s, WordEnd(s, token));
      ReverseToken(work, token, tokenLength, output, writePosition);
      writePosition := writePosition + tokenLength;
      output[writePosition] := ' ';
      writePosition := writePosition + 1;
      WordWritten(s, token, before, output[..], old(output[..]));
    }
    AllWritten(output[..], old(output[..]), Words(s) + [' ']);
    output[sourceLength + 1] := NUL;
  }

  /** The first n characters of the result are in place, and what is behind it is as before. */
  ghost predicate Written(now: seq<char>, was: seq<char>, all: string, n: nat) {
    && n <= |all| < |now| == |was|
    && (forall k | 0 <= k < n :: now[k] == all[k])
    && (forall k | |all| < k < |now| :: now[k] == was[k])
  }

  lemma NothingWritten(was: seq<char>, all: string)
    requires |all| < |was|
    ensures Written(was, was, all, 0)
  {
  }

  lemma AllWritten(now: seq<char>, was: seq<char>, all: string)
    requires Written(now, was, all, |all|)
    ensures |all| < |now| && now[|all| := NUL] == all + [NUL] + was[|all| + 1..]
  {
  }

  /** One round of the loop puts one more word and a space in place. */
  lemma WordWritten(s: string, rest: nat, before: seq<char>, after: seq<char>, was: seq<char>)
    requires rest <= |s| && (rest > 0 ==> s[rest - 1] == ' ')
    requires Written(before, was, Words(s) + [' '], rest) && |after| == |before|
    requires var e := WordEnd(s, rest);
      forall k | 0 <= k < |after| ::
        after[k] == if rest <= k < e then s[e - 1 - (k - rest)] else if k == e then ' ' else before[k]
    ensures Written(after, was, Words(s) + [' '], WordEnd(s, rest) + 1)
  {
    hide Words, WordEnd;
    WordsLength(s);
    NextWord(s, rest);
  }

  lemma WordsLength(s: string)
    ensures |Words(s)| == |s|
  {
    SpacesKept(s);
  }

  lemma {:induction false} NulKept(s: string)
    requires NUL !in s
    ensures NUL !in Words(s)
    decreases |s|
  {
    var n := WordLength(s);
    if n < |s| {
      NulKept(s[n + 1..]);
    }
  }

  /** The converter's output is a string it takes again if there is room for it; from that it makes the original string
      and two spaces. */
  lemma OwnOutput(s: string)
    requires NUL !in s
    ensures var output := Words(s) + [' '];
      && NUL !in output && |output| == |s| + 1
      && Words(output) + [' '] == s + [' ', ' ']
  {
    WordsTwice(s);
    NulKept(s);
    WordsLength(s);
  }
}
