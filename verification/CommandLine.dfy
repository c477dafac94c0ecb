/**
 * `split_cmdline` (common/uefi_utils.c): cuts a NUL-terminated command line into words in
 * place, overwriting the space after each word with a NUL.
 */
module CommandLine {
  const NUL := '\0'

  function WordLength(s: string): (n: nat)
    ensures n <= |s| && (n < |s| ==> s[n] == ' ') && forall k | 0 <= k < n :: s[k] != ' '
  {
    if s == [] || s[0] == ' ' then 0 else 1 + WordLength(s[1..])
  }

  /** The maximal runs of non-space characters, in order. */
  function Words(s: string): seq<string>
    decreases |s|
  {
    if s == [] then []
    else if s[0] == ' ' then Words(s[1..])
    else [s[..WordLength(s)]] + Words(s[WordLength(s)..])
  }

  /** The NUL-terminated string that starts at p. */
  function CString(buf: seq<char>, p: nat): string
    requires p <= |buf|
    decreases |buf| - p
  {
    if p == |buf| || buf[p] == NUL then [] else [buf[p]] + CString(buf, p + 1)
  }

  /** Word w stands at p, followed by a NUL. */
  ghost predicate StandsAt(buf: seq<char>, p: nat, w: string)
  {
    p + |w| < |buf| && buf[p..p + |w|] == w && buf[p + |w|] == NUL && NUL !in w
  }

  lemma {:induction false} StandsAtIsCString(buf: seq<char>, p: nat, w: string)
    requires StandsAt(buf, p, w)
    ensures CString(buf, p) == w
    decreases |w|
  {
    if w != [] {
      assert buf[p] == buf[p..p + |w|][0] == w[0];
      assert buf[p + 1..p + 1 + |w[1..]|] == buf[p..p + |w|][1..];
      StandsAtIsCString(buf, p + 1, w[1..]);
    }
  }

  lemma FirstWord(s: string, k: nat)
    requires 0 < k <= |s| && (k < |s| ==> s[k] == ' ') && forall j | 0 <= j < k :: s[j] != ' '
    ensures Words(s) == [s[..k]] + Words(s[k..])
  {
    assert WordLength(s) == k;
  }

  /** The line as the loop finds it: a NUL at n and none before. */
  ghost predicate IsLine(o: seq<char>, n: nat)
  {
    n < |o| && o[n] == NUL && forall k | 0 <= k < n :: o[k] != NUL
  }

  /** From o only spaces before s have been overwritten. */
  ghost predicate Cut(o: seq<char>, buf: seq<char>, s: nat)
  {
    && |buf| == |o| && s <= |o|
    && (forall k | s <= k < |o| :: buf[k] == o[k])
    && forall k | 0 <= k < s :: buf[k] == o[k] || (o[k] == ' ' && buf[k] == NUL)
  }

  /** The words in `done` stand at their starts and end before s. */
  ghost predicate Standing(buf: seq<char>, s: nat, starts: seq<nat>, done: seq<string>)
  {
    |done| <= |starts| && forall k | 0 <= k < |done| :: starts[k] + |done[k]| < s && StandsAt(buf, starts[k], done[k])
  }

  /** A word begins at a and reaches up to s unbroken. */
  ghost predicate Open(o: seq<char>, buf: seq<char>, a: nat, s: nat)
    requires |buf| == |o| && s <= |o|
  {
    a < s && forall k | a <= k < s :: o[k] != ' ' && buf[k] == o[k]
  }

  /** Loop invariant: `done` and what is still to be read make up the words of the line. */
  ghost predicate Progress(o: seq<char>, buf: seq<char>, n: nat, s: nat, inw: bool, starts: seq<nat>, done: seq<string>)
  {
    && IsLine(o, n) && s <= n && Cut(o, buf, s) && Standing(buf, s, starts, done)
    && if !inw then |starts| == |done| && Words(o[..n]) == done + Words(o[s..n])
       else if starts == [] then s == 0 && done == [] && o[0] == ' '
       else
         var a := starts[|starts| - 1];
         |starts| == |done| + 1 && Open(o, buf, a, s) && Words(o[..n]) == done + Words(o[a..n])
  }

  lemma FirstSpace(s: string)
    requires s != [] && s[0] == ' '
    ensures Words(s) == Words(s[1..])
  {
  }

  lemma NowStanding(buf: seq<char>, s: nat, starts: seq<nat>, done: seq<string>, w: string)
    requires Standing(buf, s, starts, done) && |starts| == |done| + 1
    requires StandsAt(buf, starts[|done|], w) && starts[|done|] + |w| == s
    ensures Standing(buf, s + 1, starts, done + [w])
  {
  }

  /** Writing at s leaves the words that end before s standing. */
  lemma EarlierWordsStand(before: seq<char>, after: seq<char>, s: nat, starts: seq<nat>, done: seq<string>)
    requires |before| == |after| && s < |before| && Standing(before, s, starts, done)
    requires forall k | 0 <= k < |before| && k != s :: after[k] == before[k]
    ensures Standing(after, s, starts, done)
  {
    forall k | 0 <= k < |done|
      ensures StandsAt(after, starts[k], done[k])
    {
      assert after[starts[k]..starts[k] + |done[k]|] == before[starts[k]..starts[k] + |done[k]|];
    }
  }

  lemma SpaceEndsWord(o: seq<char>, buf: seq<char>, n: nat, s: nat, starts: seq<nat>, done: seq<string>)
    returns (done': seq<string>)
    requires Progress(o, buf, n, s, true, starts, done) && o[s] == ' '
    ensures Progress(o, buf[s := NUL], n, s + 1, false, starts, done')
  {
    hide Words;
    var buf' := buf[s := NUL];
    done' := done;
    EarlierWordsStand(buf, buf', s, starts, done);
    FirstSpace(o[s..n]);
    assert o[s..n][1..] == o[s + 1..n];
    if starts != [] {
      var a := starts[|starts| - 1];
      var w := o[a..s];
      assert o[a..n][s - a..] == o[s..n] && o[a..n][..s - a] == w;
      FirstWord(o[a..n], s - a);
      assert StandsAt(buf', a, w) by { assert buf'[a..a + |w|] == w; }
      done' := done + [w];
      assert done + ([w] + Words(o[s..n])) == done' + Words(o[s..n]);
      NowStanding(buf', s, starts, done, w);
    } else {
      assert o[..n] == o[0..n];
    }
  }

  lemma SpaceIsSkipped(o: seq<char>, buf: seq<char>, n: nat, s: nat, starts: seq<nat>, done: seq<string>)
    requires Progress(o, buf, n, s, false, starts, done) && s < n && o[s] == ' '
    ensures Progress(o, buf, n, s + 1, false, starts, done)
  {
    assert o[s..n][1..] == o[s + 1..n];
  }

  lemma WordBegins(o: seq<char>, buf: seq<char>, n: nat, s: nat, starts: seq<nat>, done: seq<string>)
    requires Progress(o, buf, n, s, false, starts, done) && s < n && o[s] != ' '
    ensures Progress(o, buf, n, s + 1, true, starts + [s], done)
  {
  }

  lemma NoWords()
    ensures Words([]) == []
  {
  }

  /** A word that reaches the end of the line is the last one, and the line's NUL ends it. */
  lemma LastWord(o: seq<char>, buf: seq<char>, n: nat, a: nat)
    requires IsLine(o, n) && Cut(o, buf, n) && Open(o, buf, a, n)
    ensures Words(o[a..n]) == [o[a..n]] && StandsAt(buf, a, o[a..n])
  {
    hide Words;
    FirstWord(o[a..n], n - a);
    assert o[a..n][..n - a] == o[a..n] && o[a..n][n - a..] == [];
    assert buf[a..a + |o[a..n]|] == o[a..n];
    NoWords();
  }

  /** At the end of the line, or with no token left, the starts point at the first words. */
  lemma ScanEnds(o: seq<char>, buf: seq<char>, n: nat, s: nat, inw: bool, starts: seq<nat>, done: seq<string>, max: nat)
    requires Progress(o, buf, n, s, inw, starts, done) && |starts| <= max
    requires s == n || (!inw && |starts| == max)
    ensures var words := Words(o[..n]);
            && |starts| == (if max <= |words| then max else |words|)
            && forall k | 0 <= k < |starts| :: starts[k] <= |buf| && CString(buf, starts[k]) == words[k]
  {
    hide Words, StandsAt, CString;
    var words := Words(o[..n]);
    var all := done;
    if inw && starts != [] {
      var a := starts[|starts| - 1];
      LastWord(o, buf, n, a);
      all := done + [o[a..n]];
      assert words == all;
    } else if inw {
      assert false;
    } else if s == n {
      NoWords();
      assert o[s..n] == [];
    }
    forall k | 0 <= k < |starts|
      ensures starts[k] <= |buf| && CString(buf, starts[k]) == words[k]
    {
      assert StandsAt(buf, starts[k], all[k]);
      StandsAtIsCString(buf, starts[k], all[k]);
    }
  }

  /** The line is still to be read from s on, and the scan is at its end exactly when it meets a NUL. */
  lemma ProgressFacts(o: seq<char>, buf: seq<char>, n: nat, s: nat, inw: bool, starts: seq<nat>, done: seq<string>)
    requires Progress(o, buf, n, s, inw, starts, done)
    ensures |buf| == |o| && s <= n < |o| && buf[s] == o[s] && (s == n <==> buf[s] == NUL) && Cut(o, buf, n)
  {
  }

  lemma ScanBegins(o: seq<char>, n: nat)
    requires IsLine(o, n)
    ensures Progress(o, o, n, 0, o[0] == ' ', [], [])
  {
    assert o[0..n] == o[..n];
    assert [] + Words(o[..n]) == Words(o[..n]);
  }

  lemma WordGoesOn(o: seq<char>, buf: seq<char>, n: nat, s: nat, starts: seq<nat>, done: seq<string>)
    requires Progress(o, buf, n, s, true, starts, done) && s < n && o[s] != ' '
    ensures Progress(o, buf, n, s + 1, true, starts, done)
  {
  }

  /**
   * After the call the strings at args[0..ntok) are exactly the first min(maxToken, n)
   * words of the line, whatever leading or repeated spaces it has; a character is either
   * unchanged or a space turned into a NUL.
   */
  method SplitCmdline(cmdline: array<char>, n: nat, maxToken: nat, args: array<nat>) returns (ntok: nat)
    requires IsLine(cmdline[..], n) && maxToken <= args.Length
    modifies cmdline, args
    ensures var words := Words(old(cmdline[..n]));
            && ntok == (if maxToken <= |words| then maxToken else |words|)
            && forall k | 0 <= k < ntok :: args[k] <= cmdline.Length && CString(cmdline[..], args[k]) == words[k]
    ensures Cut(old(cmdline[..]), cmdline[..], n)
  {
    hide Words, Standing, Open, Progress, Cut;
    ghost var o := cmdline[..];
    assert o[..n] == cmdline[..n];
    ghost var done: seq<string> := [];
    ntok := 0;
    var inw := cmdline[0] == ' ';
    var s := 0;
    ScanBegins(o, n);
    while cmdline[s] != NUL && (inw || ntok < maxToken)
      invariant ntok <= maxToken && s <= n
      invariant Progress(o, cmdline[..], n, s, inw, args[..ntok], done)
      decreases n - s
    {
      ghost var buf, starts := cmdline[..], args[..ntok];
      ProgressFacts(o, buf, n, s, inw, starts, done);
      if inw {
        if cmdline[s] == ' ' {
          inw := false;
          cmdline[s] := NUL;
          done := SpaceEndsWord(o, buf, n, s, starts, done);
          assert cmdline[..] == buf[s := NUL];
        } else {
          WordGoesOn(o, buf, n, s, starts, done);
        }
      } else if cmdline[s] != ' ' {
        args[ntok] := s;
        ntok := ntok + 1;
        inw := true;
        WordBegins(o, buf, n, s, starts, done);
        assert args[..ntok] == starts + [s];
      } else {
        SpaceIsSkipped(o, buf, n, s, starts, done);
      }
      s := s + 1;
    }
    ProgressFacts(o, cmdline[..], n, s, inw, args[..ntok], done);
    ScanEnds(o, cmdline[..], n, s, inw, args[..ntok], done, maxToken);
  }

  // ------------------------------------------------------------ splitting undoes joining

  ghost predicate IsWord(w: string)
  {
    w != [] && ' ' !in w
  }

  function Spaces(n: nat): (r: string)
    ensures |r| == n && forall k | 0 <= k < n :: r[k] == ' '
  {
    seq(n, _ => ' ')
  }

  /** Words separated by any positive number of spaces each. */
  function Join(words: seq<string>, gaps: seq<nat>): string
    requires |words| == |gaps|
  {
    if words == [] then [] else words[0] + Spaces(gaps[0]) + Join(words[1..], gaps[1..])
  }

  lemma {:induction false} LeadingSpaces(n: nat, s: string)
    ensures Words(Spaces(n) + s) == Words(s)
    decreases n
  {
    if n == 0 {
      assert Spaces(0) + s == s;
    } else {
      assert (Spaces(n) + s)[1..] == Spaces(n - 1) + s;
      LeadingSpaces(n - 1, s);
    }
  }

  /** Splitting gives back the words that were joined, for any run of spaces before, between and after them. */
  lemma {:induction false} SplitJoin(lead: nat, words: seq<string>, gaps: seq<nat>)
    requires |words| == |gaps| && forall w | w in words :: IsWord(w)
    requires forall k | 0 <= k < |gaps| - 1 :: gaps[k] > 0
    ensures Words(Spaces(lead) + Join(words, gaps)) == words
    decreases |words|
  {
    LeadingSpaces(lead, Join(words, gaps));
    if words != [] {
      var w, rest := words[0], Join(words[1..], gaps[1..]);
      var s := Join(words, gaps);
      assert w in words && IsWord(w);
      assert s[..|w|] == w && s[|w|..] == Spaces(gaps[0]) + rest;
      assert forall k | 0 <= k < |w| :: s[k] == w[k];
      if |words| == 1 && gaps[0] == 0 {
        assert s == w;
      } else {
        assert s[|w|] == ' ';
      }
      FirstWord(s, |w|);
      SplitJoin(gaps[0], words[1..], gaps[1..]);
    }
  }
}
