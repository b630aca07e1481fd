/** Cutting a log into LF-terminated lines. */
module LogLines {
  datatype Lines = Lines(complete: seq<string>, partial: string)

  function Feed(l: Lines, c: char): Lines {
    if c == '\n' then Lines(l.complete + [l.partial], "") else Lines(l.complete, l.partial + [c])
  }

  /** The complete lines of a log and what follows its last LF. */
  function LinesOf(log: string): Lines {
    if log == "" then Lines([], "") else Feed(LinesOf(log[..|log| - 1]), log[|log| - 1])
  }

  /** At most one CR immediately before the LF is removed. */
  function StripCr(line: string): string {
    if line != "" && line[|line| - 1] == '\r' then line[..|line| - 1] else line
  }

  function Unlines(lines: seq<string>): string {
    if lines == [] then "" else Unlines(lines[..|lines| - 1]) + lines[|lines| - 1] + "\n"
  }

  predicate NoNewline(s: string) {
    forall i | 0 <= i < |s| :: s[i] != '\n'
  }

  lemma LinesOfSnoc(log: string, c: char)
    ensures LinesOf(log + [c]) == Feed(LinesOf(log), c)
  {
    assert (log + [c])[..|log|] == log;
  }

  lemma UnlinesSnoc(lines: seq<string>, line: string)
    ensures Unlines(lines + [line]) == Unlines(lines) + line + "\n"
  {
    assert (lines + [line])[..|lines|] == lines;
  }

  function Rejoined(l: Lines): string {
    Unlines(l.complete) + l.partial
  }

  predicate WholeLines(l: Lines) {
    && NoNewline(l.partial)
    && forall i | 0 <= i < |l.complete| :: NoNewline(l.complete[i])
  }

  lemma FeedKeeps(l: Lines, c: char)
    requires WholeLines(l)
    ensures WholeLines(Feed(l, c))
    ensures Rejoined(Feed(l, c)) == Rejoined(l) + [c]
  {
    hide Unlines;
    UnlinesSnoc(l.complete, l.partial);
  }

  lemma EmptyRejoins()
    ensures Rejoined(LinesOf("")) == "" && WholeLines(LinesOf(""))
  {
  }

  /** The cut loses nothing and no line holds an LF. */
  lemma {:induction false} LinesRejoin(log: string)
    ensures Rejoined(LinesOf(log)) == log
    ensures WholeLines(LinesOf(log))
  {
    hide Rejoined, WholeLines, LinesOf, Feed, Unlines, NoNewline;
    if log == "" {
      EmptyRejoins();
    } else {
      var n := |log| - 1;
      LinesRejoin(log[..n]);
      assert log == log[..n] + [log[n]];
      LinesOfSnoc(log[..n], log[n]);
      FeedKeeps(LinesOf(log[..n]), log[n]);
    }
  }

  lemma {:induction false} LinesOfText(log: string, s: string)
    requires NoNewline(s)
    ensures LinesOf(log + s) == Lines(LinesOf(log).complete, LinesOf(log).partial + s)
  {
    hide LinesOf;
    if s == "" {
      assert log + s == log;
      assert LinesOf(log).partial + s == LinesOf(log).partial;
    } else {
      var n := |s| - 1;
      var init := s[..n];
      LinesOfText(log, init);
      assert s == init + [s[n]];
      assert log + s == (log + init) + [s[n]];
      LinesOfSnoc(log + init, s[n]);
      assert LinesOf(log).partial + init + [s[n]] == LinesOf(log).partial + s;
    }
  }

  /** It is the only cut into whole lines: joining and cutting again restores every one. */
  lemma {:induction false} CutIsUnique(l: Lines)
    requires WholeLines(l)
    ensures LinesOf(Rejoined(l)) == l
    decreases |l.complete|
  {
    hide LinesOf, NoNewline;
    if l.complete == [] {
      LinesOfText("", l.partial);
      EmptyLog();
      assert "" + l.partial == l.partial;
    } else {
      var n := |l.complete| - 1;
      var front := Lines(l.complete[..n], "");
      EmptyHasNoNewline();
      CutIsUnique(front);
      assert Rejoined(front) == Unlines(l.complete[..n]);
      LinesOfLine(Unlines(l.complete[..n]), l.complete[n]);
      assert "" + l.complete[n] == l.complete[n];
      assert l.complete == l.complete[..n] + [l.complete[n]];
      LinesOfText(Unlines(l.complete), l.partial);
      assert "" + l.partial == l.partial;
    }
  }

  lemma EmptyLog()
    ensures LinesOf("") == Lines([], "") && Unlines([]) == ""
  {
  }

  lemma EmptyHasNoNewline()
    ensures NoNewline("")
  {
  }

  /** Appending one whole line to a log that ends with LF adds exactly that line. */
  lemma LinesOfLine(log: string, line: string)
    requires NoNewline(line)
    ensures LinesOf(log + line + "\n")
         == Lines(LinesOf(log).complete + [LinesOf(log).partial + line], "")
  {
    LinesOfText(log, line);
    var all := log + line + "\n";
    assert all[..|all| - 1] == log + line && all[|all| - 1] == '\n';
  }

  lemma {:induction false} LinesGrow(log: string, more: string)
    ensures LinesOf(log).complete <= LinesOf(log + more).complete
  {
    if more == "" {
      assert log + more == log;
    } else {
      var n := |more| - 1;
      LinesGrow(log, more[..n]);
      assert (log + more)[..|log| + n] == log + more[..n];
    }
  }

  lemma LinesOfPrefix(log: string, n: nat)
    requires n < |log|
    ensures LinesOf(log[..n + 1]) == Feed(LinesOf(log[..n]), log[n])
  {
    assert log[..n + 1][..n] == log[..n];
  }
}
