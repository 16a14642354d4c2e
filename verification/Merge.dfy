/** The three-way line merge of concurrent Markdown edits (plugin/src/sync/merge.ts). */
module Merge {
  import opened Basics
  import opened Hunks

  type Lines = seq<string>

  datatype MergeResult = Local(content: string) | Remote(content: string) | Merged(content: string) | Conflict

  // ----- lines

  function FirstNewline(text: string): (n: nat)
    ensures n <= |text|
    ensures n < |text| ==> text[n] == '\n'
    ensures forall i :: 0 <= i < n ==> text[i] != '\n'
  {
    if text == "" || text[0] == '\n' then 0 else 1 + FirstNewline(text[1..])
  }

  /** Each line keeps its newline; a last line without one is kept as it is. */
  function SplitLines(text: string): Lines
    decreases |text|
  {
    if text == "" then []
    else
      var n := FirstNewline(text);
      if n == |text| then [text] else [text[..n + 1]] + SplitLines(text[n + 1..])
  }

  function Join(lines: Lines): string {
    if lines == [] then "" else lines[0] + Join(lines[1..])
  }

  lemma JoinCons(line: string, rest: Lines)
    ensures Join([line] + rest) == line + Join(rest)
  {}

  lemma {:induction false} JoinSplit(text: string)
    ensures Join(SplitLines(text)) == text
    decreases |text|
  {
    if text != "" {
      var n := FirstNewline(text);
      if n < |text| {
        JoinSplit(text[n + 1..]);
        JoinCons(text[..n + 1], SplitLines(text[n + 1..]));
      } else {
        JoinCons(text, []);
      }
    }
  }

  function MergeSpec(base: string, local: string, remote: string): MergeResult {
    if local == remote then Local(local)
    else if local == base then Remote(remote)
    else if remote == base then Local(local)
    else
      match MergeLines(SplitLines(base), SplitLines(local), SplitLines(remote))
      case None => Conflict
      case Some(lines) => Merged(Join(lines))
  }

  // ----- the imperative form

  /** What the merge of three texts must be: a side that alone changed is taken as it is; where both changed, the lines
      are merged as `Hunks.MergesLines` says, one by one if there are as many on all sides. */
  ghost predicate Merges(base: string, local: string, remote: string, r: MergeResult) {
    if local == remote || remote == base then r == Local(local)
    else if local == base then r == Remote(remote)
    else
      && (r.Conflict? || r.Merged?)
      && MergesLines(SplitLines(base), SplitLines(local), SplitLines(remote), LinesOf(base, local, remote))
      && (r.Conflict? <==> LinesOf(base, local, remote).None?)
      && (r.Merged? ==> r.content == Join(LinesOf(base, local, remote).value))
  }

  ghost function LinesOf(base: string, local: string, remote: string): Option<Lines> {
    MergeLines(SplitLines(base), SplitLines(local), SplitLines(remote))
  }

  /** On texts with equally many lines: a conflict exactly when some line was changed on both sides, differently, and
      otherwise line by line the changed one. */
  lemma EqualLineCountsMergeLineByLine(base: string, local: string, remote: string)
    requires local != remote && local != base && remote != base
    requires |SplitLines(base)| == |SplitLines(local)| == |SplitLines(remote)|
    ensures var b, l, r := SplitLines(base), SplitLines(local), SplitLines(remote);
            var m := MergeSpec(base, local, remote);
            && (m.Conflict? <==> exists i: nat :: ThreeWay(b, l, r, i))
            && (!m.Conflict? ==> m.Merged? && LineByLine(b, l, r, SplitLines(m.content)))
  {
    var b, l, r := SplitLines(base), SplitLines(local), SplitLines(remote);
    MergeLinesIsRight(b, l, r);
    if !MergeSpec(base, local, remote).Conflict? {
      LineByLineIsWellSplit(base, local, remote, MergeLines(b, l, r).value);
      SplitJoin(MergeLines(b, l, r).value);
    }
  }

  lemma LineByLineIsWellSplit(base: string, local: string, remote: string, merged: Lines)
    requires |SplitLines(base)| == |SplitLines(local)| == |SplitLines(remote)|
    requires LineByLine(SplitLines(base), SplitLines(local), SplitLines(remote), merged)
    ensures WellSplit(merged)
  {
    SplitIsWellSplit(base);
    SplitIsWellSplit(local);
    SplitIsWellSplit(remote);
    TidyLineByLine(SplitLines(base), SplitLines(local), SplitLines(remote), merged, Ended, Open);
  }

  method MergeText(base: string, local: string, remote: string) returns (r: MergeResult)
    ensures r == MergeSpec(base, local, remote)
    ensures Merges(base, local, remote, r)
  {
    MergeLinesIsRight(SplitLines(base), SplitLines(local), SplitLines(remote));
    if local == remote { return Local(local); }
    if local == base { return Remote(remote); }
    if remote == base { return Local(local); }
    var baseLines, localLines, remoteLines := SplitLines(base), SplitLines(local), SplitLines(remote);
    if |baseLines| == |localLines| && |baseLines| == |remoteLines| {
      var lines := MergeSameLength(baseLines, localLines, remoteLines);
      return if lines.None? then Conflict else Merged(Join(lines.value));
    }
    var localHunk := SingleHunk(baseLines, localLines);
    var remoteHunk := SingleHunk(baseLines, remoteLines);
    if Overlap(localHunk, remoteHunk) {
      IdenticalHunksAreImpossible(base, local, remote);
      if localHunk.start == remoteHunk.start && localHunk.end == remoteHunk.end
         && localHunk.replacement == remoteHunk.replacement
      {
        assert false;
      }
      return Conflict;
    }
    var merged := SpliceHunks(baseLines, localHunk, remoteHunk);
    r := Merged(Join(merged));
  }

  // ----- what the merge guarantees

  /** The branch for identical overlapping hunks can never be reached: equal hunks rebuild equal texts. */
  lemma IdenticalHunksAreImpossible(base: string, local: string, remote: string)
    requires local != remote
    ensures HunkOf(SplitLines(base), SplitLines(local)) != HunkOf(SplitLines(base), SplitLines(remote))
  {
    HunkRebuilds(SplitLines(base), SplitLines(local));
    HunkRebuilds(SplitLines(base), SplitLines(remote));
    JoinSplit(local);
    JoinSplit(remote);
  }

  /** Whether the merge conflicts does not depend on which side is local. */
  lemma SwappingSidesKeepsConflicts(base: string, local: string, remote: string)
    ensures MergeSpec(base, local, remote).Conflict? <==> MergeSpec(base, remote, local).Conflict?
  {
    ConflictIsSymmetric(SplitLines(base), SplitLines(local), SplitLines(remote));
  }

  /** Texts whose changes are disjoint and start on different lines merge to the base with both
      changes, whichever side is local. */
  lemma DisjointChangesMerge(base: string, local: string, remote: string)
    requires local != remote && local != base && remote != base
    requires var b, l, r := SplitLines(base), SplitLines(local), SplitLines(remote);
             && !(|b| == |l| == |r|)
             && !Overlap(HunkOf(b, l), HunkOf(b, r)) && HunkOf(b, l).start < HunkOf(b, r).start
    ensures var b, l, r := SplitLines(base), SplitLines(local), SplitLines(remote);
            && HunkOf(b, l).end <= HunkOf(b, r).start
            && MergeSpec(base, local, remote) == Merged(Join(BothApplied(b, HunkOf(b, l), HunkOf(b, r))))
            && MergeSpec(base, remote, local) == MergeSpec(base, local, remote)
  {
    DisjointHunksBothApply(SplitLines(base), SplitLines(local), SplitLines(remote));
  }

  // ----- ties, on texts

  predicate Ended(line: string) {
    line != "" && line[|line| - 1] == '\n' && forall i :: 0 <= i < |line| - 1 ==> line[i] != '\n'
  }

  predicate Open(line: string) {
    line != "" && forall i :: 0 <= i < |line| ==> line[i] != '\n'
  }

  /** What splitting gives: only the last line may lack its newline. */
  ghost predicate WellSplit(lines: Lines) {
    Tidy(lines, Ended, Open)
  }

  lemma {:induction false} SplitIsWellSplit(text: string)
    ensures WellSplit(SplitLines(text))
    decreases |text|
  {
    if text != "" {
      var n := FirstNewline(text);
      if n < |text| {
        SplitIsWellSplit(text[n + 1..]);
        FirstLineIsEnded(text);
        TidyCons(text[..n + 1], SplitLines(text[n + 1..]), Ended, Open);
      }
    }
  }

  lemma FirstLineIsEnded(text: string)
    requires FirstNewline(text) < |text|
    ensures Ended(text[..FirstNewline(text) + 1])
  {
    var n := FirstNewline(text);
    var line := text[..n + 1];
    assert |line| == n + 1 && line[n] == '\n';
  }

  lemma FirstNewlineIs(text: string, n: nat)
    requires n <= |text| && (forall i :: 0 <= i < n ==> text[i] != '\n') && (n < |text| ==> text[n] == '\n')
    ensures FirstNewline(text) == n
  {
    var m := FirstNewline(text);
    assert m < |text| ==> text[m] == '\n';
  }

  lemma {:induction false} SplitJoin(lines: Lines)
    requires WellSplit(lines)
    ensures SplitLines(Join(lines)) == lines
    decreases |lines|
  {
    if lines != [] {
      var line, rest := lines[0], lines[1..];
      var text := Join(lines);
      assert text == line + Join(rest);
      if Ended(line) {
        FirstNewlineIs(text, |line| - 1);
        assert text[..|line|] == line && text[|line|..] == Join(rest);
        assert rest != [] ==> rest[|rest| - 1] == lines[|lines| - 1];
        SplitJoin(rest);
        assert lines == [line] + rest;
      } else {
        assert rest == [] && text == line;
        FirstNewlineIs(text, |line|);
      }
    }
  }

  function Newlines(text: string): nat {
    if text == "" then 0 else (if text[0] == '\n' then 1 else 0) + Newlines(text[1..])
  }

  lemma {:induction false} NewlinesConcat(a: string, b: string)
    ensures Newlines(a + b) == Newlines(a) + Newlines(b)
  {
    if a == "" {
      assert a + b == b;
    } else {
      NewlinesConcat(a[1..], b);
      assert (a + b)[1..] == a[1..] + b;
    }
  }

  lemma {:induction false} NewlinesOfLine(line: string)
    requires Ended(line) || Open(line)
    ensures Newlines(line) == if Ended(line) then 1 else 0
  {
    if |line| > 1 { NewlinesOfLine(line[1..]); }
  }

  /** How many of the lines are ended. */
  function EndedCount(lines: Lines): nat {
    if lines == [] then 0 else (if Ended(lines[0]) then 1 else 0) + EndedCount(lines[1..])
  }

  lemma {:induction false} EndedCountConcat(a: Lines, b: Lines)
    ensures EndedCount(a + b) == EndedCount(a) + EndedCount(b)
  {
    if a == [] {
      assert a + b == b;
    } else {
      EndedCountConcat(a[1..], b);
      assert (a + b)[1..] == a[1..] + b;
    }
  }

  lemma {:induction false} EndedCountOfWellSplit(lines: Lines)
    requires WellSplit(lines)
    ensures EndedCount(lines) == if lines == [] || Ended(lines[|lines| - 1]) then |lines| else |lines| - 1
  {
    if |lines| > 1 {
      assert lines[1..][|lines| - 2] == lines[|lines| - 1];
      EndedCountOfWellSplit(lines[1..]);
    }
  }

  lemma {:induction false} NewlinesOfJoin(lines: Lines)
    requires forall i :: 0 <= i < |lines| ==> Ended(lines[i]) || Open(lines[i])
    ensures Newlines(Join(lines)) == EndedCount(lines)
  {
    if lines != [] {
      NewlinesOfJoin(lines[1..]);
      NewlinesConcat(lines[0], Join(lines[1..]));
      NewlinesOfLine(lines[0]);
    }
  }

  lemma {:induction false} LastOfJoin(lines: Lines)
    requires lines != [] && lines[|lines| - 1] != ""
    ensures var text, line := Join(lines), lines[|lines| - 1];
            text != "" && text[|text| - 1] == line[|line| - 1]
  {
    if |lines| > 1 {
      assert lines[1..][|lines| - 2] == lines[|lines| - 1];
      LastOfJoin(lines[1..]);
    }
  }

  /** Joining tells two arrangements apart: the replacement in front of what the window keeps, and the insertion
      in front of the replacement, even when the replacement ends the text without a newline. */
  lemma ArrangementsJoinApart(front: Lines, inserted: Lines, replacement: Lines, kept: Lines, back: Lines)
    requires All(front, Ended) && All(inserted, Ended)
    requires inserted != [] && |kept| == |inserted|
    requires WellSplit(replacement + back) && WellSplit(kept + back)
    requires replacement + kept != inserted + replacement
    ensures Join(front + (replacement + kept) + back) != Join(front + (inserted + replacement) + back)
  {
    SameFrame(front, replacement + kept, inserted + replacement, back);
    if All(replacement, Ended) {
      ClosedReplacementJoinsApart(front, inserted, replacement, kept, back);
    } else {
      OnlyLastMayBeOpen(replacement, back);
      assert kept + back == kept;
      NothingBehind(front, replacement + kept, back);
      NothingBehind(front, inserted + replacement, back);
      OpenReplacementJoinsApart(front, inserted, replacement, kept);
    }
  }

  lemma NothingBehind(front: Lines, middle: Lines, back: Lines)
    requires back == []
    ensures front + middle + back == front + middle
  {}

  /** When every replacing line is ended, both arrangements are what splitting their joins gives back. */
  lemma ClosedReplacementJoinsApart(front: Lines, inserted: Lines, replacement: Lines, kept: Lines, back: Lines)
    requires All(front, Ended) && All(inserted, Ended) && All(replacement, Ended)
    requires WellSplit(replacement + back) && WellSplit(kept + back)
    requires front + (replacement + kept) + back != front + (inserted + replacement) + back
    ensures Join(front + (replacement + kept) + back) != Join(front + (inserted + replacement) + back)
  {
    ArrangedIsWellSplit(front, replacement, kept, back);
    ArrangedIsWellSplit(front, inserted, replacement, back);
    SplitJoin(front + (replacement + kept) + back);
    SplitJoin(front + (inserted + replacement) + back);
  }

  lemma ArrangedIsWellSplit(front: Lines, first: Lines, second: Lines, back: Lines)
    requires All(front, Ended) && All(first, Ended) && WellSplit(second + back)
    ensures WellSplit(front + (first + second) + back)
  {
    AllConcat(front, first);
    TidyConcat(front + first, second + back, Ended, Open);
    assert (front + first) + (second + back) == front + (first + second) + back;
  }

  lemma AllConcat(a: Lines, b: Lines)
    requires All(a, Ended) && All(b, Ended)
    ensures All(a + b, Ended)
  {}

  lemma OnlyLastMayBeOpen(replacement: Lines, back: Lines)
    requires WellSplit(replacement + back) && !All(replacement, Ended)
    ensures back == [] && replacement + back == replacement && WellSplit(replacement)
    ensures replacement != [] && Open(replacement[|replacement| - 1])
  {
    var i :| 0 <= i < |replacement| && !Ended(replacement[i]);
    assert (replacement + back)[i] == replacement[i];
    assert i == |replacement + back| - 1;
    assert replacement + back == replacement;
  }

  lemma EndedCountOfAll(lines: Lines)
    requires All(lines, Ended)
    ensures EndedCount(lines) == |lines|
  {
    if lines != [] { EndedCountOfAll(lines[1..]); }
  }

  /** The newlines of the two arrangements, and the characters they end with, differ. */
  lemma OpenReplacementJoinsApart(front: Lines, inserted: Lines, replacement: Lines, kept: Lines)
    requires All(front, Ended) && All(inserted, Ended)
    requires inserted != [] && |kept| == |inserted| && WellSplit(replacement) && WellSplit(kept)
    requires replacement != [] && Open(replacement[|replacement| - 1])
    ensures Join(front + (replacement + kept)) != Join(front + (inserted + replacement))
  {
    JoinOfThree(front, replacement, kept);
    JoinOfThree(front, inserted, replacement);
    NewlinesOfThree(front, replacement, kept);
    NewlinesOfThree(front, inserted, replacement);
    EndedCountOfAll(inserted);
    EndedCountOfWellSplit(kept);
    LastOfJoin(kept);
    LastOfJoin(replacement);
    var x, y := Join(front + (replacement + kept)), Join(front + (inserted + replacement));
    assert x[|x| - 1] == Join(kept)[|Join(kept)| - 1] && y[|y| - 1] == Join(replacement)[|Join(replacement)| - 1];
    if Ended(kept[|kept| - 1]) {
      assert x[|x| - 1] != y[|y| - 1];
    } else {
      assert Newlines(x) != Newlines(y);
    }
  }

  lemma {:induction false} JoinConcat(a: Lines, b: Lines)
    ensures Join(a + b) == Join(a) + Join(b)
  {
    if a == [] {
      assert a + b == b;
    } else {
      JoinConcat(a[1..], b);
      assert (a + b)[0] == a[0] && (a + b)[1..] == a[1..] + b;
    }
  }

  lemma JoinOfThree(a: Lines, b: Lines, c: Lines)
    ensures Join(a + (b + c)) == Join(a) + Join(b) + Join(c)
  {
    JoinConcat(b, c);
    JoinConcat(a, b + c);
    assert Join(a) + (Join(b) + Join(c)) == Join(a) + Join(b) + Join(c);
  }

  lemma NewlinesOfThree(a: Lines, b: Lines, c: Lines)
    requires All(a, Ended) && WellSplit(b) && WellSplit(c)
    ensures Newlines(Join(a) + Join(b) + Join(c)) == EndedCount(a) + EndedCount(b) + EndedCount(c)
  {
    NewlinesConcat(Join(a) + Join(b), Join(c));
    NewlinesConcat(Join(a), Join(b));
    NewlinesOfJoin(a);
    NewlinesOfJoin(b);
    NewlinesOfJoin(c);
  }

  /** On texts, too: a tie whose insertion is local is merged to the base with both changes exactly when the
      remote side only deletes and the inserted lines, followed by the deleted ones, repeat. */
  lemma LocalInsertionTieMergesExactly(base: string, local: string, remote: string)
    requires local != remote && local != base && remote != base
    requires LocalInsertionTie(SplitLines(base), SplitLines(local), SplitLines(remote))
    ensures var b := SplitLines(base);
            var l, r := HunkOf(b, SplitLines(local)), HunkOf(b, SplitLines(remote));
            MergeSpec(base, local, remote) == Merged(Join(BothApplied(b, l, r))) <==> Repeats(b, l, r)
  {
    JoinSplit(base);
    JoinSplit(local);
    SplitIsWellSplit(local);
    SplitIsWellSplit(remote);
    TieOfLines(SplitLines(base), SplitLines(local), SplitLines(remote));
  }

  lemma TieOfLines(base: Lines, local: Lines, remote: Lines)
    requires LocalInsertionTie(base, local, remote) && WellSplit(local) && WellSplit(remote)
    ensures var l, r := HunkOf(base, local), HunkOf(base, remote);
            && MergeLines(base, local, remote) == Some(SpliceBoth(base, l, r))
            && (Join(SpliceBoth(base, l, r)) == Join(BothApplied(base, l, r)) <==> Repeats(base, l, r))
  {
    TieWithLocalInsertion(base, local, remote);
    InsertionIsNotEmpty(base, local);
    TieParts(base, local, remote, Ended, Open);
    TieIsApart(base, HunkOf(base, local), HunkOf(base, remote));
  }

  lemma TieIsApart(b: Lines, l: Hunk<string>, r: Hunk<string>)
    requires l.end == l.start == r.start < r.end <= |b| && l.replacement != []
    requires TidyTie(b, l, r, Ended, Open)
    ensures Join(SpliceBoth(b, l, r)) == Join(BothApplied(b, l, r)) ==> SpliceBoth(b, l, r) == BothApplied(b, l, r)
  {
    InsertThenReplace(b, l, r);
    TieFrame(b, l, r);
    var kept := (l.replacement + b[r.start..r.end])[r.end - r.start..];
    if r.replacement + kept != l.replacement + r.replacement {
      ArrangementsJoinApart(b[..l.start], l.replacement, r.replacement, kept, b[r.end..]);
    }
  }

  /** Ended lines `a b c`, of which one side inserts `x` and the other replaces `b`: with the insertion local the
      inserted line disappears and the replaced one survives, with the sides swapped both changes are there. */
  lemma InsertionLostOnTexts(a: string, b: string, c: string, x: string, y: string)
    requires Ended(a) && Ended(b) && Ended(c) && Ended(x) && Ended(y) && b != x && b != y && c != y
    ensures MergeSpec(a + b + c, a + x + b + c, a + y + c) == Merged(a + y + b + c)
    ensures MergeSpec(a + b + c, a + y + c, a + x + b + c) == Merged(a + x + y + c)
  {
    SplitThree(a, b, c);
    SplitThree(a, y, c);
    SplitFour(a, x, b, c);
    TieCanLoseTheInsertion(a, b, c, x, y);
    JoinedFour(a, y, b, c);
    JoinedFour(a, x, y, c);
    DifferentSecond(a, b, c, y);
    MergeOfSplit(a + b + c, a + x + b + c, a + y + c, [a, b, c], [a, x, b, c], [a, y, c]);
    MergeOfSplit(a + b + c, a + y + c, a + x + b + c, [a, b, c], [a, y, c], [a, x, b, c]);
  }

  lemma DifferentSecond(a: string, b: string, c: string, y: string)
    requires b != y
    ensures [a, b, c] != [a, y, c]
  {
    assert [a, b, c][1] != [a, y, c][1];
  }

  lemma MergeOfSplit(base: string, local: string, remote: string, b: Lines, l: Lines, r: Lines)
    requires SplitLines(base) == b && SplitLines(local) == l && SplitLines(remote) == r
    requires l != b && r != b && l != r
    ensures MergeSpec(base, local, remote) ==
            match MergeLines(b, l, r) case None => Conflict case Some(lines) => Merged(Join(lines))
  {}

  lemma SplitThree(a: string, b: string, c: string)
    requires Ended(a) && Ended(b) && Ended(c)
    ensures SplitLines(a + b + c) == [a, b, c]
  {
    JoinedLines(a, b, c);
    SplitJoin([a, b, c]);
  }

  lemma SplitFour(a: string, b: string, c: string, d: string)
    requires Ended(a) && Ended(b) && Ended(c) && Ended(d)
    ensures SplitLines(a + b + c + d) == [a, b, c, d]
  {
    JoinedFour(a, b, c, d);
    SplitJoin([a, b, c, d]);
  }

  /** Two texts and their base on which the inserted line disappears. */
  lemma MergeCanLoseALine()
    ensures MergeSpec("a\nb\nc\n", "a\nX\nb\nc\n", "a\nY\nc\n") == Merged("a\nY\nb\nc\n")
    ensures MergeSpec("a\nb\nc\n", "a\nY\nc\n", "a\nX\nb\nc\n") == Merged("a\nX\nY\nc\n")
  {
    assert "b\n"[0] != "X\n"[0] && "b\n"[0] != "Y\n"[0] && "c\n"[0] != "Y\n"[0];
    InsertionLostOnTexts("a\n", "b\n", "c\n", "X\n", "Y\n");
    LiteralTexts();
  }

  lemma LiteralTexts()
    ensures "a\n" + "b\n" + "c\n" == "a\nb\nc\n" && "a\n" + "Y\n" + "c\n" == "a\nY\nc\n"
    ensures "a\n" + "X\n" + "b\n" + "c\n" == "a\nX\nb\nc\n"
    ensures "a\n" + "Y\n" + "b\n" + "c\n" == "a\nY\nb\nc\n" && "a\n" + "X\n" + "Y\n" + "c\n" == "a\nX\nY\nc\n"
  {
  }

  lemma JoinedLines(a: string, b: string, c: string)
    ensures Join([a, b, c]) == a + b + c
  {
    JoinCons(c, []);
    JoinCons(b, [c]);
    JoinCons(a, [b, c]);
    assert [a] + [b, c] == [a, b, c] && [b] + [c] == [b, c] && [c] + [] == [c];
    assert c + "" == c && a + (b + c) == a + b + c;
  }

  lemma JoinedFour(a: string, b: string, c: string, d: string)
    ensures Join([a, b, c, d]) == a + b + c + d
  {
    JoinedLines(b, c, d);
    JoinCons(a, [b, c, d]);
    assert [a] + [b, c, d] == [a, b, c, d];
    assert a + (b + c + d) == a + b + c + d;
  }
}
