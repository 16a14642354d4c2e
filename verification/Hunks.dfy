/** Line hunks over any element type: how a change is cut out of its base and put back
    (plugin/src/sync/merge.ts). */
module Hunks {
  import opened Basics

  /** Lines `start..end` of the base are replaced. */
  datatype Hunk<T> = Hunk(start: nat, end: nat, replacement: seq<T>)

  // ----- one hunk per side

  function CommonPrefix<T(==)>(a: seq<T>, b: seq<T>): (n: nat)
    ensures n <= |a| && n <= |b|
    ensures forall i :: 0 <= i < n ==> a[i] == b[i]
    ensures n < |a| && n < |b| ==> a[n] != b[n]
  {
    PrefixFrom(a, b, 0)
  }

  /** The length of the longest common prefix, given that the first `n` elements agree. */
  function PrefixFrom<T(==)>(a: seq<T>, b: seq<T>, n: nat): (m: nat)
    requires n <= |a| && n <= |b| && forall i :: 0 <= i < n ==> a[i] == b[i]
    ensures n <= m <= |a| && m <= |b|
    ensures forall i :: 0 <= i < m ==> a[i] == b[i]
    ensures m < |a| && m < |b| ==> a[m] != b[m]
    decreases |a| - n
  {
    if n < |a| && n < |b| && a[n] == b[n] then PrefixFrom(a, b, n + 1) else n
  }

  /** The last `n` elements agree. */
  ghost predicate SameTail<T>(a: seq<T>, b: seq<T>, n: nat) {
    n <= |a| && n <= |b| && a[|a| - n..] == b[|b| - n..]
  }

  lemma LongerTail<T>(a: seq<T>, b: seq<T>, n: nat)
    requires SameTail(a, b, n) && n < |a| && n < |b| && a[|a| - 1 - n] == b[|b| - 1 - n]
    ensures SameTail(a, b, n + 1)
  {}

  /** Extends a common suffix of length `n` as far as it goes, leaving `keep` elements in front. */
  function SuffixFrom<T(==)>(a: seq<T>, b: seq<T>, keep: nat, n: nat): (m: nat)
    requires n <= |a| - keep && n <= |b| - keep
    ensures n <= m <= |a| - keep && m <= |b| - keep
    ensures m < |a| - keep && m < |b| - keep ==> a[|a| - 1 - m] != b[|b| - 1 - m]
    decreases |a| - keep - n
  {
    if n < |a| - keep && n < |b| - keep && a[|a| - 1 - n] == b[|b| - 1 - n] then SuffixFrom(a, b, keep, n + 1) else n
  }

  function CommonSuffix<T(==)>(a: seq<T>, b: seq<T>, keep: nat): (n: nat)
    requires keep <= |a| && keep <= |b|
    ensures n <= |a| - keep && n <= |b| - keep
    ensures n < |a| - keep && n < |b| - keep ==> a[|a| - 1 - n] != b[|b| - 1 - n]
  {
    SuffixFrom(a, b, keep, 0)
  }

  lemma {:induction false} SuffixAgrees<T>(a: seq<T>, b: seq<T>, keep: nat, n: nat)
    requires n <= |a| - keep && n <= |b| - keep && SameTail(a, b, n)
    ensures SameTail(a, b, SuffixFrom(a, b, keep, n))
    decreases |a| - keep - n
  {
    if n < |a| - keep && n < |b| - keep && a[|a| - 1 - n] == b[|b| - 1 - n] {
      LongerTail(a, b, n);
      SuffixAgrees(a, b, keep, n + 1);
    }
  }

  /** The lines before and behind the hunk are common to both, as many as possible before, then as many as possible
      behind, and the hunk replaces what lies between. */
  ghost predicate IsHunk<T>(base: seq<T>, changed: seq<T>, h: Hunk<T>) {
    && h.start <= h.end <= |base|
    && var suffix := |base| - h.end;
       && h.start + suffix <= |changed|
       && base[..h.start] == changed[..h.start] && base[h.end..] == changed[|changed| - suffix..]
       && (h.start == |base| || h.start == |changed| || base[h.start] != changed[h.start])
       && (h.start == h.end || h.start + suffix == |changed| || base[h.end - 1] != changed[|changed| - suffix - 1])
       && h.replacement == changed[h.start..|changed| - suffix]
  }

  /** The longest common prefix, then the longest common suffix of what is left. */
  function HunkOf<T(==)>(base: seq<T>, changed: seq<T>): (h: Hunk<T>)
    ensures h.start <= h.end <= |base|
  {
    var prefix := CommonPrefix(base, changed);
    var suffix := CommonSuffix(base, changed, prefix);
    Hunk(prefix, |base| - suffix, changed[prefix..|changed| - suffix])
  }

  function Splice<T>(lines: seq<T>, start: nat, count: nat, replacement: seq<T>): seq<T>
    requires start <= |lines|
  {
    lines[..start] + replacement + lines[start + Min(count, |lines| - start)..]
  }

  function Apply<T>(lines: seq<T>, h: Hunk<T>): seq<T>
    requires h.start <= h.end && h.start <= |lines|
  {
    Splice(lines, h.start, h.end - h.start, h.replacement)
  }

  lemma SpliceMiddle<T>(front: seq<T>, middle: seq<T>, back: seq<T>, replacement: seq<T>)
    ensures Splice(front + middle + back, |front|, |middle|, replacement) == front + replacement + back
  {}

  lemma Cut<T>(whole: seq<T>, i: nat, j: nat)
    requires i <= j <= |whole|
    ensures whole == whole[..i] + whole[i..j] + whole[j..]
  {}

  /** The hunk rebuilds the changed text. */
  lemma HunkRebuilds<T>(base: seq<T>, changed: seq<T>)
    ensures Apply(base, HunkOf(base, changed)) == changed
  {
    var h := HunkOf(base, changed);
    var suffix := |base| - h.end;
    SuffixAgrees(base, changed, h.start, 0);
    Cut(base, h.start, h.end);
    SpliceMiddle(base[..h.start], base[h.start..h.end], base[h.end..], h.replacement);
    Cut(changed, h.start, |changed| - suffix);
    SamePrefix(base, changed, h.start);
  }

  lemma SamePrefix<T>(a: seq<T>, b: seq<T>, n: nat)
    requires n <= |a| && n <= |b| && forall i :: 0 <= i < n ==> a[i] == b[i]
    ensures a[..n] == b[..n]
  {}

  /** The hunk is as small as it can be: its first and last lines really differ. */
  lemma HunkIsTight<T>(base: seq<T>, changed: seq<T>)
    ensures var h := HunkOf(base, changed);
            h.replacement != [] && h.start < h.end ==>
              h.replacement[0] != base[h.start] && h.replacement[|h.replacement| - 1] != base[h.end - 1]
  {}

  lemma HunkIsHunk<T>(base: seq<T>, changed: seq<T>)
    ensures IsHunk(base, changed, HunkOf(base, changed))
  {
    var prefix := CommonPrefix(base, changed);
    var suffix := CommonSuffix(base, changed, prefix);
    TailIsSame(base, changed, prefix);
    SamePrefix(base, changed, prefix);
    HunkBetween(base, changed, prefix, suffix);
  }

  lemma TailIsSame<T>(base: seq<T>, changed: seq<T>, prefix: nat)
    requires prefix <= |base| && prefix <= |changed|
    ensures SameTail(base, changed, CommonSuffix(base, changed, prefix))
  {
    SuffixAgrees(base, changed, prefix, 0);
  }

  lemma HunkBetween<T>(base: seq<T>, changed: seq<T>, prefix: nat, suffix: nat)
    requires prefix + suffix <= |base| && prefix + suffix <= |changed|
    requires base[..prefix] == changed[..prefix] && SameTail(base, changed, suffix)
    requires prefix < |base| && prefix < |changed| ==> base[prefix] != changed[prefix]
    requires prefix + suffix < |base| && prefix + suffix < |changed| ==>
               base[|base| - 1 - suffix] != changed[|changed| - 1 - suffix]
    ensures IsHunk(base, changed, Hunk(prefix, |base| - suffix, changed[prefix..|changed| - suffix]))
  {}

  predicate Overlap<T>(left: Hunk<T>, right: Hunk<T>) {
    if left.start == left.end && right.start == right.end then left.start == right.start
    else left.start < right.end && right.start < left.end
  }

  ghost predicate Replaces<T>(h: Hunk<T>, line: nat) {
    h.start <= line < h.end
  }

  /** Both hunks replace some line, or one inserts strictly inside what the other replaces, or both insert at one
      place. */
  ghost predicate Meet<T>(left: Hunk<T>, right: Hunk<T>) {
    || (exists line: nat :: Replaces(left, line) && Replaces(right, line))
    || (left.start == left.end && right.start < left.start < right.end)
    || (right.start == right.end && left.start < right.start < left.end)
    || (left.start == left.end == right.start == right.end)
  }

  lemma OverlapIsMeeting<T>(left: Hunk<T>, right: Hunk<T>)
    requires left.start <= left.end && right.start <= right.end
    ensures Overlap(left, right) <==> Meet(left, right)
  {
    var line := if left.start <= right.start then right.start else left.start;
    assert left.start < left.end && right.start < right.end && Overlap(left, right) ==>
             Replaces(left, line) && Replaces(right, line);
  }

  // ----- two hunks

  /** Both sides changed the line, differently. */
  ghost predicate ThreeWay<T>(base: seq<T>, local: seq<T>, remote: seq<T>, i: nat)
    requires |base| == |local| == |remote|
  {
    i < |base| && local[i] != base[i] && remote[i] != base[i] && local[i] != remote[i]
  }

  /** Each line is the local one where the local side changed it, the remote one where the remote side did, else the
      base's. */
  ghost predicate LineByLine<T>(base: seq<T>, local: seq<T>, remote: seq<T>, merged: seq<T>)
    requires |base| == |local| == |remote|
  {
    && |merged| == |base|
    && forall i :: 0 <= i < |base| ==>
         && (local[i] != base[i] ==> merged[i] == local[i])
         && (remote[i] != base[i] ==> merged[i] == remote[i])
         && (local[i] == base[i] == remote[i] ==> merged[i] == base[i])
  }

  /** What merging the lines must give. */
  ghost predicate MergesLines<T>(base: seq<T>, local: seq<T>, remote: seq<T>, r: Option<seq<T>>) {
    if |base| == |local| == |remote| then
      && (r.None? <==> exists i: nat :: ThreeWay(base, local, remote, i))
      && (r.Some? ==> LineByLine(base, local, remote, r.value))
    else
      var l, h := HunkOf(base, local), HunkOf(base, remote);
      IsHunk(base, local, l) && IsHunk(base, remote, h) && HunksMerge(base, l, h, r)
  }

  /** Hunks that meet conflict; others are both spliced in, but on a tie an insertion by the local side goes first. */
  ghost predicate HunksMerge<T>(base: seq<T>, l: Hunk<T>, h: Hunk<T>, r: Option<seq<T>>)
    requires l.start <= l.end <= |base| && h.start <= h.end <= |base|
  {
    && (r.None? <==> Meet(l, h))
    && (r.Some? && l.start < h.start ==> l.end <= h.start && r.value == BothApplied(base, l, h))
    && (r.Some? && h.start < l.start ==> h.end <= l.start && r.value == BothApplied(base, h, l))
    && (r.Some? && h.start == h.end == l.start ==> r.value == BothApplied(base, h, l))
    && (r.Some? && l.start == l.end == h.start < h.end ==>
          var inserted := base[..l.start] + l.replacement + base[l.start..];
          r.value == inserted[..h.start] + h.replacement + inserted[h.end..])
  }

  predicate Clash<T(==)>(base: seq<T>, local: seq<T>, remote: seq<T>, i: nat)
    requires i < |base| == |local| == |remote|
  {
    local[i] != remote[i] && local[i] != base[i] && remote[i] != base[i]
  }

  function MergedLine<T(==)>(base: T, local: T, remote: T): T {
    if local == base then remote else local
  }

  function MergedLines<T(==)>(base: seq<T>, local: seq<T>, remote: seq<T>): (merged: seq<T>)
    requires |base| == |local| == |remote|
    ensures |merged| == |base|
    ensures forall i :: 0 <= i < |base| ==> merged[i] == MergedLine(base[i], local[i], remote[i])
  {
    seq(|base|, i requires 0 <= i < |base| => MergedLine(base[i], local[i], remote[i]))
  }

  /** The hunks in the order the code splices them: later starts first, the local one first on a tie. */
  function SpliceBoth<T>(base: seq<T>, local: Hunk<T>, remote: Hunk<T>): seq<T>
    requires local.start <= local.end <= |base| && remote.start <= remote.end <= |base|
  {
    if remote.start > local.start
    then Apply(Apply(base, remote), local)
    else Apply(Apply(base, local), remote)
  }

  function MergeLines<T(==)>(base: seq<T>, local: seq<T>, remote: seq<T>): Option<seq<T>> {
    if |base| == |local| == |remote| then
      if exists i :: 0 <= i < |base| && Clash(base, local, remote, i) then None
      else Some(MergedLines(base, local, remote))
    else
      var l, r := HunkOf(base, local), HunkOf(base, remote);
      if Overlap(l, r) then None else Some(SpliceBoth(base, l, r))
  }

  method PrefixLength<T(==)>(base: seq<T>, changed: seq<T>) returns (prefix: nat)
    ensures prefix == CommonPrefix(base, changed)
  {
    prefix := 0;
    while prefix < |base| && prefix < |changed| && base[prefix] == changed[prefix]
      invariant 0 <= prefix <= |base| && prefix <= |changed|
      invariant forall i :: 0 <= i < prefix ==> base[i] == changed[i]
      invariant PrefixFrom(base, changed, prefix) == CommonPrefix(base, changed)
    {
      prefix := prefix + 1;
    }
  }

  method SuffixLength<T(==)>(base: seq<T>, changed: seq<T>, prefix: nat) returns (suffix: nat)
    requires prefix <= |base| && prefix <= |changed|
    ensures suffix == CommonSuffix(base, changed, prefix)
  {
    suffix := 0;
    while suffix < |base| - prefix && suffix < |changed| - prefix
          && base[|base| - 1 - suffix] == changed[|changed| - 1 - suffix]
      invariant 0 <= suffix <= |base| - prefix && suffix <= |changed| - prefix
      invariant SuffixFrom(base, changed, prefix, suffix) == CommonSuffix(base, changed, prefix)
    {
      suffix := suffix + 1;
    }
  }

  method SingleHunk<T(==)>(base: seq<T>, changed: seq<T>) returns (h: Hunk<T>)
    ensures h == HunkOf(base, changed)
  {
    var prefix := PrefixLength(base, changed);
    var suffix := SuffixLength(base, changed, prefix);
    h := Hunk(prefix, |base| - suffix, changed[prefix..|changed| - suffix]);
  }

  method MergeSameLength<T(==)>(base: seq<T>, local: seq<T>, remote: seq<T>) returns (r: Option<seq<T>>)
    requires |base| == |local| == |remote|
    ensures r == MergeLines(base, local, remote)
    ensures r.None? <==> exists i: nat :: ThreeWay(base, local, remote, i)
    ensures r.Some? ==> LineByLine(base, local, remote, r.value)
  {
    MergeLinesIsRight(base, local, remote);
    var merged := base;
    var index := 0;
    while index < |base|
      invariant 0 <= index <= |base| == |merged|
      invariant forall i :: 0 <= i < index ==> !Clash(base, local, remote, i)
      invariant forall i :: 0 <= i < index ==> merged[i] == MergedLine(base[i], local[i], remote[i])
    {
      if local[index] == remote[index] {
        merged := merged[index := local[index]];
      } else if local[index] == base[index] {
        merged := merged[index := remote[index]];
      } else if remote[index] == base[index] {
        merged := merged[index := local[index]];
      } else {
        assert Clash(base, local, remote, index);
        return None;
      }
      index := index + 1;
    }
    assert merged == MergedLines(base, local, remote);
    r := Some(merged);
  }

  /** Splices the hunks into the base, the one with the later start first. */
  method SpliceHunks<T>(base: seq<T>, local: Hunk<T>, remote: Hunk<T>) returns (merged: seq<T>)
    requires local.start <= local.end <= |base| && remote.start <= remote.end <= |base|
    ensures merged == SpliceBoth(base, local, remote)
  {
    merged := base;
    var order := if remote.start > local.start then [remote, local] else [local, remote];
    ghost var once := Apply(base, order[0]);
    ghost var twice := Apply(once, order[1]);
    assert twice == SpliceBoth(base, local, remote);
    var k := 0;
    while k < |order|
      invariant 0 <= k <= 2
      invariant merged == if k == 0 then base else if k == 1 then once else twice
    {
      merged := Splice(merged, order[k].start, order[k].end - order[k].start, order[k].replacement);
      k := k + 1;
    }
  }

  /** Whether lines conflict does not depend on which side is local. */
  lemma ConflictIsSymmetric<T>(base: seq<T>, local: seq<T>, remote: seq<T>)
    ensures MergeLines(base, local, remote).None? <==> MergeLines(base, remote, local).None?
  {
    if |base| == |local| == |remote| {
      assert forall i :: 0 <= i < |base| ==> (Clash(base, local, remote, i) <==> Clash(base, remote, local, i));
    }
  }

  /** Lines merged one by one do not depend on which side is local. */
  lemma LinewiseMergeIsSymmetric<T>(base: seq<T>, local: seq<T>, remote: seq<T>)
    requires |base| == |local| == |remote|
    ensures MergeLines(base, local, remote) == MergeLines(base, remote, local)
  {
    assert forall i :: 0 <= i < |base| ==> (Clash(base, local, remote, i) <==> Clash(base, remote, local, i));
    if forall i :: 0 <= i < |base| ==> !Clash(base, local, remote, i) {
      forall i | 0 <= i < |base|
        ensures MergedLine(base[i], local[i], remote[i]) == MergedLine(base[i], remote[i], local[i])
      {
        assert !Clash(base, local, remote, i);
      }
      assert MergedLines(base, local, remote) == MergedLines(base, remote, local);
    }
  }

  /** The base with both hunks applied at once, `low` in front of `high`. */
  ghost function BothApplied<T>(base: seq<T>, low: Hunk<T>, high: Hunk<T>): seq<T>
    requires low.start <= low.end <= high.start <= high.end <= |base|
  {
    base[..low.start] + low.replacement + base[low.end..high.start] + high.replacement + base[high.end..]
  }

  /** The merge of lines is what it must be. */
  lemma MergeLinesIsRight<T>(base: seq<T>, local: seq<T>, remote: seq<T>)
    ensures MergesLines(base, local, remote, MergeLines(base, local, remote))
  {
    if |base| == |local| == |remote| {
      assert forall i: nat :: i < |base| ==> (Clash(base, local, remote, i) <==> ThreeWay(base, local, remote, i));
      if MergeLines(base, local, remote).Some? { MergedLineByLine(base, local, remote); }
    } else {
      HunkIsHunk(base, local);
      HunkIsHunk(base, remote);
      OverlapIsMeeting(HunkOf(base, local), HunkOf(base, remote));
      HunksMergeRight(base, HunkOf(base, local), HunkOf(base, remote));
    }
  }

  lemma MergedLineByLine<T>(base: seq<T>, local: seq<T>, remote: seq<T>)
    requires |base| == |local| == |remote| && forall i :: 0 <= i < |base| ==> !Clash(base, local, remote, i)
    ensures LineByLine(base, local, remote, MergedLines(base, local, remote))
  {
    forall i | 0 <= i < |base| && remote[i] != base[i] ensures MergedLine(base[i], local[i], remote[i]) == remote[i] {
      assert !Clash(base, local, remote, i);
    }
  }

  lemma HunksMergeRight<T>(base: seq<T>, l: Hunk<T>, h: Hunk<T>)
    requires l.start <= l.end <= |base| && h.start <= h.end <= |base|
    ensures HunksMerge(base, l, h, if Overlap(l, h) then None else Some(SpliceBoth(base, l, h)))
  {
    OverlapIsMeeting(l, h);
    if !Overlap(l, h) && l.start < h.start {
      SpliceHighThenLow(base, l, h);
    } else if !Overlap(l, h) && h.start < l.start {
      SpliceHighThenLow(base, h, l);
    } else if !Overlap(l, h) && h.start == h.end {
      ReplaceThenInsert(base, l, h);
    } else if !Overlap(l, h) {
      TieSplices(base, l, h);
    }
  }

  lemma TieSplices<T>(base: seq<T>, l: Hunk<T>, h: Hunk<T>)
    requires l.start == l.end == h.start < h.end <= |base|
    ensures var inserted := base[..l.start] + l.replacement + base[l.start..];
            SpliceBoth(base, l, h) == inserted[..h.start] + h.replacement + inserted[h.end..]
  {}

  lemma SpliceHighThenLow<T>(base: seq<T>, low: Hunk<T>, high: Hunk<T>)
    requires low.start <= low.end <= high.start <= high.end <= |base|
    ensures Apply(Apply(base, high), low) == BothApplied(base, low, high)
  {}

  /** Disjoint hunks that start on different lines are both applied, whichever side is local. */
  lemma DisjointHunksBothApply<T>(base: seq<T>, local: seq<T>, remote: seq<T>)
    requires !(|base| == |local| == |remote|)
    requires !Overlap(HunkOf(base, local), HunkOf(base, remote))
    requires HunkOf(base, local).start < HunkOf(base, remote).start
    ensures HunkOf(base, local).end <= HunkOf(base, remote).start
    ensures MergeLines(base, local, remote) == Some(BothApplied(base, HunkOf(base, local), HunkOf(base, remote)))
    ensures MergeLines(base, remote, local) == Some(BothApplied(base, HunkOf(base, local), HunkOf(base, remote)))
  {
    SpliceHighThenLow(base, HunkOf(base, local), HunkOf(base, remote));
  }

  /** On a tie one hunk is an insertion in front of the lines the other replaces. */
  lemma TieIsInsertion<T>(l: Hunk<T>, r: Hunk<T>)
    requires l.start <= l.end && r.start <= r.end && !Overlap(l, r) && l.start == r.start
    ensures (l.start == l.end && r.start < r.end) || (r.start == r.end && l.start < l.end)
  {}

  lemma ReplaceThenInsert<T>(base: seq<T>, replace: Hunk<T>, insert: Hunk<T>)
    requires insert.start == insert.end == replace.start <= replace.end <= |base|
    ensures Apply(Apply(base, replace), insert) == BothApplied(base, insert, replace)
  {}

  /** A tie is merged correctly when the remote side is the insertion. */
  lemma TieWithRemoteInsertion<T>(base: seq<T>, local: seq<T>, remote: seq<T>)
    requires !(|base| == |local| == |remote|)
    requires !Overlap(HunkOf(base, local), HunkOf(base, remote))
    requires HunkOf(base, local).start == HunkOf(base, remote).start == HunkOf(base, remote).end
    ensures MergeLines(base, local, remote) == Some(BothApplied(base, HunkOf(base, remote), HunkOf(base, local)))
  {
    ReplaceThenInsert(base, HunkOf(base, local), HunkOf(base, remote));
  }

  /** Inserting first and then replacing eats into the inserted lines. */
  lemma InsertThenReplace<T>(base: seq<T>, insert: Hunk<T>, replace: Hunk<T>)
    requires insert.start == insert.end == replace.start <= replace.end <= |base|
    ensures var window := insert.replacement + base[replace.start..replace.end];
            Apply(Apply(base, insert), replace) ==
              base[..replace.start] + (replace.replacement + window[replace.end - replace.start..])
                  + base[replace.end..]
  {}

  lemma SameFrame<T>(front: seq<T>, a: seq<T>, b: seq<T>, back: seq<T>)
    requires |a| == |b|
    ensures front + a + back == front + b + back <==> a == b
  {
    var x, y := front + a + back, front + b + back;
    assert x[|front|..|front| + |a|] == a && y[|front|..|front| + |b|] == b;
  }

  /** The inserted and replacing lines end up as they should exactly when the window repeats. */
  lemma WindowRepeats<T>(inserted: seq<T>, replaced: seq<T>, replacement: seq<T>)
    requires replaced != []
    requires inserted != []
    requires replacement != [] ==> replacement[|replacement| - 1] != replaced[|replaced| - 1]
    ensures replacement + (inserted + replaced)[|replaced|..] == inserted + replacement <==>
              replacement == [] && (inserted + replaced)[|replaced|..] == inserted
  {
    var x, y := replacement + (inserted + replaced)[|replaced|..], inserted + replacement;
    assert x[|x| - 1] == replaced[|replaced| - 1];
    if replacement != [] {
      assert y[|y| - 1] == replacement[|replacement| - 1];
    } else {
      assert x == (inserted + replaced)[|replaced|..] && y == inserted;
    }
  }

  /** The local side only inserts, in front of lines the remote side replaces or deletes. */
  ghost predicate LocalInsertionTie<T>(base: seq<T>, local: seq<T>, remote: seq<T>) {
    var l, r := HunkOf(base, local), HunkOf(base, remote);
    local != base && !(|base| == |local| == |remote|) && !Overlap(l, r) && l.end == l.start == r.start < r.end
  }

  /** The remote side only deletes, and the inserted lines followed by the deleted ones repeat. */
  ghost predicate Repeats<T>(base: seq<T>, l: Hunk<T>, r: Hunk<T>)
    requires r.start <= r.end <= |base|
  {
    r.replacement == [] && (l.replacement + base[r.start..r.end])[r.end - r.start..] == l.replacement
  }

  /** A tie whose insertion is local is merged correctly exactly when the remote side only deletes and
      the inserted lines, followed by the deleted ones, repeat with the length of the deletion. */
  lemma TieWithLocalInsertion<T>(base: seq<T>, local: seq<T>, remote: seq<T>)
    requires LocalInsertionTie(base, local, remote)
    ensures var l, r := HunkOf(base, local), HunkOf(base, remote);
            && MergeLines(base, local, remote) == Some(SpliceBoth(base, l, r))
            && (SpliceBoth(base, l, r) == BothApplied(base, l, r) <==> Repeats(base, l, r))
  {
    var l, r := HunkOf(base, local), HunkOf(base, remote);
    TieIsSpliced(base, local, remote);
    InsertionIsNotEmpty(base, local);
    HunkIsTight(base, remote);
    InsertionBeforeReplacement(base, l, r);
  }

  lemma TieIsSpliced<T>(base: seq<T>, local: seq<T>, remote: seq<T>)
    requires LocalInsertionTie(base, local, remote)
    ensures MergeLines(base, local, remote) == Some(SpliceBoth(base, HunkOf(base, local), HunkOf(base, remote)))
    ensures var l, r := HunkOf(base, local), HunkOf(base, remote); SpliceBoth(base, l, r) == Apply(Apply(base, l), r)
  {}

  lemma InsertionBeforeReplacement<T>(base: seq<T>, l: Hunk<T>, r: Hunk<T>)
    requires l.end == l.start == r.start < r.end <= |base| && l.replacement != []
    requires r.replacement != [] ==> r.replacement[|r.replacement| - 1] != base[r.end - 1]
    ensures Apply(Apply(base, l), r) == BothApplied(base, l, r) <==>
              r.replacement == [] && (l.replacement + base[r.start..r.end])[r.end - r.start..] == l.replacement
  {
    InsertThenReplace(base, l, r);
    var window := l.replacement + base[r.start..r.end];
    TieFrame(base, l, r);
    SameFrame(base[..l.start], r.replacement + window[r.end - r.start..], l.replacement + r.replacement, base[r.end..]);
    WindowRepeats(l.replacement, base[r.start..r.end], r.replacement);
  }

  lemma InsertionIsNotEmpty<T>(base: seq<T>, changed: seq<T>)
    requires changed != base && HunkOf(base, changed).start == HunkOf(base, changed).end
    ensures HunkOf(base, changed).replacement != []
  {
    var h := HunkOf(base, changed);
    HunkRebuilds(base, changed);
    Cut(base, h.start, h.start);
    assert base[..h.start] + [] + base[h.start..] == base;
  }

  lemma TieFrame<T>(base: seq<T>, l: Hunk<T>, r: Hunk<T>)
    requires l.end == l.start == r.start <= r.end <= |base|
    ensures BothApplied(base, l, r) == base[..l.start] + (l.replacement + r.replacement) + base[r.end..]
  {}

  // ----- the shape of lists of lines

  /** Every element but the last satisfies `ended`, and the last at least `fine`. */
  ghost predicate Tidy<T>(lines: seq<T>, ended: T -> bool, fine: T -> bool) {
    && (forall i :: 0 <= i < |lines| - 1 ==> ended(lines[i]))
    && (lines != [] ==> ended(lines[|lines| - 1]) || fine(lines[|lines| - 1]))
  }

  ghost predicate All<T>(lines: seq<T>, ended: T -> bool) {
    forall i :: 0 <= i < |lines| ==> ended(lines[i])
  }

  lemma TidyParts<T>(whole: seq<T>, n: nat, ended: T -> bool, fine: T -> bool)
    requires Tidy(whole, ended, fine) && n <= |whole|
    ensures Tidy(whole[n..], ended, fine)
    ensures n < |whole| ==> All(whole[..n], ended)
  {
    assert n < |whole| ==> whole[n..][|whole| - n - 1] == whole[|whole| - 1];
  }

  lemma TidyCons<T>(x: T, rest: seq<T>, ended: T -> bool, fine: T -> bool)
    requires ended(x) && Tidy(rest, ended, fine)
    ensures Tidy([x] + rest, ended, fine)
  {
    assert rest != [] ==> ([x] + rest)[|rest|] == rest[|rest| - 1];
  }

  lemma TidyConcat<T>(a: seq<T>, b: seq<T>, ended: T -> bool, fine: T -> bool)
    requires All(a, ended) && Tidy(b, ended, fine)
    ensures Tidy(a + b, ended, fine)
  {
    assert b != [] ==> (a + b)[|a + b| - 1] == b[|b| - 1];
  }

  lemma TidyLineByLine<T>(base: seq<T>, local: seq<T>, remote: seq<T>, merged: seq<T>, ended: T -> bool,
                          fine: T -> bool)
    requires Tidy(base, ended, fine) && Tidy(local, ended, fine) && Tidy(remote, ended, fine)
    requires |base| == |local| == |remote| && LineByLine(base, local, remote, merged)
    ensures Tidy(merged, ended, fine)
  {
    forall i | 0 <= i < |merged| ensures merged[i] == base[i] || merged[i] == local[i] || merged[i] == remote[i] {}
  }

  lemma LocalParts<T>(front: seq<T>, inserted: seq<T>, tail: seq<T>, n: nat, ended: T -> bool, fine: T -> bool)
    requires Tidy(front + inserted + tail, ended, fine) && tail != [] && n <= |tail|
    ensures All(front, ended) && All(inserted, ended) && Tidy((inserted + tail)[n..], ended, fine)
  {
    var whole := front + inserted + tail;
    TidyParts(whole, |front|, ended, fine);
    assert whole[..|front|] == front && whole[|front|..] == inserted + tail;
    TidyParts(inserted + tail, |inserted|, ended, fine);
    assert (inserted + tail)[..|inserted|] == inserted;
    TidyParts(inserted + tail, n, ended, fine);
  }

  lemma RemoteParts<T>(front: seq<T>, tail: seq<T>, ended: T -> bool, fine: T -> bool)
    requires Tidy(front + tail, ended, fine)
    ensures Tidy(tail, ended, fine)
  {
    TidyParts(front + tail, |front|, ended, fine);
    assert (front + tail)[|front|..] == tail;
  }

  /** The changed side is the base's front, the replacement and the base's back. */
  lemma HunkFrames<T>(base: seq<T>, changed: seq<T>)
    ensures var h := HunkOf(base, changed); changed == base[..h.start] + h.replacement + base[h.end..]
  {
    HunkRebuilds(base, changed);
  }

  /** In a tie with a local insertion, the parts of both arrangements are tidy if the two changed sides are. */
  lemma TieParts<T>(base: seq<T>, local: seq<T>, remote: seq<T>, ended: T -> bool, fine: T -> bool)
    requires Tidy(local, ended, fine) && Tidy(remote, ended, fine)
    requires var l, r := HunkOf(base, local), HunkOf(base, remote); l.end == l.start == r.start < r.end <= |base|
    ensures var l, r := HunkOf(base, local), HunkOf(base, remote); TidyTie(base, l, r, ended, fine)
  {
    HunkFrames(base, local);
    HunkFrames(base, remote);
    PartsOfTie(base, HunkOf(base, local), HunkOf(base, remote), local, remote, ended, fine);
  }

  ghost predicate TidyTie<T>(base: seq<T>, l: Hunk<T>, r: Hunk<T>, ended: T -> bool, fine: T -> bool)
    requires l.end == l.start == r.start < r.end <= |base|
  {
    && All(base[..l.start], ended) && All(l.replacement, ended)
    && Tidy(r.replacement + base[r.end..], ended, fine)
    && Tidy((l.replacement + base[r.start..r.end])[r.end - r.start..] + base[r.end..], ended, fine)
  }

  lemma PartsOfTie<T>(base: seq<T>, l: Hunk<T>, r: Hunk<T>, local: seq<T>, remote: seq<T>,
                      ended: T -> bool, fine: T -> bool)
    requires Tidy(local, ended, fine) && Tidy(remote, ended, fine)
    requires l.end == l.start == r.start < r.end <= |base|
    requires local == base[..l.start] + l.replacement + base[l.end..]
    requires remote == base[..r.start] + r.replacement + base[r.end..]
    ensures TidyTie(base, l, r, ended, fine)
  {
    FramedParts(base, l.start, r.end, l.replacement, r.replacement, ended, fine);
  }

  lemma FramedParts<T>(base: seq<T>, start: nat, end: nat, inserted: seq<T>, replacement: seq<T>, ended: T -> bool,
                       fine: T -> bool)
    requires start < end <= |base|
    requires Tidy(base[..start] + inserted + base[start..], ended, fine)
    requires Tidy(base[..start] + replacement + base[end..], ended, fine)
    ensures All(base[..start], ended) && All(inserted, ended) && Tidy(replacement + base[end..], ended, fine)
    ensures Tidy((inserted + base[start..end])[end - start..] + base[end..], ended, fine)
  {
    LocalParts(base[..start], inserted, base[start..], end - start, ended, fine);
    assert base[..start] + replacement + base[end..] == base[..start] + (replacement + base[end..]);
    RemoteParts(base[..start], replacement + base[end..], ended, fine);
    WindowTail(base, inserted, start, end);
  }

  lemma WindowTail<T>(base: seq<T>, inserted: seq<T>, start: nat, end: nat)
    requires start <= end <= |base|
    ensures (inserted + base[start..])[end - start..] == (inserted + base[start..end])[end - start..] + base[end..]
  {
    assert base[start..] == base[start..end] + base[end..];
  }

  lemma InsertionHunk<T>(a: T, b: T, c: T, x: T)
    requires b != x
    ensures HunkOf([a, b, c], [a, x, b, c]) == Hunk(1, 1, [x])
  {
    var base, local := [a, b, c], [a, x, b, c];
    assert base[0] == local[0] && base[1] != local[1] && base[2] == local[3] && base[1] == local[2];
    assert CommonPrefix(base, local) == 1;
    assert SuffixFrom(base, local, 1, 2) == 2 && SuffixFrom(base, local, 1, 1) == 2;
    assert CommonSuffix(base, local, 1) == 2;
  }

  lemma ReplacementHunk<T>(a: T, b: T, c: T, y: T)
    requires b != y
    ensures HunkOf([a, b, c], [a, y, c]) == Hunk(1, 2, [y])
  {
    var base, remote := [a, b, c], [a, y, c];
    assert base[0] == remote[0] && base[1] != remote[1] && base[2] == remote[2];
    assert CommonPrefix(base, remote) == 1;
    assert SuffixFrom(base, remote, 1, 1) == 1;
    assert CommonSuffix(base, remote, 1) == 1;
  }

  /** A tie that loses the inserted line: the local insertion `x` disappears and `b`, which the remote side
      replaced by `y`, survives.  With the sides swapped both changes are there. */
  lemma TieCanLoseTheInsertion<T>(a: T, b: T, c: T, x: T, y: T)
    requires b != x && b != y && c != y
    ensures MergeLines([a, b, c], [a, x, b, c], [a, y, c]) == Some([a, y, b, c])
    ensures MergeLines([a, b, c], [a, y, c], [a, x, b, c]) == Some([a, x, y, c])
  {
    var base, local, remote := [a, b, c], [a, x, b, c], [a, y, c];
    InsertionHunk(a, b, c, x);
    ReplacementHunk(a, b, c, y);
    assert Apply(base, Hunk(1, 1, [x])) == local && Apply(local, Hunk(1, 2, [y])) == [a, y, b, c];
    assert Apply(base, Hunk(1, 2, [y])) == remote && Apply(remote, Hunk(1, 1, [x])) == [a, x, y, c];
  }
}
