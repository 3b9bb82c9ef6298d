/** `clean_text` of utils/parser_augustin.py (lines 72-119): turns the raw text
    of one or more pages into article text. A line loop anchors on the first
    start marker and joins lines; a character pass then cuts at the end glyph
    and thins out double blanks. */
module Normalize {
  import opened Text
  import opened SpanSignals

  predicate IsSentenceEnd(c: char)
  {
    c == '.' || c == '!' || c == '?' || c == ':'
  }

  /** What one line after the anchor adds to the article (lines 79-108). A
      line that reaches the end of the loop body is appended once more when it
      equals the anchor, since the anchor test at line 106 runs again. */
  function LineContribution(line: string, anchor: string): (r: string)
    ensures IsBlank(line) ==> r == []
    ensures !IsBlank(line) && IsSentenceEnd(line[|line| - 1]) ==> r == line + "\n"
    ensures !IsBlank(line) && line[|line| - 1] == ' ' ==>
              |line| >= 2 && r == if IsSentenceEnd(line[|line| - 2]) then line[..|line| - 1] + "\n" else line
    ensures !IsBlank(line) && line[|line| - 1] == '-' ==> r + "-" == line
    ensures !IsBlank(line) && !IsSentenceEnd(line[|line| - 1]) && line[|line| - 1] !in " -" ==>
              r == if line == anchor then line + line else line
  {
    if IsBlank(line) then []
    else if line[|line| - 1] == ' ' then
      if IsSentenceEnd(line[|line| - 2]) then line[..|line| - 1] + "\n" else line
    else if IsSentenceEnd(line[|line| - 1]) then line + "\n"
    else if line[|line| - 1] == '-' then line[..|line| - 1]
    else if line == anchor then line + line
    else line
  }

  /** The line loop of lines 74-108, with `found` and `acc` its two variables. */
  function AssembleFrom(lines: seq<string>, anchor: string, found: bool, acc: string): string
    decreases |lines|
  {
    if lines == [] then acc
    else if found then AssembleFrom(lines[1..], anchor, true, acc + LineContribution(lines[0], anchor))
    else if lines[0] == anchor then AssembleFrom(lines[1..], anchor, true, acc + lines[0])
    else AssembleFrom(lines[1..], anchor, false, acc)
  }

  function Assemble(lines: seq<string>, anchor: string): string
  {
    AssembleFrom(lines, anchor, false, [])
  }

  /** Independent description: the contributions of the lines, concatenated. */
  function Contributions(lines: seq<string>, anchor: string): string
  {
    if lines == [] then [] else LineContribution(lines[0], anchor) + Contributions(lines[1..], anchor)
  }

  lemma {:induction false} AssembleFound(lines: seq<string>, anchor: string, acc: string)
    ensures AssembleFrom(lines, anchor, true, acc) == acc + Contributions(lines, anchor)
  {
    if lines != [] {
      var c := LineContribution(lines[0], anchor);
      assert AssembleFrom(lines, anchor, true, acc) == AssembleFrom(lines[1..], anchor, true, acc + c);
      assert Contributions(lines, anchor) == c + Contributions(lines[1..], anchor);
      AssembleFound(lines[1..], anchor, acc + c);
      assert acc + c + Contributions(lines[1..], anchor) == acc + (c + Contributions(lines[1..], anchor));
    }
  }

  /** Nothing before the first line equal to the anchor is kept; that line is
      kept verbatim; every later line adds its own contribution. */
  lemma {:induction false} AssembleAtAnchor(lines: seq<string>, anchor: string, k: nat)
    requires k < |lines| && lines[k] == anchor
    requires forall j :: 0 <= j < k ==> lines[j] != anchor
    ensures Assemble(lines, anchor) == lines[k] + Contributions(lines[k + 1..], anchor)
  {
    AssembleAtAnchorFrom(lines, anchor, k, []);
    assert [] + lines[k] == lines[k];
  }

  lemma {:induction false} AssembleAtAnchorFrom(lines: seq<string>, anchor: string, k: nat, acc: string)
    requires k < |lines| && lines[k] == anchor
    requires forall j :: 0 <= j < k ==> lines[j] != anchor
    ensures AssembleFrom(lines, anchor, false, acc) == acc + lines[k] + Contributions(lines[k + 1..], anchor)
  {
    if k == 0 {
      AssembleFound(lines[1..], anchor, acc + lines[0]);
    } else {
      assert lines[0] != anchor;
      AssembleAtAnchorFrom(lines[1..], anchor, k - 1, acc);
      assert lines[1..][k - 1 + 1..] == lines[k + 1..];
    }
  }

  /** Without a line equal to the anchor the article is empty. */
  lemma {:induction false} AssembleWithoutAnchor(lines: seq<string>, anchor: string, acc: string)
    requires forall j :: 0 <= j < |lines| ==> lines[j] != anchor
    ensures AssembleFrom(lines, anchor, false, acc) == acc
  {
    if lines != [] {
      assert lines[0] != anchor;
      AssembleWithoutAnchor(lines[1..], anchor, acc);
    }
  }

  /** Python's `article[index - 1]`: index -1 is the last element. */
  function PrevIndex(cur: string, i: nat): (p: nat)
    requires i < |cur|
    ensures p < |cur|
  {
    if i == 0 then |cur| - 1 else i - 1
  }

  /** The character pass of lines 111-117 from position `i` of the list `cur`
      being edited. `article_edit` and `article` are one list, so each
      deletion shifts the rest left while the index still advances: the
      character after a deleted blank is never looked at. */
  function PostPassFrom(cur: string, i: nat): string
    decreases |cur| + 1 - i
  {
    if i >= |cur| then cur
    else if cur[i] == EndGlyph then cur[..i]
    else if cur[i] == ' ' && cur[PrevIndex(cur, i)] == ' ' then PostPassFrom(cur[..i] + cur[i + 1..], i + 1)
    else PostPassFrom(cur, i + 1)
  }

  function PostPass(s: string): string
  {
    PostPassFrom(s, 0)
  }

  /** `r` is obtained from `s` by deleting characters, through the positions `idx`. */
  ghost predicate Embeds(r: string, s: string, idx: seq<int>)
  {
    && |idx| == |r|
    && (forall k :: 0 <= k < |idx| ==> 0 <= idx[k] < |s| && r[k] == s[idx[k]])
    && (forall k, l :: 0 <= k < l < |idx| ==> idx[k] < idx[l])
  }

  ghost predicate IsSubsequence(r: string, s: string)
  {
    exists idx :: Embeds(r, s, idx)
  }

  /** The greedy test for "r can be obtained from s by deleting characters":
      match r's first character against the earliest equal one in s. */
  predicate Subsequence(r: string, s: string)
    decreases |s|
  {
    if r == [] then true
    else if s == [] then false
    else if r[0] == s[0] then Subsequence(r[1..], s[1..])
    else Subsequence(r, s[1..])
  }

  /** Any embedding is found by the greedy test. */
  lemma {:induction false} EmbedsSubsequence(r: string, s: string, idx: seq<int>)
    requires Embeds(r, s, idx)
    ensures Subsequence(r, s)
    decreases |s|
  {
    if r != [] {
      assert 0 <= idx[0] < |s|;
      var shifted := seq(|idx|, k requires 0 <= k < |idx| => idx[k] - 1);
      if r[0] == s[0] {
        forall k | 1 <= k < |idx| ensures idx[0] < idx[k] {}
        assert Embeds(r[1..], s[1..], shifted[1..]);
        EmbedsSubsequence(r[1..], s[1..], shifted[1..]);
      } else {
        assert idx[0] != 0;
        forall k | 0 <= k < |idx| ensures idx[0] <= idx[k] {}
        assert Embeds(r, s[1..], shifted);
        EmbedsSubsequence(r, s[1..], shifted);
      }
    }
  }

  lemma SubsequenceOf(r: string, s: string)
    requires IsSubsequence(r, s)
    ensures Subsequence(r, s)
  {
    var idx :| Embeds(r, s, idx);
    EmbedsSubsequence(r, s, idx);
  }

  lemma EmbedsTake(cur: string, s: string, idx: seq<int>, i: nat)
    requires Embeds(cur, s, idx) && i <= |cur|
    ensures Embeds(cur[..i], s, idx[..i])
  {
  }

  lemma EmbedsDelete(cur: string, s: string, idx: seq<int>, i: nat)
    requires Embeds(cur, s, idx) && i < |cur|
    ensures Embeds(cur[..i] + cur[i + 1..], s, idx[..i] + idx[i + 1..])
  {
    var r, d := cur[..i] + cur[i + 1..], idx[..i] + idx[i + 1..];
    assert forall k :: 0 <= k < |d| ==> d[k] == if k < i then idx[k] else idx[k + 1];
    assert forall k :: 0 <= k < |r| ==> r[k] == if k < i then cur[k] else cur[k + 1];
  }

  /** The position of the first end glyph, or |s| when there is none. */
  function GlyphIndex(s: string): (g: nat)
    ensures g <= |s|
    ensures forall k :: 0 <= k < g ==> s[k] != EndGlyph
    ensures g < |s| ==> s[g] == EndGlyph
  {
    if s == [] || s[0] == EndGlyph then 0 else 1 + GlyphIndex(s[1..])
  }

  /** Whether the pass deletes position `j` of the original text. A position
      is visited unless the one before it was deleted, and the character
      before the cursor is always the original one before it (the last one,
      for position 0); a visited blank after a blank is deleted. */
  predicate Deleted(s: string, j: nat)
    requires j < |s|
    decreases j
  {
    s[j] == ' ' && (if j == 0 then s[|s| - 1] == ' ' else s[j - 1] == ' ' && !Deleted(s, j - 1))
  }

  /** The pass looks at position `j`: it is not the one right after a deleted blank. */
  ghost predicate Visited(s: string, j: nat)
    requires j <= |s|
  {
    j == 0 || !Deleted(s, j - 1)
  }

  /** The pass visits the first end glyph: there is one, and it is not the
      character right after a deleted blank. */
  predicate GlyphReached(s: string)
  {
    var g := GlyphIndex(s);
    g < |s| && (g == 0 || !Deleted(s, g - 1))
  }

  /** Text the pass leaves alone: no end glyph, no two adjacent blanks, and
      not both starting and ending with a blank. */
  predicate IsCleanText(s: string)
  {
    && EndGlyph !in s
    && (forall k :: 1 <= k < |s| ==> !(s[k] == ' ' && s[k - 1] == ' '))
    && !(|s| > 0 && s[0] == ' ' && s[|s| - 1] == ' ')
  }

  /** The character pass of `clean_text` as the loop it is. It only deletes;
      when it reaches the first end glyph it drops that glyph and everything
      after it, and when it skips that glyph the glyph stays; and it returns
      clean text unchanged. */
  method FormatArticle(s: string) returns (r: string)
    ensures r == PostPass(s)
    ensures Subsequence(r, s)
    ensures IsCleanText(s) ==> r == s
    ensures GlyphReached(s) ==> EndGlyph !in r && Subsequence(r, s[..GlyphIndex(s)])
    ensures GlyphIndex(s) < |s| && !GlyphReached(s) ==> EndGlyph in r
  {
    var cur := s;
    var i := 0;
    while i < |cur|
      invariant i <= |cur| + 1
      invariant PostPassFrom(cur, i) == PostPass(s)
      decreases |cur| + 1 - i
    {
      if cur[i] == EndGlyph {
        cur := cur[..i];
      } else if cur[i] == ' ' && cur[PrevIndex(cur, i)] == ' ' {
        cur := cur[..i] + cur[i + 1..];
      }
      i := i + 1;
    }
    r := cur;
    PostPassProperties(s);
    SubsequenceOf(r, s);
    if GlyphReached(s) {
      SubsequenceOf(r, s[..GlyphIndex(s)]);
    }
  }

  /** The pass only deletes, cuts at the first end glyph when it visits it,
      keeps that glyph when it skips it, and leaves clean text alone. */
  lemma PostPassProperties(s: string)
    ensures IsSubsequence(PostPass(s), s)
    ensures IsCleanText(s) ==> PostPass(s) == s
    ensures GlyphReached(s) ==> EndGlyph !in PostPass(s) && IsSubsequence(PostPass(s), s[..GlyphIndex(s)])
    ensures GlyphIndex(s) < |s| && !GlyphReached(s) ==> EndGlyph in PostPass(s)
  {
    var idx := Identity(|s|);
    StartState(s);
    SubsequenceFrom(s, s, 0, idx);
    if IsCleanText(s) {
      CleanFrom(s, 0);
    }
    if GlyphReached(s) {
      GlyphFrom(s, s, 0, idx, 0);
      assert CutAtGlyph(s, PostPass(s));
    } else if GlyphIndex(s) < |s| {
      GlyphSkipped(s, s, 0, idx, 0);
    }
  }

  function Identity(n: nat): (idx: seq<int>)
    ensures |idx| == n && forall k :: 0 <= k < n ==> idx[k] == k
  {
    seq(n, k => k)
  }

  /** Before the first step the text embeds in itself position by position. */
  lemma StartState(s: string)
    ensures Embeds(s, s, Identity(|s|))
    ensures GlyphInv(s, s, 0, Identity(|s|), 0)
  {
  }

  /** Every step deletes or cuts, so an embedding of the edited text survives. */
  lemma {:induction false} SubsequenceFrom(s: string, cur: string, i: nat, idx: seq<int>)
    requires Embeds(cur, s, idx)
    ensures IsSubsequence(PostPassFrom(cur, i), s)
    decreases |cur| + 1 - i
  {
    if i >= |cur| {
      assert Embeds(cur, s, idx);
    } else if cur[i] == EndGlyph {
      EmbedsTake(cur, s, idx, i);
      SubsequenceFrom(s, cur[..i], i + 1, idx[..i]);
    } else if cur[i] == ' ' && cur[PrevIndex(cur, i)] == ' ' {
      EmbedsDelete(cur, s, idx, i);
      SubsequenceFrom(s, cur[..i] + cur[i + 1..], i + 1, idx[..i] + idx[i + 1..]);
    } else {
      SubsequenceFrom(s, cur, i + 1, idx);
    }
  }

  /** On clean text no step edits anything. */
  lemma {:induction false} CleanFrom(s: string, i: nat)
    requires IsCleanText(s) && i <= |s|
    ensures PostPassFrom(s, i) == s
    decreases |s| - i
  {
    if i < |s| {
      CleanHasNoDoubleBlank(s, i);
      assert s[i] != EndGlyph;
      CleanFrom(s, i + 1);
    }
  }

  lemma CleanHasNoDoubleBlank(s: string, i: nat)
    requires IsCleanText(s) && i < |s|
    ensures !(s[i] == ' ' && s[PrevIndex(s, i)] == ' ')
  {
    if i == 0 && |s| > 1 {
      assert PrevIndex(s, i) == |s| - 1;
    }
  }

  /** What the pass knows while the first end glyph is still ahead: `idx`
      embeds the edited text in the original, the text past the cursor is the
      original's suffix from `j`, and everything passed lies before the glyph. */
  ghost predicate GlyphInv(s: string, cur: string, i: nat, idx: seq<int>, j: nat)
  {
    && i <= |cur| + 1
    && Embeds(cur, s, idx)
    && (i <= |cur| ==> Aligned(cur, s, idx, i, j) && j <= GlyphIndex(s) && Trail(s, cur, idx, i, j))
    && Before(cur, idx, i, GlyphIndex(s))
  }

  /** The character before the cursor is the original one before position
      `j`, and position `j` is visited, not skipped. */
  ghost predicate Trail(s: string, cur: string, idx: seq<int>, i: nat, j: nat)
    requires |idx| == |cur| && j <= |s|
  {
    && (i == 0 ==> j == 0)
    && (0 < i <= |cur| ==> 0 < j && idx[i - 1] == j - 1 && Visited(s, j))
  }

  /** At a visited position the pass deletes exactly what `Deleted` says. */
  lemma StepDeleted(s: string, cur: string, idx: seq<int>, i: nat, j: nat)
    requires Embeds(cur, s, idx) && i < |cur| && Aligned(cur, s, idx, i, j) && Trail(s, cur, idx, i, j)
    ensures j < |s| && (Deleted(s, j) <==> cur[i] == ' ' && cur[PrevIndex(cur, i)] == ' ')
  {
    assert cur[i] == s[j];
    if i == 0 {
      assert idx[|cur| - 1] == |s| - 1;
    } else {
      assert cur[i - 1] == s[j - 1];
    }
  }

  /** The result of a pass that cut at the first end glyph. */
  ghost predicate CutAtGlyph(s: string, r: string)
  {
    EndGlyph !in r && IsSubsequence(r, s[..GlyphIndex(s)])
  }

  lemma {:induction false} GlyphFrom(s: string, cur: string, i: nat, idx: seq<int>, j: nat)
    requires GlyphReached(s) && GlyphInv(s, cur, i, idx, j)
    ensures CutAtGlyph(s, PostPassFrom(cur, i))
    decreases |cur| + 1 - i
  {
    if i >= |cur| {
      GlyphFree(cur, s, idx, GlyphIndex(s));
    } else {
      var c, i', d, j' := GlyphStep(s, cur, i, idx, j);
      GlyphFrom(s, c, i', d, j');
    }
  }

  /** One step of the pass before a glyph it visits keeps the invariant. */
  lemma GlyphStep(s: string, cur: string, i: nat, idx: seq<int>, j: nat)
      returns (c: string, i': nat, d: seq<int>, j': nat)
    requires GlyphReached(s) && GlyphInv(s, cur, i, idx, j) && i < |cur|
    ensures GlyphInv(s, c, i', d, j') && |c| + 1 - i' < |cur| + 1 - i
    ensures PostPassFrom(cur, i) == PostPassFrom(c, i')
  {
    if cur[i] == EndGlyph {
      c, i', d, j' := cur[..i], i + 1, idx[..i], j + 1;
      GlyphTruncate(s, cur, i, idx, j);
    } else {
      c, i', d, j' := GlyphEdit(s, cur, i, idx, j);
    }
  }

  /** A step on anything but the glyph deletes a doubled blank or keeps the character. */
  lemma GlyphEdit(s: string, cur: string, i: nat, idx: seq<int>, j: nat)
      returns (c: string, i': nat, d: seq<int>, j': nat)
    requires GlyphReached(s) && GlyphInv(s, cur, i, idx, j) && i < |cur| && cur[i] != EndGlyph
    ensures GlyphInv(s, c, i', d, j') && |c| + 1 - i' < |cur| + 1 - i
    ensures PostPassFrom(cur, i) == PostPassFrom(c, i')
  {
    if cur[i] == ' ' && cur[PrevIndex(cur, i)] == ' ' {
      c, i', d, j' := ReachedDelete(s, cur, i, idx, j);
    } else {
      c, i', d, j' := cur, i + 1, idx, j + 1;
      GlyphKeep(s, cur, i, idx, j);
    }
  }

  lemma GlyphTruncate(s: string, cur: string, i: nat, idx: seq<int>, j: nat)
    requires GlyphReached(s) && GlyphInv(s, cur, i, idx, j) && i < |cur| && cur[i] == EndGlyph
    ensures GlyphInv(s, cur[..i], i + 1, idx[..i], j + 1)
    ensures PostPassFrom(cur, i) == PostPassFrom(cur[..i], i + 1)
  {
    EmbedsTake(cur, s, idx, i);
    TakeBefore(cur, idx, i, GlyphIndex(s));
  }

  lemma GlyphDelete(s: string, cur: string, i: nat, idx: seq<int>, j: nat)
    requires GlyphInv(s, cur, i, idx, j) && i < |cur| && cur[i] != EndGlyph
    requires cur[i] == ' ' && cur[PrevIndex(cur, i)] == ' ' && j + 1 != GlyphIndex(s)
    ensures GlyphInv(s, cur[..i] + cur[i + 1..], i + 1, idx[..i] + idx[i + 1..], j + 2)
    ensures PostPassFrom(cur, i) == PostPassFrom(cur[..i] + cur[i + 1..], i + 1)
  {
    EmbedsDelete(cur, s, idx, i);
    AlignedDelete(cur, s, idx, i, j);
    DeleteBefore(cur, s, idx, i, j, GlyphIndex(s));
    StepDeleted(s, cur, idx, i, j);
    TrailDelete(s, cur, idx, i, j);
  }

  /** A deletion on the way to a glyph the pass visits never skips it. */
  lemma ReachedDelete(s: string, cur: string, i: nat, idx: seq<int>, j: nat)
      returns (c: string, i': nat, d: seq<int>, j': nat)
    requires GlyphReached(s) && GlyphInv(s, cur, i, idx, j) && i < |cur| && cur[i] != EndGlyph
    requires cur[i] == ' ' && cur[PrevIndex(cur, i)] == ' '
    ensures c == cur[..i] + cur[i + 1..] && i' == i + 1 && d == idx[..i] + idx[i + 1..] && j' == j + 2
    ensures GlyphInv(s, c, i', d, j') && |c| + 1 - i' < |cur| + 1 - i
    ensures PostPassFrom(cur, i) == PostPassFrom(c, i')
  {
    c, i', d, j' := cur[..i] + cur[i + 1..], i + 1, idx[..i] + idx[i + 1..], j + 2;
    StepDeleted(s, cur, idx, i, j);
    NotBeforeReached(s, j);
    GlyphDelete(s, cur, i, idx, j);
  }

  lemma NotBeforeReached(s: string, j: nat)
    requires GlyphReached(s) && j < |s| && Deleted(s, j)
    ensures j + 1 != GlyphIndex(s)
  {
  }

  lemma TrailDelete(s: string, cur: string, idx: seq<int>, i: nat, j: nat)
    requires |idx| == |cur| && i < |cur| && j < |s| && Deleted(s, j)
    requires i + 1 < |cur| ==> j + 1 < |s| && idx[i + 1] == j + 1
    ensures var c, d := cur[..i] + cur[i + 1..], idx[..i] + idx[i + 1..];
            j + 2 <= |s| ==> Trail(s, c, d, i + 1, j + 2)
  {
    var c, d := cur[..i] + cur[i + 1..], idx[..i] + idx[i + 1..];
    if i + 1 <= |c| {
      assert d[i] == idx[i + 1];
    }
  }

  lemma GlyphKeep(s: string, cur: string, i: nat, idx: seq<int>, j: nat)
    requires GlyphInv(s, cur, i, idx, j) && i < |cur| && cur[i] != EndGlyph
    requires !(cur[i] == ' ' && cur[PrevIndex(cur, i)] == ' ')
    ensures GlyphInv(s, cur, i + 1, idx, j + 1)
    ensures PostPassFrom(cur, i) == PostPassFrom(cur, i + 1)
  {
    AlignedKeep(cur, s, idx, i, j);
    StepDeleted(s, cur, idx, i, j);
    assert s[j] == cur[i];
    assert j != GlyphIndex(s);
    assert Before(cur, idx, i + 1, GlyphIndex(s));
  }

  /** When the pass skips the first end glyph (it follows a deleted blank),
      the glyph stays in the result. */
  lemma {:induction false} GlyphSkipped(s: string, cur: string, i: nat, idx: seq<int>, j: nat)
    requires 0 < GlyphIndex(s) < |s| && Deleted(s, GlyphIndex(s) - 1)
    requires GlyphInv(s, cur, i, idx, j) && i <= |cur| && j < GlyphIndex(s)
    ensures EndGlyph in PostPassFrom(cur, i)
    decreases |cur| + 1 - i
  {
    var done, c, i', d, j' := SkipStep(s, cur, i, idx, j);
    if !done {
      GlyphSkipped(s, c, i', d, j');
    }
  }

  /** One step of the pass before the skipped glyph: either the glyph is now
      behind the cursor, or the pass continues from a state that keeps the
      invariant. */
  lemma SkipStep(s: string, cur: string, i: nat, idx: seq<int>, j: nat)
      returns (done: bool, c: string, i': nat, d: seq<int>, j': nat)
    requires 0 < GlyphIndex(s) < |s| && Deleted(s, GlyphIndex(s) - 1)
    requires GlyphInv(s, cur, i, idx, j) && i <= |cur| && j < GlyphIndex(s)
    ensures done ==> EndGlyph in PostPassFrom(cur, i)
    ensures !done ==> && GlyphInv(s, c, i', d, j') && i' <= |c| && j' < GlyphIndex(s)
                      && |c| + 1 - i' < |cur| + 1 - i && PostPassFrom(cur, i) == PostPassFrom(c, i')
  {
    SkipVisit(s, cur, i, idx, j);
    if cur[i] == ' ' && cur[PrevIndex(cur, i)] == ' ' {
      done, c, i', d, j' := SkipBlank(s, cur, i, idx, j);
    } else {
      done, c, i', d, j' := false, cur, i + 1, idx, j + 1;
      SkipKeep(s, cur, i, idx, j);
    }
  }

  /** A deletion before the skipped glyph: either the one right before it, or
      one that leaves it ahead. */
  lemma SkipBlank(s: string, cur: string, i: nat, idx: seq<int>, j: nat)
      returns (done: bool, c: string, i': nat, d: seq<int>, j': nat)
    requires 0 < GlyphIndex(s) < |s| && Deleted(s, GlyphIndex(s) - 1)
    requires GlyphInv(s, cur, i, idx, j) && i < |cur| && j < GlyphIndex(s) && cur[i] != EndGlyph
    requires cur[i] == ' ' && cur[PrevIndex(cur, i)] == ' '
    ensures done ==> EndGlyph in PostPassFrom(cur, i)
    ensures !done ==> && GlyphInv(s, c, i', d, j') && i' <= |c| && j' < GlyphIndex(s)
                      && |c| + 1 - i' < |cur| + 1 - i && PostPassFrom(cur, i) == PostPassFrom(c, i')
  {
    if j + 1 < GlyphIndex(s) {
      done, c, i', d, j' := false, cur[..i] + cur[i + 1..], i + 1, idx[..i] + idx[i + 1..], j + 2;
      SkipDelete(s, cur, i, idx, j);
    } else {
      done, c, i', d, j' := true, cur, i, idx, j;
      SkipOver(s, cur, i, idx, j);
    }
  }

  /** Before the skipped glyph the cursor is on a character that is not it. */
  lemma SkipVisit(s: string, cur: string, i: nat, idx: seq<int>, j: nat)
    requires GlyphInv(s, cur, i, idx, j) && i <= |cur| && j < GlyphIndex(s)
    ensures i < |cur| && cur[i] != EndGlyph
    ensures j < |s| && (Deleted(s, j) <==> cur[i] == ' ' && cur[PrevIndex(cur, i)] == ' ')
  {
    StepDeleted(s, cur, idx, i, j);
    assert cur[i] == s[j];
  }

  lemma SkipKeep(s: string, cur: string, i: nat, idx: seq<int>, j: nat)
    requires 0 < GlyphIndex(s) < |s| && Deleted(s, GlyphIndex(s) - 1)
    requires GlyphInv(s, cur, i, idx, j) && i < |cur| && j < GlyphIndex(s) && cur[i] != EndGlyph
    requires !(cur[i] == ' ' && cur[PrevIndex(cur, i)] == ' ')
    ensures GlyphInv(s, cur, i + 1, idx, j + 1) && i + 1 <= |cur| && j + 1 < GlyphIndex(s)
    ensures PostPassFrom(cur, i) == PostPassFrom(cur, i + 1)
  {
    StepDeleted(s, cur, idx, i, j);
    GlyphKeep(s, cur, i, idx, j);
  }

  lemma SkipDelete(s: string, cur: string, i: nat, idx: seq<int>, j: nat)
    requires 0 < GlyphIndex(s) < |s| && Deleted(s, GlyphIndex(s) - 1)
    requires GlyphInv(s, cur, i, idx, j) && i < |cur| && j + 1 < GlyphIndex(s) && cur[i] != EndGlyph
    requires cur[i] == ' ' && cur[PrevIndex(cur, i)] == ' '
    ensures var c, d := cur[..i] + cur[i + 1..], idx[..i] + idx[i + 1..];
            GlyphInv(s, c, i + 1, d, j + 2) && i + 1 <= |c| && j + 2 < GlyphIndex(s)
              && PostPassFrom(cur, i) == PostPassFrom(c, i + 1)
  {
    StepDeleted(s, cur, idx, i, j);
    GlyphDelete(s, cur, i, idx, j);
  }

  /** The deletion right before the glyph shifts the glyph behind the cursor,
      where it stays. */
  lemma SkipOver(s: string, cur: string, i: nat, idx: seq<int>, j: nat)
    requires GlyphInv(s, cur, i, idx, j) && i < |cur| && j + 1 == GlyphIndex(s) < |s|
    requires cur[i] != EndGlyph && cur[i] == ' ' && cur[PrevIndex(cur, i)] == ' '
    ensures EndGlyph in PostPassFrom(cur, i)
  {
    var c := cur[..i] + cur[i + 1..];
    assert c[i] == cur[i + 1] == s[j + 1];
    PrefixKept(c, i + 1, i);
  }

  /** What lies before the cursor is never edited again. */
  lemma {:induction false} PrefixKept(cur: string, i: nat, k: nat)
    requires k < i && k < |cur|
    ensures k < |PostPassFrom(cur, i)| && PostPassFrom(cur, i)[k] == cur[k]
    decreases |cur| + 1 - i
  {
    if i < |cur| && cur[i] != EndGlyph {
      if cur[i] == ' ' && cur[PrevIndex(cur, i)] == ' ' {
        var c := cur[..i] + cur[i + 1..];
        assert c[k] == cur[k];
        PrefixKept(c, i + 1, k);
      } else {
        PrefixKept(cur, i + 1, k);
      }
    }
  }

  /** The positions from `i` on in `cur` are `s[j..]`, and those before come from before `j`. */
  ghost predicate Aligned(cur: string, s: string, idx: seq<int>, i: nat, j: nat)
    requires |idx| == |cur| && i <= |cur|
  {
    && j <= |s| && |cur| - i == |s| - j
    && (forall k :: i <= k < |cur| ==> idx[k] == j + (k - i))
    && (forall k :: 0 <= k < i ==> idx[k] < j)
  }

  /** Every position already passed lies before the glyph at `g`. */
  ghost predicate Before(cur: string, idx: seq<int>, i: nat, g: nat)
    requires |idx| == |cur|
  {
    forall k :: 0 <= k < |cur| && k < i ==> idx[k] < g
  }

  lemma AlignedKeep(cur: string, s: string, idx: seq<int>, i: nat, j: nat)
    requires Embeds(cur, s, idx) && i < |cur| && Aligned(cur, s, idx, i, j)
    ensures i + 1 <= |cur| ==> Aligned(cur, s, idx, i + 1, j + 1)
    ensures j < |s| && s[j] == cur[i]
  {
  }

  lemma AlignedDelete(cur: string, s: string, idx: seq<int>, i: nat, j: nat)
    requires Embeds(cur, s, idx) && i < |cur| && Aligned(cur, s, idx, i, j)
    ensures var c, d := cur[..i] + cur[i + 1..], idx[..i] + idx[i + 1..];
            i + 1 <= |c| ==> Aligned(c, s, d, i + 1, j + 2)
    ensures j < |s| && s[j] == cur[i]
  {
    var c, d := cur[..i] + cur[i + 1..], idx[..i] + idx[i + 1..];
    assert forall k :: 0 <= k < |d| ==> d[k] == if k < i then idx[k] else idx[k + 1];
  }

  lemma TakeBefore(cur: string, idx: seq<int>, i: nat, g: nat)
    requires |idx| == |cur| && i < |cur| && Before(cur, idx, i, g)
    ensures Before(cur[..i], idx[..i], i + 1, g)
  {
  }

  lemma DeleteBefore(cur: string, s: string, idx: seq<int>, i: nat, j: nat, g: nat)
    requires Embeds(cur, s, idx) && i < |cur| && Aligned(cur, s, idx, i, j)
    requires g == GlyphIndex(s) && j <= g && j + 1 != g && Before(cur, idx, i, g)
    requires cur[i] == ' ' && cur[PrevIndex(cur, i)] == ' '
    ensures var c, d := cur[..i] + cur[i + 1..], idx[..i] + idx[i + 1..];
            (i + 1 <= |c| ==> j + 2 <= g) && Before(c, d, i + 1, g)
  {
    var c, d := cur[..i] + cur[i + 1..], idx[..i] + idx[i + 1..];
    assert s[j] == ' ';
    assert j != g;
    if i + 1 < |cur| {
      assert idx[i + 1] == j + 1;
      assert s[j + 1] == cur[i + 1];
      assert j + 1 != g;
    }
    assert forall k :: 0 <= k < |d| ==> d[k] == if k < i then idx[k] else idx[k + 1];
  }

  lemma GlyphFree(r: string, s: string, idx: seq<int>, g: nat)
    requires Embeds(r, s, idx) && g == GlyphIndex(s) && Before(r, idx, |r|, g)
    ensures EndGlyph !in r && IsSubsequence(r, s[..g])
  {
    assert Embeds(r, s[..g], idx);
    forall k | 0 <= k < |r|
      ensures r[k] != EndGlyph
    {
      assert r[k] == s[idx[k]];
    }
  }

  /** `clean_text(raw_text, starting_characters)`; the caller only invokes it
      with a non-empty list (line 219), and the code reads element 0. */
  function CleanText(rawText: string, markers: seq<string>): (r: string)
    requires |markers| > 0
    ensures (forall k :: 0 <= k < |Split(rawText, '\n')| ==> Split(rawText, '\n')[k] != markers[0]) ==> r == []
  {
    var lines := Split(rawText, '\n');
    NoAnchorNoArticle(lines, markers[0]);
    PostPass(Assemble(lines, markers[0]))
  }

  lemma NoAnchorNoArticle(lines: seq<string>, anchor: string)
    ensures (forall k :: 0 <= k < |lines| ==> lines[k] != anchor) ==> Assemble(lines, anchor) == []
  {
    if forall k :: 0 <= k < |lines| ==> lines[k] != anchor {
      AssembleWithoutAnchor(lines, anchor, []);
    }
  }

  /** The article is the character pass applied to the anchor line followed by
      the contributions of every later line. */
  lemma CleanTextShape(rawText: string, markers: seq<string>, k: nat)
    requires |markers| > 0
    requires k < |Split(rawText, '\n')| && Split(rawText, '\n')[k] == markers[0]
    requires forall j :: 0 <= j < k ==> Split(rawText, '\n')[j] != markers[0]
    ensures CleanText(rawText, markers)
            == PostPass(markers[0] + Contributions(Split(rawText, '\n')[k + 1..], markers[0]))
  {
    AssembleAtAnchor(Split(rawText, '\n'), markers[0], k);
  }

  /** A line ending in a hyphen is glued to the next one without the hyphen. */
  lemma JoinHyphenExample()
    ensures Contributions(["exam-", "ple"], "A") == "example"
  {
    assert !IsSpace("exam-"[0]) && !IsSpace("ple"[0]);
    assert "exam-"[..4] == "exam";
    assert LineContribution("exam-", "A") == "exam";
    assert LineContribution("ple", "A") == "ple";
    assert Contributions(["exam-", "ple"], "A") == "exam" + Contributions(["ple"], "A");
    assert Contributions(["ple"], "A") == "ple" + Contributions([], "A");
  }

  /** A sentence end breaks the line, and a blank line contributes nothing. */
  lemma JoinBlankExample()
    ensures Contributions(["Ende.", "   ", "Neu"], "A") == "Ende.\nNeu"
  {
    assert !IsSpace("Ende."[0]) && !IsSpace("Neu"[0]);
    assert IsBlank("   ");
    assert LineContribution("Ende.", "A") == "Ende.\n";
    assert LineContribution("   ", "A") == "";
    assert LineContribution("Neu", "A") == "Neu";
    assert Contributions(["Ende.", "   ", "Neu"], "A") == "Ende.\n" + Contributions(["   ", "Neu"], "A");
    assert Contributions(["   ", "Neu"], "A") == "" + Contributions(["Neu"], "A");
    assert Contributions(["Neu"], "A") == "Neu" + Contributions([], "A");
  }

  /** A sentence end followed by a trailing space also breaks the line. */
  lemma JoinTrailingSpaceExample()
    ensures Contributions(["Ende. ", "Neu"], "A") == "Ende.\nNeu"
  {
    assert !IsSpace("Ende. "[0]) && !IsSpace("Neu"[0]);
    assert "Ende. "[..5] == "Ende.";
    assert LineContribution("Ende. ", "A") == "Ende.\n";
    assert LineContribution("Neu", "A") == "Neu";
    assert Contributions(["Ende. ", "Neu"], "A") == "Ende.\n" + Contributions(["Neu"], "A");
    assert Contributions(["Neu"], "A") == "Neu" + Contributions([], "A");
  }

  /** The glyph after one blank is visited and cut; after a blank deleted
      because it follows another, it is skipped; after three blanks the
      middle one is deleted and the glyph is visited again. */
  lemma GlyphReachedExamples()
    ensures GlyphReached("a \U{25A0}b") && PostPass("a \U{25A0}b") == "a "
    ensures !GlyphReached("a  \U{25A0}b")
    ensures GlyphReached("a   \U{25A0}b")
  {
    assert GlyphIndex("a \U{25A0}b") == 2;
    assert GlyphIndex("a  \U{25A0}b") == 3;
    assert GlyphIndex("a   \U{25A0}b") == 4;
    assert PostPassFrom("a \U{25A0}b", 2) == "a ";
  }

  /** The pass on small inputs: a double blank is thinned; a run of three
      blanks keeps two, because the blank after a deleted one is skipped; an
      end glyph right after a deleted blank is skipped too and survives; the
      leading blank goes when the text also ends with a blank; a visited end
      glyph cuts the rest. */
  lemma PostPassExamples()
    ensures PostPass("foo  bar") == "foo bar"
    ensures PostPass("a   b") == "a  b"
    ensures PostPass("a  \U{25A0}b") == "a \U{25A0}b"
    ensures PostPass(" x ") == "x "
    ensures PostPass("ab\U{25A0}cd") == "ab"
  {
    assert "foo  bar"[..4] + "foo  bar"[5..] == "foo bar";
    assert PostPassFrom("foo  bar", 4) == PostPassFrom("foo bar", 5);
    assert PostPassFrom("a   b", 2) == PostPassFrom("a  b", 3);
    assert PostPassFrom("a  \U{25A0}b", 2) == PostPassFrom("a \U{25A0}b", 3);
    assert PostPassFrom(" x ", 0) == PostPassFrom("x ", 1);
    assert PostPassFrom("ab\U{25A0}cd", 2) == "ab";
  }
}
