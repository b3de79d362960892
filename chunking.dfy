/**
 * `QAGenerator.split_into_chunks`: cut a document's text before every
 * newline that is followed by `Chapter`, `Part` or `Epilogue`, then keep the
 * pieces whose stripped length exceeds 100 characters.
 *
 * The cut is a zero-width lookahead, `(?=\n(?:Chapter|Part|Epilogue))`, so no
 * character is lost: the newline opens the following section. There is no
 * word boundary after the marker word, so `\nParty` cuts as well. A text that
 * starts with a break gives an empty first section, as `re.split` does.
 */
module Chunking {
  import opened Text

  /** Sections whose stripped length is at most this many characters are dropped. */
  const MIN_CHUNK_LENGTH := 100

  /** `s.startswith(prefix)`; `StartsWithIsOccursAt` ties it to `Text.OccursAt`. */
  predicate StartsWith(s: string, prefix: string) {
    |prefix| <= |s| && s[..|prefix|] == prefix
  }

  lemma StartsWithIsOccursAt(s: string, prefix: string)
    ensures StartsWith(s, prefix) <==> OccursAt(s, prefix, 0)
  {
    if |prefix| <= |s| {
      assert s[0..|prefix|] == s[..|prefix|];
    }
  }

  /** The lookahead `\n(?:Chapter|Part|Epilogue)` matches at index `p` of `text`. */
  predicate IsBreakAt(text: string, p: int) {
    && 0 <= p < |text|
    && text[p] == '\n'
    && (StartsWith(text[p + 1..], "Chapter") || StartsWith(text[p + 1..], "Part")
        || StartsWith(text[p + 1..], "Epilogue"))
  }

  /**
   * The concatenation of a list of strings, `''.join(sections)`, built piece
   * by piece from the front; `ConcatIsJoin` shows it is `Join` with the empty
   * separator.
   */
  function Concat(sections: seq<string>): string
    decreases |sections|
  {
    if sections == [] then "" else sections[0] + Concat(sections[1..])
  }

  lemma {:induction false} ConcatIsJoin(sections: seq<string>)
    ensures Concat(sections) == Join(sections, "")
    decreases |sections|
  {
    if |sections| == 1 {
      assert Concat(sections) == sections[0] + Concat([]);
    } else if |sections| >= 2 {
      ConcatIsJoin(sections[1..]);
      assert Join(sections, "") == sections[0] + "" + Join(sections[1..], "");
    }
  }

  /**
   * The sections of `text[start..]`, scanning from `p`: the current section
   * began at `start`, and no break lies strictly between `start` and `p`.
   */
  function SectionsFrom(text: string, start: nat, p: nat): seq<string>
    requires start <= p <= |text|
    decreases |text| - p
  {
    if p == |text| then [text[start..]]
    else if IsBreakAt(text, p) then [text[start..p]] + SectionsFrom(text, p, p + 1)
    else SectionsFrom(text, start, p + 1)
  }

  /** A break seen inside a slice of `text` is a break of `text` itself. */
  lemma BreakInSlice(text: string, a: nat, b: nat, q: int)
    requires a <= b <= |text| && IsBreakAt(text[a..b], q)
    ensures IsBreakAt(text, a + q)
  {
    var piece := text[a..b];
    assert piece[q] == text[a + q];
    var after := piece[q + 1..];
    assert after == text[a + q + 1..b];
    assert forall n :: 0 <= n <= |after| ==> after[..n] == text[a + q + 1..][..n];
  }

  /** The word after the break at `p` still stands whole in `text[p..e]`. */
  lemma WordSurvivesCut(text: string, p: nat, e: nat, word: string)
    requires p < e <= |text| && (e == |text| || text[e] == '\n')
    requires StartsWith(text[p + 1..], word)
    requires forall k :: 0 <= k < |word| ==> word[k] != '\n'
    ensures StartsWith(text[p..e][1..], word)
  {
    assert forall k :: p < k <= p + |word| ==> text[k] == text[p + 1..][..|word|][k - p - 1];
    assert e >= p + 1 + |word|;
    assert text[p..e][1..][..|word|] == text[p + 1..][..|word|];
  }

  /**
   * The marker word after a break holds no newline, so when the section that
   * starts at a break ends at the next newline or at the end of the text, it
   * still starts with the whole break.
   */
  lemma BreakSurvivesCut(text: string, p: nat, e: nat)
    requires IsBreakAt(text, p) && p < e <= |text|
    requires e == |text| || text[e] == '\n'
    ensures IsBreakAt(text[p..e], 0)
  {
    var after := text[p + 1..];
    if StartsWith(after, "Chapter") {
      WordSurvivesCut(text, p, e, "Chapter");
    } else if StartsWith(after, "Part") {
      WordSurvivesCut(text, p, e, "Part");
    } else {
      WordSurvivesCut(text, p, e, "Epilogue");
    }
  }

  /** No break inside `section` except possibly at its first character. */
  predicate NoInnerBreak(section: string) {
    forall q :: 0 < q < |section| ==> !IsBreakAt(section, q)
  }

  /** A slice of `text` with no break of `text` strictly inside has none of its own. */
  lemma SliceNoInnerBreak(text: string, a: nat, b: nat)
    requires a <= b <= |text|
    requires forall q :: a < q < b ==> !IsBreakAt(text, q)
    ensures NoInnerBreak(text[a..b])
  {
    forall q | 0 < q < b - a
      ensures !IsBreakAt(text[a..b], q)
    {
      if IsBreakAt(text[a..b], q) {
        BreakInSlice(text, a, b, q);
      }
    }
  }

  /** The first section of the scan from `(start, p)` and how the rest continues. */
  lemma {:induction false} SectionsFromCover(text: string, start: nat, p: nat)
    requires start <= p <= |text|
    ensures var sections := SectionsFrom(text, start, p);
      && |sections| >= 1
      && Concat(sections) == text[start..]
      && p <= start + |sections[0]| <= |text|
      && sections[0] == text[start..start + |sections[0]|]
      && (start + |sections[0]| == |text| || IsBreakAt(text, start + |sections[0]|))
      && (forall q :: p <= q < start + |sections[0]| ==> !IsBreakAt(text, q))
      && (start + |sections[0]| == |text| ==> |sections| == 1)
      && (start + |sections[0]| < |text| ==>
            sections[1..] == SectionsFrom(text, start + |sections[0]|, start + |sections[0]| + 1))
    decreases |text| - p
  {
    var sections := SectionsFrom(text, start, p);
    if p == |text| {
      assert Concat(sections) == text[start..] + Concat([]);
    } else if IsBreakAt(text, p) {
      var rest := SectionsFrom(text, p, p + 1);
      SectionsFromCover(text, p, p + 1);
      assert sections == [text[start..p]] + rest;
      assert sections[1..] == rest;
      assert text[start..] == text[start..p] + text[p..];
    } else {
      SectionsFromCover(text, start, p + 1);
    }
  }

  /** The section the scan opens at a break starts with that break. */
  lemma SectionAtBreak(text: string, e: nat)
    requires IsBreakAt(text, e)
    ensures |SectionsFrom(text, e, e + 1)| >= 1
    ensures IsBreakAt(SectionsFrom(text, e, e + 1)[0], 0)
  {
    SectionsFromCover(text, e, e + 1);
    var first := SectionsFrom(text, e, e + 1)[0];
    BreakSurvivesCut(text, e, e + |first|);
  }

  /** Every section of the scan after the first starts with a break. */
  lemma {:induction false} SectionsFromStartAtBreaks(text: string, start: nat, p: nat)
    requires start <= p <= |text|
    ensures var sections := SectionsFrom(text, start, p);
      forall i :: 1 <= i < |sections| ==> IsBreakAt(sections[i], 0)
    decreases |text| - start, |text| - p
  {
    var sections := SectionsFrom(text, start, p);
    SectionsFromCover(text, start, p);
    var e := start + |sections[0]|;
    if e < |text| {
      var rest := SectionsFrom(text, e, e + 1);
      assert sections[1..] == rest;
      SectionAtBreak(text, e);
      SectionsFromStartAtBreaks(text, e, e + 1);
      forall i | 1 <= i < |sections|
        ensures IsBreakAt(sections[i], 0)
      {
        assert sections[i] == rest[i - 1];
      }
    }
  }

  /** No section of the scan holds a break except at its start. */
  lemma {:induction false} SectionsFromNoInnerBreak(text: string, start: nat, p: nat)
    requires start <= p <= |text|
    requires forall q :: start < q < p ==> !IsBreakAt(text, q)
    ensures var sections := SectionsFrom(text, start, p);
      forall i :: 0 <= i < |sections| ==> NoInnerBreak(sections[i])
    decreases |text| - start, |text| - p
  {
    var sections := SectionsFrom(text, start, p);
    SectionsFromCover(text, start, p);
    var e := start + |sections[0]|;
    SliceNoInnerBreak(text, start, e);
    if e < |text| {
      var rest := SectionsFrom(text, e, e + 1);
      assert sections[1..] == rest;
      SectionsFromNoInnerBreak(text, e, e + 1);
      forall i | 1 <= i < |sections|
        ensures NoInnerBreak(sections[i])
      {
        assert sections[i] == rest[i - 1];
      }
    }
  }

  /**
   * `re.split(r'(?=\n(?:Chapter|Part|Epilogue))', text)`: the sections
   * concatenate back to the text; every section after the first starts with a
   * break; no section holds a break anywhere but at its start; and the first
   * section never starts with one (it is empty when the text does).
   */
  function Sections(text: string): (sections: seq<string>)
    ensures |sections| >= 1
    ensures Concat(sections) == text
    ensures forall i :: 1 <= i < |sections| ==> IsBreakAt(sections[i], 0)
    ensures forall i :: 0 <= i < |sections| ==> NoInnerBreak(sections[i])
    ensures !IsBreakAt(sections[0], 0)
  {
    SectionsFromCover(text, 0, 0);
    SectionsFromStartAtBreaks(text, 0, 0);
    SectionsFromNoInnerBreak(text, 0, 0);
    var sections := SectionsFrom(text, 0, 0);
    assert IsBreakAt(sections[0], 0) ==> IsBreakAt(text, 0) by {
      if IsBreakAt(sections[0], 0) {
        BreakInSlice(text, 0, |sections[0]|, 0);
      }
    }
    sections
  }

  /** A break at the start of `text[e..b]` is a break of the longer slice `text[a..b]`. */
  lemma BreakInLongerSlice(text: string, a: nat, e: nat, b: nat)
    requires a <= e <= b <= |text| && IsBreakAt(text[e..b], 0)
    ensures IsBreakAt(text[a..b], e - a)
  {
    var longer := text[a..b];
    assert longer[e - a..|longer|] == text[e..b];
    BreakInSlice(longer, e - a, |longer|, 0);
  }

  /** The rest of a concatenation after its first piece. */
  lemma ConcatTail(sections: seq<string>)
    requires |sections| >= 1
    ensures Concat(sections) == sections[0] + Concat(sections[1..])
    ensures |sections| >= 2 ==> |Concat(sections[1..])| >= |sections[1]|
  {
    if |sections| >= 2 {
      assert Concat(sections[1..]) == sections[1] + Concat(sections[1..][1..]);
    }
  }

  /** A suffix of `text` written as `x + y` is the slice for `x` followed by the slice for `y`. */
  lemma SuffixParts(text: string, start: nat, x: string, y: string)
    requires start <= |text| && text[start..] == x + y
    ensures start + |x| <= |text|
    ensures x == text[start..start + |x|] && y == text[start + |x|..]
  {
    assert (x + y)[..|x|] == x;
    assert (x + y)[|x|..] == y;
  }

  /** Where the first piece of a list of sections of `text[start..]` ends, and what follows it. */
  lemma PartitionFirst(text: string, start: nat, sections: seq<string>)
    requires start <= |text|
    requires |sections| >= 1 && Concat(sections) == text[start..]
    requires forall i :: 1 <= i < |sections| ==> IsBreakAt(sections[i], 0)
    ensures var cut := start + |sections[0]|;
      && cut <= |text|
      && sections[0] == text[start..cut]
      && Concat(sections[1..]) == text[cut..]
      && (cut == |text| || IsBreakAt(text, cut))
      && (cut == |text| ==> |sections| == 1)
  {
    ConcatTail(sections);
    SuffixParts(text, start, sections[0], Concat(sections[1..]));
    var cut := start + |sections[0]|;
    if |sections| >= 2 {
      var rest := sections[1..];
      ConcatTail(rest);
      SuffixParts(text, cut, rest[0], Concat(rest[1..]));
      BreakInSlice(text, cut, cut + |rest[0]|, 0);
    }
  }

  /**
   * A section that starts at `start`, ends at a break or at the end of the
   * text, and holds no break inside, ends where the scan's first section does.
   */
  lemma CutIsScanEnd(text: string, start: nat, cut: nat)
    requires start < cut <= |text|
    requires cut == |text| || IsBreakAt(text, cut)
    requires NoInnerBreak(text[start..cut])
    ensures |SectionsFrom(text, start, start + 1)| >= 1
    ensures start + |SectionsFrom(text, start, start + 1)[0]| == cut
  {
    SectionsFromCover(text, start, start + 1);
    var end := start + |SectionsFrom(text, start, start + 1)[0]|;
    if end < cut {
      BreakSurvivesCut(text, end, cut);
      BreakInLongerSlice(text, start, end, cut);
    }
  }

  /**
   * A non-empty first section followed by sections that each start with a
   * break, none holding a break inside, is what the scan from `start` yields.
   */
  lemma {:induction false} ScanUnique(text: string, start: nat, sections: seq<string>)
    requires start <= |text|
    requires |sections| >= 1 && Concat(sections) == text[start..] && sections[0] != ""
    requires forall i :: 1 <= i < |sections| ==> IsBreakAt(sections[i], 0)
    requires forall i :: 0 <= i < |sections| ==> NoInnerBreak(sections[i])
    ensures start < |text| && sections == SectionsFrom(text, start, start + 1)
    decreases |sections|
  {
    PartitionFirst(text, start, sections);
    var cut := start + |sections[0]|;
    CutIsScanEnd(text, start, cut);
    SectionsFromCover(text, start, start + 1);
    var scan := SectionsFrom(text, start, start + 1);
    if cut < |text| {
      var rest := sections[1..];
      assert forall i :: 1 <= i < |rest| ==> IsBreakAt(rest[i], 0) by {
        assert forall i :: 1 <= i < |rest| ==> rest[i] == sections[i + 1];
      }
      assert rest[0] == sections[1];
      ScanUnique(text, cut, rest);
      assert sections == [sections[0]] + rest;
      assert scan == [scan[0]] + scan[1..];
    }
  }

  /** When the text starts with a break, the first section is empty and the scan goes on from 0. */
  lemma UniqueAtBreak(text: string, sections: seq<string>)
    requires IsBreakAt(text, 0)
    requires |sections| >= 1 && Concat(sections) == text[0..]
    requires forall i :: 1 <= i < |sections| ==> IsBreakAt(sections[i], 0)
    requires forall i :: 0 <= i < |sections| ==> NoInnerBreak(sections[i])
    requires !IsBreakAt(sections[0], 0)
    ensures sections == SectionsFrom(text, 0, 0)
  {
    PartitionFirst(text, 0, sections);
    var first := sections[0];
    if first != "" {
      BreakSurvivesCut(text, 0, |first|);
    }
    var rest := sections[1..];
    assert forall i :: 1 <= i < |rest| ==> IsBreakAt(rest[i], 0) by {
      assert forall i :: 1 <= i < |rest| ==> rest[i] == sections[i + 1];
    }
    ScanUnique(text, 0, rest);
    assert sections == [first] + rest;
  }

  /** When a non-empty text does not start with a break, the scan's first section starts at 0. */
  lemma UniqueNoBreak(text: string, sections: seq<string>)
    requires text != [] && !IsBreakAt(text, 0)
    requires |sections| >= 1 && Concat(sections) == text[0..]
    requires forall i :: 1 <= i < |sections| ==> IsBreakAt(sections[i], 0)
    requires forall i :: 0 <= i < |sections| ==> NoInnerBreak(sections[i])
    ensures sections == SectionsFrom(text, 0, 0)
  {
    PartitionFirst(text, 0, sections);
    ScanUnique(text, 0, sections);
  }

  /**
   * The contract of `Sections` determines it: any list of sections that
   * concatenates to `text`, whose later sections start with a break, whose
   * sections hold no break inside, and whose first section does not start
   * with a break, is `Sections(text)`.
   */
  lemma SectionsUnique(text: string, sections: seq<string>)
    requires |sections| >= 1 && Concat(sections) == text
    requires forall i :: 1 <= i < |sections| ==> IsBreakAt(sections[i], 0)
    requires forall i :: 0 <= i < |sections| ==> NoInnerBreak(sections[i])
    requires !IsBreakAt(sections[0], 0)
    ensures sections == Sections(text)
  {
    assert text[0..] == text;
    if text == "" {
      PartitionFirst(text, 0, sections);
      assert sections == [""];
    } else if IsBreakAt(text, 0) {
      UniqueAtBreak(text, sections);
    } else {
      UniqueNoBreak(text, sections);
    }
  }

  /** A section is kept as a chunk when its stripped length exceeds the minimum. */
  predicate IsChunk(section: string) {
    |Strip(section)| > MIN_CHUNK_LENGTH
  }

  /** `a` is `b` with some elements left out and the rest in their order. */
  predicate IsSubsequence<T(==)>(a: seq<T>, b: seq<T>)
    decreases |b|
  {
    if a == [] then true
    else if b == [] then false
    else (a[0] == b[0] && IsSubsequence(a[1..], b[1..])) || IsSubsequence(a, b[1..])
  }

  /** How many of `sections` are long enough to be kept, counting repeats. */
  function CountChunks(sections: seq<string>): nat
    decreases |sections|
  {
    if sections == [] then 0
    else (if IsChunk(sections[0]) then 1 else 0) + CountChunks(sections[1..])
  }

  /**
   * `[s for s in sections if len(s.strip()) > 100]`: a subsequence of the
   * sections made of long sections only, as many as there are long sections,
   * so every long section is kept, each as often as it occurs.
   */
  function KeepChunks(sections: seq<string>): (chunks: seq<string>)
    ensures forall k :: 0 <= k < |chunks| ==> IsChunk(chunks[k])
    ensures forall k :: 0 <= k < |sections| && IsChunk(sections[k]) ==> sections[k] in chunks
    ensures |chunks| == CountChunks(sections)
    ensures IsSubsequence(chunks, sections)
    decreases |sections|
  {
    if sections == [] then []
    else
      var rest := KeepChunks(sections[1..]);
      assert forall k :: 1 <= k < |sections| ==> sections[k] == sections[1..][k - 1];
      if IsChunk(sections[0]) then
        assert ([sections[0]] + rest)[1..] == rest;
        [sections[0]] + rest
      else
        assert IsSubsequence(rest, sections[1..]);
        rest
  }

  /** A subsequence made of long sections only has at most as many elements as there are long sections. */
  lemma {:induction false} ChunkSubsequenceBound(chunks: seq<string>, sections: seq<string>)
    requires IsSubsequence(chunks, sections)
    requires forall k :: 0 <= k < |chunks| ==> IsChunk(chunks[k])
    ensures |chunks| <= CountChunks(sections)
    decreases |sections|
  {
    if chunks != [] && sections != [] {
      if chunks[0] == sections[0] && IsSubsequence(chunks[1..], sections[1..]) {
        ChunkSubsequenceBound(chunks[1..], sections[1..]);
      } else {
        ChunkSubsequenceBound(chunks, sections[1..]);
      }
    }
  }

  /**
   * The contract of `KeepChunks` determines it: a subsequence of the sections
   * made of long sections only, with one element per long section, is the
   * filtered list.
   */
  lemma {:induction false} KeepChunksUnique(chunks: seq<string>, sections: seq<string>)
    requires IsSubsequence(chunks, sections)
    requires forall k :: 0 <= k < |chunks| ==> IsChunk(chunks[k])
    requires |chunks| == CountChunks(sections)
    ensures chunks == KeepChunks(sections)
    decreases |sections|
  {
    if sections != [] {
      var rest := sections[1..];
      if IsChunk(sections[0]) {
        if !(chunks[0] == sections[0] && IsSubsequence(chunks[1..], rest)) {
          ChunkSubsequenceBound(chunks, rest);
        }
        KeepChunksUnique(chunks[1..], rest);
        assert chunks == [chunks[0]] + chunks[1..];
      } else {
        assert chunks != [] ==> chunks[0] != sections[0];
        KeepChunksUnique(chunks, rest);
      }
    }
  }

  /**
   * `split_into_chunks(text)`: the long sections of the split, in order. Every
   * chunk has a stripped length above the minimum, every such section is kept
   * as often as it occurs, and the chunks are the sections with the short ones
   * left out.
   */
  function SplitIntoChunks(text: string): (chunks: seq<string>)
    ensures forall k :: 0 <= k < |chunks| ==> IsChunk(chunks[k])
    ensures forall k :: 0 <= k < |Sections(text)| && IsChunk(Sections(text)[k]) ==> Sections(text)[k] in chunks
    ensures |chunks| == CountChunks(Sections(text))
    ensures IsSubsequence(chunks, Sections(text))
  {
    KeepChunks(Sections(text))
  }

  /** No break after `p`: the scan returns the rest of the text as one section. */
  lemma {:induction false} NoBreakOneSection(text: string, start: nat, p: nat)
    requires start <= p <= |text|
    requires forall q :: p <= q ==> !IsBreakAt(text, q)
    ensures SectionsFrom(text, start, p) == [text[start..]]
    decreases |text| - p
  {
    if p < |text| {
      NoBreakOneSection(text, start, p + 1);
    }
  }

  /** A text without breaks whose stripped length exceeds the minimum is one chunk, itself. */
  lemma WholeTextOneChunk(text: string)
    requires forall q :: !IsBreakAt(text, q)
    requires IsChunk(text)
    ensures SplitIntoChunks(text) == [text]
  {
    NoBreakOneSection(text, 0, 0);
    assert text[0..] == text;
    assert Sections(text) == [text];
  }

  /** The empty text yields no chunk (the empty and missing documents are skipped anyway). */
  lemma EmptyTextNoChunk()
    ensures SplitIntoChunks("") == []
  {
    NoBreakOneSection("", 0, 0);
  }

  /** The marker word needs no word boundary after it: `\nParty` is a break. */
  lemma PartyIsBreak()
    ensures IsBreakAt("Intro\nParty", 5)
  {
    assert "Intro\nParty"[6..][..4] == "Part";
  }
}
