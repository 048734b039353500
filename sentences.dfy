/**
  chunk_by_sentences (index_documents.py): the text is cut after every
  '.', '!' or '?' that is followed by whitespace, the whitespace itself
  being dropped (re.split with the look-behind pattern (?<=[.!?])\s+);
  the stripped, non-blank sentences are then packed greedily, joined by a
  single space, into chunks of at most max_chars characters.
 */
module Sentences {
  import opened Text
  import opened Packing

  /** The default max_chars of chunk_by_sentences. */
  const DefaultMaxChars := 800

  /** The characters that may end a sentence. */
  predicate IsTerminator(c: char) {
    c == '.' || c == '!' || c == '?'
  }

  /** The split pattern can match at `i`: a terminator just before it, whitespace at it. */
  predicate BoundaryAt(s: string, i: nat)
    requires 0 < i < |s|
  {
    IsTerminator(s[i - 1]) && IsWhitespace(s[i])
  }

  /**
    The pieces re.split returns, as windows of `s`: scanning from `i`, the
    current piece starting at `lo`. At a boundary the piece ends and the
    whole whitespace run (the pattern's greedy \s+) is skipped.
   */
  function SentenceWindows(s: string, lo: nat, i: nat): (ws: seq<Window>)
    requires lo <= i <= |s|
    ensures |ws| > 0 && WithinText(ws, |s|)
    decreases |s| - i
  {
    if i == |s| then [Window(lo, |s|)]
    else if 0 < i && BoundaryAt(s, i) then
      var j := SkipWhitespace(s, i);
      [Window(lo, i)] + SentenceWindows(s, j, j)
    else SentenceWindows(s, lo, i + 1)
  }

  /** re.split(r"(?<=[.!?])\s+", text): at least one piece, the empty string alone for an empty text. */
  function SentencePieces(text: string): (pieces: seq<string>)
    ensures |pieces| >= 1
    ensures text == [] ==> pieces == [[]]
  {
    Slices(text, SentenceWindows(text, 0, 0))
  }

  /** The sentences the loop packs: the pieces stripped, blank ones dropped. */
  function SentenceUnits(text: string): (units: seq<string>)
    ensures |units| <= |SentencePieces(text)|
    ensures forall i :: 0 <= i < |units| ==> Stripped(units[i])
  {
    StrippedNonEmpty(SentencePieces(text))
  }

  /**
    What chunk_by_sentences returns: stripped chunks, no more than the
    sentences, and none only for a text with no sentence.
   */
  function SentenceChunks(text: string, maxChars: int): (chunks: seq<string>)
    ensures |chunks| <= |SentenceUnits(text)|
    ensures chunks == [] <==> SentenceUnits(text) == []
    ensures forall i :: 0 <= i < |chunks| ==> Stripped(chunks[i])
  {
    PackedChunksStripped(SentenceUnits(text), " ", maxChars);
    PackedChunks(SentenceUnits(text), " ", maxChars)
  }

  /** The pieces run from where the scan's piece starts to the end of the text. */
  lemma {:induction false} SentenceWindowsCover(s: string, lo: nat, i: nat)
    requires lo <= i <= |s|
    ensures SentenceWindows(s, lo, i)[0].lo == lo
    ensures SentenceWindows(s, lo, i)[|SentenceWindows(s, lo, i)| - 1].hi == |s|
    decreases |s| - i
  {
    if i < |s| {
      if 0 < i && BoundaryAt(s, i) {
        var j := SkipWhitespace(s, i);
        SentenceWindowsCover(s, j, j);
      } else {
        SentenceWindowsCover(s, lo, i + 1);
      }
    }
  }

  /**
    Between pieces `k` and `k + 1` lies exactly one match of the pattern:
    a non-empty run of whitespace right after a terminator, running up to
    the next non-whitespace character or the end of the text.
   */
  predicate SentenceGap(s: string, ws: seq<Window>, k: nat)
    requires k + 1 < |ws| && WithinText(ws, |s|)
  {
    && 0 < ws[k].hi < ws[k + 1].lo
    && BoundaryAt(s, ws[k].hi)
    && (forall m :: ws[k].hi <= m < ws[k + 1].lo ==> IsWhitespace(s[m]))
    && (ws[k + 1].lo == |s| || !IsWhitespace(s[ws[k + 1].lo]))
  }

  /** Consecutive pieces are separated by a match of the pattern and by nothing else. */
  lemma {:induction false} SentenceWindowsGaps(s: string, lo: nat, i: nat)
    requires lo <= i <= |s|
    ensures forall k :: 0 <= k < |SentenceWindows(s, lo, i)| - 1 ==> SentenceGap(s, SentenceWindows(s, lo, i), k)
    decreases |s| - i
  {
    if i < |s| {
      if 0 < i && BoundaryAt(s, i) {
        var j := SkipWhitespace(s, i);
        var rest := SentenceWindows(s, j, j);
        var ws := [Window(lo, i)] + rest;
        SentenceWindowsGaps(s, j, j);
        SentenceWindowsCover(s, j, j);
        SkipWhitespaceSkips(s, i);
        forall k | 0 <= k < |ws| - 1 ensures SentenceGap(s, ws, k) {
          if k > 0 {
            assert SentenceGap(s, rest, k - 1);
          }
        }
      } else {
        SentenceWindowsGaps(s, lo, i + 1);
      }
    }
  }

  /** No match of the pattern falls inside window `w`. */
  predicate NoBoundaryIn(s: string, w: Window)
    requires w.hi <= |s|
  {
    forall m :: w.lo < m < w.hi ==> !BoundaryAt(s, m)
  }

  /** No piece holds a place where the pattern matches: every match was split at. */
  lemma {:induction false} SentenceWindowsMaximal(s: string, lo: nat, i: nat)
    requires lo <= i <= |s|
    requires forall m :: lo < m < i ==> !BoundaryAt(s, m)
    ensures forall k :: 0 <= k < |SentenceWindows(s, lo, i)| ==> NoBoundaryIn(s, SentenceWindows(s, lo, i)[k])
    decreases |s| - i
  {
    if i < |s| {
      if 0 < i && BoundaryAt(s, i) {
        var j := SkipWhitespace(s, i);
        var rest := SentenceWindows(s, j, j);
        SentenceWindowsMaximal(s, j, j);
        var ws := [Window(lo, i)] + rest;
        forall k | 0 <= k < |ws| ensures NoBoundaryIn(s, ws[k]) {
          if k > 0 {
            assert ws[k] == rest[k - 1];
          }
        }
      } else {
        SentenceWindowsMaximal(s, lo, i + 1);
      }
    }
  }

  /** The pieces keep every visible character of the text, once and in order. */
  lemma {:induction false} SentenceWindowsKeepText(s: string, lo: nat, i: nat)
    requires lo <= i <= |s|
    ensures NonWs(Concat(Slices(s, SentenceWindows(s, lo, i)))) == NonWs(s[lo..])
    decreases |s| - i
  {
    var ws := SentenceWindows(s, lo, i);
    if i == |s| {
      assert ws == [Window(lo, |s|)];
      assert Slices(s, ws)[0] == s[lo..|s|] == s[lo..];
      assert Slices(s, ws) == [s[lo..]];
      ConcatSingleton(s[lo..]);
    } else if 0 < i && BoundaryAt(s, i) {
      var j := SkipWhitespace(s, i);
      var rest := SentenceWindows(s, j, j);
      assert ws == [Window(lo, i)] + rest;
      SentenceWindowsKeepText(s, j, j);
      SkipWhitespaceSkips(s, i);
      KeepTextAcrossGap(s, lo, i, j, rest);
    } else {
      assert ws == SentenceWindows(s, lo, i + 1);
      SentenceWindowsKeepText(s, lo, i + 1);
    }
  }

  /** The step of SentenceWindowsKeepText at a split: the dropped whitespace holds nothing visible. */
  lemma KeepTextAcrossGap(s: string, lo: nat, i: nat, j: nat, rest: seq<Window>)
    requires lo <= i <= j <= |s| && WithinText(rest, |s|)
    requires forall k :: i <= k < j ==> IsWhitespace(s[k])
    requires NonWs(Concat(Slices(s, rest))) == NonWs(s[j..])
    ensures NonWs(Concat(Slices(s, [Window(lo, i)] + rest))) == NonWs(s[lo..])
  {
    var piece := s[lo..i];
    var tail := Concat(Slices(s, rest));
    SlicesCons(s, Window(lo, i), rest);
    assert Concat(Slices(s, [Window(lo, i)] + rest)) == piece + tail by {
      ConcatAppend([piece], Slices(s, rest));
      ConcatSingleton(piece);
    }
    NonWsAppend(piece, tail);
    GapInvisible(s, i, j);
    assert s[lo..] == piece + s[i..];
    NonWsAppend(piece, s[i..]);
  }

  /** A run of whitespace holds no visible character. */
  lemma GapInvisible(s: string, i: nat, j: nat)
    requires i <= j <= |s|
    requires forall k :: i <= k < j ==> IsWhitespace(s[k])
    ensures NonWs(s[i..]) == NonWs(s[j..])
  {
    var gap := s[i..];
    forall m | 0 <= m < j - i ensures IsWhitespace(gap[m]) {
      assert gap[m] == s[i + m];
    }
    NonWsDropWhitespace(gap, j - i);
    assert gap[j - i..] == s[j..];
  }

  /** The sentences keep every visible character of the text, once and in order. */
  lemma SentenceUnitsKeepText(text: string)
    ensures NonWs(Concat(SentenceUnits(text))) == NonWs(text)
  {
    SentenceWindowsKeepText(text, 0, 0);
    NonWsStrippedNonEmpty(SentencePieces(text));
  }

  /** The chunks keep every visible character of the text, once and in order. */
  lemma SentenceChunksKeepText(text: string, maxChars: int)
    ensures NonWs(Concat(SentenceChunks(text, maxChars))) == NonWs(text)
  {
    var units := SentenceUnits(text);
    var chunks := SentenceChunks(text, maxChars);
    PackedChunksJoin(units, " ", maxChars);
    NonWsJoin(chunks, " ");
    NonWsJoin(units, " ");
    SentenceUnitsKeepText(text);
  }

  /** The sentences the loop has kept from the first `k` pieces: stripped, the blank ones dropped. */
  function KeptSentences(pieces: seq<string>, k: nat): (units: seq<string>)
    requires k <= |pieces|
    ensures forall i :: 0 <= i < |units| ==> Stripped(units[i])
  {
    if k == 0 then []
    else
      var rest := KeptSentences(pieces, k - 1);
      var p := Strip(pieces[k - 1]);
      if p == [] then rest else rest + [p]
  }

  /** The kept sentences are the stripped, non-blank pieces of the prefix. */
  lemma {:induction false} KeptSentencesPrefix(pieces: seq<string>, k: nat)
    requires k <= |pieces|
    ensures KeptSentences(pieces, k) == StrippedNonEmpty(pieces[..k])
  {
    if k > 0 {
      KeptSentencesPrefix(pieces, k - 1);
      assert pieces[..k][..k - 1] == pieces[..k - 1];
      assert pieces[..k][k - 1] == pieces[k - 1];
    }
  }

  /** The loop of chunk_by_sentences after the first `k` pieces. */
  predicate SentenceLoopState(pieces: seq<string>, k: nat, maxChars: int, chunks: seq<string>, current: string) {
    k <= |pieces| && PackState(KeptSentences(pieces, k), " ", maxChars, chunks, current)
  }

  /** Before the first piece there is no chunk and nothing being built. */
  lemma SentenceLoopStart(pieces: seq<string>, maxChars: int)
    ensures SentenceLoopState(pieces, 0, maxChars, [], [])
  {
    assert PackedChunks([], " ", maxChars) == [];
  }

  /** A piece that is blank once stripped is skipped. */
  lemma SentenceStepSkips(pieces: seq<string>, k: nat, maxChars: int, chunks: seq<string>, current: string)
    requires k < |pieces| && Strip(pieces[k]) == []
    requires SentenceLoopState(pieces, k, maxChars, chunks, current)
    ensures SentenceLoopState(pieces, k + 1, maxChars, chunks, current)
  {
    assert KeptSentences(pieces, k + 1) == KeptSentences(pieces, k);
  }

  /** A sentence that fits is appended to the current chunk after a space. */
  lemma SentenceStepFits(pieces: seq<string>, k: nat, maxChars: int, chunks: seq<string>, current: string)
    requires k < |pieces| && Strip(pieces[k]) != []
    requires |current| + |Strip(pieces[k])| + 1 <= maxChars
    requires SentenceLoopState(pieces, k, maxChars, chunks, current)
    ensures SentenceLoopState(pieces, k + 1, maxChars, chunks, Strip(current + " " + Strip(pieces[k])))
  {
    assert KeptSentences(pieces, k + 1) == KeptSentences(pieces, k) + [Strip(pieces[k])];
    PackStepFits(KeptSentences(pieces, k), Strip(pieces[k]), " ", maxChars, chunks, current);
  }

  /** A sentence that does not fit closes the current chunk and opens the next. */
  lemma SentenceStepOpens(pieces: seq<string>, k: nat, maxChars: int, chunks: seq<string>, current: string)
    requires k < |pieces| && Strip(pieces[k]) != []
    requires |current| + |Strip(pieces[k])| + 1 > maxChars
    requires SentenceLoopState(pieces, k, maxChars, chunks, current)
    ensures SentenceLoopState(pieces, k + 1, maxChars, if current == [] then chunks else chunks + [current], Strip(pieces[k]))
  {
    assert KeptSentences(pieces, k + 1) == KeptSentences(pieces, k) + [Strip(pieces[k])];
    PackStepOpens(KeptSentences(pieces, k), Strip(pieces[k]), " ", maxChars, chunks, current);
  }

  /** After the last piece, the chunk being built is the last chunk. */
  lemma SentenceLoopEnd(pieces: seq<string>, maxChars: int, chunks: seq<string>, current: string)
    requires SentenceLoopState(pieces, |pieces|, maxChars, chunks, current)
    ensures (if current == [] then chunks else chunks + [current]) == PackedChunks(StrippedNonEmpty(pieces), " ", maxChars)
  {
    KeptSentencesPrefix(pieces, |pieces|);
    assert pieces[..|pieces|] == pieces;
    PackStateFinal(KeptSentences(pieces, |pieces|), " ", maxChars, chunks, current);
  }

  /**
    One pass of chunk_by_sentences' loop, on piece `k`: the piece is
    stripped and skipped when blank; otherwise it is appended to the
    current chunk after a space while len(current) + len(sentence) + 1 <=
    max_chars, and else closes the current chunk and opens the next.
   */
  method PackSentence(pieces: seq<string>, k: nat, maxChars: int, chunks: seq<string>, current: string)
    returns (chunks': seq<string>, current': string)
    requires k < |pieces| && SentenceLoopState(pieces, k, maxChars, chunks, current)
    ensures SentenceLoopState(pieces, k + 1, maxChars, chunks', current')
  {
    chunks', current' := chunks, current;
    var sent := Strip(pieces[k]);
    if sent == [] {
      SentenceStepSkips(pieces, k, maxChars, chunks, current);
      return;
    }
    if |current| + |sent| + 1 <= maxChars {
      SentenceStepFits(pieces, k, maxChars, chunks, current);
      current' := Strip(current + " " + sent);
    } else {
      SentenceStepOpens(pieces, k, maxChars, chunks, current);
      if current != [] {
        chunks' := chunks + [current];
      }
      current' := sent;
    }
  }

  /**
    The loop of chunk_by_sentences over the pieces, with the flush of the
    last chunk after it: the stripped, non-blank pieces, packed.
   */
  method PackSentences(pieces: seq<string>, maxChars: int) returns (chunks: seq<string>)
    ensures chunks == PackedChunks(StrippedNonEmpty(pieces), " ", maxChars)
  {
    chunks := [];
    var current := "";
    SentenceLoopStart(pieces, maxChars);
    for k := 0 to |pieces|
      invariant SentenceLoopState(pieces, k, maxChars, chunks, current)
    {
      chunks, current := PackSentence(pieces, k, maxChars, chunks, current);
    }
    SentenceLoopEnd(pieces, maxChars, chunks, current);
    chunks := if current == [] then chunks else chunks + [current];
  }

  /**
    chunk_by_sentences: the text split into sentences, which are packed,
    joined by a space, into chunks of at most max_chars characters unless
    one sentence alone is longer.
   */
  method ChunkBySentences(text: string, maxChars: int) returns (chunks: seq<string>)
    ensures chunks == SentenceChunks(text, maxChars)
    ensures forall i :: 0 <= i < |chunks| ==> Stripped(chunks[i])
    ensures forall i :: 0 <= i < |chunks| ==> |chunks[i]| <= maxChars || chunks[i] in SentenceUnits(text)
    ensures Join(chunks, " ") == Join(SentenceUnits(text), " ")
    ensures NonWs(Concat(chunks)) == NonWs(text)
  {
    var sentences := SentencePieces(text);
    chunks := PackSentences(sentences, maxChars);
    SentenceChunksProperties(text, maxChars);
  }

  /**
    What chunk_by_sentences promises of its chunks: each is within max_chars
    unless it is one longer sentence; joined by spaces they are the
    sentences joined by spaces; and they keep the text's visible
    characters, in order.
   */
  lemma SentenceChunksProperties(text: string, maxChars: int)
    ensures var chunks := SentenceChunks(text, maxChars);
      && (forall i :: 0 <= i < |chunks| ==> |chunks[i]| <= maxChars || chunks[i] in SentenceUnits(text))
      && Join(chunks, " ") == Join(SentenceUnits(text), " ")
      && NonWs(Concat(chunks)) == NonWs(text)
  {
    PackedChunksBounded(SentenceUnits(text), " ", maxChars);
    PackedChunksJoin(SentenceUnits(text), " ", maxChars);
    SentenceChunksKeepText(text, maxChars);
  }
}
