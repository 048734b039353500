/**
  chunk_by_paragraphs (index_documents.py): the text is split at every
  blank line, text.split("\n\n") taking the separators left to right; the
  pieces are stripped and the blank ones dropped; the paragraphs are then
  packed greedily, joined by a blank line, into chunks of at most
  max_chars characters.
 */
module Paragraphs {
  import opened Text
  import opened Packing

  /** The default max_chars of chunk_by_paragraphs. */
  const DefaultMaxChars := 1000

  /** What separates paragraphs, and what joins them again in a chunk. */
  const BlankLine: string := "\n\n"

  /** A blank line, "\n\n", starts at `i`. */
  predicate BlankLineAt(s: string, i: nat)
    requires i + 1 < |s|
  {
    s[i] == '\n' && s[i + 1] == '\n'
  }

  /**
    The pieces str.split("\n\n") returns, as windows of `s`: scanning from
    `i`, the current piece starting at `lo`. A separator found at `i` ends
    the piece and the scan resumes after it.
   */
  function SplitWindows(s: string, lo: nat, i: nat): (ws: seq<Window>)
    requires lo <= i <= |s|
    ensures |ws| > 0 && WithinText(ws, |s|)
    decreases |s| - i
  {
    if i + 1 >= |s| then [Window(lo, |s|)]
    else if BlankLineAt(s, i) then [Window(lo, i)] + SplitWindows(s, i + 2, i + 2)
    else SplitWindows(s, lo, i + 1)
  }

  /** text.split("\n\n"): at least one piece, the empty string alone for an empty text. */
  function ParagraphPieces(text: string): (pieces: seq<string>)
    ensures |pieces| >= 1
    ensures text == [] ==> pieces == [[]]
  {
    Slices(text, SplitWindows(text, 0, 0))
  }

  /** [p.strip() for p in text.split("\n\n") if p.strip()]. */
  function ParagraphUnits(text: string): (units: seq<string>)
    ensures |units| <= |ParagraphPieces(text)|
    ensures forall i :: 0 <= i < |units| ==> Stripped(units[i])
  {
    StrippedNonEmpty(ParagraphPieces(text))
  }

  /**
    What chunk_by_paragraphs returns: stripped chunks, no more than the
    paragraphs, and none only for a text with no paragraph.
   */
  function ParagraphChunks(text: string, maxChars: int): (chunks: seq<string>)
    ensures |chunks| <= |ParagraphUnits(text)|
    ensures chunks == [] <==> ParagraphUnits(text) == []
    ensures forall i :: 0 <= i < |chunks| ==> Stripped(chunks[i])
  {
    PackedChunksStripped(ParagraphUnits(text), BlankLine, maxChars);
    PackedChunks(ParagraphUnits(text), BlankLine, maxChars)
  }

  lemma BlankLineIsWhitespace()
    ensures AllWhitespace(BlankLine)
  {
  }

  /** "\n\n".join(text.split("\n\n")) == text, from the scan's current piece on. */
  lemma {:induction false} SplitWindowsJoin(s: string, lo: nat, i: nat)
    requires lo <= i <= |s|
    ensures Join(Slices(s, SplitWindows(s, lo, i)), BlankLine) == s[lo..]
    decreases |s| - i
  {
    var ws := SplitWindows(s, lo, i);
    if i + 1 >= |s| {
      assert ws == [Window(lo, |s|)];
      assert Slices(s, ws)[0] == s[lo..|s|] == s[lo..];
      assert Slices(s, ws) == [s[lo..]];
    } else if BlankLineAt(s, i) {
      var rest := SplitWindows(s, i + 2, i + 2);
      assert ws == [Window(lo, i)] + rest;
      SplitWindowsJoin(s, i + 2, i + 2);
      JoinAcrossBlankLine(s, lo, i, rest);
    } else {
      assert ws == SplitWindows(s, lo, i + 1);
      SplitWindowsJoin(s, lo, i + 1);
    }
  }

  /** The step of SplitWindowsJoin at a separator. */
  lemma JoinAcrossBlankLine(s: string, lo: nat, i: nat, rest: seq<Window>)
    requires lo <= i && i + 1 < |s| && BlankLineAt(s, i)
    requires |rest| > 0 && WithinText(rest, |s|)
    requires Join(Slices(s, rest), BlankLine) == s[i + 2..]
    ensures Join(Slices(s, [Window(lo, i)] + rest), BlankLine) == s[lo..]
  {
    var piece := s[lo..i];
    var tail := Slices(s, rest);
    assert Join(Slices(s, [Window(lo, i)] + rest), BlankLine) == piece + BlankLine + s[i + 2..] by {
      SlicesCons(s, Window(lo, i), rest);
      JoinAppend([piece], tail, BlankLine);
      assert Join([piece], BlankLine) == piece;
    }
    assert s[lo..] == piece + BlankLine + s[i + 2..] by {
      assert s[i..i + 2] == BlankLine;
      SuffixSplit(s, lo, i);
      SuffixSplit(s, i, i + 2);
      AppendAssoc(piece, BlankLine, s[i + 2..]);
    }
  }

  /** No separator lies inside window `w`. */
  predicate NoBlankLineIn(s: string, w: Window)
    requires w.hi <= |s|
  {
    forall m :: w.lo <= m && m + 1 < w.hi ==> !BlankLineAt(s, m)
  }

  /** No piece holds a blank line: every separator was split at. */
  lemma {:induction false} SplitWindowsMaximal(s: string, lo: nat, i: nat)
    requires lo <= i <= |s|
    requires forall m :: lo <= m < i && m + 1 < |s| ==> !BlankLineAt(s, m)
    ensures forall k :: 0 <= k < |SplitWindows(s, lo, i)| ==> NoBlankLineIn(s, SplitWindows(s, lo, i)[k])
    decreases |s| - i
  {
    var ws := SplitWindows(s, lo, i);
    if i + 1 >= |s| {
      assert ws == [Window(lo, |s|)];
    } else if BlankLineAt(s, i) {
      var rest := SplitWindows(s, i + 2, i + 2);
      assert ws == [Window(lo, i)] + rest;
      SplitWindowsMaximal(s, i + 2, i + 2);
      forall k | 0 <= k < |ws| ensures NoBlankLineIn(s, ws[k]) {
        if k > 0 {
          assert ws[k] == rest[k - 1];
        }
      }
    } else {
      assert ws == SplitWindows(s, lo, i + 1);
      SplitWindowsMaximal(s, lo, i + 1);
    }
  }

  /**
    The separators are taken leftmost first: a piece followed by another
    never ends with a newline (that newline and the first of the separator
    would have been split at instead).
   */
  lemma {:induction false} SplitWindowsLeftmost(s: string, lo: nat, i: nat)
    requires lo <= i <= |s|
    requires lo < i < |s| ==> !(s[i - 1] == '\n' && s[i] == '\n')
    ensures forall k :: 0 <= k < |SplitWindows(s, lo, i)| - 1 ==>
      SplitWindows(s, lo, i)[k].lo == SplitWindows(s, lo, i)[k].hi || s[SplitWindows(s, lo, i)[k].hi - 1] != '\n'
    decreases |s| - i
  {
    var ws := SplitWindows(s, lo, i);
    if i + 1 >= |s| {
      assert ws == [Window(lo, |s|)];
    } else if BlankLineAt(s, i) {
      var rest := SplitWindows(s, i + 2, i + 2);
      assert ws == [Window(lo, i)] + rest;
      SplitWindowsLeftmost(s, i + 2, i + 2);
      forall k | 0 <= k < |ws| - 1 ensures ws[k].lo == ws[k].hi || s[ws[k].hi - 1] != '\n' {
        if k > 0 {
          assert ws[k] == rest[k - 1];
        }
      }
    } else {
      assert ws == SplitWindows(s, lo, i + 1);
      SplitWindowsLeftmost(s, lo, i + 1);
    }
  }

  /** Joining the pieces with "\n\n" gives the text back. */
  lemma ParagraphPiecesJoin(text: string)
    ensures Join(ParagraphPieces(text), BlankLine) == text
  {
    SplitWindowsJoin(text, 0, 0);
  }

  /** A string holds no blank line. */
  predicate HasNoBlankLine(p: string) {
    forall m :: 0 <= m && m + 1 < |p| ==> !(p[m] == '\n' && p[m + 1] == '\n')
  }

  /**
    What text.split("\n\n") promises besides the round trip: no piece holds
    the separator, and no piece but the last ends with a newline.
   */
  lemma ParagraphPiecesShape(text: string)
    ensures forall k :: 0 <= k < |ParagraphPieces(text)| ==> HasNoBlankLine(ParagraphPieces(text)[k])
    ensures forall k :: 0 <= k < |ParagraphPieces(text)| - 1 ==>
      ParagraphPieces(text)[k] == [] || ParagraphPieces(text)[k][|ParagraphPieces(text)[k]| - 1] != '\n'
  {
    var ws := SplitWindows(text, 0, 0);
    var pieces := ParagraphPieces(text);
    SplitWindowsMaximal(text, 0, 0);
    SplitWindowsLeftmost(text, 0, 0);
    forall k | 0 <= k < |pieces| ensures HasNoBlankLine(pieces[k]) {
      var w := ws[k];
      assert NoBlankLineIn(text, w);
      forall m | 0 <= m && m + 1 < |pieces[k]| ensures !(pieces[k][m] == '\n' && pieces[k][m + 1] == '\n') {
        assert pieces[k][m] == text[w.lo + m] && pieces[k][m + 1] == text[w.lo + m + 1];
        assert !BlankLineAt(text, w.lo + m);
      }
    }
    forall k | 0 <= k < |pieces| - 1 ensures pieces[k] == [] || pieces[k][|pieces[k]| - 1] != '\n' {
      assert pieces[k] == text[ws[k].lo..ws[k].hi];
    }
  }

  /** The paragraphs keep every visible character of the text, once and in order. */
  lemma ParagraphUnitsKeepText(text: string)
    ensures NonWs(Concat(ParagraphUnits(text))) == NonWs(text)
  {
    ParagraphPiecesJoin(text);
    BlankLineIsWhitespace();
    NonWsJoin(ParagraphPieces(text), BlankLine);
    NonWsStrippedNonEmpty(ParagraphPieces(text));
  }

  /** The loop of chunk_by_paragraphs after the first `k` paragraphs. */
  predicate ParagraphLoopState(paragraphs: seq<string>, k: nat, maxChars: int, chunks: seq<string>, current: string) {
    k <= |paragraphs| && PackState(paragraphs[..k], BlankLine, maxChars, chunks, current)
  }

  /** Before the first paragraph there is no chunk and nothing being built. */
  lemma ParagraphLoopStart(paragraphs: seq<string>, maxChars: int)
    ensures ParagraphLoopState(paragraphs, 0, maxChars, [], [])
  {
    assert paragraphs[..0] == [];
    assert PackedChunks([], BlankLine, maxChars) == [];
  }

  /**
    One pass of chunk_by_paragraphs' loop, on paragraph `k`: it is appended
    to the current chunk after a blank line while
    len(current) + len(para) + 2 <= max_chars, and else closes the current
    chunk and opens the next.
   */
  method PackParagraph(paragraphs: seq<string>, k: nat, maxChars: int, chunks: seq<string>, current: string)
    returns (chunks': seq<string>, current': string)
    requires forall i :: 0 <= i < |paragraphs| ==> Stripped(paragraphs[i])
    requires k < |paragraphs| && ParagraphLoopState(paragraphs, k, maxChars, chunks, current)
    ensures ParagraphLoopState(paragraphs, k + 1, maxChars, chunks', current')
  {
    var para := paragraphs[k];
    assert paragraphs[..k + 1] == paragraphs[..k] + [para];
    BlankLineIsWhitespace();
    chunks', current' := chunks, current;
    if |current| + |para| + 2 <= maxChars {
      PackStepFits(paragraphs[..k], para, BlankLine, maxChars, chunks, current);
      current' := Strip(current + BlankLine + para);
    } else {
      PackStepOpens(paragraphs[..k], para, BlankLine, maxChars, chunks, current);
      if current != [] {
        chunks' := chunks + [current];
      }
      current' := para;
    }
  }

  /**
    The loop of chunk_by_paragraphs over the paragraphs, with the flush of
    the last chunk after it: the paragraphs, packed.
   */
  method PackParagraphs(paragraphs: seq<string>, maxChars: int) returns (chunks: seq<string>)
    requires forall i :: 0 <= i < |paragraphs| ==> Stripped(paragraphs[i])
    ensures chunks == PackedChunks(paragraphs, BlankLine, maxChars)
  {
    chunks := [];
    var current := "";
    ParagraphLoopStart(paragraphs, maxChars);
    for k := 0 to |paragraphs|
      invariant ParagraphLoopState(paragraphs, k, maxChars, chunks, current)
    {
      chunks, current := PackParagraph(paragraphs, k, maxChars, chunks, current);
    }
    assert paragraphs[..|paragraphs|] == paragraphs;
    PackStateFinal(paragraphs, BlankLine, maxChars, chunks, current);
    chunks := if current == [] then chunks else chunks + [current];
  }

  /**
    chunk_by_paragraphs: the paragraphs packed, joined by a blank line,
    into chunks of at most max_chars characters unless one paragraph alone
    is longer. Joined with a blank line, the chunks are the paragraphs
    joined with a blank line.
   */
  method ChunkByParagraphs(text: string, maxChars: int) returns (chunks: seq<string>)
    ensures chunks == ParagraphChunks(text, maxChars)
    ensures forall i :: 0 <= i < |chunks| ==> Stripped(chunks[i])
    ensures forall i :: 0 <= i < |chunks| ==> |chunks[i]| <= maxChars || chunks[i] in ParagraphUnits(text)
    ensures Join(chunks, BlankLine) == Join(ParagraphUnits(text), BlankLine)
    ensures NonWs(Concat(chunks)) == NonWs(text)
  {
    var paragraphs := ParagraphUnits(text);
    chunks := PackParagraphs(paragraphs, maxChars);
    ParagraphChunksProperties(text, maxChars);
  }

  /**
    What chunk_by_paragraphs promises of its chunks: each is within
    max_chars unless it is one longer paragraph; joined by blank lines they
    are the paragraphs joined by blank lines; and they keep the text's
    visible characters, in order.
   */
  lemma ParagraphChunksProperties(text: string, maxChars: int)
    ensures var chunks := ParagraphChunks(text, maxChars);
      && (forall i :: 0 <= i < |chunks| ==> |chunks[i]| <= maxChars || chunks[i] in ParagraphUnits(text))
      && Join(chunks, BlankLine) == Join(ParagraphUnits(text), BlankLine)
      && NonWs(Concat(chunks)) == NonWs(text)
  {
    var paragraphs := ParagraphUnits(text);
    var chunks := ParagraphChunks(text, maxChars);
    PackedChunksBounded(paragraphs, BlankLine, maxChars);
    PackedChunksJoin(paragraphs, BlankLine, maxChars);
    BlankLineIsWhitespace();
    NonWsJoin(chunks, BlankLine);
    NonWsJoin(paragraphs, BlankLine);
    ParagraphUnitsKeepText(text);
  }
}
