/**
  chunk_fixed (index_documents.py): fixed-size character windows, each
  stripped, blank ones skipped.

  As written, the loop steps `start` to `min(start + chunk_size, len) -
  overlap`, clamped at 0, and only stops once `start >= len`. Once a window
  reaches the end of the text the next `start` is `len - overlap` again, so
  with a positive overlap the loop never stops on a non-empty text
  (FixedLoopNeverExits). ChunkFixedAsWritten is the source's loop where it
  does stop; ChunkFixed is the loop with the evidently intended exit after
  the window that reaches the end, and the rest of the model uses it.
 */
module FixedChunker {
  import opened Common
  import opened Text

  /** The default parameters of chunk_fixed. */
  const DefaultChunkSize := 800
  const DefaultOverlap := 200

  /**
    The value of `start` after one iteration of the source's loop: never
    negative, and never past `len - overlap`.
   */
  function FixedStep(start: int, chunkSize: int, overlap: int, length: nat): (next: int)
    ensures 0 <= next <= Max(length - overlap, 0)
  {
    Max(Min(start + chunkSize, length) - overlap, 0)
  }

  /** The value of `start` after `n` iterations of the source's loop. */
  function StartAfter(n: nat, chunkSize: int, overlap: int, length: nat): (start: int)
    ensures n == 0 ==> start == 0
    ensures n > 0 ==> 0 <= start <= Max(length - overlap, 0)
  {
    if n == 0 then 0 else FixedStep(StartAfter(n - 1, chunkSize, overlap, length), chunkSize, overlap, length)
  }

  /**
    No iteration takes `start` to the end of a non-empty text when the
    overlap is positive, or when it is at least the chunk size and `start`
    is inside the text.
   */
  lemma FixedStepStaysInside(start: int, chunkSize: int, overlap: int, length: nat)
    requires length > 0
    requires overlap > 0 || (overlap >= chunkSize && 0 <= start < length)
    ensures 0 <= FixedStep(start, chunkSize, overlap, length) < length
  {
  }

  /**
    The source's loop never exits on a non-empty text when the overlap is
    positive or at least the chunk size: its guard `start < len` holds after
    every number of iterations.
   */
  lemma {:induction false} FixedLoopNeverExits(n: nat, chunkSize: int, overlap: int, length: nat)
    requires length > 0 && (overlap > 0 || overlap >= chunkSize)
    ensures 0 <= StartAfter(n, chunkSize, overlap, length) < length
  {
    if n > 0 {
      FixedLoopNeverExits(n - 1, chunkSize, overlap, length);
      FixedStepStaysInside(StartAfter(n - 1, chunkSize, overlap, length), chunkSize, overlap, length);
    }
  }

  /**
    With no positive overlap and the overlap below the chunk size, every
    iteration inside the text moves `start` strictly forward.
   */
  lemma FixedStepAdvances(start: int, chunkSize: int, overlap: int, length: nat)
    requires 0 <= start < length
    requires overlap <= 0 && overlap < chunkSize
    ensures FixedStep(start, chunkSize, overlap, length) > start
  {
  }

  /**
    In the other case the source's loop does exit, after at most `len`
    iterations: `n` is the first iteration count at which `start >= len`.
   */
  lemma FixedLoopExits(chunkSize: int, overlap: int, length: nat) returns (n: nat)
    requires overlap <= 0 && overlap < chunkSize
    ensures n <= length && StartAfter(n, chunkSize, overlap, length) >= length
    ensures forall k :: 0 <= k < n ==> StartAfter(k, chunkSize, overlap, length) < length
  {
    n := FixedLoopExitsFrom(0, chunkSize, overlap, length);
  }

  /** FixedLoopExits from iteration `m` on, `start` having advanced at least `m` by then. */
  lemma {:induction false} FixedLoopExitsFrom(m: nat, chunkSize: int, overlap: int, length: nat) returns (n: nat)
    requires overlap <= 0 && overlap < chunkSize
    requires m <= length && m <= StartAfter(m, chunkSize, overlap, length)
    requires forall k :: 0 <= k < m ==> StartAfter(k, chunkSize, overlap, length) < length
    ensures m <= n <= length && StartAfter(n, chunkSize, overlap, length) >= length
    ensures forall k :: 0 <= k < n ==> StartAfter(k, chunkSize, overlap, length) < length
    decreases length - m
  {
    var start := StartAfter(m, chunkSize, overlap, length);
    if start >= length {
      n := m;
    } else {
      FixedStepAdvances(start, chunkSize, overlap, length);
      assert StartAfter(m + 1, chunkSize, overlap, length) == FixedStep(start, chunkSize, overlap, length);
      n := FixedLoopExitsFrom(m + 1, chunkSize, overlap, length);
    }
  }

  /**
    Where the source's loop stalls: `max(len - overlap, 0)` when the chunk
    size is at least the overlap, 0 otherwise, is a fixed point of the step.
   */
  lemma FixedStepFixpoint(chunkSize: int, overlap: int, length: nat)
    requires length > 0 && overlap > 0
    ensures var p := if chunkSize >= overlap then Max(length - overlap, 0) else 0;
      0 <= p < length && FixedStep(p, chunkSize, overlap, length) == p
  {
  }

  /** With the defaults on a 1000-character text, `start` runs 0, 600, 800, 800, ... */
  lemma DefaultsStall()
    ensures StartAfter(1, DefaultChunkSize, DefaultOverlap, 1000) == 600
    ensures StartAfter(2, DefaultChunkSize, DefaultOverlap, 1000) == 800
    ensures FixedStep(800, DefaultChunkSize, DefaultOverlap, 1000) == 800
  {
  }

  /**
    The windows the loop cuts from `start` on, stopping after the window that
    reaches the end of the text.
   */
  function Windows(length: nat, chunkSize: int, overlap: int, start: nat): (ws: seq<Window>)
    requires start >= length || (0 < chunkSize && overlap < chunkSize)
    ensures WithinText(ws, length)
    decreases length - start
  {
    if start >= length then []
    else
      var end := Min(start + chunkSize, length);
      if end == length then [Window(start, end)]
      else [Window(start, end)] + Windows(length, chunkSize, overlap, Max(end - overlap, 0))
  }

  /** Each window is at most `chunkSize` long and ends where the text or the chunk size ends. */
  predicate WindowsInside(ws: seq<Window>, length: nat, chunkSize: int, start: nat) {
    forall i :: 0 <= i < |ws| ==>
      start <= ws[i].lo < ws[i].hi <= length && ws[i].hi == Min(ws[i].lo + chunkSize, length)
  }

  /**
    Window `i + 1` follows window `i`: window `i` stops short of the end, and
    the next one starts `overlap` characters before it ended (clamped at 0),
    strictly further on.
   */
  predicate NextWindow(ws: seq<Window>, i: nat, overlap: int, length: nat)
    requires i + 1 < |ws|
  {
    ws[i].hi < length && ws[i + 1].lo == Max(ws[i].hi - overlap, 0) && ws[i].lo < ws[i + 1].lo
  }

  /** Every window lies in the text and is at most `chunkSize` long. */
  lemma {:induction false} WindowsInsideText(length: nat, chunkSize: int, overlap: int, start: nat)
    requires start >= length || (0 < chunkSize && overlap < chunkSize)
    ensures WindowsInside(Windows(length, chunkSize, overlap, start), length, chunkSize, start)
    decreases length - start
  {
    if start < length {
      var end := Min(start + chunkSize, length);
      if end < length {
        var next := Max(end - overlap, 0);
        WindowsInsideText(length, chunkSize, overlap, next);
        var rest := Windows(length, chunkSize, overlap, next);
        var ws := [Window(start, end)] + rest;
        forall i | 0 <= i < |ws|
          ensures start <= ws[i].lo < ws[i].hi <= length && ws[i].hi == Min(ws[i].lo + chunkSize, length)
        {
          if i > 0 {
            assert ws[i] == rest[i - 1];
          }
        }
      }
    }
  }

  /** Each window after the first starts `overlap` before the previous one ended, further on. */
  lemma {:induction false} WindowsLinked(length: nat, chunkSize: int, overlap: int, start: nat)
    requires start >= length || (0 < chunkSize && overlap < chunkSize)
    ensures forall i :: 0 <= i < |Windows(length, chunkSize, overlap, start)| - 1 ==>
      NextWindow(Windows(length, chunkSize, overlap, start), i, overlap, length)
    decreases length - start
  {
    if start < length {
      var end := Min(start + chunkSize, length);
      if end < length {
        var next := Max(end - overlap, 0);
        WindowsLinked(length, chunkSize, overlap, next);
        var rest := Windows(length, chunkSize, overlap, next);
        var ws := [Window(start, end)] + rest;
        forall i | 0 <= i < |ws| - 1 ensures NextWindow(ws, i, overlap, length) {
          if i > 0 {
            assert NextWindow(rest, i - 1, overlap, length);
          }
        }
      }
    }
  }

  /**
    The windows from `start`: none once `start` is past the text, otherwise
    the first starts at `start` and, unless a negative overlap skips past
    it, the last reaches the end of the text.
   */
  lemma {:induction false} WindowsReachEnd(length: nat, chunkSize: int, overlap: int, start: nat)
    requires start >= length || (0 < chunkSize && overlap < chunkSize)
    ensures var ws := Windows(length, chunkSize, overlap, start);
      && (start >= length <==> ws == [])
      && (start < length ==> ws[0].lo == start)
      && (start < length && overlap >= 0 ==> ws[|ws| - 1].hi == length)
    decreases length - start
  {
    if start < length {
      var end := Min(start + chunkSize, length);
      if end < length {
        var next := Max(end - overlap, 0);
        WindowsReachEnd(length, chunkSize, overlap, next);
      }
    }
  }

  /** What chunk_fixed returns, once its loop stops after the last window. */
  function FixedChunks(text: string, chunkSize: int, overlap: int): (chunks: seq<string>)
    requires |text| == 0 || (0 < chunkSize && overlap < chunkSize)
    ensures |chunks| <= |Windows(|text|, chunkSize, overlap, 0)|
    ensures forall i :: 0 <= i < |chunks| ==> Stripped(chunks[i])
  {
    StrippedNonEmpty(Slices(text, Windows(|text|, chunkSize, overlap, 0)))
  }

  /** An empty text gives no chunk. */
  lemma FixedChunksOfEmpty(chunkSize: int, overlap: int)
    ensures FixedChunks([], chunkSize, overlap) == []
  {
  }

  /**
    Every chunk is non-empty, has no surrounding whitespace, is at most
    `chunkSize` long, and is text[lo:hi].strip() for one of the windows.
   */
  lemma FixedChunkShape(text: string, chunkSize: int, overlap: int, k: nat) returns (w: Window)
    requires |text| == 0 || (0 < chunkSize && overlap < chunkSize)
    requires k < |FixedChunks(text, chunkSize, overlap)|
    ensures w in Windows(|text|, chunkSize, overlap, 0)
    ensures 0 <= w.lo < w.hi <= |text| && w.hi - w.lo <= chunkSize
    ensures FixedChunks(text, chunkSize, overlap)[k] == Strip(text[w.lo..w.hi])
    ensures Stripped(FixedChunks(text, chunkSize, overlap)[k])
    ensures |FixedChunks(text, chunkSize, overlap)[k]| <= chunkSize
  {
    var ws := Windows(|text|, chunkSize, overlap, 0);
    WindowsInsideText(|text|, chunkSize, overlap, 0);
    var j := StrippedNonEmptyOrigin(Slices(text, ws), k);
    w := ws[j];
  }

  /** Every chunk is stripped and at most `chunkSize` long. */
  lemma FixedChunksBounded(text: string, chunkSize: int, overlap: int)
    requires |text| == 0 || (0 < chunkSize && overlap < chunkSize)
    ensures forall i :: 0 <= i < |FixedChunks(text, chunkSize, overlap)| ==>
      Stripped(FixedChunks(text, chunkSize, overlap)[i]) && |FixedChunks(text, chunkSize, overlap)[i]| <= chunkSize
  {
    forall i | 0 <= i < |FixedChunks(text, chunkSize, overlap)|
      ensures Stripped(FixedChunks(text, chunkSize, overlap)[i]) && |FixedChunks(text, chunkSize, overlap)[i]| <= chunkSize
    {
      var _ := FixedChunkShape(text, chunkSize, overlap, i);
    }
  }

  /**
    With a non-negative overlap, each window after the first starts exactly
    `overlap` characters before the previous one ended.
   */
  lemma FixedWindowsOverlap(length: nat, chunkSize: int, overlap: int, i: nat)
    requires 0 <= overlap < chunkSize
    requires i + 1 < |Windows(length, chunkSize, overlap, 0)|
    ensures var ws := Windows(length, chunkSize, overlap, 0);
      ws[i + 1].lo == ws[i].hi - overlap && ws[i].hi - ws[i].lo == chunkSize
  {
    WindowsInsideText(length, chunkSize, overlap, 0);
    WindowsLinked(length, chunkSize, overlap, 0);
    assert NextWindow(Windows(length, chunkSize, overlap, 0), i, overlap, length);
  }

  /** One iteration of the loop: the window at `start`, then the windows after it. */
  lemma WindowsUnfold(length: nat, chunkSize: int, overlap: int, start: nat)
    requires start < length && 0 < chunkSize && overlap < chunkSize
    ensures var end := Min(start + chunkSize, length);
      Windows(length, chunkSize, overlap, start) ==
        [Window(start, end)] + (if end == length then [] else Windows(length, chunkSize, overlap, Max(end - overlap, 0)))
  {
  }

  /**
    One iteration on the list of all windows: the windows still to cut from
    `start` are the one at `start` and those from the next start on. In the
    source's loop, with no positive overlap, the next start after the last
    window is past the end.
   */
  lemma WindowsStep(length: nat, chunkSize: int, overlap: int, start: nat, done: seq<Window>, all: seq<Window>)
    requires start < length && 0 < chunkSize && overlap < chunkSize
    requires all == done + Windows(length, chunkSize, overlap, start)
    ensures var end := Min(start + chunkSize, length);
      && all == (done + [Window(start, end)]) +
        (if end == length then [] else Windows(length, chunkSize, overlap, Max(end - overlap, 0)))
      && (end == length && overlap <= 0 ==> Windows(length, chunkSize, overlap, Max(end - overlap, 0)) == [])
  {
    WindowsUnfold(length, chunkSize, overlap, start);
  }

  /**
    What chunk_fixed's loop keeps at the top of each iteration: the windows
    `done` already cut and the windows from `start` on make up all the
    windows, and `chunks` are the stripped, non-blank slices of `done`.
   */
  predicate FixedLoopState(text: string, chunkSize: int, overlap: int, start: nat, done: seq<Window>, all: seq<Window>, chunks: seq<string>)
    requires |text| == 0 || (0 < chunkSize && overlap < chunkSize)
  {
    && all == done + Windows(|text|, chunkSize, overlap, start)
    && WithinText(done, |text|)
    && chunks == StrippedNonEmpty(Slices(text, done))
  }

  /**
    An iteration of the loop, cutting the window from `start` to `end`, that
    stops short of the end of the text keeps the loop's state, with the next
    start `overlap` characters before `end`, clamped at 0.
   */
  lemma FixedLoopNext(text: string, chunkSize: int, overlap: int, start: nat, end: nat, done: seq<Window>, all: seq<Window>, chunks: seq<string>)
    requires start < |text| && 0 < chunkSize && overlap < chunkSize
    requires end == Min(start + chunkSize, |text|) && end < |text|
    requires FixedLoopState(text, chunkSize, overlap, start, done, all, chunks)
    ensures var chunk := Strip(text[start..end]);
      FixedLoopState(text, chunkSize, overlap, Max(end - overlap, 0),
        done + [Window(start, end)], all, if chunk == [] then chunks else chunks + [chunk])
  {
    var w := Window(start, end);
    WindowsStep(|text|, chunkSize, overlap, start, done, all);
    assert all == (done + [w]) + Windows(|text|, chunkSize, overlap, Max(end - overlap, 0));
    ChunksStep(text, done, w);
  }

  /** The iteration whose window reaches the end of the text cuts the last window. */
  lemma FixedLoopLast(text: string, chunkSize: int, overlap: int, start: nat, end: nat, done: seq<Window>, all: seq<Window>, chunks: seq<string>)
    requires start < |text| && 0 < chunkSize && overlap < chunkSize
    requires end == Min(start + chunkSize, |text|) && end == |text|
    requires FixedLoopState(text, chunkSize, overlap, start, done, all, chunks)
    ensures var chunk := Strip(text[start..end]);
      && done + [Window(start, end)] == all
      && WithinText(all, |text|)
      && (if chunk == [] then chunks else chunks + [chunk]) == StrippedNonEmpty(Slices(text, all))
  {
    WindowsStep(|text|, chunkSize, overlap, start, done, all);
    ChunksStep(text, done, Window(start, end));
  }

  /**
    In the source's loop with no positive overlap, the iteration whose
    window reaches the end takes `start` past it and keeps the loop's state.
   */
  lemma FixedLoopPastEnd(text: string, chunkSize: int, overlap: int, start: nat, end: nat, done: seq<Window>, all: seq<Window>, chunks: seq<string>)
    requires start < |text| && 0 < chunkSize && overlap <= 0
    requires end == Min(start + chunkSize, |text|) && end == |text|
    requires FixedLoopState(text, chunkSize, overlap, start, done, all, chunks)
    ensures var chunk := Strip(text[start..end]);
      FixedLoopState(text, chunkSize, overlap, Max(end - overlap, 0),
        done + [Window(start, end)], all, if chunk == [] then chunks else chunks + [chunk])
  {
    WindowsStep(|text|, chunkSize, overlap, start, done, all);
    ChunksStep(text, done, Window(start, end));
  }

  /** One iteration on the chunks: the new window's slice, stripped, unless blank. */
  lemma ChunksStep(text: string, done: seq<Window>, w: Window)
    requires w.lo <= w.hi <= |text|
    requires WithinText(done, |text|)
    ensures WithinText(done + [w], |text|)
    ensures var c := Strip(text[w.lo..w.hi]);
      StrippedNonEmpty(Slices(text, done + [w])) ==
        StrippedNonEmpty(Slices(text, done)) + (if c == [] then [] else [c])
  {
    SlicesSnoc(text, done, w);
    StrippedNonEmptySnoc(Slices(text, done), text[w.lo..w.hi]);
  }

  /** With no overlap the windows tile the text from `start` on, in order. */
  lemma {:induction false} WindowsTile(text: string, chunkSize: int, start: nat)
    requires start <= |text|
    requires 0 < chunkSize
    ensures Concat(Slices(text, Windows(|text|, chunkSize, 0, start))) == text[start..]
    decreases |text| - start
  {
    if start < |text| {
      var end := Min(start + chunkSize, |text|);
      var rest := Windows(|text|, chunkSize, 0, end);
      var piece := text[start..end];
      calc {
        Concat(Slices(text, Windows(|text|, chunkSize, 0, start)));
        { WindowsUnfold(|text|, chunkSize, 0, start); }
        Concat(Slices(text, [Window(start, end)] + rest));
        { SlicesCons(text, Window(start, end), rest); }
        Concat([piece] + Slices(text, rest));
        { ConcatAppend([piece], Slices(text, rest)); assert [piece][..0] == []; }
        piece + Concat(Slices(text, rest));
        { WindowsTile(text, chunkSize, end); }
        piece + text[end..];
        text[start..];
      }
    }
  }

  /**
    With no overlap the chunks keep every visible character of the text,
    once and in text order.
   */
  lemma FixedChunksKeepText(text: string, chunkSize: int)
    requires 0 < chunkSize
    ensures NonWs(Concat(FixedChunks(text, chunkSize, 0))) == NonWs(text)
  {
    WindowsTile(text, chunkSize, 0);
    NonWsStrippedNonEmpty(Slices(text, Windows(|text|, chunkSize, 0, 0)));
  }

  /** The two windows of a 1000-character text under the defaults. */
  lemma DefaultWindows()
    ensures Windows(1000, DefaultChunkSize, DefaultOverlap, 0) == [Window(0, 800), Window(600, 1000)]
  {
  }

  /**
    chunk_fixed with the exit after the window that reaches the end of the
    text; everything else as in the source.
   */
  method ChunkFixed(text: string, chunkSize: int, overlap: int) returns (chunks: seq<string>)
    requires |text| == 0 || (0 < chunkSize && overlap < chunkSize)
    ensures chunks == FixedChunks(text, chunkSize, overlap)
    ensures forall i :: 0 <= i < |chunks| ==> Stripped(chunks[i]) && |chunks[i]| <= chunkSize
  {
    chunks := [];
    var start := 0;
    var length := |text|;
    ghost var done: seq<Window> := [];
    ghost var all := Windows(length, chunkSize, overlap, 0);
    while start < length
      invariant 0 <= start
      invariant FixedLoopState(text, chunkSize, overlap, start, done, all, chunks)
      decreases length - start
    {
      var end := Min(start + chunkSize, length);
      var chunk := Strip(text[start..end]);
      if end == length {
        FixedLoopLast(text, chunkSize, overlap, start, end, done, all, chunks);
      } else {
        FixedLoopNext(text, chunkSize, overlap, start, end, done, all, chunks);
      }
      ghost var next := Max(end - overlap, 0);
      if chunk != [] {
        chunks := chunks + [chunk];
      }
      done := done + [Window(start, end)];
      if end == length {
        FixedChunksBounded(text, chunkSize, overlap);
        return;
      }
      start := end - overlap;
      if start < 0 {
        start := 0;
      }
      assert start == next;
    }
    assert Windows(length, chunkSize, overlap, start) == [];
    assert done == all;
    FixedChunksBounded(text, chunkSize, overlap);
  }

  /**
    chunk_fixed exactly as the source writes it, where its loop stops: on
    an empty text, or with a positive chunk size and no positive overlap.
    There it returns what ChunkFixed returns.
   */
  method ChunkFixedAsWritten(text: string, chunkSize: int, overlap: int) returns (chunks: seq<string>)
    requires |text| == 0 || (0 < chunkSize && overlap <= 0)
    ensures chunks == FixedChunks(text, chunkSize, overlap)
  {
    chunks := [];
    var start := 0;
    var length := |text|;
    ghost var done: seq<Window> := [];
    ghost var all := Windows(length, chunkSize, overlap, 0);
    while start < length
      invariant 0 <= start
      invariant FixedLoopState(text, chunkSize, overlap, start, done, all, chunks)
      decreases length - start
    {
      var end := Min(start + chunkSize, length);
      var chunk := Strip(text[start..end]);
      if end == length {
        FixedLoopPastEnd(text, chunkSize, overlap, start, end, done, all, chunks);
      } else {
        FixedLoopNext(text, chunkSize, overlap, start, end, done, all, chunks);
      }
      ghost var next := Max(end - overlap, 0);
      if chunk != [] {
        chunks := chunks + [chunk];
      }
      done := done + [Window(start, end)];
      start := end - overlap;
      if start < 0 {
        start := 0;
      }
      assert start == next;
    }
    assert Windows(length, chunkSize, overlap, start) == [];
    assert done == all;
  }
}
