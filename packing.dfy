/**
  The greedy packing that chunk_by_sentences and chunk_by_paragraphs share
  (index_documents.py): units are taken in order and appended, after a
  separator, to the chunk being built while the chunk stays within the
  limit; a unit that does not fit closes that chunk and opens the next one.

  Groups is the grouping the loop builds, one unit at a time; GreedyGrouping
  says what such a grouping is without reference to the loop, and the two
  are proved to agree (GroupsAreGreedy, GreedyGroupingUnique).
 */
module Packing {
  import opened Text

  /**
    Unit `u` still fits after the units of `g`: the source's test
    len(current) + len(u) + len(sep) <= max_chars.
   */
  predicate Fits(g: seq<string>, u: string, sep: string, maxChars: int) {
    |Join(g, sep)| + |u| + |sep| <= maxChars
  }

  /** A unit that fits leaves its group, joined, within max_chars. */
  lemma FitsWithin(g: seq<string>, u: string, sep: string, maxChars: int)
    requires Fits(g, u, sep, maxChars)
    ensures |Join(g + [u], sep)| <= maxChars
  {
    assert (g + [u])[..|g|] == g;
  }

  /** The groups of consecutive units that become one chunk each, as the loop builds them. */
  function Groups(units: seq<string>, sep: string, maxChars: int): (gs: seq<seq<string>>)
    ensures |gs| <= |units|
    ensures |units| > 0 ==> |gs| > 0
    ensures forall i :: 0 <= i < |gs| ==> |gs[i]| > 0
    decreases |units|
  {
    if |units| == 0 then []
    else
      var gs := Groups(units[..|units| - 1], sep, maxChars);
      var u := units[|units| - 1];
      if |gs| > 0 && Fits(gs[|gs| - 1], u, sep, maxChars) then gs[..|gs| - 1] + [gs[|gs| - 1] + [u]]
      else gs + [[u]]
  }

  /** Each group joined with the separator. */
  function JoinEach(gs: seq<seq<string>>, sep: string): (cs: seq<string>)
    ensures |cs| == |gs|
  {
    seq(|gs|, i requires 0 <= i < |gs| => Join(gs[i], sep))
  }

  /**
    The chunks both chunkers return for their units: no more chunks than
    units, and none only when there is no unit.
   */
  function PackedChunks(units: seq<string>, sep: string, maxChars: int): (chunks: seq<string>)
    ensures |chunks| <= |units|
    ensures chunks == [] <==> units == []
  {
    JoinEach(Groups(units, sep, maxChars), sep)
  }

  /** Group `i + 1` was opened because its first unit did not fit after group `i`. */
  predicate ClosedAt(gs: seq<seq<string>>, i: nat, sep: string, maxChars: int)
    requires i + 1 < |gs| && |gs[i + 1]| > 0
  {
    !Fits(gs[i], gs[i + 1][0], sep, maxChars)
  }

  /**
    A greedy grouping of `units`: the groups are non-empty and hold the
    units in order; a group of two or more units is within the limit; and
    every group after the first starts with a unit that did not fit after
    the group before it.
   */
  predicate GreedyGrouping(gs: seq<seq<string>>, units: seq<string>, sep: string, maxChars: int) {
    && Concat(gs) == units
    && (forall i :: 0 <= i < |gs| ==> |gs[i]| > 0)
    && (forall i :: 0 <= i < |gs| && |gs[i]| > 1 ==> |Join(gs[i], sep)| <= maxChars)
    && (forall i :: 0 <= i < |gs| - 1 ==> ClosedAt(gs, i, sep, maxChars))
  }

  /** A unit put after a non-empty group lengthens its join by the separator and the unit. */
  lemma JoinSnoc(g: seq<string>, u: string, sep: string)
    requires |g| > 0
    ensures Join(g + [u], sep) == Join(g, sep) + sep + u
  {
    assert (g + [u])[..|g|] == g;
  }

  lemma ConcatSnoc<T>(gs: seq<seq<T>>, g: seq<T>)
    ensures Concat(gs + [g]) == Concat(gs) + g
  {
    assert (gs + [g])[..|gs|] == gs;
  }

  /** The loop's grouping is a greedy grouping. */
  lemma {:induction false} GroupsAreGreedy(units: seq<string>, sep: string, maxChars: int)
    ensures GreedyGrouping(Groups(units, sep, maxChars), units, sep, maxChars)
    decreases |units|
  {
    var n := |units|;
    if n > 0 {
      var init := units[..n - 1];
      var u := units[n - 1];
      var gs := Groups(init, sep, maxChars);
      assert units == init + [u];
      if |gs| > 0 && Fits(gs[|gs| - 1], u, sep, maxChars) {
        var gs' := gs[..|gs| - 1] + [gs[|gs| - 1] + [u]];
        assert GreedyGrouping(gs', units, sep, maxChars) by {
          GroupsAreGreedy(init, sep, maxChars);
          GreedyExtend(gs, init, u, sep, maxChars);
        }
        assert Groups(units, sep, maxChars) == gs';
      } else {
        assert GreedyGrouping(gs + [[u]], units, sep, maxChars) by {
          GroupsAreGreedy(init, sep, maxChars);
          GreedyOpen(gs, init, u, sep, maxChars);
        }
        assert Groups(units, sep, maxChars) == gs + [[u]];
      }
    }
  }

  /** Appending a unit that fits to the last group keeps a grouping greedy. */
  lemma GreedyExtend(gs: seq<seq<string>>, units: seq<string>, u: string, sep: string, maxChars: int)
    requires GreedyGrouping(gs, units, sep, maxChars)
    requires |gs| > 0 && Fits(gs[|gs| - 1], u, sep, maxChars)
    ensures GreedyGrouping(gs[..|gs| - 1] + [gs[|gs| - 1] + [u]], units + [u], sep, maxChars)
  {
    var m := |gs|;
    var front := gs[..m - 1];
    var last := gs[m - 1];
    var gs' := front + [last + [u]];
    assert gs == front + [last];
    ConcatSnoc(front, last);
    ConcatSnoc(front, last + [u]);
    JoinSnoc(last, u, sep);
    forall i | 0 <= i < |gs'| - 1 ensures ClosedAt(gs', i, sep, maxChars) {
      assert ClosedAt(gs, i, sep, maxChars);
      assert gs'[i] == gs[i];
      assert gs'[i + 1][0] == gs[i + 1][0];
    }
    forall i | 0 <= i < |gs'| && |gs'[i]| > 1 ensures |Join(gs'[i], sep)| <= maxChars {
      if i < m - 1 {
        assert gs'[i] == gs[i];
      }
    }
  }

  /** Opening a group for a unit that does not fit keeps a grouping greedy. */
  lemma GreedyOpen(gs: seq<seq<string>>, units: seq<string>, u: string, sep: string, maxChars: int)
    requires GreedyGrouping(gs, units, sep, maxChars)
    requires |gs| > 0 ==> !Fits(gs[|gs| - 1], u, sep, maxChars)
    ensures GreedyGrouping(gs + [[u]], units + [u], sep, maxChars)
  {
    var gs' := gs + [[u]];
    ConcatSnoc(gs, [u]);
    forall i | 0 <= i < |gs'| - 1 ensures ClosedAt(gs', i, sep, maxChars) {
      if i < |gs| - 1 {
        assert ClosedAt(gs, i, sep, maxChars);
      }
    }
  }

  /** A list of non-empty groups whose units run out is empty. */
  lemma ConcatOfNonEmpty<T>(gs: seq<seq<T>>)
    requires |gs| > 0 && |gs[|gs| - 1]| > 0
    ensures |Concat(gs)| > 0
  {
  }

  /** There is only one greedy grouping of a list of units: the one the loop builds. */
  lemma {:induction false} GreedyGroupingUnique(gs: seq<seq<string>>, units: seq<string>, sep: string, maxChars: int)
    requires GreedyGrouping(gs, units, sep, maxChars)
    ensures gs == Groups(units, sep, maxChars)
    decreases |units|, 1
  {
    if gs != [] {
      var front := gs[..|gs| - 1];
      var last := gs[|gs| - 1];
      var k := |last|;
      assert gs == front + [last];
      if k == 1 {
        assert last == [last[0]];
        UniqueOpen(front, last[0], units, sep, maxChars);
      } else {
        var lead := last[..k - 1];
        assert last == lead + [last[k - 1]];
        UniqueExtend(front, lead, last[k - 1], units, sep, maxChars);
      }
    }
  }

  /** GreedyGroupingUnique when the last group holds a single unit. */
  lemma {:induction false} UniqueOpen(front: seq<seq<string>>, u: string, units: seq<string>, sep: string, maxChars: int)
    requires GreedyGrouping(front + [[u]], units, sep, maxChars)
    ensures front + [[u]] == Groups(units, sep, maxChars)
    decreases |units|, 0
  {
    var gs := front + [[u]];
    var init := Concat(front);
    ConcatSnoc(front, [u]);
    assert units == init + [u];
    assert units[..|units| - 1] == init;
    GreedyDropLast(front, [u], sep, maxChars);
    GreedyGroupingUnique(front, init, sep, maxChars);
    if |front| > 0 {
      assert ClosedAt(gs, |front| - 1, sep, maxChars);
      assert gs[|front| - 1] == front[|front| - 1];
    }
  }

  /** GreedyGroupingUnique when the last group holds two or more units. */
  lemma {:induction false} UniqueExtend(front: seq<seq<string>>, lead: seq<string>, v: string, units: seq<string>, sep: string, maxChars: int)
    requires |lead| > 0
    requires GreedyGrouping(front + [lead + [v]], units, sep, maxChars)
    ensures front + [lead + [v]] == Groups(units, sep, maxChars)
    decreases |units|, 0
  {
    var gs := front + [lead + [v]];
    var gs2 := front + [lead];
    var init := Concat(front) + lead;
    ConcatSnoc(front, lead + [v]);
    ConcatSnoc(front, lead);
    assert units == init + [v];
    assert units[..|units| - 1] == init;
    GreedyShortenLast(front, lead, v, sep, maxChars);
    GreedyGroupingUnique(gs2, init, sep, maxChars);
    JoinSnoc(lead, v, sep);
    assert gs[|front|] == lead + [v];
    assert Fits(lead, v, sep, maxChars);
    assert gs2[..|gs2| - 1] == front && gs2[|gs2| - 1] == lead;
  }

  /** Dropping the last group leaves a greedy grouping of the other units. */
  lemma GreedyDropLast(front: seq<seq<string>>, last: seq<string>, sep: string, maxChars: int)
    requires GreedyGrouping(front + [last], Concat(front + [last]), sep, maxChars)
    ensures GreedyGrouping(front, Concat(front), sep, maxChars)
  {
    var gs := front + [last];
    forall i | 0 <= i < |front| ensures front[i] == gs[i] {
    }
    forall i | 0 <= i < |front| - 1 ensures ClosedAt(front, i, sep, maxChars) {
      assert ClosedAt(gs, i, sep, maxChars);
      assert front[i + 1] == gs[i + 1];
    }
  }

  /** Removing the last unit from a last group of two or more leaves a greedy grouping. */
  lemma GreedyShortenLast(front: seq<seq<string>>, lead: seq<string>, v: string, sep: string, maxChars: int)
    requires |lead| > 0
    requires GreedyGrouping(front + [lead + [v]], Concat(front + [lead + [v]]), sep, maxChars)
    ensures GreedyGrouping(front + [lead], Concat(front + [lead]), sep, maxChars)
  {
    var gs := front + [lead + [v]];
    var gs2 := front + [lead];
    JoinSnoc(lead, v, sep);
    forall i | 0 <= i < |gs2| - 1 ensures ClosedAt(gs2, i, sep, maxChars) {
      assert ClosedAt(gs, i, sep, maxChars);
      assert gs2[i + 1][0] == gs[i + 1][0];
    }
    forall i | 0 <= i < |gs2| && |gs2[i]| > 1 ensures |Join(gs2[i], sep)| <= maxChars {
      if i < |front| {
        assert gs2[i] == gs[i];
      } else {
        assert |Join(gs[i], sep)| <= maxChars;
      }
    }
  }

  /** An element of one of the lists is an element of their concatenation. */
  lemma {:induction false} ConcatHolds<T>(gs: seq<seq<T>>, i: nat, j: nat)
    requires i < |gs| && j < |gs[i]|
    ensures gs[i][j] in Concat(gs)
    decreases |gs|
  {
    var m := |gs|;
    assert Concat(gs) == Concat(gs[..m - 1]) + gs[m - 1];
    if i < m - 1 {
      ConcatHolds(gs[..m - 1], i, j);
    }
  }

  /** Each unit of each group is one of the units. */
  lemma GroupsHoldUnits(units: seq<string>, sep: string, maxChars: int, i: nat, j: nat)
    requires i < |Groups(units, sep, maxChars)| && j < |Groups(units, sep, maxChars)[i]|
    ensures Groups(units, sep, maxChars)[i][j] in units
  {
    GroupsAreGreedy(units, sep, maxChars);
    ConcatHolds(Groups(units, sep, maxChars), i, j);
  }

  /** Chunks built from stripped units are themselves stripped (non-empty, no whitespace at the ends). */
  lemma PackedChunksStripped(units: seq<string>, sep: string, maxChars: int)
    requires forall k :: 0 <= k < |units| ==> Stripped(units[k])
    ensures forall i :: 0 <= i < |PackedChunks(units, sep, maxChars)| ==> Stripped(PackedChunks(units, sep, maxChars)[i])
  {
    var gs := Groups(units, sep, maxChars);
    forall i | 0 <= i < |gs| ensures Stripped(Join(gs[i], sep)) {
      forall j | 0 <= j < |gs[i]| ensures Stripped(gs[i][j]) {
        GroupsHoldUnits(units, sep, maxChars, i, j);
      }
      JoinStripped(gs[i], sep);
    }
  }

  /** A chunk is longer than the limit only when it is a single unit that is. */
  lemma PackedChunksBounded(units: seq<string>, sep: string, maxChars: int)
    ensures forall i :: 0 <= i < |PackedChunks(units, sep, maxChars)| ==>
      |PackedChunks(units, sep, maxChars)[i]| <= maxChars || PackedChunks(units, sep, maxChars)[i] in units
  {
    var gs := Groups(units, sep, maxChars);
    GroupsAreGreedy(units, sep, maxChars);
    forall i | 0 <= i < |gs| ensures |Join(gs[i], sep)| <= maxChars || Join(gs[i], sep) in units {
      if |gs[i]| == 1 {
        GroupsHoldUnits(units, sep, maxChars, i, 0);
      }
    }
  }

  /**
    The greedy rule, on the chunks: a chunk of two or more units is within
    the limit, and a chunk was closed only because the first unit of the
    next did not fit: len(chunk) + len(sep) + len(unit) > max_chars.
   */
  lemma PackedChunksGreedy(units: seq<string>, sep: string, maxChars: int)
    ensures forall i :: 0 <= i < |Groups(units, sep, maxChars)| && |Groups(units, sep, maxChars)[i]| > 1 ==>
      |PackedChunks(units, sep, maxChars)[i]| <= maxChars
    ensures forall i :: 0 <= i < |Groups(units, sep, maxChars)| - 1 ==>
      |PackedChunks(units, sep, maxChars)[i]| + |sep| + |Groups(units, sep, maxChars)[i + 1][0]| > maxChars
  {
    var gs := Groups(units, sep, maxChars);
    GroupsAreGreedy(units, sep, maxChars);
    forall i | 0 <= i < |gs| - 1
      ensures |PackedChunks(units, sep, maxChars)[i]| + |sep| + |gs[i + 1][0]| > maxChars
    {
      assert ClosedAt(gs, i, sep, maxChars);
    }
  }

  /** Joining the joins of non-empty groups is joining all their units. */
  lemma {:induction false} JoinEachConcat(gs: seq<seq<string>>, sep: string)
    requires forall i :: 0 <= i < |gs| ==> |gs[i]| > 0
    ensures Join(JoinEach(gs, sep), sep) == Join(Concat(gs), sep)
    decreases |gs|
  {
    var m := |gs|;
    if m == 1 {
      assert gs[..0] == [];
      assert Concat(gs) == Concat(gs[..0]) + gs[0];
      assert Concat(gs) == gs[0];
      assert JoinEach(gs, sep) == [Join(gs[0], sep)];
      assert Join([Join(gs[0], sep)], sep) == Join(gs[0], sep);
    } else if m > 1 {
      var front := gs[..m - 1];
      JoinEachConcat(front, sep);
      assert JoinEach(gs, sep)[..m - 1] == JoinEach(front, sep);
      ConcatOfNonEmpty(front);
      assert Concat(gs) == Concat(front) + gs[m - 1];
      JoinAppend(Concat(front), gs[m - 1], sep);
    }
  }

  /**
    Nothing is lost, added or reordered: the chunks, joined with the
    separator, are the units joined with the separator.
   */
  lemma PackedChunksJoin(units: seq<string>, sep: string, maxChars: int)
    ensures Join(PackedChunks(units, sep, maxChars), sep) == Join(units, sep)
  {
    GroupsAreGreedy(units, sep, maxChars);
    JoinEachConcat(Groups(units, sep, maxChars), sep);
  }

  /**
    One step of the source's loop on strings: with `current` the last chunk
    so far, a unit that fits is appended to it as
    (current + sep + unit).strip(), and one that does not becomes the next
    chunk. This is what lets the loops keep only the chunks as strings.
   */
  lemma PackedChunksSnoc(units: seq<string>, u: string, sep: string, maxChars: int)
    requires forall k :: 0 <= k < |units| ==> Stripped(units[k])
    requires Stripped(u) && AllWhitespace(sep)
    ensures var cs := PackedChunks(units, sep, maxChars);
      var current := if cs == [] then [] else cs[|cs| - 1];
      PackedChunks(units + [u], sep, maxChars) ==
        if |current| + |u| + |sep| <= maxChars then
          (if cs == [] then [] else cs[..|cs| - 1]) + [Strip(current + sep + u)]
        else cs + [u]
  {
    assert (units + [u])[..|units|] == units;
    var gs := Groups(units, sep, maxChars);
    if gs == [] {
      assert sep + u == [] + sep + u;
      StripAfterWhitespace(sep, u);
      assert Groups(units + [u], sep, maxChars) == [[u]];
    } else {
      PackedChunksStripped(units, sep, maxChars);
      var m := |gs|;
      var last := gs[m - 1];
      assert PackedChunks(units, sep, maxChars)[m - 1] == Join(last, sep);
      if Fits(last, u, sep, maxChars) {
        AppendToLastChunk(units, u, sep, maxChars);
      } else {
        assert Groups(units + [u], sep, maxChars) == gs + [[u]];
        assert JoinEach(gs + [[u]], sep) == JoinEach(gs, sep) + [Join([u], sep)];
      }
    }
  }

  /** Each group joined, for a list of groups with one more at the end. */
  lemma JoinEachSnoc(gs: seq<seq<string>>, g: seq<string>, sep: string)
    ensures JoinEach(gs + [g], sep) == JoinEach(gs, sep) + [Join(g, sep)]
  {
  }

  lemma AppendToLastChunk(units: seq<string>, u: string, sep: string, maxChars: int)
    requires forall k :: 0 <= k < |units| ==> Stripped(units[k])
    requires Stripped(u)
    requires |units| > 0
    requires Fits(Groups(units, sep, maxChars)[|Groups(units, sep, maxChars)| - 1], u, sep, maxChars)
    ensures var cs := PackedChunks(units, sep, maxChars);
      PackedChunks(units + [u], sep, maxChars) == cs[..|cs| - 1] + [Strip(cs[|cs| - 1] + sep + u)]
  {
    var gs := Groups(units, sep, maxChars);
    var m := |gs|;
    var front := gs[..m - 1];
    var last := gs[m - 1];
    assert gs == front + [last];
    assert (units + [u])[..|units|] == units;
    assert Groups(units + [u], sep, maxChars) == front + [last + [u]];
    var cs := JoinEach(gs, sep);
    JoinEachSnoc(front, last, sep);
    JoinEachSnoc(front, last + [u], sep);
    assert cs[..m - 1] == JoinEach(front, sep) && cs[m - 1] == Join(last, sep);
    PackedChunksStripped(units, sep, maxChars);
    var joined := Join(last, sep);
    assert Stripped(joined) by {
      assert cs == PackedChunks(units, sep, maxChars);
      assert Stripped(cs[m - 1]);
    }
    var t := joined + sep + u;
    assert t[0] == joined[0] && t[|t| - 1] == u[|u| - 1];
    JoinSnoc(last, u, sep);
    StripStripped(t);
  }

  /**
    The state of the packing loop after `units`: `chunks` holds the chunks
    closed so far and `current` the one being built ("" before the first
    unit); with `current` appended, they are the packed chunks.
   */
  predicate PackState(units: seq<string>, sep: string, maxChars: int, chunks: seq<string>, current: string) {
    && (current == [] <==> units == [])
    && chunks + (if current == [] then [] else [current]) == PackedChunks(units, sep, maxChars)
  }

  /** The step of the loop for a unit that fits: current = (current + sep + unit).strip(). */
  lemma PackStepFits(units: seq<string>, u: string, sep: string, maxChars: int, chunks: seq<string>, current: string)
    requires forall k :: 0 <= k < |units| ==> Stripped(units[k])
    requires Stripped(u) && AllWhitespace(sep)
    requires PackState(units, sep, maxChars, chunks, current)
    requires |current| + |u| + |sep| <= maxChars
    ensures PackState(units + [u], sep, maxChars, chunks, Strip(current + sep + u))
  {
    var cs := PackedChunks(units, sep, maxChars);
    var cs' := PackedChunks(units + [u], sep, maxChars);
    PackedChunksSnoc(units, u, sep, maxChars);
    if current == [] {
      assert chunks == cs && cs == [];
    } else {
      assert cs == chunks + [current];
      assert cs[..|cs| - 1] == chunks && cs[|cs| - 1] == current;
    }
    assert cs' == chunks + [Strip(current + sep + u)];
    PackedChunksStripped(units + [u], sep, maxChars);
    assert Stripped(cs'[|cs'| - 1]);
  }

  /** The step of the loop for a unit that does not fit: current is closed and the unit opens the next chunk. */
  lemma PackStepOpens(units: seq<string>, u: string, sep: string, maxChars: int, chunks: seq<string>, current: string)
    requires forall k :: 0 <= k < |units| ==> Stripped(units[k])
    requires Stripped(u) && AllWhitespace(sep)
    requires PackState(units, sep, maxChars, chunks, current)
    requires |current| + |u| + |sep| > maxChars
    ensures PackState(units + [u], sep, maxChars, if current == [] then chunks else chunks + [current], u)
  {
    var cs := PackedChunks(units, sep, maxChars);
    PackedChunksSnoc(units, u, sep, maxChars);
    if current == [] {
      assert chunks == cs && cs == [];
    } else {
      assert cs == chunks + [current];
      assert cs[..|cs| - 1] == chunks && cs[|cs| - 1] == current;
    }
  }

  /** After the last unit, appending the chunk still being built gives the packed chunks. */
  lemma PackStateFinal(units: seq<string>, sep: string, maxChars: int, chunks: seq<string>, current: string)
    requires PackState(units, sep, maxChars, chunks, current)
    ensures (if current == [] then chunks else chunks + [current]) == PackedChunks(units, sep, maxChars)
  {
  }
}
