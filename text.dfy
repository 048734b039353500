/**
  Character classes and the string operations the pipeline borrows from
  Python: str.strip(), str.lower(), and joining a list of strings with a
  separator.
 */
module Text {

  /** Python's whitespace (str.isspace(), and what `\s` matches in a str pattern). */
  predicate IsWhitespace(c: char): (b: bool)
    ensures c == ' ' || c == '\t' || c == '\n' || c == '\r' ==> b
    ensures '!' <= c <= '~' ==> !b
  {
    || c == ' '
    || ('\t' <= c <= '\r')
    || ('\U{1C}' <= c <= '\U{1F}')
    || c == '\U{85}' || c == '\U{A0}' || c == '\U{1680}'
    || ('\U{2000}' <= c <= '\U{200A}')
    || c == '\U{2028}' || c == '\U{2029}' || c == '\U{202F}' || c == '\U{205F}'
    || c == '\U{3000}'
  }

  predicate AllWhitespace(s: string) {
    forall i :: 0 <= i < |s| ==> IsWhitespace(s[i])
  }

  /** A non-empty string with no whitespace at either end: what a successful strip() leaves. */
  predicate Stripped(s: string) {
    |s| > 0 && !IsWhitespace(s[0]) && !IsWhitespace(s[|s| - 1])
  }

  /** The index of the first character at or after `i` that is not whitespace, or |s|. */
  function SkipWhitespace(s: string, i: nat): (j: nat)
    requires i <= |s|
    ensures i <= j <= |s|
    ensures j == |s| || !IsWhitespace(s[j])
    decreases |s| - i
  {
    if i < |s| && IsWhitespace(s[i]) then SkipWhitespace(s, i + 1) else i
  }

  /** The index just past the last character before `j` that is not whitespace, or 0. */
  function BackOverWhitespace(s: string, j: nat): (i: nat)
    requires j <= |s|
    ensures i <= j
    ensures i == 0 || !IsWhitespace(s[i - 1])
  {
    if j > 0 && IsWhitespace(s[j - 1]) then BackOverWhitespace(s, j - 1) else j
  }

  /** Everything SkipWhitespace passes over is whitespace. */
  lemma {:induction false} SkipWhitespaceSkips(s: string, i: nat)
    requires i <= |s|
    ensures forall k :: i <= k < SkipWhitespace(s, i) ==> IsWhitespace(s[k])
    decreases |s| - i
  {
    if i < |s| && IsWhitespace(s[i]) {
      SkipWhitespaceSkips(s, i + 1);
    }
  }

  /** SkipWhitespace stops at the first character that is not whitespace. */
  lemma {:induction false} SkipWhitespaceStops(s: string, i: nat, n: nat)
    requires i <= n <= |s|
    requires forall k :: i <= k < n ==> IsWhitespace(s[k])
    requires n == |s| || !IsWhitespace(s[n])
    ensures SkipWhitespace(s, i) == n
    decreases n - i
  {
    if i < n {
      SkipWhitespaceStops(s, i + 1, n);
    }
  }

  /** Everything BackOverWhitespace passes over is whitespace. */
  lemma {:induction false} BackOverWhitespaceSkips(s: string, j: nat)
    requires j <= |s|
    ensures forall k :: BackOverWhitespace(s, j) <= k < j ==> IsWhitespace(s[k])
  {
    if j > 0 && IsWhitespace(s[j - 1]) {
      BackOverWhitespaceSkips(s, j - 1);
    }
  }

  /**
    str.strip(): what is left of `s` once the whitespace at both ends is
    removed; that is empty or a stripped string.
   */
  function Strip(s: string): (r: string)
    ensures |r| <= |s|
    ensures r == [] || Stripped(r)
  {
    var lo := SkipWhitespace(s, 0);
    var hi := BackOverWhitespace(s, |s|);
    if hi <= lo then [] else s[lo..hi]
  }

  /**
    strip() keeps one slice of `s`, from the first character that is not
    whitespace on, and removes only whitespace before and after it.
   */
  lemma StripSlice(s: string)
    ensures SkipWhitespace(s, 0) + |Strip(s)| <= |s|
    ensures Strip(s) == s[SkipWhitespace(s, 0)..SkipWhitespace(s, 0) + |Strip(s)|]
    ensures AllWhitespace(s[..SkipWhitespace(s, 0)])
    ensures AllWhitespace(s[SkipWhitespace(s, 0) + |Strip(s)|..])
  {
    var lo := SkipWhitespace(s, 0);
    var hi := BackOverWhitespace(s, |s|);
    SkipWhitespaceSkips(s, 0);
    BackOverWhitespaceSkips(s, |s|);
    var front := s[..lo];
    assert AllWhitespace(front) by {
      forall k | 0 <= k < |front| ensures IsWhitespace(front[k]) {
        assert front[k] == s[k];
      }
    }
    var back := s[lo + |Strip(s)|..];
    assert AllWhitespace(back) by {
      forall k | 0 <= k < |back| ensures IsWhitespace(back[k]) {
        assert back[k] == s[lo + |Strip(s)| + k];
      }
    }
  }

  /** strip() leaves nothing exactly when `s` is all whitespace. */
  lemma StripEmpty(s: string)
    ensures Strip(s) == [] <==> AllWhitespace(s)
  {
    StripSlice(s);
    var lo := SkipWhitespace(s, 0);
    if Strip(s) == [] {
      forall k | 0 <= k < |s| ensures IsWhitespace(s[k]) {
        assert s[k] == s[..lo][k];
      }
    }
  }

  /** strip() leaves an already stripped string alone. */
  lemma StripStripped(s: string)
    requires s == [] || Stripped(s)
    ensures Strip(s) == s
  {
  }

  /** strip() removes whitespace put in front of a stripped string. */
  lemma StripAfterWhitespace(w: string, s: string)
    requires AllWhitespace(w) && Stripped(s)
    ensures Strip(w + s) == s
  {
    var t := w + s;
    SkipWhitespaceStops(t, 0, |w|);
    assert t[|t| - 1] == s[|s| - 1];
    assert t[|w|..|t|] == s;
  }

  /** The characters of `s` that are not whitespace, in order. */
  function NonWs(s: string): string {
    if s == [] then []
    else if IsWhitespace(s[0]) then NonWs(s[1..])
    else [s[0]] + NonWs(s[1..])
  }

  lemma {:induction false} NonWsAppend(a: string, b: string)
    ensures NonWs(a + b) == NonWs(a) + NonWs(b)
  {
    if a == [] {
      assert a + b == b;
    } else {
      assert (a + b)[0] == a[0];
      assert (a + b)[1..] == a[1..] + b;
      NonWsAppend(a[1..], b);
    }
  }

  lemma {:induction false} NonWsAllWhitespace(s: string)
    requires AllWhitespace(s)
    ensures NonWs(s) == []
  {
    if s != [] {
      NonWsAllWhitespace(s[1..]);
    }
  }

  /** Leading whitespace contributes no visible character. */
  lemma {:induction false} NonWsDropWhitespace(s: string, k: nat)
    requires k <= |s|
    requires forall i :: 0 <= i < k ==> IsWhitespace(s[i])
    ensures NonWs(s[k..]) == NonWs(s)
  {
    if k > 0 {
      NonWsDropWhitespace(s[1..], k - 1);
      assert s[1..][k - 1..] == s[k..];
    }
  }

  /** Whitespace around a text adds no visible character. */
  lemma NonWsBetweenWhitespace(front: string, r: string, back: string)
    requires AllWhitespace(front) && AllWhitespace(back)
    ensures NonWs(front + r + back) == NonWs(r)
  {
    NonWsAppend(front + r, back);
    NonWsAppend(front, r);
    NonWsAllWhitespace(front);
    NonWsAllWhitespace(back);
  }

  /** strip() removes no character that is not whitespace. */
  lemma NonWsStrip(s: string)
    ensures NonWs(Strip(s)) == NonWs(s)
  {
    StripSlice(s);
    var lo := SkipWhitespace(s, 0);
    var hi := lo + |Strip(s)|;
    assert s == s[..lo] + s[lo..hi] + s[hi..];
    NonWsBetweenWhitespace(s[..lo], s[lo..hi], s[hi..]);
  }

  /** Python's sep.join(xs). */
  function Join(xs: seq<string>, sep: string): (r: string)
    ensures sep == [] ==> r == Concat(xs)
    decreases |xs|
  {
    if |xs| == 0 then []
    else if |xs| == 1 then xs[0]
    else Join(xs[..|xs| - 1], sep) + sep + xs[|xs| - 1]
  }

  /** A suffix of a string is cut in two at any point inside it. */
  lemma SuffixSplit<T>(s: seq<T>, lo: nat, i: nat)
    requires lo <= i <= |s|
    ensures s[lo..] == s[lo..i] + s[i..]
  {
    var l := s[lo..];
    var r := s[lo..i] + s[i..];
    assert |l| == |r|;
    forall k | 0 <= k < |l| ensures l[k] == r[k] {
      if k < i - lo {
        assert r[k] == s[lo + k];
      } else {
        assert r[k] == s[i..][k - (i - lo)];
      }
    }
  }

  /** Concatenation regroups freely. */
  lemma AppendAssoc<T>(x: seq<T>, y: seq<T>, z: seq<T>)
    ensures (x + y) + z == x + (y + z)
  {
  }

  /** The elements of all the lists in `xs`, in order; "".join(xs) on strings. */
  function Concat<T>(xs: seq<seq<T>>): seq<T>
    decreases |xs|
  {
    if |xs| == 0 then [] else Concat(xs[..|xs| - 1]) + xs[|xs| - 1]
  }

  lemma ConcatSingleton<T>(x: seq<T>)
    ensures Concat([x]) == x
  {
    assert [x][..0] == [];
  }

  lemma {:induction false} ConcatAppend<T>(a: seq<seq<T>>, b: seq<seq<T>>)
    ensures Concat(a + b) == Concat(a) + Concat(b)
    decreases |b|
  {
    if |b| == 0 {
      assert a + b == a;
    } else {
      var front := b[..|b| - 1];
      var last := b[|b| - 1];
      assert a + b == (a + front) + [last];
      ConcatAppend(a, front);
      calc {
        Concat(a + b);
        Concat((a + front) + [last]);
        { assert ((a + front) + [last])[..|a + front|] == a + front; }
        Concat(a + front) + last;
        Concat(a) + Concat(front) + last;
        { assert b[..|b| - 1] == front; }
        Concat(a) + Concat(b);
      }
    }
  }

  /** Joining two non-empty lists is joining their joins. */
  lemma {:induction false} JoinAppend(a: seq<string>, b: seq<string>, sep: string)
    requires |a| > 0 && |b| > 0
    ensures Join(a + b, sep) == Join(a, sep) + sep + Join(b, sep)
    decreases |b|
  {
    var n := |b|;
    if n == 1 {
      assert (a + b)[..|a + b| - 1] == a;
    } else {
      assert (a + b)[..|a + b| - 1] == a + b[..n - 1];
      JoinAppend(a, b[..n - 1], sep);
    }
  }

  /** A join of stripped strings is itself stripped. */
  lemma {:induction false} JoinStripped(xs: seq<string>, sep: string)
    requires |xs| > 0
    requires forall i :: 0 <= i < |xs| ==> Stripped(xs[i])
    ensures Stripped(Join(xs, sep))
    decreases |xs|
  {
    if |xs| > 1 {
      JoinStripped(xs[..|xs| - 1], sep);
    }
  }

  /** A whitespace separator adds no visible character to a join. */
  lemma {:induction false} NonWsJoin(xs: seq<string>, sep: string)
    requires AllWhitespace(sep)
    ensures NonWs(Join(xs, sep)) == NonWs(Concat(xs))
    decreases |xs|
  {
    var n := |xs|;
    if n == 1 {
      assert xs[..0] == [];
      assert Concat(xs) == Concat(xs[..0]) + xs[0] == xs[0];
    } else if n > 1 {
      var init := xs[..n - 1];
      NonWsJoin(init, sep);
      NonWsAppend(Join(init, sep) + sep, xs[n - 1]);
      NonWsAppend(Join(init, sep), sep);
      NonWsAllWhitespace(sep);
      NonWsAppend(Concat(init), xs[n - 1]);
    }
  }

  /** [p.strip() for p in pieces if p.strip()]. */
  function StrippedNonEmpty(pieces: seq<string>): (units: seq<string>)
    ensures |units| <= |pieces|
    ensures forall i :: 0 <= i < |units| ==> Stripped(units[i])
    decreases |pieces|
  {
    if |pieces| == 0 then []
    else
      var rest := StrippedNonEmpty(pieces[..|pieces| - 1]);
      var p := Strip(pieces[|pieces| - 1]);
      if p == [] then rest else rest + [p]
  }

  /** One more piece: kept, stripped, unless it is blank. */
  lemma StrippedNonEmptySnoc(pieces: seq<string>, p: string)
    ensures StrippedNonEmpty(pieces + [p]) ==
      StrippedNonEmpty(pieces) + (if Strip(p) == [] then [] else [Strip(p)])
  {
    assert (pieces + [p])[..|pieces|] == pieces;
  }

  /** A unit kept from the pieces before the last is kept at the same place. */
  lemma StrippedNonEmptyFront(pieces: seq<string>, k: nat)
    requires |pieces| > 0 && k < |StrippedNonEmpty(pieces[..|pieces| - 1])|
    ensures k < |StrippedNonEmpty(pieces)|
    ensures StrippedNonEmpty(pieces)[k] == StrippedNonEmpty(pieces[..|pieces| - 1])[k]
  {
  }

  /** A unit past those of the pieces before the last is the last piece, stripped. */
  lemma StrippedNonEmptyLast(pieces: seq<string>, k: nat)
    requires |pieces| > 0 && |StrippedNonEmpty(pieces[..|pieces| - 1])| <= k < |StrippedNonEmpty(pieces)|
    ensures StrippedNonEmpty(pieces)[k] == Strip(pieces[|pieces| - 1])
  {
  }

  /** Each kept unit is one of the pieces, stripped: the `k`-th is the `j`-th piece. */
  lemma {:induction false} StrippedNonEmptyOrigin(pieces: seq<string>, k: nat) returns (j: nat)
    requires k < |StrippedNonEmpty(pieces)|
    ensures j < |pieces| && StrippedNonEmpty(pieces)[k] == Strip(pieces[j])
    decreases |pieces|, 1
  {
    if k < |StrippedNonEmpty(pieces[..|pieces| - 1])| {
      j := StrippedNonEmptyOriginFront(pieces, k);
    } else {
      StrippedNonEmptyLast(pieces, k);
      j := |pieces| - 1;
    }
  }

  /** The same, for a unit kept from the pieces before the last. */
  lemma {:induction false} StrippedNonEmptyOriginFront(pieces: seq<string>, k: nat) returns (j: nat)
    requires |pieces| > 0 && k < |StrippedNonEmpty(pieces[..|pieces| - 1])|
    ensures j < |pieces| && StrippedNonEmpty(pieces)[k] == Strip(pieces[j])
    decreases |pieces|, 0
  {
    var init := pieces[..|pieces| - 1];
    StrippedNonEmptyFront(pieces, k);
    j := StrippedNonEmptyOrigin(init, k);
    assert init[j] == pieces[j];
  }

  /** Stripping and dropping the blank pieces keeps every visible character, in order. */
  lemma {:induction false} NonWsStrippedNonEmpty(pieces: seq<string>)
    ensures NonWs(Concat(StrippedNonEmpty(pieces))) == NonWs(Concat(pieces))
    decreases |pieces|
  {
    var n := |pieces|;
    if n > 0 {
      var init := pieces[..n - 1];
      var rest := StrippedNonEmpty(init);
      var p := Strip(pieces[n - 1]);
      NonWsStrippedNonEmpty(init);
      NonWsAppend(Concat(init), pieces[n - 1]);
      NonWsStrip(pieces[n - 1]);
      if p == [] {
        StripEmpty(pieces[n - 1]);
        NonWsAllWhitespace(pieces[n - 1]);
      } else {
        assert (rest + [p])[..|rest|] == rest;
        NonWsAppend(Concat(rest), p);
      }
    }
  }

  /** str.lower() on one character, for the ASCII letters. */
  function LowerChar(c: char): char {
    if 'A' <= c <= 'Z' then (c as int - 'A' as int + 'a' as int) as char else c
  }

  /** str.lower(), for the ASCII letters. */
  function ToLower(s: string): (r: string)
    ensures |r| == |s|
    ensures forall i :: 0 <= i < |s| ==> r[i] == LowerChar(s[i])
  {
    seq(|s|, i requires 0 <= i < |s| => LowerChar(s[i]))
  }

  /** The half-open character range text[lo:hi] of a text. */
  datatype Window = Window(lo: nat, hi: nat)

  /** Every window lies within a text of `length` characters. */
  predicate WithinText(ws: seq<Window>, length: nat) {
    forall i :: 0 <= i < |ws| ==> ws[i].lo <= ws[i].hi <= length
  }

  /** The characters each window covers. */
  function Slices(text: string, ws: seq<Window>): (slices: seq<string>)
    requires WithinText(ws, |text|)
    ensures |slices| == |ws|
  {
    seq(|ws|, i requires 0 <= i < |ws| => text[ws[i].lo..ws[i].hi])
  }

  lemma SlicesCons(text: string, w: Window, ws: seq<Window>)
    requires w.lo <= w.hi <= |text| && WithinText(ws, |text|)
    ensures WithinText([w] + ws, |text|)
    ensures Slices(text, [w] + ws) == [text[w.lo..w.hi]] + Slices(text, ws)
  {
  }

  lemma SlicesSnoc(text: string, ws: seq<Window>, w: Window)
    requires w.lo <= w.hi <= |text| && WithinText(ws, |text|)
    ensures WithinText(ws + [w], |text|)
    ensures Slices(text, ws + [w]) == Slices(text, ws) + [text[w.lo..w.hi]]
  {
  }
}
