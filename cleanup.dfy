/**
  The text extractor's dispatch on the file extension and the normalisation
  it applies to whatever the PDF or Word reader returned
  (load_text, index_documents.py).
 */
module Cleanup {
  import opened Common
  import opened Text

  predicate NoCarriageReturn(s: string) {
    forall i :: 0 <= i < |s| ==> s[i] != '\r'
  }

  /** No three newlines in a row: blank-line runs are capped at one blank line. */
  predicate NoTripleNewline(s: string) {
    forall i :: 0 <= i < |s| - 2 ==> !TripleNewlineAt(s, i)
  }

  predicate TripleNewlineAt(s: string, i: nat)
    requires i + 2 < |s|
  {
    s[i] == '\n' && s[i + 1] == '\n' && s[i + 2] == '\n'
  }

  /** The shape every normalised text has. */
  predicate Normalized(s: string) {
    NoCarriageReturn(s) && NoTripleNewline(s) && (s == [] || Stripped(s))
  }

  /** text.replace("\r", "\n"). */
  function ReplaceCarriageReturns(s: string): (r: string)
    ensures |r| == |s| && NoCarriageReturn(r)
  {
    seq(|s|, i requires 0 <= i < |s| => if s[i] == '\r' then '\n' else s[i])
  }

  /** The length of the run of newlines that `s` starts with. */
  function NewlineRun(s: string): (n: nat)
    ensures n <= |s|
    ensures forall i :: 0 <= i < n ==> s[i] == '\n'
    ensures n == |s| || s[n] != '\n'
  {
    if |s| > 0 && s[0] == '\n' then 1 + NewlineRun(s[1..]) else 0
  }

  /**
    re.sub(r"\n{2,}", "\n\n", text): scanning from the left, every maximal
    run of two or more newlines becomes exactly two.
   */
  function CollapseNewlines(s: string): (r: string)
    ensures |r| <= |s|
    ensures NoTripleNewline(r)
    ensures NoCarriageReturn(s) ==> NoCarriageReturn(r)
    ensures |s| > 0 && s[0] != '\n' ==> |r| > 0 && r[0] == s[0]
    decreases |s|
  {
    if |s| == 0 then []
    else if s[0] != '\n' then
      var rest := CollapseNewlines(s[1..]);
      NoTripleNewlineAfter([s[0]], rest);
      [s[0]] + rest
    else
      var n := NewlineRun(s);
      var rest := CollapseNewlines(s[n..]);
      var block: string := if n >= 2 then "\n\n" else "\n";
      NoTripleNewlineAfter(block, rest);
      block + rest
  }

  /**
    Up to two newlines, or one other character, put in front of a text that
    has no triple newline and does not start with a newline, make none.
   */
  lemma NoTripleNewlineAfter(front: string, t: string)
    requires front == "\n" || front == "\n\n" || (|front| == 1 && front[0] != '\n')
    requires NoTripleNewline(t)
    requires front[0] == '\n' ==> t == [] || t[0] != '\n'
    ensures NoTripleNewline(front + t)
  {
    var s := front + t;
    forall i | 0 <= i < |s| - 2 ensures !TripleNewlineAt(s, i) {
      if i >= |front| {
        assert !TripleNewlineAt(t, i - |front|);
      }
    }
  }

  lemma NoTripleNewlineSlice(s: string, lo: nat, hi: nat)
    requires lo <= hi <= |s| && NoTripleNewline(s)
    ensures NoTripleNewline(s[lo..hi])
  {
    var t := s[lo..hi];
    forall i | 0 <= i < |t| - 2 ensures !TripleNewlineAt(t, i) {
      assert !TripleNewlineAt(s, lo + i);
    }
  }

  /**
    The normalisation at the end of load_text: carriage returns become
    newlines, blank-line runs are collapsed, then the ends are stripped. It
    never lengthens the text and leaves it empty or stripped.
   */
  function Clean(s: string): (r: string)
    ensures |r| <= |s|
    ensures r == [] || Stripped(r)
  {
    Strip(CollapseNewlines(ReplaceCarriageReturns(s)))
  }

  /** `k` newlines. */
  function Newlines(k: nat): (r: string)
    ensures |r| == k && forall i :: 0 <= i < k ==> r[i] == '\n'
  {
    seq(k, i => '\n')
  }

  /** A text that starts with exactly `k` newlines has a newline run of length `k`. */
  lemma NewlineRunOf(k: nat, b: string)
    requires b == [] || b[0] != '\n'
    ensures NewlineRun(Newlines(k) + b) == k
  {
    var s := Newlines(k) + b;
    assert forall i :: 0 <= i < k ==> s[i] == '\n';
    assert k < |s| ==> s[k] == b[0];
  }

  /**
    The collapse works piece by piece: a text cut after a character that is
    not a newline collapses as its two parts do.
   */
  lemma {:induction false} CollapseNewlinesAppend(a: string, t: string)
    requires a == [] || a[|a| - 1] != '\n'
    ensures CollapseNewlines(a + t) == CollapseNewlines(a) + CollapseNewlines(t)
    decreases |a|
  {
    var s := a + t;
    var ct := CollapseNewlines(t);
    if a == [] {
      assert s == t;
    } else if a[0] != '\n' {
      var rest := a[1..];
      assert s[0] == a[0] && s[1..] == rest + t;
      CollapseNewlinesAppend(rest, t);
      var cr := CollapseNewlines(rest);
      assert CollapseNewlines(s) == [a[0]] + (cr + ct);
      assert CollapseNewlines(a) == [a[0]] + cr;
      AppendAssoc([a[0]], cr, ct);
    } else {
      var m := NewlineRun(a);
      assert m < |a|;
      assert forall i :: 0 <= i < m ==> s[i] == '\n';
      assert s[m] == a[m];
      assert NewlineRun(s) == m;
      var rest := a[m..];
      assert s[m..] == rest + t;
      CollapseNewlinesAppend(rest, t);
      var cr := CollapseNewlines(rest);
      var block: string := if m >= 2 then "\n\n" else "\n";
      assert CollapseNewlines(s) == block + (cr + ct);
      assert CollapseNewlines(a) == block + cr;
      AppendAssoc(block, cr, ct);
    }
  }

  /** A run of `k` newlines at the front becomes one newline if k is 1 and a blank line if k is 2 or more. */
  lemma CollapseNewlinesRun(k: nat, b: string)
    requires k >= 1 && (b == [] || b[0] != '\n')
    ensures CollapseNewlines(Newlines(k) + b) == (if k >= 2 then "\n\n" else "\n") + CollapseNewlines(b)
  {
    var s := Newlines(k) + b;
    NewlineRunOf(k, b);
    assert s[k..] == b;
  }

  /**
    re.sub(r"\n{2,}", "\n\n", ...) on a run of `k` newlines between two
    texts: a single newline stays, a run of two or more becomes exactly one
    blank line, and the texts on either side collapse on their own.
   */
  lemma CollapseNewlinesBreak(a: string, k: nat, b: string)
    requires a == [] || a[|a| - 1] != '\n'
    requires b == [] || b[0] != '\n'
    requires k >= 1
    ensures CollapseNewlines(a + Newlines(k) + b) ==
      CollapseNewlines(a) + (if k >= 2 then "\n\n" else "\n") + CollapseNewlines(b)
  {
    assert a + Newlines(k) + b == a + (Newlines(k) + b);
    CollapseNewlinesAppend(a, Newlines(k) + b);
    CollapseNewlinesRun(k, b);
  }

  /** The replacement of carriage returns works piece by piece. */
  lemma ReplaceCarriageReturnsAppend(a: string, b: string)
    ensures ReplaceCarriageReturns(a + b) == ReplaceCarriageReturns(a) + ReplaceCarriageReturns(b)
  {
    var l := ReplaceCarriageReturns(a + b);
    var r := ReplaceCarriageReturns(a) + ReplaceCarriageReturns(b);
    assert |l| == |r|;
    forall i | 0 <= i < |l| ensures l[i] == r[i] {
      if i < |a| {
        assert (a + b)[i] == a[i];
      } else {
        assert (a + b)[i] == b[i - |a|];
      }
    }
  }

  /** A Windows line break "\r\n" between two lines becomes a paragraph break "\n\n". */
  lemma CarriageReturnLineFeedBreak(a: string, b: string)
    requires a == [] || (a[|a| - 1] != '\n' && a[|a| - 1] != '\r')
    requires b == [] || (b[0] != '\n' && b[0] != '\r')
    ensures CollapseNewlines(ReplaceCarriageReturns(a + "\r\n" + b)) ==
      CollapseNewlines(ReplaceCarriageReturns(a)) + "\n\n" + CollapseNewlines(ReplaceCarriageReturns(b))
  {
    var ra := ReplaceCarriageReturns(a);
    var rb := ReplaceCarriageReturns(b);
    ReplaceCarriageReturnsAppend(a, "\r\n" + b);
    ReplaceCarriageReturnsAppend("\r\n", b);
    assert ReplaceCarriageReturns("\r\n") == Newlines(2);
    assert a + "\r\n" + b == a + ("\r\n" + b);
    assert ra + (Newlines(2) + rb) == ra + Newlines(2) + rb;
    CollapseNewlinesBreak(ra, 2, rb);
  }

  lemma ReplaceCarriageReturnsFixpoint(s: string)
    requires NoCarriageReturn(s)
    ensures ReplaceCarriageReturns(s) == s
  {
  }

  /** Text that has no run of three newlines is left alone by the collapse. */
  lemma {:induction false} CollapseNewlinesFixpoint(s: string)
    requires NoTripleNewline(s)
    ensures CollapseNewlines(s) == s
    decreases |s|
  {
    if |s| > 0 {
      if s[0] != '\n' {
        NoTripleNewlineSlice(s, 1, |s|);
        assert s[1..|s|] == s[1..];
        CollapseNewlinesFixpoint(s[1..]);
        assert s == [s[0]] + s[1..];
      } else {
        var n := NewlineRun(s);
        NoTripleNewlineSlice(s, n, |s|);
        assert s[n..|s|] == s[n..];
        CollapseNewlinesFixpoint(s[n..]);
        if n == 1 {
          assert s == "\n" + s[1..];
        } else {
          assert |s| > 2 ==> !TripleNewlineAt(s, 0);
          assert CollapseNewlines(s) == "\n\n" + CollapseNewlines(s[2..]);
          assert s == "\n\n" + s[2..];
        }
      }
    }
  }

  /** Turning '\r' into '\n' changes no visible character. */
  lemma {:induction false} NonWsReplaceCarriageReturns(s: string)
    ensures NonWs(ReplaceCarriageReturns(s)) == NonWs(s)
    decreases |s|
  {
    if |s| > 0 {
      var r := ReplaceCarriageReturns(s);
      assert r[1..] == ReplaceCarriageReturns(s[1..]);
      NonWsReplaceCarriageReturns(s[1..]);
    }
  }

  /** Collapsing blank lines changes no visible character. */
  lemma {:induction false} NonWsCollapseNewlines(s: string)
    ensures NonWs(CollapseNewlines(s)) == NonWs(s)
    decreases |s|
  {
    if |s| > 0 {
      if s[0] != '\n' {
        var rest := CollapseNewlines(s[1..]);
        NonWsCollapseNewlines(s[1..]);
        assert ([s[0]] + rest)[1..] == rest;
      } else {
        var n := NewlineRun(s);
        var block: string := if n >= 2 then "\n\n" else "\n";
        var rest := CollapseNewlines(s[n..]);
        NonWsCollapseNewlines(s[n..]);
        NonWsDropWhitespace(block + rest, |block|);
        assert (block + rest)[|block|..] == rest;
        NonWsDropWhitespace(s, n);
      }
    }
  }

  /** Dropping characters from the ends keeps the shape of what is left. */
  lemma SliceNormalForm(s: string, lo: nat, hi: nat)
    requires lo <= hi <= |s|
    requires NoCarriageReturn(s) && NoTripleNewline(s)
    ensures NoCarriageReturn(s[lo..hi]) && NoTripleNewline(s[lo..hi])
  {
    NoTripleNewlineSlice(s, lo, hi);
  }

  /**
    The cleanup leaves no carriage return, no run of three newlines and no
    whitespace at either end.
   */
  lemma CleanNormalized(s: string)
    ensures Normalized(Clean(s))
  {
    StripNormalized(CollapseNewlines(ReplaceCarriageReturns(s)));
  }

  lemma StripNormalized(c: string)
    requires NoCarriageReturn(c) && NoTripleNewline(c)
    ensures Normalized(Strip(c))
  {
    var r := Strip(c);
    var lo := SkipWhitespace(c, 0);
    StripSlice(c);
    SliceNormalForm(c, lo, lo + |r|);
  }

  /** The cleanup keeps every visible character of the text, in order. */
  lemma CleanKeepsText(s: string)
    ensures NonWs(Clean(s)) == NonWs(s)
  {
    var r := ReplaceCarriageReturns(s);
    NonWsReplaceCarriageReturns(s);
    NonWsCollapseNewlines(r);
    NonWsStrip(CollapseNewlines(r));
  }

  /** The texts the cleanup leaves unchanged are exactly the normalised ones. */
  lemma CleanFixpoint(t: string)
    ensures Clean(t) == t <==> Normalized(t)
  {
    if Normalized(t) {
      ReplaceCarriageReturnsFixpoint(t);
      CollapseNewlinesFixpoint(t);
      StripStripped(t);
    }
    if Clean(t) == t {
      CleanNormalized(t);
    }
  }

  /** Cleaning an already cleaned text changes nothing. */
  lemma CleanIdempotent(s: string)
    ensures Clean(Clean(s)) == Clean(s)
  {
    CleanNormalized(s);
    CleanFixpoint(Clean(s));
  }

  /** The two readers load_text dispatches to. */
  datatype Reader = PdfReader | WordReader

  /** The extension test of load_text: ".pdf" is read as PDF, ".docx" and ".doc" as Word. */
  function ReaderFor(ext: string): (r: Result<Reader>)
    ensures r == Ok(PdfReader) <==> ToLower(ext) == ".pdf"
    ensures r == Ok(WordReader) <==> ToLower(ext) == ".docx" || ToLower(ext) == ".doc"
    ensures r.Err? ==> r.error == UnsupportedFormat
  {
    var e := ToLower(ext);
    if e == ".pdf" then Ok(PdfReader)
    else if e == ".docx" || e == ".doc" then Ok(WordReader)
    else Err(UnsupportedFormat)
  }

  /** The extension test does not depend on letter case. */
  lemma ReaderForIgnoresCase(ext: string)
    ensures ReaderFor(ToLower(ext)) == ReaderFor(ext)
  {
    assert ToLower(ToLower(ext)) == ToLower(ext);
  }

  /**
    load_text for a file whose extension is `ext`; `extract` stands for what
    each reader returns for that file. An unsupported extension fails before
    any reader runs; otherwise the result is the reader's text, normalised.
   */
  function LoadText(ext: string, extract: Reader -> string): (r: Result<string>)
    ensures r.Err? <==> ReaderFor(ext).Err?
    ensures r.Err? ==> r.error == UnsupportedFormat
    ensures r.Ok? ==> Normalized(r.value) && Clean(r.value) == r.value
    ensures r.Ok? ==> r.value == Clean(extract(ReaderFor(ext).value))
    ensures r.Ok? ==> NonWs(r.value) == NonWs(extract(ReaderFor(ext).value))
  {
    match ReaderFor(ext)
    case Err(e) => Err(e)
    case Ok(reader) =>
      var raw := extract(reader);
      CleanNormalized(raw);
      CleanIdempotent(raw);
      CleanKeepsText(raw);
      Ok(Clean(raw))
  }
}
