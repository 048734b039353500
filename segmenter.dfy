/**
  split_text (index_documents.py): the strategy name, lower-cased, picks
  one of the three chunkers with its default limits; any other name is
  refused.
 */
module Segmenter {
  import opened Common
  import opened Text
  import FixedChunker
  import Sentences
  import Paragraphs

  /** The three chunking strategies. */
  datatype Strategy = Fixed | Sentence | Paragraph

  /** The name test of split_text: "fixed", "sentence" or "paragraph", in any letter case. */
  function StrategyFor(name: string): (r: Result<Strategy>)
    ensures r == Ok(Fixed) <==> ToLower(name) == "fixed"
    ensures r == Ok(Sentence) <==> ToLower(name) == "sentence"
    ensures r == Ok(Paragraph) <==> ToLower(name) == "paragraph"
    ensures r.Err? ==> r.error == InvalidStrategy
  {
    var s := ToLower(name);
    if s == "fixed" then Ok(Fixed)
    else if s == "sentence" then Ok(Sentence)
    else if s == "paragraph" then Ok(Paragraph)
    else Err(InvalidStrategy)
  }

  /** The name test does not depend on letter case. */
  lemma StrategyForIgnoresCase(name: string)
    ensures StrategyFor(ToLower(name)) == StrategyFor(name)
  {
    assert ToLower(ToLower(name)) == ToLower(name);
  }

  /**
    The chunks each strategy yields, with the defaults split_text leaves in
    place: stripped, and at most 800 characters long for the fixed one.
   */
  function StrategyChunks(text: string, s: Strategy): (chunks: seq<string>)
    ensures forall i :: 0 <= i < |chunks| ==> Stripped(chunks[i])
    ensures s == Fixed ==> forall i :: 0 <= i < |chunks| ==> |chunks[i]| <= FixedChunker.DefaultChunkSize
  {
    FixedChunker.FixedChunksBounded(text, FixedChunker.DefaultChunkSize, FixedChunker.DefaultOverlap);
    match s
    case Fixed => FixedChunker.FixedChunks(text, FixedChunker.DefaultChunkSize, FixedChunker.DefaultOverlap)
    case Sentence => Sentences.SentenceChunks(text, Sentences.DefaultMaxChars)
    case Paragraph => Paragraphs.ParagraphChunks(text, Paragraphs.DefaultMaxChars)
  }

  /**
    split_text: an unknown strategy name fails with no chunks; a known one
    yields that chunker's chunks, each non-empty and stripped. The fixed
    chunker is the corrected one, which stops at the end of the text.
   */
  method SplitText(text: string, strategy: string) returns (r: Result<seq<string>>)
    ensures r.Err? <==> StrategyFor(strategy).Err?
    ensures r.Err? ==> r.error == InvalidStrategy
    ensures r.Ok? ==> r.value == StrategyChunks(text, StrategyFor(strategy).value)
    ensures r.Ok? ==> forall i :: 0 <= i < |r.value| ==> Stripped(r.value[i])
    ensures r.Ok? && StrategyFor(strategy) == Ok(Fixed) ==>
      forall i :: 0 <= i < |r.value| ==> |r.value[i]| <= FixedChunker.DefaultChunkSize
    ensures r.Ok? && StrategyFor(strategy) == Ok(Sentence) ==>
      forall i :: 0 <= i < |r.value| ==>
        |r.value[i]| <= Sentences.DefaultMaxChars || r.value[i] in Sentences.SentenceUnits(text)
    ensures r.Ok? && StrategyFor(strategy) == Ok(Paragraph) ==>
      forall i :: 0 <= i < |r.value| ==>
        |r.value[i]| <= Paragraphs.DefaultMaxChars || r.value[i] in Paragraphs.ParagraphUnits(text)
  {
    var name := ToLower(strategy);
    if name == "fixed" {
      var chunks := FixedChunker.ChunkFixed(text, FixedChunker.DefaultChunkSize, FixedChunker.DefaultOverlap);
      r := Ok(chunks);
    } else if name == "sentence" {
      var chunks := Sentences.ChunkBySentences(text, Sentences.DefaultMaxChars);
      r := Ok(chunks);
    } else if name == "paragraph" {
      var chunks := Paragraphs.ChunkByParagraphs(text, Paragraphs.DefaultMaxChars);
      r := Ok(chunks);
    } else {
      r := Err(InvalidStrategy);
    }
  }
}
