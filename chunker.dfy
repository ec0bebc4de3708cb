/**
 * The knowledge chunker: the comprehension
 * `[c.strip() for c in text.split("\n\n") if c.strip()]` that turns the
 * corpus into the chunks that are stored.
 */
module Chunker {
  import opened PyStr

  /** What every stored chunk is: non-empty, stripped, and free of the
      blank-line separator. */
  predicate IsChunk(c: string) {
    c != "" && IsStripped(c) && SepFree(c)
  }

  predicate AllChunks(cs: seq<string>) {
    forall i :: 0 <= i < |cs| ==> IsChunk(cs[i])
  }

  /** The filter-and-map part of the comprehension: strip every piece and
      keep the ones that are not empty afterwards, in order. */
  function KeepNonBlank(pieces: seq<string>): seq<string>
    decreases |pieces|
  {
    if pieces == [] then []
    else
      var c := Strip(pieces[0]);
      (if c == "" then [] else [c]) + KeepNonBlank(pieces[1..])
  }

  /** The chunks of a corpus text. */
  function Chunks(text: string): seq<string> {
    KeepNonBlank(Split(text))
  }

  lemma {:induction false} KeepNonBlankChunks(pieces: seq<string>)
    requires forall i :: 0 <= i < |pieces| ==> SepFree(pieces[i])
    ensures AllChunks(KeepNonBlank(pieces))
    decreases |pieces|
  {
    if pieces != [] {
      var p := pieces[0];
      var lead, trail := StripParts(p);
      SepFreeInfix(lead, Strip(p), trail);
      KeepNonBlankChunks(pieces[1..]);
    }
  }

  /** Every chunk is non-empty, a fixed point of `strip()`, and contains
      no `"\n\n"`. */
  lemma ChunksAreChunks(text: string)
    ensures AllChunks(Chunks(text))
    ensures forall i :: 0 <= i < |Chunks(text)| ==> Strip(Chunks(text)[i]) == Chunks(text)[i]
  {
    SplitIsSplitOf(text);
    KeepNonBlankChunks(Split(text));
    forall i | 0 <= i < |Chunks(text)| ensures Strip(Chunks(text)[i]) == Chunks(text)[i] {
      StripFixedPoint(Chunks(text)[i]);
    }
  }

  /** `origin` tells where each chunk came from: `chunks[k]` is the
      stripped piece `pieces[origin[k]]`, the origins are strictly
      increasing (chunks keep the order of their pieces), and every piece
      that is not blank is the origin of some chunk. */
  predicate IsOriginMap(pieces: seq<string>, chunks: seq<string>, origin: seq<nat>) {
    && |origin| == |chunks|
    && (forall k :: 0 <= k < |origin| ==> origin[k] < |pieces| && chunks[k] == Strip(pieces[origin[k]]))
    && (forall k, l :: 0 <= k < l < |origin| ==> origin[k] < origin[l])
    && (forall j :: 0 <= j < |pieces| && Strip(pieces[j]) != "" ==> j in origin)
  }

  function Shift(origin: seq<nat>): (r: seq<nat>)
    ensures |r| == |origin| && forall k :: 0 <= k < |r| ==> r[k] == origin[k] + 1
  {
    seq(|origin|, k requires 0 <= k < |origin| => origin[k] + 1)
  }

  /** Prepending a piece to the pieces moves every origin one place
      along, and prepends origin 0 when `kept` says the piece is kept. */
  lemma OriginMapCons(p: string, tail: seq<string>, rest: seq<string>, tailOrigin: seq<nat>, kept: bool)
    requires IsOriginMap(tail, rest, tailOrigin)
    requires kept <==> Strip(p) != ""
    ensures IsOriginMap([p] + tail,
                        (if kept then [Strip(p)] else []) + rest,
                        (if kept then [0] else []) + Shift(tailOrigin))
  {
    var pieces := [p] + tail;
    var off := if kept then 1 else 0;
    var chunks := (if kept then [Strip(p)] else []) + rest;
    var origin := (if kept then [0] else []) + Shift(tailOrigin);
    OriginMapConsAt(p, tail, rest, tailOrigin, kept);
    OriginMapConsIncreasing(tailOrigin, kept);
    forall j | 0 <= j < |pieces| && Strip(pieces[j]) != "" ensures j in origin {
      if j == 0 {
        assert origin[0] == 0;
      } else {
        assert tail[j - 1] == pieces[j];
        assert j - 1 in tailOrigin;
        var k :| 0 <= k < |tailOrigin| && tailOrigin[k] == j - 1;
        assert origin[k + off] == j;
      }
    }
  }

  lemma OriginMapConsAt(p: string, tail: seq<string>, rest: seq<string>, tailOrigin: seq<nat>, kept: bool)
    requires IsOriginMap(tail, rest, tailOrigin)
    requires kept <==> Strip(p) != ""
    ensures var chunks := (if kept then [Strip(p)] else []) + rest;
      var origin := (if kept then [0] else []) + Shift(tailOrigin);
      |origin| == |chunks| &&
      forall k :: 0 <= k < |origin| ==> origin[k] < |[p] + tail| && chunks[k] == Strip(([p] + tail)[origin[k]])
  {
  }

  lemma OriginMapConsIncreasing(tailOrigin: seq<nat>, kept: bool)
    requires forall k, l :: 0 <= k < l < |tailOrigin| ==> tailOrigin[k] < tailOrigin[l]
    ensures var origin := (if kept then [0] else []) + Shift(tailOrigin);
      forall k, l :: 0 <= k < l < |origin| ==> origin[k] < origin[l]
  {
  }

  lemma {:induction false} KeepNonBlankOrigins(pieces: seq<string>) returns (origin: seq<nat>)
    ensures IsOriginMap(pieces, KeepNonBlank(pieces), origin)
    decreases |pieces|
  {
    if pieces == [] {
      origin := [];
    } else {
      var tailOrigin := KeepNonBlankOrigins(pieces[1..]);
      OriginMapCons(pieces[0], pieces[1..], KeepNonBlank(pieces[1..]), tailOrigin, Strip(pieces[0]) != "");
      assert [pieces[0]] + pieces[1..] == pieces;
      origin := (if Strip(pieces[0]) != "" then [0] else []) + Shift(tailOrigin);
    }
  }

  /** Chunks appear in the order of their pieces in `text.split("\n\n")`,
      and no non-blank piece is lost. */
  lemma ChunksInOrder(text: string) returns (origin: seq<nat>)
    ensures IsOriginMap(Split(text), Chunks(text), origin)
  {
    origin := KeepNonBlankOrigins(Split(text));
  }

  lemma {:induction false} KeepNonBlankOfChunks(cs: seq<string>)
    requires AllChunks(cs)
    ensures KeepNonBlank(cs) == cs
    decreases |cs|
  {
    if cs != [] {
      StripFixedPoint(cs[0]);
      KeepNonBlankOfChunks(cs[1..]);
      assert [cs[0]] + cs[1..] == cs;
    }
  }

  /** A list of chunks joined with the separator splits back into the
      same pieces. */
  lemma JoinedChunksSplit(cs: seq<string>)
    requires AllChunks(cs) && cs != []
    ensures Split(Join(cs)) == cs
  {
    assert '\n' == Sep[0];
    assert IsSpace('\n');
    forall i | 0 <= i < |cs| - 1 ensures !EndsInNewline(cs[i]) {
      assert IsChunk(cs[i]);
    }
    SplitUnique(cs, Join(cs));
  }

  /** Chunking is idempotent on chunk lists: chunking the blank-line join
      of a list of chunks returns exactly that list. */
  lemma ChunksOfJoin(cs: seq<string>)
    requires AllChunks(cs)
    ensures Chunks(Join(cs)) == cs
  {
    if cs == [] {
      assert Split("") == [""];
      assert Strip("") == "";
    } else {
      JoinedChunksSplit(cs);
      KeepNonBlankOfChunks(cs);
    }
  }

  /** Re-chunking a single chunk returns it alone. */
  lemma ChunksOfChunk(c: string)
    requires IsChunk(c)
    ensures Chunks(c) == [c]
  {
    ChunksOfJoin([c]);
  }

  /** Chunking the chunks of a text, joined again, gives the same chunks. */
  lemma ChunksIdempotent(text: string)
    ensures Chunks(Join(Chunks(text))) == Chunks(text)
  {
    ChunksAreChunks(text);
    ChunksOfJoin(Chunks(text));
  }

  /** A corpus with a run of three newlines: the split leaves `"\nC"`,
      which strips to `"C"`. */
  lemma ChunksExample()
    ensures Chunks("A\n\nB\n\n\nC") == ["A", "B", "C"]
  {
    assert "A\n\nB\n\n\nC" == "A" + Sep + ("B" + Sep + "\nC");
    SplitOfSepFree("\nC");
    SplitAfterPiece("B", "\nC");
    SplitAfterPiece("A", "B" + Sep + "\nC");
    assert StripLeading("\nC") == "C";
    assert Strip("\nC") == "C";
    assert Strip("A") == "A" && Strip("B") == "B";
  }
}
