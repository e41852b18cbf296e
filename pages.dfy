/**
 * The two text helpers of app.py: reading one page of the document by its zero-based index,
 * and cutting a text into the pieces that are read aloud one after the other.
 *
 * The document is its sequence of page texts; opening the PDF file and extracting a page's
 * text are the PDF library's work and are not part of this model.
 */
module Pages {
  import opened Wrappers

  /** What `extract_text_from_page` returns for an index past the last page. */
  const PageNotFound := "Page not found."

  /** `CHUNK_CHAR_LIMIT`, the default size of a read-aloud chunk. */
  const ChunkCharLimit := 3000

  /**
   * `extract_text_from_page` as written: the only guard is `page_number < len(doc)`, so a
   * negative index reaches the document, which counts it from the end as Python sequences do
   * (and fails, `None` here, when it reaches past the first page).
   */
  function ExtractTextAsWritten(doc: seq<string>, pageNumber: int): (text: Option<string>)
    ensures pageNumber >= |doc| ==> text == Some(PageNotFound)
    ensures 0 <= pageNumber < |doc| ==> text == Some(doc[pageNumber])
    ensures -|doc| <= pageNumber < 0 ==> text == Some(doc[|doc| + pageNumber])
    ensures pageNumber < -|doc| <==> text == None
  {
    if pageNumber < |doc| then
      if 0 <= pageNumber then Some(doc[pageNumber])
      else if -|doc| <= pageNumber then Some(doc[|doc| + pageNumber])
      else None
    else Some(PageNotFound)
  }

  /**
   * A leaf whose outline entry points outside the document (the PDF library reports page -1
   * for such a bookmark) is read at index -2: the page before the last one is shown where the
   * message was meant.
   */
  lemma OutsidePageReadsFromEnd(doc: seq<string>)
    requires |doc| >= 2
    ensures ExtractTextAsWritten(doc, -1 - 1) == Some(doc[|doc| - 2])
  {
  }

  /**
   * `extract_text_from_page` as intended: the text of the page at a zero-based index that lies
   * inside the document, and the message otherwise.
   */
  function ExtractTextFromPage(doc: seq<string>, pageNumber: int): (text: string)
    ensures 0 <= pageNumber < |doc| ==> text == doc[pageNumber]
    ensures !(0 <= pageNumber < |doc|) ==> text == PageNotFound
  {
    if 0 <= pageNumber < |doc| then doc[pageNumber] else PageNotFound
  }

  /** On every index that is not negative, the intended reader and the source agree. */
  lemma ExtractTextAgrees(doc: seq<string>, pageNumber: int)
    requires pageNumber >= 0
    ensures ExtractTextAsWritten(doc, pageNumber) == Some(ExtractTextFromPage(doc, pageNumber))
  {
  }

  function Min(a: int, b: int): int {
    if a <= b then a else b
  }

  /**
   * `chunk_text(text, limit)`: the slices `text[i:i + limit]` for `i` in
   * `range(0, len(text), limit)`, that is, a first slice of at most `limit` characters followed
   * by the chunks of what remains.
   */
  function ChunkText(text: string, limit: nat): (chunks: seq<string>)
    requires limit > 0
    ensures forall k :: 0 <= k < |chunks| ==> 0 < |chunks[k]| <= limit
    ensures forall k :: 0 <= k < |chunks| - 1 ==> |chunks[k]| == limit
    ensures chunks == [] <==> text == []
    decreases |text|
  {
    if text == [] then []
    else
      var end := Min(limit, |text|);
      [text[..end]] + ChunkText(text[end..], limit)
  }

  /** `chunk_text(text)` with its default limit `CHUNK_CHAR_LIMIT`. */
  function ChunkTextDefault(text: string): (chunks: seq<string>)
    ensures forall k :: 0 <= k < |chunks| ==> 0 < |chunks[k]| <= ChunkCharLimit
    ensures forall k :: 0 <= k < |chunks| - 1 ==> |chunks[k]| == ChunkCharLimit
    ensures chunks == [] <==> text == []
  {
    ChunkText(text, ChunkCharLimit)
  }

  function Concat(chunks: seq<string>): string {
    if chunks == [] then [] else chunks[0] + Concat(chunks[1..])
  }

  /** Joining the chunks gives back the text: nothing is lost, repeated or reordered. */
  lemma {:induction false} ChunksConcat(text: string, limit: nat)
    requires limit > 0
    ensures Concat(ChunkText(text, limit)) == text
    decreases |text|
  {
    if text != [] {
      var end := Min(limit, |text|);
      var chunks := ChunkText(text, limit);
      ChunksConcat(text[end..], limit);
      assert chunks[1..] == ChunkText(text[end..], limit);
      assert text == text[..end] + text[end..];
    }
  }

  /** There are just enough chunks of `limit` characters to reach the end of the text. */
  lemma {:induction false} ChunkCount(text: string, limit: nat)
    requires limit > 0
    ensures (|ChunkText(text, limit)| - 1) * limit < |text| <= |ChunkText(text, limit)| * limit
    decreases |text|
  {
    if text != [] {
      var end := Min(limit, |text|);
      var rest := text[end..];
      ChunkCount(rest, limit);
      var m := |ChunkText(rest, limit)|;
      assert |ChunkText(text, limit)| == m + 1;
      Distribute(m, limit);
    }
  }

  lemma Distribute(m: int, limit: int)
    ensures (m + 1) * limit == m * limit + limit
    ensures (m - 1) * limit == m * limit - limit
  {
  }

  /** Past the first chunk, the chunks are those of the text after its first `limit` characters. */
  lemma ChunksAfterFirst(text: string, limit: nat)
    requires limit > 0 && |ChunkText(text, limit)| > 1
    ensures |text| > limit
    ensures ChunkText(text, limit)[1..] == ChunkText(text[limit..], limit)
  {
  }

  lemma ShiftedSlice(text: string, limit: nat, k: nat)
    requires limit > 0 && k > 0 && |text| > limit
    requires (k - 1) * limit < |text| - limit
    ensures k * limit < |text|
    ensures text[limit..][(k - 1) * limit .. Min((k - 1) * limit + limit, |text| - limit)]
         == text[k * limit .. Min(k * limit + limit, |text|)]
  {
    var start := (k - 1) * limit;
    assert start + limit == k * limit;
    var end := Min(start + limit, |text| - limit);
    assert text[limit..][start..end] == text[limit + start .. limit + end];
  }

  /**
   * The chunks are the slices of the comprehension: chunk `k` is the slice of at most `limit`
   * characters starting at `k * limit`, and that start lies inside the text.
   */
  lemma {:induction false} ChunkAt(text: string, limit: nat, k: nat)
    requires limit > 0 && k < |ChunkText(text, limit)|
    ensures k * limit < |text|
    ensures ChunkText(text, limit)[k] == text[k * limit .. Min(k * limit + limit, |text|)]
    decreases k
  {
    if k > 0 {
      ChunksAfterFirst(text, limit);
      ChunkAt(text[limit..], limit, k - 1);
      ShiftedSlice(text, limit, k);
    }
  }
}
