/**
 From one PDF to its database rows: `process_pdf`. The text read from the file is
 tagged with the file name's metadata and the subject's topics, chunked, and every
 chunk becomes one record per topic. The PDF reader, the OCR engine and the
 embedding model are outside the model: the text they produce and the encoder
 are parameters.
 */
module Records {
  import opened Text
  import opened FilenameMetadata
  import Chunker
  import Topics

  /** `embedding.tolist()`: the encoder's vector for one chunk, carried into the record unchanged. */
  type Embedding = seq<real>

  /** One row of the `csec_content` table. */
  datatype Record = Record(
    subject: string,
    topic: string,
    subtopic: string,
    contentType: string,
    content: string,
    metadata: Metadata,
    embedding: Embedding)

  /** Below this many characters of stripped page text, OCR is tried. */
  const OcrThreshold := 100

  /**
   The last step of `extract_text_from_pdf`: the OCR text replaces the page text only
   when the stripped page text is shorter than `OcrThreshold` and the OCR text is
   non-empty and longer. So the choice never loses text, and a page text of
   `OcrThreshold` stripped characters or more is always kept.
   */
  function ChooseText(fullText: string, ocrText: string): (r: string)
    ensures r == fullText || r == ocrText
    ensures |r| >= |fullText|
    ensures r != fullText ==> |Strip(fullText)| < OcrThreshold && |ocrText| > |fullText|
    ensures |Strip(fullText)| < OcrThreshold && |ocrText| > |fullText| ==> r == ocrText
  {
    if |Strip(fullText)| < OcrThreshold && |ocrText| > 0 && |ocrText| > |fullText| then ocrText
    else fullText
  }

  /** `f"Chunk {i + 1}"`: the subtopic of chunk `i`. */
  function ChunkLabel(i: nat): string {
    "Chunk " + DecimalString(i + 1)
  }

  /** The chunk's number reads back from its label: `Chunk ` and then the digits of `i + 1`. */
  lemma ChunkLabelReadsBack(i: nat)
    ensures var s := ChunkLabel(i);
            |s| > 6 && s[..6] == "Chunk " && AllDigits(s[6..]) && ParseDecimal(s[6..]) == i + 1
  {
    var digits := DecimalString(i + 1);
    ParseDecimalString(i + 1);
    assert ChunkLabel(i)[6..] == digits;
  }

  /** Different chunks get different labels. */
  lemma ChunkLabelInjective(i: nat, j: nat)
    requires ChunkLabel(i) == ChunkLabel(j)
    ensures i == j
  {
    ChunkLabelReadsBack(i);
    ChunkLabelReadsBack(j);
  }

  /** `{**metadata, 'chunk_index': i, 'total_chunks': total}`: the file's metadata plus the chunk's place. */
  function ChunkMetadata(metadata: Metadata, i: nat, total: nat): (m: Metadata)
    ensures m.Keys == metadata.Keys + {ChunkIndex, TotalChunks}
    ensures m[ChunkIndex] == Int(i) && m[TotalChunks] == Int(total)
    ensures forall k :: k in metadata && k != ChunkIndex && k != TotalChunks ==> m[k] == metadata[k]
  {
    metadata[ChunkIndex := Int(i)][TotalChunks := Int(total)]
  }

  /** What `process_pdf` has gathered about one file when its loop starts. */
  datatype Gathered = Gathered(
    subject: string,
    contentType: string,
    metadata: Metadata,
    topics: seq<string>,
    chunks: seq<string>,
    embeddings: seq<Embedding>)

  /** `zip(chunks, embeddings)` stops at the shorter of the two. */
  function Paired(g: Gathered): (n: nat)
    ensures n <= |g.chunks| && n <= |g.embeddings|
    ensures n == |g.chunks| || n == |g.embeddings|
  {
    if |g.chunks| <= |g.embeddings| then |g.chunks| else |g.embeddings|
  }

  /** The record for chunk `i` and topic `t`: the dict appended by the inner loop. */
  function RecordAt(g: Gathered, i: nat, t: nat): Record
    requires i < Paired(g) && t < |g.topics|
  {
    Record(g.subject, g.topics[t], ChunkLabel(i), g.contentType, g.chunks[i],
           ChunkMetadata(g.metadata, i, |g.chunks|), g.embeddings[i])
  }

  /** The records of chunk `i` for its first `t` topics. */
  function Row(g: Gathered, i: nat, t: nat): (rs: seq<Record>)
    requires i < Paired(g) && t <= |g.topics|
    ensures |rs| == t
  {
    if t == 0 then [] else Row(g, i, t - 1) + [RecordAt(g, i, t - 1)]
  }

  /** The records of the first `i` chunks, chunk after chunk. */
  function Rows(g: Gathered, i: nat): seq<Record>
    requires i <= Paired(g)
  {
    if i == 0 then [] else Rows(g, i - 1) + Row(g, i - 1, |g.topics|)
  }

  /** Where the records of chunk `i` start when every chunk has `m` of them: `i * m`, built by steps of `m`. */
  function RowStart(i: nat, m: nat): nat {
    if i == 0 then 0 else RowStart(i - 1, m) + m
  }

  /** The position of slot `t` of row `i` when every row has `m` slots. */
  function Position(i: nat, t: nat, m: nat): nat {
    RowStart(i, m) + t
  }

  /** The start of row `i` is `i * m`. */
  lemma {:induction false} RowStartIsProduct(i: nat, m: nat)
    ensures RowStart(i, m) == i * m
  {
    if i > 0 {
      RowStartIsProduct(i - 1, m);
      assert i * m == (i - 1) * m + m;
    }
  }

  /** Rows do not overlap: a later row starts after every slot of an earlier one. */
  lemma {:induction false} RowStartAfter(i: nat, j: nat, m: nat)
    requires i < j
    ensures RowStart(i, m) + m <= RowStart(j, m)
  {
    if i < j - 1 {
      RowStartAfter(i, j - 1, m);
    }
  }

  /** Every position below `RowStart(n, m)` is slot `t` of some row `i < n`. */
  lemma {:induction false} SlotOf(k: nat, n: nat, m: nat)
    requires k < RowStart(n, m)
    ensures exists i: nat, t: nat :: i < n && t < m && k == Position(i, t, m)
  {
    if k < RowStart(n - 1, m) {
      SlotOf(k, n - 1, m);
      var i: nat, t: nat :| i < n - 1 && t < m && k == Position(i, t, m);
      assert i < n;
    } else {
      assert k == Position(n - 1, k - RowStart(n - 1, m), m);
    }
  }

  /**
   `records` is the chunk-major expansion: one record per (chunk, topic) pair, the
   record of chunk `i` and topic `t` at `Position(i, t, |topics|)`, that is at
   `i * |topics| + t`.
   */
  predicate Expansion(records: seq<Record>, g: Gathered) {
    var m := |g.topics|;
    && |records| == RowStart(Paired(g), m)
    && forall i, t :: 0 <= i < Paired(g) && 0 <= t < m ==>
         && Position(i, t, m) < |records|
         && records[Position(i, t, m)] == RecordAt(g, i, t)
  }

  /**
   The nested loop of `process_pdf`: for each (chunk, embedding) pair in order, and for
   each topic in order, one record is appended.
   */
  method AssembleRecords(g: Gathered) returns (records: seq<Record>)
    ensures records == Rows(g, Paired(g))
    ensures Expansion(records, g)
  {
    records := [];
    var i := 0;
    while i < Paired(g)
      invariant 0 <= i <= Paired(g)
      invariant records == Rows(g, i)
    {
      var t := 0;
      while t < |g.topics|
        invariant 0 <= t <= |g.topics|
        invariant records == Rows(g, i) + Row(g, i, t)
      {
        records := records + [RecordAt(g, i, t)];
        t := t + 1;
      }
      i := i + 1;
    }
    RowsAreExpansion(g);
  }

  /** Row `i` holds the records of chunk `i`, topic by topic. */
  lemma {:induction false} RowAt(g: Gathered, i: nat, t: nat, u: nat)
    requires i < Paired(g) && u < t <= |g.topics|
    ensures Row(g, i, t)[u] == RecordAt(g, i, u)
  {
    if u < t - 1 {
      RowAt(g, i, t - 1, u);
    }
  }

  /** The first `i` chunks give `RowStart(i, |topics|)` records. */
  lemma {:induction false} RowsLength(g: Gathered, i: nat)
    requires i <= Paired(g)
    ensures |Rows(g, i)| == RowStart(i, |g.topics|)
  {
    if i > 0 {
      RowsLength(g, i - 1);
    }
  }

  /** Among the first `i` chunks, slot `t` of chunk `j`'s row sits at its position. */
  lemma {:induction false} RowsAt(g: Gathered, i: nat, j: nat, t: nat)
    requires j < i <= Paired(g) && t < |g.topics|
    ensures Position(j, t, |g.topics|) < |Rows(g, i)|
    ensures Rows(g, i)[Position(j, t, |g.topics|)] == Row(g, j, |g.topics|)[t]
  {
    var prev := Rows(g, i - 1);
    RowsLength(g, i - 1);
    assert Rows(g, i) == prev + Row(g, i - 1, |g.topics|);
    if j < i - 1 {
      RowsAt(g, i - 1, j, t);
    } else {
      assert Position(j, t, |g.topics|) == |prev| + t;
    }
  }

  /** All the rows together are the expansion of the gathered chunks over the topics. */
  lemma RowsAreExpansion(g: Gathered)
    ensures Expansion(Rows(g, Paired(g)), g)
  {
    var rs, n, m := Rows(g, Paired(g)), Paired(g), |g.topics|;
    RowsLength(g, n);
    assert |rs| == RowStart(n, m);
    forall i, t | 0 <= i < n && 0 <= t < m
      ensures && Position(i, t, m) < |rs|
              && rs[Position(i, t, m)] == RecordAt(g, i, t)
    {
      RowsAt(g, n, i, t);
      RowAt(g, i, m, t);
    }
  }

  /** An expansion holds `|chunks| * |topics|` records when the encoder gives one embedding per chunk. */
  lemma ExpansionCount(records: seq<Record>, g: Gathered)
    requires Expansion(records, g)
    requires |g.embeddings| == |g.chunks|
    ensures |records| == |g.chunks| * |g.topics|
  {
    RowStartIsProduct(|g.chunks|, |g.topics|);
  }

  /** Conversely, every position of an expansion holds the record of some chunk and topic. */
  lemma ExpansionSlot(records: seq<Record>, g: Gathered, k: int)
    requires Expansion(records, g)
    requires 0 <= k < |records|
    ensures exists i: nat, t: nat :: i < Paired(g) && t < |g.topics| && k == Position(i, t, |g.topics|)
                                     && records[k] == RecordAt(g, i, t)
  {
    SlotOf(k, Paired(g), |g.topics|);
    var i: nat, t: nat :| i < Paired(g) && t < |g.topics| && k == Position(i, t, |g.topics|);
    assert records[k] == RecordAt(g, i, t);
  }

  /**
   With distinct topics an expansion has no two equal records: two positions differ in
   their chunk, and so in `chunk_index`, or in their topic.
   */
  lemma ExpansionNoDuplicates(records: seq<Record>, g: Gathered)
    requires Expansion(records, g)
    requires Topics.Distinct(g.topics)
    ensures forall a, b :: 0 <= a < b < |records| ==> records[a] != records[b]
  {
    var m := |g.topics|;
    forall a, b | 0 <= a < b < |records|
      ensures records[a] != records[b]
    {
      ExpansionSlot(records, g, a);
      ExpansionSlot(records, g, b);
      var i: nat, t: nat :| i < Paired(g) && t < m && a == Position(i, t, m) && records[a] == RecordAt(g, i, t);
      var i': nat, t': nat :| i' < Paired(g) && t' < m && b == Position(i', t', m) && records[b] == RecordAt(g, i', t');
      if i == i' {
        assert records[a].topic != records[b].topic;
      } else {
        if i < i' {
          RowStartAfter(i, i', m);
        } else {
          RowStartAfter(i', i, m);
        }
        assert records[a].metadata[ChunkIndex] != records[b].metadata[ChunkIndex];
      }
    }
  }

  /** The topics `detect_topics` may return: never empty, each once, `General` exactly when nothing is detected. */
  ghost predicate TopicsFor(topics: seq<string>, text: string, subject: string) {
    var found := Topics.Detected(Topics.TopicKeywords, text, subject);
    && |topics| > 0 && Topics.Distinct(topics)
    && (found == {} ==> topics == [Topics.General])
    && (found != {} ==> forall t :: t in topics <==> t in found)
  }

  /**
   `process_pdf` on the extracted `text`: no records when the text is empty or no chunk
   survives; otherwise the chunk-major expansion of the chunks of `text` over the
   detected topics, with the file name's metadata and the encoder's embeddings.
   */
  method ProcessPdf(text: string, filename: string, subject: string, contentType: string,
                    encode: seq<string> -> seq<Embedding>) returns (records: seq<Record>)
    ensures |text| == 0 ==> records == []
    ensures |Chunker.Chunks(text, Chunker.ChunkSize, Chunker.ChunkOverlap)| == 0 ==> records == []
    ensures |text| > 0 ==>
              var chunks := Chunker.Chunks(text, Chunker.ChunkSize, Chunker.ChunkOverlap);
              exists metadata: Metadata, topics: seq<string> ::
                && Describes(metadata, filename, contentType)
                && TopicsFor(topics, text, subject)
                && Expansion(records, Gathered(subject, contentType, metadata, topics, chunks, encode(chunks)))
  {
    records := [];
    if |text| == 0 {
      return;
    }
    var metadata := ExtractMetadata(filename, contentType);
    var topics := Topics.DetectTopics(text, subject);
    var chunks := Chunker.ChunkText(text, Chunker.ChunkSize, Chunker.ChunkOverlap);
    var g := Gathered(subject, contentType, metadata, topics, chunks, encode(chunks));
    assert TopicsFor(topics, text, subject);
    if |chunks| == 0 {
      assert Expansion(records, g);
      return;
    }
    records := AssembleRecords(g);
  }
}
