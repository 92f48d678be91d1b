/**
 * The framework-independent parts of the video-captioning script
 * (hw2/S2VT_jason.py): the special word ids, the run modes, the shift of a
 * caption into decoder input and target, the sequence-length arithmetic, the
 * greedy decoding of a score table into captions and the pairing of the
 * captions with the test video ids.
 */
module S2vt {
  import opened Slices
  import opened Scores

  // ---------------------------------------------------------------------------
  // Special vocabulary ids (lines 42-45) and run modes (lines 48-50, 267-269)
  // ---------------------------------------------------------------------------

  const PAD := 0
  const BOS := 1
  const EOS := 2
  const UNK := 3

  /** The four special ids are 0, 1, 2 and 3, all distinct. */
  lemma SpecialIdsDistinct()
    ensures [PAD, BOS, EOS, UNK] == [0, 1, 2, 3]
    ensures |{PAD, BOS, EOS, UNK}| == 4
  {
  }

  const TrainingMode := 0
  const ValidatingMode := 1
  const TestingMode := 2

  predicate IsTrain(mode: int) { mode == 0 }
  predicate IsValid(mode: int) { mode == 1 }
  predicate IsTest(mode: int) { mode == 2 }

  /** A known mode satisfies exactly one of the three predicates; any other mode none. */
  lemma ExactlyOneMode(mode: int)
    ensures mode in {TrainingMode, ValidatingMode, TestingMode} <==> (IsTrain(mode) || IsValid(mode) || IsTest(mode))
    ensures !(IsTrain(mode) && IsValid(mode)) && !(IsTrain(mode) && IsTest(mode)) && !(IsValid(mode) && IsTest(mode))
    ensures IsTrain(TrainingMode) && IsValid(ValidatingMode) && IsTest(TestingMode)
  {
  }

  // ---------------------------------------------------------------------------
  // Decoder input and target (lines 97-98)
  // ---------------------------------------------------------------------------

  /** What the decoder reads: the caption without its last id. */
  function DecoderInput(caption: seq<int>): seq<int>
  {
    DropLast(caption, 1)
  }

  /** What the decoder must predict: the caption without its first id. */
  function DecoderTarget(caption: seq<int>): seq<int>
  {
    Drop(caption, 1)
  }

  /**
   * Teacher forcing: both halves have length n-1, the input is the caption
   * without its last id, the target is the caption without its first id, so
   * at every step the target is the id the input shows one step later.
   */
  lemma DecoderShift(caption: seq<int>)
    ensures |DecoderInput(caption)| == |DecoderTarget(caption)| == if caption == [] then 0 else |caption| - 1
    ensures forall j :: 0 <= j < |DecoderInput(caption)| ==>
              DecoderInput(caption)[j] == caption[j] && DecoderTarget(caption)[j] == caption[j + 1]
    ensures forall j :: 0 <= j < |DecoderTarget(caption)| - 1 ==> DecoderTarget(caption)[j] == DecoderInput(caption)[j + 1]
  {
    ShiftAligned(caption);
  }

  /**
   * A caption framed by BOS and EOS, with no padding: the input starts with
   * BOS, the target ends with EOS. In a batch this is only the longest caption.
   */
  lemma FramedCaptionShift(body: seq<int>)
    ensures DecoderInput([BOS] + body + [EOS]) == [BOS] + body
    ensures DecoderTarget([BOS] + body + [EOS]) == body + [EOS]
  {
    var c := [BOS] + body + [EOS];
    assert c[..|c| - 1] == [BOS] + body;
    assert c[1..] == body + [EOS];
  }

  /**
   * A shorter caption of the batch, filled with PAD ids up to the longest one:
   * the target is body, EOS, then all the padding, so it ends with PAD; the
   * input still holds the EOS and all but one PAD.
   */
  lemma PaddedCaptionShift(body: seq<int>, padCount: nat)
    requires padCount >= 1
    ensures DecoderInput([BOS] + body + [EOS] + Fill(padCount, PAD)) == [BOS] + body + [EOS] + Fill(padCount - 1, PAD)
    ensures DecoderTarget([BOS] + body + [EOS] + Fill(padCount, PAD)) == body + [EOS] + Fill(padCount, PAD)
    ensures DecoderTarget([BOS] + body + [EOS] + Fill(padCount, PAD))[|body| + padCount] == PAD
  {
    var c := [BOS] + body + [EOS] + Fill(padCount, PAD);
    assert c[..|c| - 1] == [BOS] + body + [EOS] + Fill(padCount - 1, PAD);
    assert c[1..] == body + [EOS] + Fill(padCount, PAD);
  }

  // ---------------------------------------------------------------------------
  // Sequence lengths (lines 143-148)
  // ---------------------------------------------------------------------------

  /** A constant column: the same value for every example of the batch. */
  function Fill(batchSize: nat, v: int): (r: seq<int>)
    ensures |r| == batchSize && forall b :: 0 <= b < batchSize ==> r[b] == v
  {
    seq(batchSize, _ => v)
  }

  /** Frame count plus caption length: the steps each example really uses. */
  function SequenceLengths(batchSize: nat, frameNum: int, captionLens: seq<int>): (r: seq<int>)
    requires |captionLens| == batchSize
    ensures |r| == batchSize
  {
    var frames := Fill(batchSize, frameNum);
    seq(batchSize, b requires 0 <= b < batchSize => frames[b] + captionLens[b])
  }

  /** Frame count plus one less than the maximum caption length: the steps the unrolled loop runs. */
  function TotalLengths(batchSize: nat, frameNum: int, maxCaptionLength: int): (r: seq<int>)
    ensures |r| == batchSize
  {
    var frames := Fill(batchSize, frameNum);
    var captionSteps := Fill(batchSize, maxCaptionLength - 1);
    seq(batchSize, b requires 0 <= b < batchSize => frames[b] + captionSteps[b])
  }

  /**
   * Per example, the sequence length is the frame count plus the caption
   * length and the total length the frame count plus max_caption_length - 1;
   * the caption part of the total is the length of the decoder target of a
   * caption padded to max_caption_length, and an example fits in the total
   * exactly when its caption is no longer than that target.
   */
  lemma LengthArithmetic(batchSize: nat, frameNum: int, captionLens: seq<int>, maxCaptionLength: int, padded: seq<int>, b: int)
    requires |captionLens| == batchSize && 0 <= b < batchSize
    ensures SequenceLengths(batchSize, frameNum, captionLens)[b] == frameNum + captionLens[b]
    ensures TotalLengths(batchSize, frameNum, maxCaptionLength)[b] == frameNum + maxCaptionLength - 1
    ensures maxCaptionLength >= 1 && |padded| == maxCaptionLength ==>
              TotalLengths(batchSize, frameNum, maxCaptionLength)[b] == frameNum + |DecoderTarget(padded)|
    ensures maxCaptionLength >= 1 && |padded| == maxCaptionLength ==>
              (SequenceLengths(batchSize, frameNum, captionLens)[b] <= TotalLengths(batchSize, frameNum, maxCaptionLength)[b]
               <==> captionLens[b] <= |DecoderTarget(padded)|)
  {
  }

  // ---------------------------------------------------------------------------
  // Greedy decoding (lines 328-337)
  // ---------------------------------------------------------------------------

  /** Every position of every row scores at least one word, so argmax is defined. */
  ghost predicate HasScores(prob: seq<seq<seq<real>>>)
  {
    forall i, j :: 0 <= i < |prob| && 0 <= j < |prob[i]| ==> |prob[i][j]| > 0
  }

  /** The best-scoring word id at every position of one row. */
  function ArgmaxIds(row: seq<seq<real>>): (ids: seq<nat>)
    requires forall j :: 0 <= j < |row| ==> |row[j]| > 0
    ensures |ids| == |row|
    ensures forall j :: 0 <= j < |row| ==> ids[j] < |row[j]| && forall w :: 0 <= w < |row[j]| ==> row[j][w] <= row[j][ids[j]]
  {
    seq(|row|, j requires 0 <= j < |row| => Argmax(row[j]))
  }

  /** The ids before the first EOS, or all of them when there is no EOS. */
  function UntilEos(ids: seq<nat>): (r: seq<nat>)
    ensures r <= ids
    ensures EOS !in r
    ensures |r| == |ids| || ids[|r|] == EOS
  {
    if ids == [] || ids[0] == EOS then [] else [ids[0]] + UntilEos(ids[1..])
  }

  /** Any EOS-free prefix that stops at the end or at an EOS is the one UntilEos returns. */
  lemma UntilEosUnique(ids: seq<nat>, p: seq<nat>)
    requires p <= ids && EOS !in p
    requires |p| == |ids| || ids[|p|] == EOS
    ensures p == UntilEos(ids)
  {
    var r := UntilEos(ids);
    assert |p| <= |r| ==> ids[..|p|] == r[..|p|];
    assert |r| <= |p| ==> ids[..|r|] == p[..|r|];
  }

  /** The caption ids decoded from one row of the score table. */
  function Caption(row: seq<seq<real>>): seq<nat>
    requires forall j :: 0 <= j < |row| ==> |row[j]| > 0
  {
    UntilEos(ArgmaxIds(row))
  }

  /**
   * A decoded caption never holds EOS, is never longer than the row, and is
   * the row's best ids in position order, stopping at the first best id that
   * is EOS.
   */
  lemma CaptionStopsAtFirstEos(row: seq<seq<real>>)
    requires forall j :: 0 <= j < |row| ==> |row[j]| > 0
    ensures EOS !in Caption(row) && |Caption(row)| <= |row|
    ensures forall j :: 0 <= j < |Caption(row)| ==> Caption(row)[j] == Argmax(row[j])
    ensures |Caption(row)| < |row| ==> Argmax(row[|Caption(row)|]) == EOS
  {
    var ids := ArgmaxIds(row);
    assert forall j :: 0 <= j < |Caption(row)| ==> Caption(row)[j] == ids[j];
  }

  /** The words of a list of ids under the id-to-word table. */
  function Words<W>(dct: nat -> W, ids: seq<nat>): (ws: seq<W>)
    ensures |ws| == |ids| && forall k :: 0 <= k < |ids| ==> ws[k] == dct(ids[k])
  {
    seq(|ids|, k requires 0 <= k < |ids| => dct(ids[k]))
  }

  /** Extending the ids by one position extends their words by that id's word. */
  lemma WordsAppend<W>(dct: nat -> W, ids: seq<nat>, j: nat)
    requires j < |ids|
    ensures Words(dct, ids[..j + 1]) == Words(dct, ids[..j]) + [dct(ids[j])]
  {
    assert ids[..j + 1] == ids[..j] + [ids[j]];
  }

  /**
   * The test branch of run_epoch: for every row, the words of the best ids
   * up to the first EOS; one caption per row, in row order.
   */
  method DecodeCaptions<W>(prob: seq<seq<seq<real>>>, dct: nat -> W) returns (bests: seq<seq<W>>)
    requires HasScores(prob)
    ensures |bests| == |prob|
    ensures forall i :: 0 <= i < |prob| ==> bests[i] == Words(dct, Caption(prob[i]))
  {
    bests := [];
    var i := 0;
    while i < |prob|
      invariant 0 <= i <= |prob| && |bests| == i
      invariant forall k :: 0 <= k < i ==> bests[k] == Words(dct, Caption(prob[k]))
    {
      var row := prob[i];
      ghost var ids := ArgmaxIds(row);
      var ans := [];
      var j := 0;
      while j < |row|
        invariant 0 <= j <= |row|
        invariant ans == Words(dct, ids[..j])
        invariant EOS !in ids[..j]
      {
        var maxId := Argmax(row[j]);
        if maxId == EOS {
          break;
        }
        WordsAppend(dct, ids, j);
        ans := ans + [dct(maxId)];
        j := j + 1;
      }
      UntilEosUnique(ids, ids[..j]);
      bests := bests + [ans];
      i := i + 1;
    }
  }

  // ---------------------------------------------------------------------------
  // Output records (lines 440-441)
  // ---------------------------------------------------------------------------

  /** One entry of the output JSON list. */
  datatype Record<W> = Record(caption: W, id: string)

  /** The output records: results and test ids zipped by position. */
  function PairWithIds<W>(results: seq<W>, ids: seq<string>): (out: seq<Record<W>>)
    ensures |out| == if |results| <= |ids| then |results| else |ids|
    ensures forall k :: 0 <= k < |out| ==> out[k].caption == results[k] && out[k].id == ids[k]
  {
    var n := if |results| <= |ids| then |results| else |ids|;
    seq(n, k requires 0 <= k < n => Record(results[k], ids[k]))
  }

  /** With as many captions as ids, the records split back into the two lists. */
  lemma PairingUnzips<W>(results: seq<W>, ids: seq<string>)
    requires |results| == |ids|
    ensures var out := PairWithIds(results, ids);
            && seq(|out|, k requires 0 <= k < |out| => out[k].caption) == results
            && seq(|out|, k requires 0 <= k < |out| => out[k].id) == ids
  {
  }
}
