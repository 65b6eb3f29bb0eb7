/**
 The speech-recognition result handler: every recognition event carries the
 full list of results recognised so far, each with its alternatives ranked
 best first, and the story text becomes the concatenation of each result's
 best alternative.
 */
module Transcript {

  datatype Alternative = Alternative(transcript: string)

  /** A recognition result always holds at least one alternative. */
  datatype RecognitionResult = RecognitionResult(best: Alternative, others: seq<Alternative>)

  /** The summed length of the best transcripts. */
  function TotalLength(results: seq<RecognitionResult>): nat
    decreases |results|
  {
    if results == [] then 0 else |results[0].best.transcript| + TotalLength(results[1..])
  }

  /** `Array.from(results).map(r => r[0].transcript).join('')`: as long as all
      best transcripts together. */
  function JoinBest(results: seq<RecognitionResult>): (text: string)
    ensures |text| == TotalLength(results)
    decreases |results|
  {
    if results == [] then ""
    else
      var earlier := results[..|results| - 1];
      TotalLengthSnoc(earlier, results[|results| - 1]);
      assert earlier + [results[|results| - 1]] == results;
      JoinBest(earlier) + results[|results| - 1].best.transcript
  }

  lemma {:induction false} TotalLengthSnoc(results: seq<RecognitionResult>, last: RecognitionResult)
    ensures TotalLength(results + [last]) == TotalLength(results) + |last.best.transcript|
    decreases |results|
  {
    if results == [] {
      assert [last][1..] == [];
    } else {
      assert (results + [last])[1..] == results[1..] + [last];
      TotalLengthSnoc(results[1..], last);
    }
  }

  /** Joining is a homomorphism: the text of a longer event is the text of its
      first results followed by the text of the rest. */
  lemma {:induction false} JoinBestAppend(a: seq<RecognitionResult>, b: seq<RecognitionResult>)
    ensures JoinBest(a + b) == JoinBest(a) + JoinBest(b)
    decreases |b|
  {
    if b == [] {
      assert a + b == a;
    } else {
      var rest := b[..|b| - 1];
      var last := b[|b| - 1].best.transcript;
      assert (a + b)[..|a + b| - 1] == a + rest;
      assert (a + b)[|a + b| - 1] == b[|b| - 1];
      assert JoinBest(a + b) == JoinBest(a + rest) + last;
      assert JoinBest(b) == JoinBest(rest) + last;
      JoinBestAppend(a, rest);
    }
  }

  /** Each result's best transcript sits in the text at the position where the
      transcripts before it end, and nothing else is in the text. */
  lemma {:induction false} JoinBestLayout(results: seq<RecognitionResult>, i: nat)
    requires i < |results|
    ensures var before := JoinBest(results[..i]);
      var t := results[i].best.transcript;
      JoinBest(results) == before + t + JoinBest(results[i + 1..])
  {
    assert results == results[..i] + [results[i]] + results[i + 1..];
    JoinBestAppend(results[..i] + [results[i]], results[i + 1..]);
    JoinBestAppend(results[..i], [results[i]]);
    assert JoinBest([results[i]]) == results[i].best.transcript by {
      assert [results[i]][..0] == [];
    }
  }
}
