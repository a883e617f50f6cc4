/** The folding of a speech-recognition result event: from the event's first
    changed result onward, the transcripts of final results are appended to one
    string and those of interim results to another. */
module Transcript {

  /** One recognition result: whether the recognizer has finalized it, and the
      transcript of its first alternative. */
  datatype Segment = Segment(isFinal: bool, transcript: string)

  /** The results the handler visits: those from `resultIndex` on. */
  function Pending(results: seq<Segment>, resultIndex: nat): (p: seq<Segment>)
    ensures |p| == if resultIndex <= |results| then |results| - resultIndex else 0
    ensures forall i :: 0 <= i < |p| ==> p[i] == results[resultIndex + i]
  {
    if resultIndex <= |results| then results[resultIndex..] else []
  }

  /** Some result of `results` has finality `final` and transcript `t`. */
  ghost predicate TranscriptOf(results: seq<Segment>, final: bool, t: string)
  {
    exists i :: 0 <= i < |results| && results[i] == Segment(final, t)
  }

  /** The transcripts of the results whose finality is `final`, in order:
      each one is the transcript of some result with that finality. */
  function Texts(results: seq<Segment>, final: bool): (ts: seq<string>)
    ensures |ts| <= |results|
    ensures forall k :: 0 <= k < |ts| ==> TranscriptOf(results, final, ts[k])
  {
    if results == [] then []
    else (if results[0].isFinal == final then [results[0].transcript] else []) + Texts(results[1..], final)
  }

  /** The concatenation of a sequence of strings. */
  function Concat(ts: seq<string>): string
  {
    if ts == [] then "" else ts[0] + Concat(ts[1..])
  }

  /** The number of characters over all transcripts. */
  function TotalLength(results: seq<Segment>): nat
  {
    if results == [] then 0 else |results[0].transcript| + TotalLength(results[1..])
  }

  /** The final string the handler builds for an event. */
  function FinalText(results: seq<Segment>, resultIndex: nat): string
  {
    Concat(Texts(Pending(results, resultIndex), true))
  }

  /** The interim string the handler builds for an event. */
  function InterimText(results: seq<Segment>, resultIndex: nat): string
  {
    Concat(Texts(Pending(results, resultIndex), false))
  }

  lemma {:induction false} TextsAppend(a: seq<Segment>, b: seq<Segment>, final: bool)
    ensures Texts(a + b, final) == Texts(a, final) + Texts(b, final)
  {
    if a == [] {
      assert a + b == b;
    } else {
      assert (a + b)[1..] == a[1..] + b;
      TextsAppend(a[1..], b, final);
    }
  }

  lemma {:induction false} ConcatAppend(x: seq<string>, y: seq<string>)
    ensures Concat(x + y) == Concat(x) + Concat(y)
  {
    if x == [] {
      assert x + y == y;
    } else {
      assert (x + y)[1..] == x[1..] + y;
      ConcatAppend(x[1..], y);
    }
  }

  /** Appending one result to the visited ones appends its transcript to the
      string of its finality and leaves the other string as it was. */
  lemma FoldStep(done: seq<Segment>, seg: Segment, final: bool)
    ensures Concat(Texts(done + [seg], final)) ==
            Concat(Texts(done, final)) + (if seg.isFinal == final then seg.transcript else "")
  {
    TextsAppend(done, [seg], final);
    ConcatAppend(Texts(done, final), Texts([seg], final));
  }

  /** The loop of the result handler: one pass from `resultIndex` to the end. */
  method FoldTranscript(results: seq<Segment>, resultIndex: nat) returns (final: string, interim: string)
    ensures final == FinalText(results, resultIndex)
    ensures interim == InterimText(results, resultIndex)
  {
    final, interim := "", "";
    var i := resultIndex;
    while i < |results|
      invariant resultIndex <= i
      invariant resultIndex <= |results| ==> i <= |results|
      invariant resultIndex <= |results| ==> final == Concat(Texts(results[resultIndex..i], true))
      invariant resultIndex <= |results| ==> interim == Concat(Texts(results[resultIndex..i], false))
      invariant resultIndex > |results| ==> final == "" && interim == ""
    {
      ghost var done := results[resultIndex..i];
      assert results[resultIndex..i + 1] == done + [results[i]];
      FoldStep(done, results[i], true);
      FoldStep(done, results[i], false);
      if results[i].isFinal {
        final := final + results[i].transcript;
      } else {
        interim := interim + results[i].transcript;
      }
      i := i + 1;
    }
    assert resultIndex <= |results| ==> results[resultIndex..i] == Pending(results, resultIndex);
  }

  /** The final string is empty exactly when every final result it covers has
      an empty transcript; so an event of interim results never triggers a reaction. */
  lemma {:induction false} FinalEmptyIff(results: seq<Segment>)
    ensures Concat(Texts(results, true)) == "" <==>
            forall i :: 0 <= i < |results| && results[i].isFinal ==> results[i].transcript == ""
  {
    if results != [] {
      FinalEmptyIff(results[1..]);
      var head := if results[0].isFinal then [results[0].transcript] else [];
      ConcatAppend(head, Texts(results[1..], true));
      assert forall i :: 1 <= i < |results| ==> results[i] == results[1..][i - 1];
    }
  }

  /** Every visited result lands in exactly one of the two strings: none is
      dropped and none is counted twice. */
  lemma {:induction false} FoldPartitions(results: seq<Segment>)
    ensures |Texts(results, true)| + |Texts(results, false)| == |results|
    ensures |Concat(Texts(results, true))| + |Concat(Texts(results, false))| == TotalLength(results)
  {
    if results != [] {
      FoldPartitions(results[1..]);
      var head := [results[0]];
      assert results == head + results[1..];
      TextsAppend(head, results[1..], true);
      TextsAppend(head, results[1..], false);
      ConcatAppend(Texts(head, true), Texts(results[1..], true));
      ConcatAppend(Texts(head, false), Texts(results[1..], false));
    }
  }
}
