/**
 * The reading-mode pipeline of `src/hooks/read/read.tsx`: the article's
 * paragraphs are packed into batches of at most `MaxCharacters` characters,
 * and every language-model call is retried at most `MaxAttempts` times.
 * The model call itself is an input: the reply to the i-th attempt.
 */
module Read {
  import opened Wrappers

  const MaxAttempts: nat := 3
  const MaxCharacters: nat := 1500

  /** What one attempt at a language-model call gives back. */
  datatype Reply<T> = Answer(value: T) | Fault(error: string)

  // ---------------------------------------------------------------------
  // Batching
  // ---------------------------------------------------------------------

  /** The summed character length of a batch. */
  function Sum(b: seq<string>): nat
  {
    if b == [] then 0 else Sum(b[..|b| - 1]) + |b[|b| - 1]|
  }

  /** The batches laid end to end. */
  function Flatten(bs: seq<seq<string>>): seq<string>
  {
    if bs == [] then [] else Flatten(bs[..|bs| - 1]) + bs[|bs| - 1]
  }

  /** The loop state: the batches pushed so far and the pending batch with its length. */
  datatype Packing = Packing(batches: seq<seq<string>>, pending: seq<string>, pendingLength: nat)

  /**
   * One iteration of the batching loop. `skipEmpty` selects the corrected
   * loop, which does not push the pending batch while it is empty.
   */
  function PackStep(s: Packing, p: string, skipEmpty: bool): Packing
  {
    Add(Flush(s, p, skipEmpty), p)
  }

  /** The pending batch is pushed when `p` would take it over the limit. */
  function Flush(s: Packing, p: string, skipEmpty: bool): Packing
  {
    if s.pendingLength + |p| > MaxCharacters && !(skipEmpty && s.pending == [])
    then Packing(s.batches + [s.pending], [], 0)
    else s
  }

  /** An over-long paragraph becomes a batch of its own; any other joins the pending batch. */
  function Add(s: Packing, p: string): Packing
  {
    if |p| > MaxCharacters then Packing(s.batches + [[p]], s.pending, s.pendingLength)
    else Packing(s.batches, s.pending + [p], s.pendingLength + |p|)
  }

  /** The loop state after the first `k` paragraphs. */
  function Pack(ps: seq<string>, k: nat, skipEmpty: bool): Packing
    requires k <= |ps|
  {
    if k == 0 then Packing([], [], 0) else PackStep(Pack(ps, k - 1, skipEmpty), ps[k - 1], skipEmpty)
  }

  /** After the loop the pending batch is pushed only when it is non-empty. */
  function Close(s: Packing): seq<seq<string>>
  {
    if |s.pending| > 0 then s.batches + [s.pending] else s.batches
  }

  /** The batches the loop of read.tsx produces, as written. */
  function Batches(ps: seq<string>): seq<seq<string>>
  {
    Close(Pack(ps, |ps|, false))
  }

  /** The batches of the corrected loop, which never pushes an empty batch. */
  function FixedBatches(ps: seq<string>): seq<seq<string>>
  {
    Close(Pack(ps, |ps|, true))
  }

  /** A batch is within the limit, or it is one over-long paragraph on its own. */
  predicate BatchOk(b: seq<string>)
  {
    (|b| == 1 && |b[0]| > MaxCharacters)
    || (Sum(b) <= MaxCharacters && forall i | 0 <= i < |b| :: |b[i]| <= MaxCharacters)
  }

  lemma FlattenAppend(bs: seq<seq<string>>, b: seq<string>)
    ensures Flatten(bs + [b]) == Flatten(bs) + b
  {
    assert (bs + [b])[..|bs|] == bs;
  }

  lemma SumAppend(b: seq<string>, p: string)
    ensures Sum(b + [p]) == Sum(b) + |p|
  {
    assert (b + [p])[..|b|] == b;
  }

  /** What the batching loop keeps true of its state (read.tsx:217-230). */
  predicate Inv(s: Packing, skipEmpty: bool)
  {
    && s.pendingLength == Sum(s.pending) <= MaxCharacters
    && (forall i | 0 <= i < |s.pending| :: |s.pending[i]| <= MaxCharacters)
    && (forall j | 0 <= j < |s.batches| :: BatchOk(s.batches[j]))
    && (skipEmpty ==> forall j | 0 <= j < |s.batches| :: s.batches[j] != [])
  }

  lemma FlushKeeps(s: Packing, p: string, skipEmpty: bool)
    requires Inv(s, skipEmpty)
    ensures Inv(Flush(s, p, skipEmpty), skipEmpty)
    ensures |p| > MaxCharacters ==> Flush(s, p, skipEmpty).pending == []
  {
    if s.pendingLength + |p| > MaxCharacters && !(skipEmpty && s.pending == []) {
      var t := Packing(s.batches + [s.pending], [], 0);
      assert BatchOk(s.pending);
      assert forall j | 0 <= j < |t.batches| :: BatchOk(t.batches[j]) by {
        forall j | 0 <= j < |t.batches| ensures BatchOk(t.batches[j]) {
          if j < |s.batches| { assert t.batches[j] == s.batches[j]; }
        }
      }
    }
  }

  lemma FlushOutput(s: Packing, p: string, skipEmpty: bool)
    ensures Flatten(Flush(s, p, skipEmpty).batches) + Flush(s, p, skipEmpty).pending == Flatten(s.batches) + s.pending
  {
    if s.pendingLength + |p| > MaxCharacters && !(skipEmpty && s.pending == []) {
      FlattenAppend(s.batches, s.pending);
    }
  }

  lemma AddKeeps(s: Packing, p: string, skipEmpty: bool)
    requires Inv(s, skipEmpty)
    requires |p| <= MaxCharacters ==> s.pendingLength + |p| <= MaxCharacters
    ensures Inv(Add(s, p), skipEmpty)
  {
    if |p| > MaxCharacters {
      var t := Add(s, p);
      assert BatchOk([p]);
      assert forall j | 0 <= j < |t.batches| :: BatchOk(t.batches[j]) by {
        forall j | 0 <= j < |t.batches| ensures BatchOk(t.batches[j]) {
          if j < |s.batches| { assert t.batches[j] == s.batches[j]; }
        }
      }
    } else {
      SumAppend(s.pending, p);
    }
  }

  lemma AddOutput(s: Packing, p: string)
    requires |p| > MaxCharacters ==> s.pending == []
    ensures Flatten(Add(s, p).batches) + Add(s, p).pending == Flatten(s.batches) + s.pending + [p]
  {
    if |p| > MaxCharacters {
      FlattenAppend(s.batches, [p]);
    }
  }

  /** One iteration keeps the invariant. */
  lemma StepKeeps(s: Packing, p: string, skipEmpty: bool)
    requires Inv(s, skipEmpty)
    ensures Inv(PackStep(s, p, skipEmpty), skipEmpty)
  {
    FlushKeeps(s, p, skipEmpty);
    AddKeeps(Flush(s, p, skipEmpty), p, skipEmpty);
  }

  /** One iteration adds exactly its paragraph to the output, at the end. */
  lemma StepOutput(s: Packing, p: string, skipEmpty: bool)
    requires Inv(s, skipEmpty)
    ensures Flatten(PackStep(s, p, skipEmpty).batches) + PackStep(s, p, skipEmpty).pending
      == Flatten(s.batches) + s.pending + [p]
  {
    FlushKeeps(s, p, skipEmpty);
    FlushOutput(s, p, skipEmpty);
    AddOutput(Flush(s, p, skipEmpty), p);
  }

  lemma TakeSnoc(ps: seq<string>, k: nat)
    requires 0 < k <= |ps|
    ensures ps[..k] == ps[..k - 1] + [ps[k - 1]]
  {
  }

  /** The loop invariant holds after every iteration. */
  lemma {:induction false} PackKeeps(ps: seq<string>, k: nat, skipEmpty: bool)
    requires k <= |ps|
    ensures Inv(Pack(ps, k, skipEmpty), skipEmpty)
  {
    if k > 0 {
      PackKeeps(ps, k - 1, skipEmpty);
      var s := Pack(ps, k - 1, skipEmpty);
      var p := ps[k - 1];
      assert Pack(ps, k, skipEmpty) == PackStep(s, p, skipEmpty);
      StepKeeps(s, p, skipEmpty);
    }
  }

  /** The paragraphs seen so far are exactly the batches pushed so far followed by the pending one. */
  lemma {:induction false} PackOutput(ps: seq<string>, k: nat, skipEmpty: bool)
    requires k <= |ps|
    ensures Flatten(Pack(ps, k, skipEmpty).batches) + Pack(ps, k, skipEmpty).pending == ps[..k]
  {
    if k > 0 {
      PackOutput(ps, k - 1, skipEmpty);
      PackKeeps(ps, k - 1, skipEmpty);
      var s := Pack(ps, k - 1, skipEmpty);
      var p := ps[k - 1];
      assert Pack(ps, k, skipEmpty) == PackStep(s, p, skipEmpty);
      StepOutput(s, p, skipEmpty);
      TakeSnoc(ps, k);
    }
  }

  /** Laying the batches end to end gives back exactly the paragraphs, in order. */
  lemma BatchesFlatten(ps: seq<string>, skipEmpty: bool)
    ensures Flatten(Close(Pack(ps, |ps|, skipEmpty))) == ps
  {
    PackOutput(ps, |ps|, skipEmpty);
    var s := Pack(ps, |ps|, skipEmpty);
    assert ps[..|ps|] == ps;
    if |s.pending| > 0 {
      FlattenAppend(s.batches, s.pending);
    } else {
      assert s.pending == [];
    }
  }

  /**
   * Every batch holds at most `MaxCharacters` characters unless it is a single
   * over-long paragraph, and an over-long paragraph always stands alone.
   */
  lemma BatchesBounded(ps: seq<string>, skipEmpty: bool)
    ensures var bs := Close(Pack(ps, |ps|, skipEmpty));
      forall j | 0 <= j < |bs| :: BatchOk(bs[j])
  {
    PackKeeps(ps, |ps|, skipEmpty);
    var s := Pack(ps, |ps|, skipEmpty);
    if |s.pending| > 0 {
      var bs := s.batches + [s.pending];
      assert BatchOk(s.pending);
      forall j | 0 <= j < |bs| ensures BatchOk(bs[j]) {
        if j < |s.batches| { assert bs[j] == s.batches[j]; }
      }
    }
  }

  /** A paragraph longer than the limit is a batch of its own. */
  lemma LongParagraphAlone(ps: seq<string>, skipEmpty: bool, j: nat, i: nat)
    requires var bs := Close(Pack(ps, |ps|, skipEmpty));
      j < |bs| && i < |bs[j]| && |bs[j][i]| > MaxCharacters
    ensures Close(Pack(ps, |ps|, skipEmpty))[j] == [Close(Pack(ps, |ps|, skipEmpty))[j][i]]
  {
    BatchesBounded(ps, skipEmpty);
  }

  /** Some batch is empty. */
  predicate HasEmptyBatch(bs: seq<seq<string>>)
  {
    exists j | 0 <= j < |bs| :: bs[j] == []
  }

  /** Paragraph `i` is over-long and arrives while the pending batch is empty. */
  predicate LongWhileEmpty(ps: seq<string>, i: nat)
    requires i < |ps|
  {
    |ps[i]| > MaxCharacters && Pack(ps, i, false).pending == []
  }

  lemma HasEmptyBatchAppend(bs: seq<seq<string>>, b: seq<string>)
    ensures HasEmptyBatch(bs + [b]) <==> HasEmptyBatch(bs) || b == []
  {
    if HasEmptyBatch(bs + [b]) {
      var j :| 0 <= j < |bs + [b]| && (bs + [b])[j] == [];
      if j < |bs| {
        assert bs[j] == [];
      }
    }
    if HasEmptyBatch(bs) {
      var j :| 0 <= j < |bs| && bs[j] == [];
      assert (bs + [b])[j] == [];
    }
    if b == [] {
      assert (bs + [b])[|bs|] == [];
    }
  }

  /** One iteration of the written loop adds an empty batch exactly for an over-long paragraph on an empty pending batch. */
  lemma StepEmptyBatch(s: Packing, p: string)
    requires Inv(s, false)
    ensures HasEmptyBatch(PackStep(s, p, false).batches)
      <==> HasEmptyBatch(s.batches) || (|p| > MaxCharacters && s.pending == [])
  {
    var f := Flush(s, p, false);
    if s.pendingLength + |p| > MaxCharacters {
      assert f.batches == s.batches + [s.pending];
      HasEmptyBatchAppend(s.batches, s.pending);
      if |p| <= MaxCharacters {
        assert s.pending != [];
      }
    } else {
      assert f == s;
    }
    if |p| > MaxCharacters {
      HasEmptyBatchAppend(f.batches, [p]);
    }
  }

  lemma LongWhileEmptySplit(ps: seq<string>, k: nat)
    requires 0 < k <= |ps|
    ensures (exists i | 0 <= i < k :: LongWhileEmpty(ps, i))
      <==> (exists i | 0 <= i < k - 1 :: LongWhileEmpty(ps, i)) || LongWhileEmpty(ps, k - 1)
  {
    if exists i | 0 <= i < k :: LongWhileEmpty(ps, i) {
      var i :| 0 <= i < k && LongWhileEmpty(ps, i);
      if i < k - 1 {
        assert exists i' | 0 <= i' < k - 1 :: LongWhileEmpty(ps, i');
      }
    }
  }

  /**
   * The loop as written pushes an empty batch exactly when an over-long
   * paragraph arrives while the pending batch is empty.
   */
  lemma {:induction false} EmptyBatchPushed(ps: seq<string>, k: nat)
    requires k <= |ps|
    ensures HasEmptyBatch(Pack(ps, k, false).batches) <==> exists i | 0 <= i < k :: LongWhileEmpty(ps, i)
  {
    if k > 0 {
      EmptyBatchPushed(ps, k - 1);
      PackKeeps(ps, k - 1, false);
      var s := Pack(ps, k - 1, false);
      assert Pack(ps, k, false) == PackStep(s, ps[k - 1], false);
      StepEmptyBatch(s, ps[k - 1]);
      LongWhileEmptySplit(ps, k);
    }
  }

  /** The batches as written contain an empty batch exactly in that case. */
  lemma EmptyBatchIff(ps: seq<string>)
    ensures HasEmptyBatch(Batches(ps)) <==> exists i | 0 <= i < |ps| :: LongWhileEmpty(ps, i)
  {
    EmptyBatchPushed(ps, |ps|);
    var s := Pack(ps, |ps|, false);
    if |s.pending| > 0 {
      HasEmptyBatchAppend(s.batches, s.pending);
    }
  }

  /** An article that opens with one over-long paragraph is sent with an empty first batch. */
  lemma LeadingLongParagraph(p: string)
    requires |p| > MaxCharacters
    ensures Batches([p]) == [[], [p]]
  {
    var start := Packing([], [], 0);
    assert Pack([p], 0, false) == start;
    assert Flush(start, p, false) == Packing([[]], [], 0);
    assert Pack([p], 1, false) == Packing([[], [p]], [], 0);
  }

  /** The corrected loop never produces an empty batch and keeps every other property. */
  lemma FixedBatchesNonEmpty(ps: seq<string>)
    ensures forall j | 0 <= j < |FixedBatches(ps)| :: FixedBatches(ps)[j] != []
    ensures Flatten(FixedBatches(ps)) == ps
    ensures forall j | 0 <= j < |FixedBatches(ps)| :: BatchOk(FixedBatches(ps)[j])
  {
    PackKeeps(ps, |ps|, true);
    BatchesFlatten(ps, true);
  }

  /** One iteration of each loop, from states that differ only by empty batches. */
  lemma StepDropsEmpty(s: Packing, t: Packing, p: string)
    requires Inv(s, false)
    requires t == Packing(NonEmpty(s.batches), s.pending, s.pendingLength)
    ensures PackStep(t, p, true) == Packing(NonEmpty(PackStep(s, p, false).batches),
      PackStep(s, p, false).pending, PackStep(s, p, false).pendingLength)
  {
    var s1 := Flush(s, p, false);
    var t1 := Flush(t, p, true);
    NonEmptyAppend(s.batches, s.pending);
    assert t1 == Packing(NonEmpty(s1.batches), s1.pending, s1.pendingLength);
    if |p| > MaxCharacters {
      NonEmptyAppend(s1.batches, [p]);
    }
  }

  /** The corrected loop differs from the written one only by dropping the empty batches. */
  lemma {:induction false} FixedDropsEmpty(ps: seq<string>, k: nat)
    requires k <= |ps|
    ensures Pack(ps, k, true) == Packing(NonEmpty(Pack(ps, k, false).batches),
      Pack(ps, k, false).pending, Pack(ps, k, false).pendingLength)
  {
    if k > 0 {
      FixedDropsEmpty(ps, k - 1);
      PackKeeps(ps, k - 1, false);
      var s := Pack(ps, k - 1, false);
      var t := Pack(ps, k - 1, true);
      var p := ps[k - 1];
      assert Pack(ps, k, false) == PackStep(s, p, false);
      assert Pack(ps, k, true) == PackStep(t, p, true);
      StepDropsEmpty(s, t, p);
    }
  }

  /** The corrected batches are the written ones with the empty batches left out. */
  lemma FixedIsNonEmpty(ps: seq<string>)
    ensures FixedBatches(ps) == NonEmpty(Batches(ps))
  {
    FixedDropsEmpty(ps, |ps|);
    var s := Pack(ps, |ps|, false);
    if |s.pending| > 0 {
      NonEmptyAppend(s.batches, s.pending);
    }
  }

  /** The batches that are not empty, in order. */
  function NonEmpty(bs: seq<seq<string>>): (r: seq<seq<string>>)
    ensures |r| <= |bs|
  {
    if bs == [] then []
    else NonEmpty(bs[..|bs| - 1]) + (if bs[|bs| - 1] == [] then [] else [bs[|bs| - 1]])
  }

  lemma NonEmptyAppend(bs: seq<seq<string>>, b: seq<string>)
    ensures NonEmpty(bs + [b]) == NonEmpty(bs) + (if b == [] then [] else [b])
  {
    assert (bs + [b])[..|bs|] == bs;
  }

  /** The packing loop of read.tsx:217-234, as written. */
  method PackParagraphs(paragraphs: seq<string>) returns (batches: seq<seq<string>>)
    ensures batches == Batches(paragraphs)
  {
    batches := [];
    var prevParagraphs: seq<string> := [];
    var prevParagraphsLength: nat := 0;
    for i := 0 to |paragraphs|
      invariant Pack(paragraphs, i, false) == Packing(batches, prevParagraphs, prevParagraphsLength)
    {
      ghost var before := Packing(batches, prevParagraphs, prevParagraphsLength);
      if prevParagraphsLength + |paragraphs[i]| > MaxCharacters {
        batches := batches + [prevParagraphs];
        prevParagraphs := [];
        prevParagraphsLength := 0;
      }
      if |paragraphs[i]| > MaxCharacters {
        batches := batches + [[paragraphs[i]]];
      } else {
        prevParagraphs := prevParagraphs + [paragraphs[i]];
        prevParagraphsLength := prevParagraphsLength + |paragraphs[i]|;
      }
      assert Packing(batches, prevParagraphs, prevParagraphsLength) == PackStep(before, paragraphs[i], false);
    }
    if |prevParagraphs| > 0 {
      batches := batches + [prevParagraphs];
    }
  }

  /** The same loop with the guard that skips an empty pending batch. */
  method PackParagraphsFixed(paragraphs: seq<string>) returns (batches: seq<seq<string>>)
    ensures batches == FixedBatches(paragraphs)
  {
    batches := [];
    var prevParagraphs: seq<string> := [];
    var prevParagraphsLength: nat := 0;
    for i := 0 to |paragraphs|
      invariant Pack(paragraphs, i, true) == Packing(batches, prevParagraphs, prevParagraphsLength)
    {
      ghost var before := Packing(batches, prevParagraphs, prevParagraphsLength);
      if prevParagraphsLength + |paragraphs[i]| > MaxCharacters && |prevParagraphs| > 0 {
        batches := batches + [prevParagraphs];
        prevParagraphs := [];
        prevParagraphsLength := 0;
      }
      if |paragraphs[i]| > MaxCharacters {
        batches := batches + [[paragraphs[i]]];
      } else {
        prevParagraphs := prevParagraphs + [paragraphs[i]];
        prevParagraphsLength := prevParagraphsLength + |paragraphs[i]|;
      }
      assert Packing(batches, prevParagraphs, prevParagraphsLength) == PackStep(before, paragraphs[i], true);
    }
    if |prevParagraphs| > 0 {
      batches := batches + [prevParagraphs];
    }
  }

  /** The progress counter the explanation step starts from. */
  datatype Progress = Progress(completed: nat, total: nat)

  /**
   * The synchronous part of `useExplainArticle`'s mutation: an empty article
   * or a missing analysis is rejected before any batching; otherwise the
   * paragraphs are packed by the loop as written (an empty batch it pushes
   * is sent and counted like any other) and the progress total is the
   * number of batches.
   */
  method PrepareExplanation(paragraphs: seq<string>, hasAnalysis: bool)
    returns (r: Result<(seq<seq<string>>, Progress)>)
    ensures r.Err? <==> paragraphs == [] || !hasAnalysis
    ensures r.Ok? ==>
      && r.value.0 == Batches(paragraphs)
      && r.value.1 == Progress(0, |Batches(paragraphs)|)
      && Flatten(r.value.0) == paragraphs
      && (forall j | 0 <= j < |r.value.0| :: BatchOk(r.value.0[j]))
  {
    if |paragraphs| == 0 || !hasAnalysis {
      return Err("No content or summary available for explanation generation");
    }
    var batches := PackParagraphs(paragraphs);
    BatchesFlatten(paragraphs, false);
    BatchesBounded(paragraphs, false);
    r := Ok((batches, Progress(0, |batches|)));
  }

  // ---------------------------------------------------------------------
  // Bounded retry
  // ---------------------------------------------------------------------

  /**
   * The retry loop shared by `explainBatch` and `useAnalyzeContent`:
   * `call(i)` is the reply to attempt `i`. The first answer is returned;
   * after `MaxAttempts` faults the last fault is rethrown.
   */
  method Retry<T>(call: nat -> Reply<T>) returns (r: Reply<T>, attempts: nat)
    ensures 1 <= attempts <= MaxAttempts
    ensures r == call(attempts - 1)
    ensures forall i | 0 <= i < attempts - 1 :: call(i).Fault?
    ensures r.Fault? ==> attempts == MaxAttempts
  {
    attempts := 0;
    var lastError := "";
    while attempts < MaxAttempts
      invariant attempts <= MaxAttempts
      invariant forall i | 0 <= i < attempts :: call(i).Fault?
      invariant attempts > 0 ==> lastError == call(attempts - 1).error
    {
      var reply := call(attempts);
      match reply {
        case Answer(_) =>
          attempts := attempts + 1;
          return reply, attempts;
        case Fault(e) =>
          lastError := e;
          attempts := attempts + 1;
      }
    }
    r := Fault(lastError);
  }

  /** The reply the retry loop ends with: the first answer, or else the last fault. */
  function Retried<T>(call: nat -> Reply<T>): Reply<T>
  {
    if call(0).Answer? then call(0)
    else if call(1).Answer? then call(1)
    else call(2)
  }

  /** The retry loop succeeds exactly when one of the three attempts does, and returns the first. */
  lemma RetrySucceedsIff<T>(call: nat -> Reply<T>)
    ensures Retried(call).Answer? <==> exists i | 0 <= i < MaxAttempts :: call(i).Answer?
    ensures Retried(call).Answer? ==> exists i | 0 <= i < MaxAttempts ::
      Retried(call) == call(i) && forall j | 0 <= j < i :: call(j).Fault?
  {
    if Retried(call).Answer? {
      if call(0).Answer? {
        assert Retried(call) == call(0);
      } else if call(1).Answer? {
        assert forall j | 0 <= j < 1 :: call(j).Fault?;
      } else {
        assert forall j | 0 <= j < 2 :: call(j).Fault?;
      }
    } else {
      assert forall i | 0 <= i < MaxAttempts :: call(i).Fault? by {
        forall i | 0 <= i < MaxAttempts ensures call(i).Fault? {
          assert i == 0 || i == 1 || i == 2;
        }
      }
    }
  }

  /** `explainBatch`: the retried call; a success also advances the progress counter. */
  method ExplainBatch<T>(call: nat -> Reply<T>, progress: Progress) returns (r: Reply<T>, after: Progress)
    ensures r == Retried(call)
    ensures after == if r.Answer? then Progress(progress.completed + 1, progress.total) else progress
  {
    var attempts;
    r, attempts := Retry(call);
    assert attempts == 1 || attempts == 2 || attempts == 3;
    after := if r.Answer? then Progress(progress.completed + 1, progress.total) else progress;
  }

  /** The language code `useAnalyzeContent` stores: an undetermined language becomes Mandarin. */
  function StoredLanguage(detected: string): (r: string)
    ensures detected == "und" ==> r == "cmn"
    ensures detected != "und" ==> r == detected
  {
    if detected == "und" then "cmn" else detected
  }

  /**
   * `useAnalyzeContent`: an empty article is rejected before any attempt;
   * otherwise the retried call's answer, or the last fault as the error.
   * `detectedLang` reads the detected language off an answer.
   */
  method AnalyzeContent<T>(paragraphs: seq<string>, call: nat -> Reply<T>, detectedLang: T -> string)
    returns (r: Result<T>, stored: Option<string>)
    ensures paragraphs == [] ==> r == Err("No content available for summary generation") && stored == None
    ensures paragraphs != [] ==> match Retried(call) {
      case Answer(v) => r == Ok(v) && stored == Some(StoredLanguage(detectedLang(v)))
      case Fault(e) => r == Err(e) && stored == None
    }
  {
    if |paragraphs| == 0 {
      return Err("No content available for summary generation"), None;
    }
    var reply, attempts := Retry(call);
    assert attempts == 1 || attempts == 2 || attempts == 3;
    match reply {
      case Answer(v) =>
        r, stored := Ok(v), Some(StoredLanguage(detectedLang(v)));
      case Fault(e) =>
        r, stored := Err(e), None;
    }
  }
}
