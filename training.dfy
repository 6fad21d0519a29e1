/**
 * The control of neural_train: epochs of DATASET_SIZE examples each, a count
 * of correctly classified examples per epoch, early stopping after three
 * epochs in a row that do not beat the best count, and a stop flag set by
 * SIGUSR1 and read at the head of each epoch; plus the one-hot target of an
 * example and the letter neural_find_logic answers. The network's arithmetic
 * is not modelled: what it does to an example is an input (`Example`).
 */
module Training {
  const EPOCHS := 2000
  const DATASET_SIZE := 130000
  const OUTPUT_SIZE := 26

  /**
   * One example of an epoch: `draw` is the random() value that picks its
   * letter, `loaded` whether path_to_bytes loaded its bitmap, and `obtained`
   * the index max_i returned on the output after the pass.
   */
  datatype Example = Example(draw: nat, loaded: bool, obtained: nat)

  /** letter_idx: the letter an example is drawn for. */
  function LetterIndex(e: Example): (idx: nat)
    ensures idx < OUTPUT_SIZE
  {
    e.draw % 26
  }

  /** The example was trained on and classified as its own letter. */
  predicate IsCorrect(e: Example)
  {
    e.loaded && e.obtained == LetterIndex(e)
  }

  /** The number of correctly classified examples. */
  function Correct(examples: seq<Example>): nat
  {
    if |examples| == 0 then 0
    else Correct(examples[..|examples| - 1]) + (if IsCorrect(examples[|examples| - 1]) then 1 else 0)
  }

  /** The number of examples whose bitmap loaded. */
  function LoadedCount(examples: seq<Example>): nat
  {
    if |examples| == 0 then 0
    else LoadedCount(examples[..|examples| - 1]) + (if examples[|examples| - 1].loaded then 1 else 0)
  }

  /** An example is counted only when it was loaded, so no more are correct than loaded, and no more loaded than there are. */
  lemma {:induction false} CorrectBound(examples: seq<Example>)
    ensures Correct(examples) <= LoadedCount(examples) <= |examples|
  {
    if |examples| > 0 {
      CorrectBound(examples[..|examples| - 1]);
    }
  }

  /**
   * The example loop of one epoch: an example whose bitmap does not load is
   * skipped; the others are trained on and counted when max_i of the output
   * is their letter.
   */
  method EpochCorrect(examples: seq<Example>) returns (correct: nat)
    requires |examples| == DATASET_SIZE
    ensures correct == Correct(examples)
    ensures correct <= LoadedCount(examples) <= DATASET_SIZE
  {
    correct := 0;
    for j := 0 to DATASET_SIZE
      invariant correct == Correct(examples[..j])
    {
      assert examples[..j + 1][..j] == examples[..j];
      var e := examples[j];
      if !e.loaded {
        continue;
      }
      if e.obtained == LetterIndex(e) {
        correct := correct + 1;
      }
    }
    assert examples[..DATASET_SIZE] == examples;
    CorrectBound(examples);
  }

  /** The target vector of an example: 1 at its letter, 0 elsewhere. */
  function OneHot(letterIdx: nat): (expected: seq<real>)
    requires letterIdx < OUTPUT_SIZE
    ensures |expected| == OUTPUT_SIZE && expected[letterIdx] == 1.0
    ensures forall k :: 0 <= k < OUTPUT_SIZE && k != letterIdx ==> expected[k] == 0.0
  {
    seq(OUTPUT_SIZE, k => if k == letterIdx then 1.0 else 0.0)
  }

  /** The target vector tells which letter it is for: different letters have different targets. */
  lemma OneHotDistinct(a: nat, b: nat)
    requires a < OUTPUT_SIZE && b < OUTPUT_SIZE && a != b
    ensures OneHot(a) != OneHot(b)
  {
    assert OneHot(a)[a] == 1.0 != OneHot(b)[a];
  }

  /** expected_letter: the letter the example is drawn for. */
  function ExpectedLetter(letterIdx: nat): (c: char)
    requires letterIdx < OUTPUT_SIZE
    ensures 'a' <= c <= 'z'
  {
    ('a' as int + letterIdx) as char
  }

  /** neural_find_logic: the letter of the output index max_i picks. */
  function FindLogic(obtained: nat): (c: char)
    requires obtained < OUTPUT_SIZE
    ensures 'a' <= c <= 'z' && c as int - 'a' as int == obtained
  {
    ('a' as int + obtained) as char
  }

  /** The answer of neural_find_logic is the drawn letter exactly when training counts the example as correct. */
  lemma FindLogicAgrees(e: Example)
    requires e.loaded && e.obtained < OUTPUT_SIZE
    ensures FindLogic(e.obtained) == ExpectedLetter(LetterIndex(e)) <==> IsCorrect(e)
  {
    var c, d := FindLogic(e.obtained), ExpectedLetter(LetterIndex(e));
    assert c as int == 'a' as int + e.obtained && d as int == 'a' as int + LetterIndex(e);
  }

  /** best_correct after the given epochs: the largest count, 0 when there are none. */
  function PrefixMax(cs: seq<nat>): nat
  {
    if |cs| == 0 then 0
    else
      var m := PrefixMax(cs[..|cs| - 1]);
      if cs[|cs| - 1] > m then cs[|cs| - 1] else m
  }

  /** hasnt_beaten_correct_count after the given epochs: epochs since the last one that beat the best count. */
  function Stale(cs: seq<nat>): nat
  {
    if |cs| == 0 then 0
    else if cs[|cs| - 1] > PrefixMax(cs[..|cs| - 1]) then 0
    else Stale(cs[..|cs| - 1]) + 1
  }

  /** The best count is the maximum of the counts: each is at most it, and it is one of them or 0. */
  lemma {:induction false} PrefixMaxIsMax(cs: seq<nat>)
    ensures forall k :: 0 <= k < |cs| ==> cs[k] <= PrefixMax(cs)
    ensures PrefixMax(cs) == 0 || PrefixMax(cs) in cs
  {
    if |cs| > 0 {
      var init := cs[..|cs| - 1];
      PrefixMaxIsMax(init);
      assert forall k :: 0 <= k < |init| ==> cs[k] == init[k];
      if PrefixMax(init) in init {
        assert PrefixMax(init) in cs;
      }
    }
  }

  /** The best count never decreases from one epoch to a later one. */
  lemma PrefixMaxGrows(cs: seq<nat>, n: nat)
    requires n <= |cs|
    ensures PrefixMax(cs[..n]) <= PrefixMax(cs)
  {
    PrefixMaxIsMax(cs[..n]);
    PrefixMaxIsMax(cs);
    if PrefixMax(cs[..n]) != 0 {
      var k :| 0 <= k < n && cs[..n][k] == PrefixMax(cs[..n]);
      assert cs[k] == PrefixMax(cs[..n]);
    }
  }

  /**
   * The no-improvement count is the length of the run of epochs at the end
   * that did not beat the best count before them: none of them beats the
   * best before the run, which is still the best, and the epoch before the
   * run was an improvement.
   */
  lemma {:induction false} StaleMeaning(cs: seq<nat>)
    ensures Stale(cs) <= |cs|
    ensures forall k :: |cs| - Stale(cs) <= k < |cs| ==> cs[k] <= PrefixMax(cs[..|cs| - Stale(cs)])
    ensures PrefixMax(cs) == PrefixMax(cs[..|cs| - Stale(cs)])
    ensures Stale(cs) < |cs| ==> cs[|cs| - Stale(cs) - 1] > PrefixMax(cs[..|cs| - Stale(cs) - 1])
  {
    if |cs| > 0 {
      var init := cs[..|cs| - 1];
      StaleMeaning(init);
      var s := Stale(cs);
      if s > 0 {
        assert init[..|init| - Stale(init)] == cs[..|cs| - s];
        assert forall k :: 0 <= k < |init| ==> cs[k] == init[k];
        if s < |cs| {
          assert init[..|init| - Stale(init) - 1] == cs[..|cs| - s - 1];
        }
      } else {
        assert cs[..|cs|] == cs;
      }
    }
  }

  /** One more epoch: it becomes the best and resets the no-improvement count when it beats the best so far, and adds one to that count otherwise. */
  lemma EpochStep(cs: seq<nat>, c: nat)
    ensures c > PrefixMax(cs) ==> PrefixMax(cs + [c]) == c && Stale(cs + [c]) == 0
    ensures c <= PrefixMax(cs) ==> PrefixMax(cs + [c]) == PrefixMax(cs) && Stale(cs + [c]) == Stale(cs) + 1
  {
    assert (cs + [c])[..|cs|] == cs;
  }

  /** The per-epoch correct counts of the first `n` epochs. */
  function Corrects(epochs: seq<seq<Example>>, n: nat): (cs: seq<nat>)
    requires n <= |epochs|
    ensures |cs| == n
  {
    if n == 0 then [] else Corrects(epochs, n - 1) + [Correct(epochs[n - 1])]
  }

  /** No epoch counts more correct examples than it has examples. */
  lemma {:induction false} CorrectsBound(epochs: seq<seq<Example>>, n: nat)
    requires n <= |epochs| && forall i :: 0 <= i < |epochs| ==> |epochs[i]| == DATASET_SIZE
    ensures forall k :: 0 <= k < n ==> Corrects(epochs, n)[k] <= DATASET_SIZE
  {
    if n > 0 {
      CorrectsBound(epochs, n - 1);
      CorrectBound(epochs[n - 1]);
    }
  }

  /**
   * The state of neural_train after `n` epochs: best_correct and
   * hasnt_beaten_correct_count for their counts, and no earlier epoch left
   * the no-improvement count at 3.
   */
  ghost predicate Trained(epochs: seq<seq<Example>>, n: nat, best: nat, stale: nat)
  {
    && n <= |epochs|
    && best == PrefixMax(Corrects(epochs, n)) && stale == Stale(Corrects(epochs, n))
    && forall m :: 0 <= m < n ==> Stale(Corrects(epochs, m)) < 3
  }

  /**
   * The end of an epoch in neural_train: a count that beats best_correct
   * replaces it and resets hasnt_beaten_correct_count; any other count adds
   * one to that.
   */
  method EpochEnd(ghost epochs: seq<seq<Example>>, ghost i: nat, correct: nat, best: nat, stale: nat) returns (best': nat, stale': nat)
    requires Trained(epochs, i, best, stale) && stale < 3 && i < |epochs| && correct == Correct(epochs[i])
    ensures Trained(epochs, i + 1, best', stale')
    ensures best <= best' && (stale' == 0 || stale' == stale + 1)
  {
    assert Corrects(epochs, i + 1) == Corrects(epochs, i) + [correct];
    EpochStep(Corrects(epochs, i), correct);
    if correct > best {
      return correct, 0;
    }
    return best, stale + 1;
  }

  /**
   * neural_train's epoch loop. `epochs[i]` are the examples epoch i would
   * see, and `stopAt` the first epoch at whose head must_stop is found set
   * (EPOCHS or more when SIGUSR1 never arrives). Returns the number of
   * epochs run and the final best_correct and hasnt_beaten_correct_count.
   */
  method NeuralTrain(epochs: seq<seq<Example>>, stopAt: nat) returns (run: nat, best: nat, stale: nat)
    requires |epochs| == EPOCHS && forall i :: 0 <= i < EPOCHS ==> |epochs[i]| == DATASET_SIZE
    ensures run <= EPOCHS && run <= stopAt
    ensures best == PrefixMax(Corrects(epochs, run)) && stale == Stale(Corrects(epochs, run))
    ensures stale <= 3 && (run < EPOCHS && run < stopAt ==> stale == 3)
    ensures forall n :: 0 <= n < run ==> Stale(Corrects(epochs, n)) < 3
    ensures forall i :: 0 <= i < run ==> Corrects(epochs, run)[i] <= DATASET_SIZE
  {
    run, best, stale := 0, 0, 0;
    var i := 0;
    while i < EPOCHS && i < stopAt
      invariant run == i <= EPOCHS && i <= stopAt
      invariant Trained(epochs, i, best, stale) && stale < 3
      decreases EPOCHS - i
    {
      var correct := EpochCorrect(epochs[i]);
      best, stale := EpochEnd(epochs, i, correct, best, stale);
      run := i + 1;
      if stale >= 3 {
        break;
      }
      i := i + 1;
    }
    CorrectsBound(epochs, run);
  }
}
