/** Loading the question list (readCSV in main.go): parsed CSV records become
    questions in file order, and with the randomize flag set the list is then
    shuffled in place by Fisher–Yates. */
module Questions {
  import opened Text

  /** One quiz item: the prompt shown to the user and the expected answer. */
  datatype Question = Question(question: string, answer: string)

  /** A record as handed over by the CSV reader: its list of fields. */
  type Record = seq<string>

  /** Every record has the two fields that the conversion reads; a shorter
      record makes the source index out of range. */
  predicate WellFormed(records: seq<Record>) {
    forall k :: 0 <= k < |records| ==> |records[k]| >= 2
  }

  /** The question a single record turns into: both fields trimmed, so
      neither the prompt nor the answer starts or ends with white space, and
      neither is longer than its field. */
  function FromRecord(r: Record): (q: Question)
    requires |r| >= 2
    ensures Trimmed(q.question) && Trimmed(q.answer)
    ensures |q.question| <= |r[0]| && |q.answer| <= |r[1]|
  {
    TrimSpec(r[0]);
    TrimSpec(r[1]);
    Question(Trim(r[0]), Trim(r[1]))
  }

  /** The converted list, built front to back, one question per record. */
  function Converted(records: seq<Record>): (qs: seq<Question>)
    requires WellFormed(records)
    ensures |qs| == |records|
  {
    if records == [] then []
    else Converted(records[..|records| - 1]) + [FromRecord(records[|records| - 1])]
  }

  /** Record k gives question k: its prompt is the trimmed first field and
      its answer the trimmed second field. */
  lemma {:induction false} ConvertedAt(records: seq<Record>, k: nat)
    requires WellFormed(records) && k < |records|
    ensures Converted(records)[k] == FromRecord(records[k])
    ensures Converted(records)[k].question == Trim(records[k][0])
    ensures Converted(records)[k].answer == Trim(records[k][1])
  {
    var last := |records| - 1;
    if k < last {
      ConvertedAt(records[..last], k);
    }
  }

  /** The conversion loop: appends one question per record, in order. */
  method ToQuestions(records: seq<Record>) returns (questions: seq<Question>)
    requires WellFormed(records)
    ensures questions == Converted(records)
  {
    questions := [];
    for k := 0 to |records|
      invariant questions == Converted(records[..k])
    {
      assert records[..k + 1][..k] == records[..k];
      questions := questions + [FromRecord(records[k])];
    }
    assert records[..|records|] == records;
  }

  /** Converting one more record appends one more question. */
  lemma ConvertedSnoc(records: seq<Record>, r: Record)
    requires WellFormed(records) && |r| >= 2
    ensures WellFormed(records + [r])
    ensures Converted(records + [r]) == Converted(records) + [FromRecord(r)]
  {
    var s := records + [r];
    assert s[..|s| - 1] == records;
  }

  /** Conversion respects file order: converting two runs of records one
      after the other is converting their concatenation. */
  lemma {:induction false} ConvertedAppend(first: seq<Record>, second: seq<Record>)
    requires WellFormed(first) && WellFormed(second)
    ensures WellFormed(first + second)
    ensures Converted(first + second) == Converted(first) + Converted(second)
  {
    if second == [] {
      assert first + second == first;
    } else {
      var init, last := second[..|second| - 1], second[|second| - 1];
      assert second == init + [last];
      assert first + second == (first + init) + [last];
      ConvertedAppend(first, init);
      ConvertedSnoc(first + init, last);
      ConvertedSnoc(init, last);
    }
  }

  /** Every converted field is already trimmed: trimming it again changes
      nothing, and it neither starts nor ends with white space. */
  lemma ConvertedFieldsTrimmed(records: seq<Record>, k: nat)
    requires WellFormed(records) && k < |records|
    ensures var q := Converted(records)[k];
      Trimmed(q.question) && Trimmed(q.answer) && Trim(q.answer) == q.answer
  {
    ConvertedAt(records, k);
    TrimSpec(records[k][0]);
    TrimSpec(records[k][1]);
    TrimIdempotent(records[k][1]);
  }

  /** The record " 2+2 , 4 " (as the fields " 2+2 " and " 4 ") becomes the
      question "2+2" with answer "4". */
  lemma ConversionExample()
    ensures Converted([[" 2+2 ", " 4 "]]) == [Question("2+2", "4")]
  {
    TrimFieldExamples();
    var records: seq<Record> := [[" 2+2 ", " 4 "]];
    assert records[..0] == [];
  }

  /** The random draws of one shuffle: `choices[i]` stands for the value
      rand.Intn(i + 1) returns at the step for index i, so it lies in 0..i. */
  predicate ValidChoices(choices: seq<nat>, n: nat) {
    |choices| == n && forall i :: 0 <= i < n ==> choices[i] <= i
  }

  /** Exchanges the elements at positions i and j. */
  function Swap<T>(s: seq<T>, i: nat, j: nat): (r: seq<T>)
    requires i < |s| && j < |s|
    ensures |r| == |s| && r[i] == s[j] && r[j] == s[i]
    ensures forall k :: 0 <= k < |s| && k != i && k != j ==> r[k] == s[k]
  {
    s[i := s[j]][j := s[i]]
  }

  /** The Fisher–Yates steps for the indices i, i-1, ..., 1: each step swaps
      position i with position choices[i]. */
  function ShuffleSteps(s: seq<Question>, choices: seq<nat>, i: nat): (r: seq<Question>)
    requires i < |s| && ValidChoices(choices, |s|)
    ensures |r| == |s|
    decreases i
  {
    if i == 0 then s else ShuffleSteps(Swap(s, i, choices[i]), choices, i - 1)
  }

  /** A swap reorders without adding or losing elements. */
  lemma SwapPermutes<T>(s: seq<T>, i: nat, j: nat)
    requires i < |s| && j < |s|
    ensures multiset(Swap(s, i, j)) == multiset(s)
  {
  }

  /** Each run of steps is a permutation: same length, same multiset. */
  lemma {:induction false} ShuffleStepsPermutes(s: seq<Question>, choices: seq<nat>, i: nat)
    requires i < |s| && ValidChoices(choices, |s|)
    ensures multiset(ShuffleSteps(s, choices, i)) == multiset(s)
    decreases i
  {
    if i > 0 {
      SwapPermutes(s, i, choices[i]);
      ShuffleStepsPermutes(Swap(s, i, choices[i]), choices, i - 1);
    }
  }

  /** The whole shuffle of a list, driven by the given draws. It reorders
      without adding or losing questions, and a list of length 0 or 1 is
      returned as it is (the loop body never runs). */
  function Shuffled(s: seq<Question>, choices: seq<nat>): (r: seq<Question>)
    requires ValidChoices(choices, |s|)
    ensures |r| == |s| && multiset(r) == multiset(s)
    ensures |s| <= 1 ==> r == s
  {
    if |s| == 0 then s
    else
      ShuffleStepsPermutes(s, choices, |s| - 1);
      ShuffleSteps(s, choices, |s| - 1)
  }

  /** The in-place shuffle loop of readCSV: i runs down from len-1 to 1 and
      each step swaps questions[i] with questions[choices[i]]. */
  method Shuffle(a: array<Question>, choices: seq<nat>)
    requires ValidChoices(choices, a.Length)
    modifies a
    ensures a[..] == Shuffled(old(a[..]), choices)
  {
    var i := a.Length - 1;
    while i > 0
      invariant -1 <= i < a.Length
      invariant a.Length > 0 ==> 0 <= i && ShuffleSteps(a[..], choices, i) == Shuffled(old(a[..]), choices)
      invariant a.Length == 0 ==> a[..] == old(a[..])
    {
      var j := choices[i];
      ghost var before := a[..];
      a[i], a[j] := a[j], a[i];
      assert a[..] == before[i := before[j]][j := before[i]];
      i := i - 1;
    }
  }

  /** Steps at index i and below never touch a position above i. */
  lemma {:induction false} ShuffleStepsKeepsAbove(s: seq<Question>, choices: seq<nat>, i: nat, k: nat)
    requires i < k < |s| && ValidChoices(choices, |s|)
    ensures ShuffleSteps(s, choices, i)[k] == s[k]
    decreases i
  {
    if i > 0 {
      ShuffleStepsKeepsAbove(Swap(s, i, choices[i]), choices, i - 1, k);
    }
  }

  /** Fisher–Yates fixes the last position first: the question drawn by the
      first step ends up last and stays there. */
  lemma LastIsFirstDraw(s: seq<Question>, choices: seq<nat>)
    requires ValidChoices(choices, |s|) && |s| > 0
    ensures Shuffled(s, choices)[|s| - 1] == s[choices[|s| - 1]]
  {
    var n := |s|;
    if n > 1 {
      ShuffleStepsKeepsAbove(Swap(s, n - 1, choices[n - 1]), choices, n - 2, n - 1);
    }
  }

  /** Draws that always pick the current index (rand.Intn(i + 1) == i) make
      every swap a no-op, so the order is kept. */
  lemma {:induction false} ShuffleStepsIdentity(s: seq<Question>, choices: seq<nat>, i: nat)
    requires i < |s| && ValidChoices(choices, |s|)
    requires forall k :: 0 <= k < |s| ==> choices[k] == k
    ensures ShuffleSteps(s, choices, i) == s
    decreases i
  {
    if i > 0 {
      assert choices[i] == i;
      assert s[i := s[i]][i := s[i]] == s;
      ShuffleStepsIdentity(s, choices, i - 1);
    }
  }

  /** Three questions shuffled with every draw 0: step 2 swaps positions 2
      and 0, step 1 swaps positions 1 and 0. */
  lemma ShuffleExample(x: Question, y: Question, z: Question)
    ensures Shuffled([x, y, z], [0, 0, 0]) == [y, z, x]
  {
    var s := [x, y, z];
    assert Swap(s, 2, 0) == [z, y, x];
    assert Swap([z, y, x], 1, 0) == [y, z, x];
  }

  /** readCSV after parsing: convert the records, then shuffle them if
      `randomize` is set; the draws are only consulted in that case. */
  method ReadQuestions(records: seq<Record>, randomize: bool, choices: seq<nat>)
    returns (questions: seq<Question>)
    requires WellFormed(records)
    requires randomize ==> ValidChoices(choices, |records|)
    ensures !randomize ==> questions == Converted(records)
    ensures randomize ==> questions == Shuffled(Converted(records), choices)
    ensures |questions| == |records| && multiset(questions) == multiset(Converted(records))
  {
    questions := ToQuestions(records);
    if randomize {
      var converted := questions;
      var a := new Question[|converted|](k requires 0 <= k < |converted| => converted[k]);
      assert a[..] == converted;
      Shuffle(a, choices);
      questions := a[..];
    }
  }
}
