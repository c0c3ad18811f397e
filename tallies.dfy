/** Result aggregation: the per-option counts plus the response and student
    totals that the server sends in `poll-results` and `poll-ended`. */
module Tallies {
  import opened Wrappers
  import opened JsStrings

  /** The students whose recorded answer is exactly the string `d`. */
  function KeysAnswering(responses: map<string, string>, d: string): set<string> {
    set k | k in responses && responses[k] == d
  }

  /** How many recorded answers are `===` to `d`. */
  function CountOf(responses: map<string, string>, d: string): nat {
    |KeysAnswering(responses, d)|
  }

  /** One count per option index below `n`: option `i` is credited with the
      answers equal to the decimal string of `i`. */
  function Counts(n: nat, responses: map<string, string>): (c: seq<nat>)
    ensures |c| == n
    ensures forall i :: 0 <= i < n ==> c[i] == CountOf(responses, ToDecimal(i))
  {
    if n == 0 then [] else Counts(n - 1, responses) + [CountOf(responses, ToDecimal(n - 1))]
  }

  datatype Tally = Tally(counts: seq<nat>, totalResponses: nat, totalStudents: nat)

  /** The tally of a poll with these options, these recorded answers and
      this many registered students. */
  function TallyOf(options: seq<string>, responses: map<string, string>, students: nat): Tally {
    Tally(Counts(|options|, responses), |responses|, students)
  }

  function Sum(s: seq<nat>): nat {
    if s == [] then 0 else Sum(s[..|s| - 1]) + s[|s| - 1]
  }

  /** An answer that some option below `n` credits: the decimal form of an
      index in range, with nothing before or after it. */
  predicate CountedBelow(a: string, n: nat) {
    match ParseInt(a)
    case Some(v) => 0 <= v < n && ToDecimal(v) == a
    case None => false
  }

  function CountedKeys(responses: map<string, string>, n: nat): (ks: set<string>)
    ensures ks <= responses.Keys
  {
    set k | k in responses && CountedBelow(responses[k], n)
  }

  /** Some option below `n` credits answer `a` exactly when `a` is the
      decimal form of an index below `n`. */
  lemma CountedIffDecimal(a: string, n: nat)
    ensures CountedBelow(a, n) <==> exists i: nat :: i < n && a == ToDecimal(i)
  {
    if CountedBelow(a, n) {
      var v: nat := ParseInt(a).value;
      assert v < n && a == ToDecimal(v);
    }
    if exists i: nat :: i < n && a == ToDecimal(i) {
      var i: nat :| i < n && a == ToDecimal(i);
      ParseDecimal(i);
    }
  }

  /** Widening the index range by one admits exactly the decimal form of
      the new index, which was not admitted before. */
  lemma CountedBelowStep(a: string, n: nat)
    ensures CountedBelow(a, n + 1) <==> CountedBelow(a, n) || a == ToDecimal(n)
    ensures a == ToDecimal(n) ==> !CountedBelow(a, n)
  {
    ParseDecimal(n);
  }

  lemma CountedKeysStep(responses: map<string, string>, n: nat)
    ensures CountedKeys(responses, n + 1) == CountedKeys(responses, n) + KeysAnswering(responses, ToDecimal(n))
    ensures CountedKeys(responses, n) !! KeysAnswering(responses, ToDecimal(n))
  {
    forall k | k in responses {
      CountedBelowStep(responses[k], n);
    }
  }

  /** The counts add up to the number of students whose answer some option
      credits. */
  lemma {:induction false} SumOfCounts(responses: map<string, string>, n: nat)
    ensures Sum(Counts(n, responses)) == |CountedKeys(responses, n)|
  {
    if n > 0 {
      var m := n - 1;
      SumOfCounts(responses, m);
      var c := Counts(n, responses);
      var last := CountOf(responses, ToDecimal(m));
      assert c == Counts(m, responses) + [last];
      assert c[..m] == Counts(m, responses);
      assert Sum(c) == Sum(Counts(m, responses)) + last;
      CountedKeysStep(responses, m);
      var below := CountedKeys(responses, m);
      var at := KeysAnswering(responses, ToDecimal(m));
      assert |below + at| == |below| + |at|;
    }
  }

  lemma SubsetCardinality(a: set<string>, b: set<string>)
    requires a <= b
    ensures |a| <= |b|
  {
    assert b == a + (b - a);
  }

  lemma AllCounted(responses: map<string, string>, n: nat)
    requires forall k :: k in responses ==> CountedBelow(responses[k], n)
    ensures CountedKeys(responses, n) == responses.Keys
  {
  }

  /** The counts never add up to more than `totalResponses`. */
  lemma TallyBounded(options: seq<string>, responses: map<string, string>, students: nat)
    ensures Sum(TallyOf(options, responses, students).counts) <= TallyOf(options, responses, students).totalResponses
  {
    var t := TallyOf(options, responses, students);
    assert t.counts == Counts(|options|, responses) && t.totalResponses == |responses.Keys|;
    SumOfCounts(responses, |options|);
    var ks := CountedKeys(responses, |options|);
    SubsetCardinality(ks, responses.Keys);
  }

  /** When every recorded answer is the canonical decimal form of an option
      index, the counts add up to exactly `totalResponses`. */
  lemma TallyExact(options: seq<string>, responses: map<string, string>, students: nat)
    requires forall k :: k in responses ==> CountedBelow(responses[k], |options|)
    ensures Sum(TallyOf(options, responses, students).counts) == TallyOf(options, responses, students).totalResponses
  {
    var t := TallyOf(options, responses, students);
    assert t.counts == Counts(|options|, responses) && t.totalResponses == |responses.Keys|;
    SumOfCounts(responses, |options|);
    AllCounted(responses, |options|);
  }

  /** Recording one more answer for a student with none so far raises
      `totalResponses` by one and the count of exactly the option whose
      decimal form the answer is, by one. */
  lemma RecordingCounts(options: seq<string>, responses: map<string, string>, name: string, answer: string, students: nat)
    requires name !in responses
    ensures var before := TallyOf(options, responses, students);
            var after := TallyOf(options, responses[name := answer], students);
            && after.totalResponses == before.totalResponses + 1
            && |after.counts| == |before.counts| == |options|
            && forall i :: 0 <= i < |options| ==>
                 after.counts[i] == before.counts[i] + (if answer == ToDecimal(i) then 1 else 0)
  {
    var updated := responses[name := answer];
    forall i | 0 <= i < |options|
      ensures CountOf(updated, ToDecimal(i)) == CountOf(responses, ToDecimal(i)) + (if answer == ToDecimal(i) then 1 else 0)
    {
      var d := ToDecimal(i);
      if answer == d {
        assert KeysAnswering(updated, d) == KeysAnswering(responses, d) + {name};
      } else {
        assert KeysAnswering(updated, d) == KeysAnswering(responses, d);
      }
    }
  }
}
