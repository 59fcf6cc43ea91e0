/** The decision logic of `PathologyClassifier.run_inference`: the reply of
    the external classifier is parsed into a label per sampled slice, the
    decisive labels are turned into a study-level probability that is
    compared with a threshold, and the anomalous slices of a positive study
    are widened to their neighbours in the per-slice mask. The classifier
    itself is a parameter: for each slice index it yields the reply text, or
    `None` when the call raised or returned no output. */
module Inference {
  import opened Common
  import opened Sampling

  datatype Label = Anomaly | Normal | Unknown

  /** The marker the prompt asks the model to put before its answer. */
  const Marker: string := "label:"

  /** Threshold used when the caller passes none. */
  const DefaultThreshold: real := 0.1

  // ---------------------------------------------------------------------------
  // Label parsing

  /** Decision on the extracted label text: "anomaly" takes precedence over
      "normal"; anything else is unknown. */
  function LabelOf(text: string): Label {
    if Contains(text, "anomaly") then Anomaly
    else if Contains(text, "normal") then Normal
    else Unknown
  }

  /** The answer text: what follows the first marker, up to the next marker
      or line break, stripped of surrounding whitespace and lower-cased; or
      `None` when the reply has no marker, so that taking the second field
      of the split raises. */
  function LabelText(reply: string): (t: Option<string>)
    ensures t.Some? <==> Contains(reply, Marker)
  {
    match SecondField(reply, Marker)
    case None => None
    case Some(field) => Some(Lower(Strip(Before(field, "\n"))))
  }

  /** The label `run_inference` records for one reply; a raised parse leaves
      the label at "unknown". */
  function ParseLabel(reply: string): (l: Label)
    ensures l != Unknown ==> Contains(reply, Marker)
  {
    match LabelText(reply)
    case None => Unknown
    case Some(text) => LabelOf(text)
  }

  /** One mismatching character rules out an occurrence. */
  lemma CharMismatch(s: string, w: string, i: int, t: int)
    requires 0 <= i && 0 <= t < |w| && i + t < |s| && s[i + t] != w[t]
    ensures !OccursAt(s, w, i)
  {
    if i + |w| <= |s| {
      assert s[i..i + |w|][t] == s[i + t];
    }
  }

  /** The marker has no proper border: no proper suffix of it is a prefix of
      it, so an occurrence cannot start inside text that precedes another
      occurrence without lying entirely within that text. */
  lemma MarkerFirstAfterClearPrefix(pre: string, rest: string)
    requires !Contains(pre, Marker)
    ensures Find(pre + Marker + rest, Marker) == Some(|pre|)
  {
    var s := pre + Marker + rest;
    assert s[|pre|..|pre| + |Marker|] == Marker;
    assert OccursAt(s, Marker, |pre|);
    assert s[|pre|] == 'l' && s[|pre| + 1] == 'a';
    forall j | 0 <= j < |pre| ensures !OccursAt(s, Marker, j) {
      if j + |Marker| <= |pre| {
        assert pre[j..j + |Marker|] == s[j..j + |Marker|];
        assert !OccursAt(pre, Marker, j);
      } else {
        var k := |pre| - j;
        if k == 4 {
          CharMismatch(s, Marker, j, 5);
        } else {
          CharMismatch(s, Marker, j, k);
        }
      }
    }
  }

  /** A string without the character `c` does not contain it. */
  lemma AbsentChar(s: string, c: char)
    requires c !in s
    ensures !Contains(s, [c])
  {
    forall i | 0 <= i < |s| ensures !OccursAt(s, [c], i) {
      CharMismatch(s, [c], i, 0);
    }
  }

  /** Text after the marker that holds no further marker and no line break,
      followed by nothing or by a line break, is exactly the label field. */
  lemma FieldUpToLineBreak(body: string, tail: string)
    requires !Contains(body, Marker) && '\n' !in body
    requires tail == [] || tail[0] == '\n'
    ensures Before(Before(body + tail, Marker), "\n") == body
  {
    var x := body + tail;
    forall i | 0 <= i <= |body| ensures !OccursAt(x, Marker, i) {
      if i + |Marker| <= |body| {
        assert x[i..i + |Marker|] == body[i..i + |Marker|];
        assert !OccursAt(body, Marker, i);
      } else if i + |Marker| <= |x| {
        assert x[|body|] == '\n';
        CharMismatch(x, Marker, i, |body| - i);
      }
    }
    var r := Before(x, Marker);
    assert |body| <= |r|;
    assert r[..|body|] == body;
    forall i | 0 <= i < |body| ensures !OccursAt(r, "\n", i) {
      CharMismatch(r, "\n", i, 0);
    }
    if |r| > |body| {
      assert r[|body|] == tail[0] == '\n';
      assert r[|body|..|body| + 1] == "\n";
      assert OccursAt(r, "\n", |body|);
    } else {
      assert r == body;
      AbsentChar(r, '\n');
    }
  }

  /** A reply of the shape the prompt asks for, the marker followed by the
      answer, is judged on the answer alone, whatever its case and
      surrounding whitespace. The answer ends at a line break, at a second
      marker or at the end of the reply. */
  lemma ReplyLabelText(pre: string, answer: string, tail: string)
    requires !Contains(pre, Marker)
    requires !Contains(answer, Marker) && '\n' !in answer
    requires tail == [] || tail[0] == '\n' || StartsWith(tail, Marker)
    ensures LabelText(pre + Marker + answer + tail) == Some(Lower(Strip(answer)))
  {
    var s := pre + Marker + answer + tail;
    assert s == pre + Marker + (answer + tail);
    MarkerFirstAfterClearPrefix(pre, answer + tail);
    assert s[|pre| + |Marker|..] == answer + tail;
    if tail == [] || tail[0] == '\n' {
      FieldUpToLineBreak(answer, tail);
    } else {
      var rest := tail[|Marker|..];
      assert tail == Marker + rest;
      assert answer + tail == answer + Marker + rest;
      FieldUpToNextMarker(answer, rest);
    }
  }

  /** Text after the marker that holds no further marker and no line break,
      followed by a second marker, is exactly the label field: the split on
      the marker cuts there. */
  lemma FieldUpToNextMarker(body: string, rest: string)
    requires !Contains(body, Marker) && '\n' !in body
    ensures Before(Before(body + Marker + rest, Marker), "\n") == body
  {
    MarkerFirstAfterClearPrefix(body, rest);
    var x := body + Marker + rest;
    assert x[..|body|] == body;
    assert Before(x, Marker) == body;
    AbsentChar(body, '\n');
  }

  lemma {:induction false} ParseWellFormedReply(pre: string, answer: string, tail: string)
    requires !Contains(pre, Marker)
    requires !Contains(answer, Marker) && '\n' !in answer
    requires tail == [] || tail[0] == '\n' || StartsWith(tail, Marker)
    ensures ParseLabel(pre + Marker + answer + tail) == LabelOf(Lower(answer))
  {
    ReplyLabelText(pre, answer, tail);
    StrippedAnswerSameLabel(answer);
  }

  /** Surrounding whitespace never changes the decision on an answer. */
  lemma StrippedAnswerSameLabel(answer: string)
    ensures LabelOf(Lower(Strip(answer))) == LabelOf(Lower(answer))
  {
    var t, u := Lower(Strip(answer)), Lower(answer);
    assert !IsSpace('a') && !IsSpace('y') && !IsSpace('n') && !IsSpace('l');
    StripKeepsWords(answer, "anomaly");
    StripKeepsWords(answer, "normal");
    assert Contains(t, "anomaly") == Contains(u, "anomaly");
    assert Contains(t, "normal") == Contains(u, "normal");
  }

  /** A reply without the marker is unknown: indexing the second field of
      the split raises, and the handler keeps the default label. */
  lemma MissingMarkerIsUnknown(reply: string)
    requires !Contains(reply, Marker)
    ensures ParseLabel(reply) == Unknown
  {
  }

  /** The prompt's own format line, "label: normal OR label: anomaly", read
      back as a reply: the second marker cuts the answer to " normal OR ",
      so the slice counts as normal. */
  lemma PromptFormatLineIsNormal()
    ensures ParseLabel("label: normal OR label: anomaly") == Normal
  {
    PromptLineShape();
    PromptAnswerHasNoMarker();
    ParseWellFormedReply([], " normal OR ", "label: anomaly");
    PromptAnswerIsNormal();
  }

  lemma PromptLineShape()
    ensures "label: normal OR label: anomaly" == [] + Marker + " normal OR " + "label: anomaly"
    ensures StartsWith("label: anomaly", Marker) && !Contains([], Marker)
  {
    assert "label: anomaly"[..|Marker|] == Marker;
  }

  lemma PromptAnswerHasNoMarker()
    ensures !Contains(" normal OR ", Marker)
  {
    var a := " normal OR ";
    assert Marker[0] == 'l' && Marker[1] == 'a';
    assert a[0] == ' ' && a[1] == 'n' && a[2] == 'o' && a[3] == 'r' && a[4] == 'm' && a[5] == 'a' && a[6] == 'l' && a[7] == ' ';
    forall i | 0 <= i <= |a| ensures !OccursAt(a, Marker, i) {
      if i == 6 {
        CharMismatch(a, Marker, i, 1);
      } else if i + |Marker| <= |a| {
        CharMismatch(a, Marker, i, 0);
      }
    }
  }

  lemma PromptAnswerIsNormal()
    ensures LabelOf(Lower(" normal OR ")) == Normal
  {
    var t := Lower(" normal OR ");
    assert t == " normal or ";
    assert t[1..7] == "normal";
    assert OccursAt(t, "normal", 1);
    assert t[0] == ' ' && t[1] == 'n' && t[2] == 'o' && t[3] == 'r' && t[4] == 'm';
    forall i | 0 <= i <= |t| ensures !OccursAt(t, "anomaly", i) {
      if i + 7 <= |t| {
        CharMismatch(t, "anomaly", i, 0);
      }
    }
  }

  /** The answer "anomaly" wins even when "normal" is also mentioned. */
  lemma AnomalyOutranksNormal(pre: string, answer: string, tail: string)
    requires !Contains(pre, Marker)
    requires !Contains(answer, Marker) && '\n' !in answer
    requires tail == [] || tail[0] == '\n' || StartsWith(tail, Marker)
    requires Contains(Lower(answer), "anomaly")
    ensures ParseLabel(pre + Marker + answer + tail) == Anomaly
  {
    ParseWellFormedReply(pre, answer, tail);
  }

  // ---------------------------------------------------------------------------
  // Votes

  /** One entry of `slice_labels`: a sampled slice and the label recorded for it. */
  datatype SliceVote = SliceVote(index: int, vote: Label)

  function Indices(votes: seq<SliceVote>): (r: seq<int>)
    ensures |r| == |votes| && forall k :: 0 <= k < |votes| ==> r[k] == votes[k].index
  {
    seq(|votes|, k requires 0 <= k < |votes| => votes[k].index)
  }

  /** The vote `run_inference` records for slice `i`: none when the call
      raised, else the parsed label. */
  function VoteFor(i: int, classify: int -> Option<string>): seq<SliceVote> {
    match classify(i)
    case None => []
    case Some(reply) => [SliceVote(i, ParseLabel(reply))]
  }

  /** The label record built by the classification loop: every sampled slice
      whose classifier call returned a reply, in plan order, with its parsed
      label. Slices whose call raised are absent. */
  function CollectVotes(plan: seq<int>, classify: int -> Option<string>): (votes: seq<SliceVote>)
    ensures |votes| <= |plan|
  {
    if plan == [] then [] else VoteFor(plan[0], classify) + CollectVotes(plan[1..], classify)
  }

  /** Exactly the sampled slices whose call returned are recorded, each with
      the label parsed from its own reply, and in ascending slice order. */
  lemma {:induction false} CollectVotesRecordsAnsweredSlices(plan: seq<int>, classify: int -> Option<string>)
    ensures forall i :: i in Indices(CollectVotes(plan, classify)) <==> i in plan && classify(i).Some?
    ensures forall v :: v in CollectVotes(plan, classify) ==>
              classify(v.index).Some? && v.vote == ParseLabel(classify(v.index).value)
    ensures StrictlyAscending(plan) ==> StrictlyAscending(Indices(CollectVotes(plan, classify)))
  {
    if plan != [] {
      var rest := CollectVotes(plan[1..], classify);
      CollectVotesRecordsAnsweredSlices(plan[1..], classify);
      if classify(plan[0]).None? {
        assert CollectVotes(plan, classify) == rest;
        SkipStep(plan, classify, rest);
      } else {
        var votes := VoteFor(plan[0], classify) + rest;
        KeepStep(plan, classify, rest, votes);
        forall v | v in votes ensures classify(v.index).Some? && v.vote == ParseLabel(classify(v.index).value) {
          if v != votes[0] {
            assert v in rest;
          }
        }
      }
    }
  }

  lemma SkipStep(plan: seq<int>, classify: int -> Option<string>, rest: seq<SliceVote>)
    requires plan != [] && classify(plan[0]).None?
    requires forall i :: i in Indices(rest) <==> i in plan[1..] && classify(i).Some?
    requires StrictlyAscending(plan[1..]) ==> StrictlyAscending(Indices(rest))
    ensures forall i :: i in Indices(rest) <==> i in plan && classify(i).Some?
    ensures StrictlyAscending(plan) ==> StrictlyAscending(Indices(rest))
  {
    assert forall x :: x in plan <==> x == plan[0] || x in plan[1..];
  }

  lemma KeepStep(plan: seq<int>, classify: int -> Option<string>, rest: seq<SliceVote>, votes: seq<SliceVote>)
    requires plan != [] && classify(plan[0]).Some?
    requires |votes| == |rest| + 1 && votes[0].index == plan[0] && votes[1..] == rest
    requires forall i :: i in Indices(rest) <==> i in plan[1..] && classify(i).Some?
    requires StrictlyAscending(plan[1..]) ==> StrictlyAscending(Indices(rest))
    ensures forall i :: i in Indices(votes) <==> i in plan && classify(i).Some?
    ensures StrictlyAscending(plan) ==> StrictlyAscending(Indices(votes))
  {
    var i := plan[0];
    var r := Indices(rest);
    assert Indices(votes) == [i] + r by {
      forall k | 0 <= k < |votes| ensures Indices(votes)[k] == ([i] + r)[k] {
        if k > 0 {
          assert votes[k] == votes[1..][k - 1];
        }
      }
    }
    assert forall x :: x in plan <==> x == i || x in plan[1..];
    if StrictlyAscending(plan) {
      assert StrictlyAscending(plan[1..]);
      forall x | x in r ensures i < x {
        var m :| 0 <= m < |plan[1..]| && plan[1..][m] == x;
        assert plan[m + 1] == x;
      }
      ConsAscending(i, r);
    }
  }

  lemma ConsAscending(i: int, r: seq<int>)
    requires StrictlyAscending(r)
    requires forall x :: x in r ==> i < x
    ensures StrictlyAscending([i] + r)
  {
    forall a, b | 0 <= a < b < |[i] + r| ensures ([i] + r)[a] < ([i] + r)[b] {
      assert ([i] + r)[b] == r[b - 1] && r[b - 1] in r;
      if a > 0 {
        assert ([i] + r)[a] == r[a - 1];
      }
    }
  }

  /** Number of votes carrying label `l`: the `counts` dictionary. */
  function CountLabel(votes: seq<SliceVote>, l: Label): (c: nat)
    ensures c <= |votes|
  {
    if votes == [] then 0
    else CountLabel(votes[..|votes| - 1], l) + (if votes[|votes| - 1].vote == l then 1 else 0)
  }

  /** A label counts zero exactly when no vote carries it. */
  lemma {:induction false} CountLabelZero(votes: seq<SliceVote>, l: Label)
    ensures CountLabel(votes, l) == 0 <==> forall k :: 0 <= k < |votes| ==> votes[k].vote != l
  {
    if votes != [] {
      var init := votes[..|votes| - 1];
      CountLabelZero(init, l);
      assert forall k :: 0 <= k < |init| ==> init[k] == votes[k];
    }
  }

  /** Every vote is counted under exactly one label, so unknown labels are
      simply left out of the decisive counts. */
  lemma {:induction false} VotesPartition(votes: seq<SliceVote>)
    ensures CountLabel(votes, Anomaly) + CountLabel(votes, Normal) + CountLabel(votes, Unknown) == |votes|
  {
    if votes != [] {
      VotesPartition(votes[..|votes| - 1]);
    }
  }

  /** `final_probability`: the share of anomaly votes among decisive votes,
      0 when there are none. */
  function Probability(anomalies: nat, normals: nat): (p: real)
    ensures 0.0 <= p <= 1.0
    ensures anomalies + normals == 0 ==> p == 0.0
    ensures p * (anomalies + normals) as real == anomalies as real
    ensures p == 0.0 <==> anomalies == 0
    ensures p == 1.0 <==> anomalies > 0 && normals == 0
  {
    var total := anomalies + normals;
    if total > 0 then anomalies as real / total as real else 0.0
  }

  // ---------------------------------------------------------------------------
  // Verdict

  /** `preds[j]` after the dilation loop: slice `j` lies within one slice of
      a slice labelled anomaly among the first `k` votes. */
  predicate NearAnomaly(votes: seq<SliceVote>, k: int, j: int)
    requires 0 <= k <= |votes|
  {
    exists m :: 0 <= m < k && votes[m].vote == Anomaly && votes[m].index - 1 <= j <= votes[m].index + 1
  }

  datatype Verdict = Verdict(predSlices: seq<bool>, hasPathology: bool, probability: real)

  /** Stages 2 and 3 of `run_inference` on a recorded label set. */
  function Aggregate(votes: seq<SliceVote>, nSlices: nat, threshold: real): (v: Verdict)
    ensures |v.predSlices| == nSlices
    ensures 0.0 <= v.probability <= 1.0
    ensures v.hasPathology <==> v.probability >= threshold
    ensures v.probability * (CountLabel(votes, Anomaly) + CountLabel(votes, Normal)) as real
            == CountLabel(votes, Anomaly) as real
    ensures forall j :: 0 <= j < nSlices ==>
              (v.predSlices[j] <==> v.hasPathology && NearAnomaly(votes, |votes|, j))
    ensures !v.hasPathology ==> forall j :: 0 <= j < nSlices ==> !v.predSlices[j]
  {
    var p := Probability(CountLabel(votes, Anomaly), CountLabel(votes, Normal));
    var has := p >= threshold;
    Verdict(seq(nSlices, j requires 0 <= j < nSlices => has && NearAnomaly(votes, |votes|, j)), has, p)
  }

  /** The mask is set on exactly the dilated anomalous slices: each
      anomaly vote marks its own slice and its two neighbours, clipped to the
      volume. */
  method DilateAnomalies(votes: seq<SliceVote>, nSlices: nat) returns (preds: seq<bool>)
    ensures |preds| == nSlices
    ensures forall j :: 0 <= j < nSlices ==> (preds[j] <==> NearAnomaly(votes, |votes|, j))
  {
    preds := seq(nSlices, _ => false);
    var k := 0;
    while k < |votes|
      invariant 0 <= k <= |votes|
      invariant |preds| == nSlices
      invariant forall t :: 0 <= t < nSlices ==> (preds[t] <==> NearAnomaly(votes, k, t))
    {
      var i := votes[k].index;
      var lo, hi := Max(0, i - 1), if nSlices < i + 2 then nSlices else i + 2;
      if votes[k].vote == Anomaly {
        var j := lo;
        while j < hi
          invariant lo <= j <= Max(lo, hi)
          invariant |preds| == nSlices
          invariant forall t :: 0 <= t < nSlices ==> (preds[t] <==> NearAnomaly(votes, k, t) || lo <= t < j)
        {
          preds := preds[j := true];
          j := j + 1;
        }
        forall t | 0 <= t < nSlices ensures preds[t] <==> NearAnomaly(votes, k + 1, t) {
          NearAnomalyStep(votes, k, t);
        }
      } else {
        forall t | 0 <= t < nSlices ensures preds[t] <==> NearAnomaly(votes, k + 1, t) {
          NearAnomalyStep(votes, k, t);
        }
      }
      k := k + 1;
    }
  }

  lemma NearAnomalyStep(votes: seq<SliceVote>, k: nat, t: int)
    requires k < |votes|
    ensures NearAnomaly(votes, k + 1, t) <==>
            NearAnomaly(votes, k, t) || (votes[k].vote == Anomaly && votes[k].index - 1 <= t <= votes[k].index + 1)
  {
    if NearAnomaly(votes, k + 1, t) && !(votes[k].vote == Anomaly && votes[k].index - 1 <= t <= votes[k].index + 1) {
      var m :| 0 <= m < k + 1 && votes[m].vote == Anomaly && votes[m].index - 1 <= t <= votes[m].index + 1;
      assert m < k;
    }
  }

  /** `run_inference(volume, threshold)` for a volume of `nSlices` slices:
      plan, classify, count, decide, dilate. */
  method RunInference(nSlices: nat, classify: int -> Option<string>, threshold: real) returns (v: Verdict)
    ensures v == Aggregate(CollectVotes(PlanSlices(nSlices), classify), nSlices, threshold)
  {
    var votes, anomalies, normals := ClassifySlices(PlanSlices(nSlices), classify);
    var probability := Probability(anomalies, normals);
    var hasPathology := probability >= threshold;
    var preds := seq(nSlices, _ => false);
    if hasPathology {
      preds := DilateAnomalies(votes, nSlices);
    }
    v := Verdict(preds, hasPathology, probability);
    var w := Aggregate(votes, nSlices, threshold);
    assert v.predSlices == w.predSlices by {
      forall j | 0 <= j < nSlices ensures v.predSlices[j] == w.predSlices[j] {
      }
    }
  }

  /** Stage 1 of `run_inference`: the classification loop with its running
      `counts`. */
  method ClassifySlices(plan: seq<int>, classify: int -> Option<string>)
    returns (votes: seq<SliceVote>, anomalies: nat, normals: nat)
    ensures votes == CollectVotes(plan, classify)
    ensures anomalies == CountLabel(votes, Anomaly) && normals == CountLabel(votes, Normal)
  {
    votes := [];
    anomalies, normals := 0, 0;
    var k := 0;
    while k < |plan|
      invariant 0 <= k <= |plan|
      invariant votes + CollectVotes(plan[k..], classify) == CollectVotes(plan, classify)
      invariant anomalies == CountLabel(votes, Anomaly) && normals == CountLabel(votes, Normal)
    {
      CollectStep(plan, k, classify, votes);
      votes, anomalies, normals := ClassifySlice(plan[k], classify, votes, anomalies, normals);
      k := k + 1;
    }
  }

  /** One pass of the classification loop: the reply for slice `i`, if any,
      is parsed, counted and recorded. */
  method ClassifySlice(i: int, classify: int -> Option<string>, votes: seq<SliceVote>, anomalies: nat, normals: nat)
    returns (votes': seq<SliceVote>, anomalies': nat, normals': nat)
    requires anomalies == CountLabel(votes, Anomaly) && normals == CountLabel(votes, Normal)
    ensures votes' == votes + VoteFor(i, classify)
    ensures anomalies' == CountLabel(votes', Anomaly) && normals' == CountLabel(votes', Normal)
  {
    CountStep(votes, i, classify);
    anomalies', normals' := anomalies, normals;
    var reply := classify(i);
    if reply.Some? {
      var l := ParseLabel(reply.value);
      if l == Anomaly {
        anomalies' := anomalies + 1;
      } else if l == Normal {
        normals' := normals + 1;
      }
    }
    votes' := votes + VoteFor(i, classify);
  }

  lemma CollectStep(plan: seq<int>, k: nat, classify: int -> Option<string>, votes: seq<SliceVote>)
    requires k < |plan|
    requires votes + CollectVotes(plan[k..], classify) == CollectVotes(plan, classify)
    ensures (votes + VoteFor(plan[k], classify)) + CollectVotes(plan[k + 1..], classify) == CollectVotes(plan, classify)
  {
    var t := plan[k..];
    assert t != [] && t[0] == plan[k] && t[1..] == plan[k + 1..];
    CollectCons(t, classify);
  }

  lemma CollectCons(t: seq<int>, classify: int -> Option<string>)
    requires t != []
    ensures CollectVotes(t, classify) == VoteFor(t[0], classify) + CollectVotes(t[1..], classify)
  {
  }

  /** The counts after recording the vote for slice `i`, if any. */
  lemma CountStep(votes: seq<SliceVote>, i: int, classify: int -> Option<string>)
    ensures var got := classify(i).Some?;
            && CountLabel(votes + VoteFor(i, classify), Anomaly)
               == CountLabel(votes, Anomaly) + (if got && ParseLabel(classify(i).value) == Anomaly then 1 else 0)
            && CountLabel(votes + VoteFor(i, classify), Normal)
               == CountLabel(votes, Normal) + (if got && ParseLabel(classify(i).value) == Normal then 1 else 0)
  {
    if classify(i).Some? {
      CountSnoc(votes, SliceVote(i, ParseLabel(classify(i).value)));
    } else {
      assert votes + VoteFor(i, classify) == votes;
    }
  }

  lemma CountSnoc(votes: seq<SliceVote>, x: SliceVote)
    ensures forall l :: CountLabel(votes + [x], l) == CountLabel(votes, l) + (if x.vote == l then 1 else 0)
  {
    assert (votes + [x])[..|votes|] == votes;
  }

  /** A worked example: anomaly votes on slices 2 and 3 and a
      normal vote on slice 10 of a 20-slice study give probability 2/3, a
      positive study, and the mask {1, 2, 3, 4}. */
  lemma WorkedExample()
    ensures var v := Aggregate([SliceVote(2, Anomaly), SliceVote(3, Anomaly), SliceVote(10, Normal)], 20, DefaultThreshold);
            && v.probability == 2.0 / 3.0
            && v.hasPathology
            && forall j :: 0 <= j < 20 ==> (v.predSlices[j] <==> 1 <= j <= 4)
  {
    var votes := [SliceVote(2, Anomaly), SliceVote(3, Anomaly), SliceVote(10, Normal)];
    assert votes[..2] == [SliceVote(2, Anomaly), SliceVote(3, Anomaly)];
    assert votes[..2][..1] == [SliceVote(2, Anomaly)];
    assert CountLabel(votes, Anomaly) == 2;
    assert CountLabel(votes, Normal) == 1;
    forall j | 0 <= j < 20 ensures NearAnomaly(votes, 3, j) <==> 1 <= j <= 4 {
      if 1 <= j <= 3 {
        assert votes[0].vote == Anomaly && votes[0].index - 1 <= j <= votes[0].index + 1;
      } else if j == 4 {
        assert votes[1].vote == Anomaly && votes[1].index - 1 <= j <= votes[1].index + 1;
      }
    }
  }

  /** When every classifier call raises, nothing is recorded. */
  lemma {:induction false} SilentClassifierRecordsNothing(plan: seq<int>, classify: int -> Option<string>)
    requires forall i :: classify(i).None?
    ensures CollectVotes(plan, classify) == []
  {
    if plan != [] {
      SilentClassifierRecordsNothing(plan[1..], classify);
      CollectCons(plan, classify);
    }
  }

  /** When every classifier call raises, nothing is counted: the probability
      is 0 and the study is positive only for a threshold of at most 0, and
      even then no slice is marked. */
  lemma SilentClassifier(nSlices: nat, classify: int -> Option<string>, threshold: real)
    requires forall i :: classify(i).None?
    ensures var v := Aggregate(CollectVotes(PlanSlices(nSlices), classify), nSlices, threshold);
            && v.probability == 0.0
            && (v.hasPathology <==> threshold <= 0.0)
            && forall j :: 0 <= j < nSlices ==> !v.predSlices[j]
  {
    SilentClassifierRecordsNothing(PlanSlices(nSlices), classify);
  }
}
