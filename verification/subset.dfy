/** Feature-subset selection (`SubsetSelectionAlgorithm` and `NunesAlgorithm`): every non-empty
    subset of the feature columns is tried in turn with an unstandardised nearest-neighbour child
    sampler, each observation's candidate samples are scored by a loss, and for each observation
    the samples of the first subset with the smallest loss are kept.

    `SelectBest` is the reference definition of the result (a minimum and a first minimiser per
    observation); `SubsetSelection.Sample` computes it the way the source does, by a running
    keep-best update over the masks. */
module SubsetSearch {
  import opened NdArrays
  import opened FeatureMasks
  import opened Neighbors
  import opened BestSoFar
  import opened Algorithm

  /** The loss hook: the base class has none, and `NunesAlgorithm` estimates the entropy of each
      observation's candidate samples (the entropy estimator itself is a numeric collaborator). */
  datatype LossStrategy = Unimplemented | Entropy(estimate: seq<Row> -> real)

  /** `evaluate_loss`: one loss value per observation, each computed from that observation's
      samples alone; the base class raises. */
  function EvaluateLoss(loss: LossStrategy, samples: seq<seq<Row>>): (r: Result<seq<real>>)
    ensures r.Ok? <==> loss.Entropy?
    ensures r.Err? ==> r.error == LossNotImplemented
    ensures r.Ok? ==> |r.value| == |samples| &&
                      forall i :: 0 <= i < |samples| ==> r.value[i] == loss.estimate(samples[i])
  {
    match loss
    case Unimplemented => Err(LossNotImplemented)
    case Entropy(estimate) =>
      Ok(seq(|samples|, i requires 0 <= i < |samples| => estimate(samples[i])))
  }

  /** The reference table of the child sampler for `mask`: the masked feature columns, the same
      parameters, and no scaler. */
  function ChildReference(ref: Reference, mask: Mask): (c: Reference)
    requires ref.Valid() && |mask| == ref.width
    ensures c.Valid() && c.scaler.None?
    ensures c.width == Count(mask) && c.params == ref.params && c.NumParams() == ref.NumParams()
    ensures c.data == SelectColumns(ref.data, mask)
  {
    Reference(SelectColumns(ref.data, mask), Count(mask), ref.params, ref.paramWidth, None)
  }

  /** Building the child sampler from the masked training features with `standardize=False`
      always succeeds and gives `ChildReference`, whatever scaler fitter is at hand. */
  lemma ChildConstruction(ref: Reference, mask: Mask, fit: Fitter)
    requires ref.Valid() && |mask| == ref.width
    ensures CheckReference(Matrix(SelectColumns(ref.data, mask), Count(mask)),
                           Matrix(ref.params, ref.paramWidth), false, fit)
            == Ok(ChildReference(ref, mask))
  {
  }

  /** The child sampler's answer for the (already standardised) query rows, restricted to the
      columns of `mask`. */
  function ChildSample(ref: Reference, rows: seq<Row>, mask: Mask, k: int): (r: Result<Neighbours>)
    requires ref.Valid() && |mask| == ref.width && Rectangular(rows, ref.width)
    ensures r.Ok? ==> |r.value.samples| == |rows|
  {
    NearestSample(ChildReference(ref, mask), Matrix(SelectColumns(rows, mask), Count(mask)), k)
  }

  /** The child masks the training features and the query with the same mask, does not
      standardise again, and succeeds exactly when the parent's request is answerable. */
  lemma ChildSameMask(ref: Reference, rows: seq<Row>, mask: Mask, k: int)
    requires ref.Valid() && |mask| == ref.width && Rectangular(rows, ref.width)
    ensures ChildSample(ref, rows, mask, k).Ok? <==> k >= 1 && (|rows| == 0 || k <= |ref.data|)
    ensures ChildSample(ref, rows, mask, k).Ok? ==>
              IsAnswer(SelectColumns(ref.data, mask), Count(mask), ref.params,
                       SelectColumns(rows, mask), k, ChildSample(ref, rows, mask, k).value)
    ensures k < 1 ==> ChildSample(ref, rows, mask, k) == Err(NumSamplesNotPositive)
    ensures k >= 1 && |rows| > 0 && k > |ref.data| ==>
              ChildSample(ref, rows, mask, k) == Err(TooFewReferenceRows)
  {
    var c := ChildReference(ref, mask);
    var q := Matrix(SelectColumns(rows, mask), Count(mask));
    assert PreparedQuery(c, q) == Ok(q);
  }

  /** The full mask's child is the plain nearest-neighbour sampler, without standardisation, on
      the training features and the query as they are. */
  lemma FullMaskChild(ref: Reference, rows: seq<Row>, k: int)
    requires ref.Valid() && Rectangular(rows, ref.width)
    ensures ChildSample(ref, rows, AllTrue(ref.width), k)
            == NearestSample(Reference(ref.data, ref.width, ref.params, ref.paramWidth, None),
                             Matrix(rows, ref.width), k)
  {
    var all := AllTrue(ref.width);
    CountAllTrue(ref.width);
    forall i | 0 <= i < |ref.data| ensures SelectColumns(ref.data, all)[i] == ref.data[i] {
      SelectAll(ref.data[i]);
    }
    forall i | 0 <= i < |rows| ensures SelectColumns(rows, all)[i] == rows[i] {
      SelectAll(rows[i]);
    }
    assert SelectColumns(ref.data, all) == ref.data;
    assert SelectColumns(rows, all) == rows;
  }

  lemma {:induction false} CountAllTrue(p: nat)
    ensures Count(AllTrue(p)) == p
  {
    if p > 0 {
      assert AllTrue(p)[1..] == AllTrue(p - 1);
      CountAllTrue(p - 1);
    }
  }

  /** The answers of the child samplers of `masks`, in order. */
  function ChildAnswers(ref: Reference, rows: seq<Row>, masks: seq<Mask>, k: int)
    : (answers: seq<Result<Neighbours>>)
    requires ref.Valid() && Rectangular(rows, ref.width)
    requires forall t :: 0 <= t < |masks| ==> |masks[t]| == ref.width
    ensures |answers| == |masks|
    ensures Answers(answers, |rows|)
  {
    if masks == [] then []
    else
      var last := |masks| - 1;
      ChildAnswers(ref, rows, masks[..last], k) + [ChildSample(ref, rows, masks[last], k)]
  }

  /** Answer `t` is the child sampler of mask `t`'s answer. */
  lemma {:induction false} ChildAnswersAt(ref: Reference, rows: seq<Row>, masks: seq<Mask>,
                                          k: int, t: nat)
    requires ref.Valid() && Rectangular(rows, ref.width)
    requires forall t :: 0 <= t < |masks| ==> |masks[t]| == ref.width
    requires t < |masks|
    ensures ChildAnswers(ref, rows, masks, k)[t] == ChildSample(ref, rows, masks[t], k)
  {
    var last := |masks| - 1;
    if t < last {
      ChildAnswersAt(ref, rows, masks[..last], k, t);
    }
  }

  /** Every successful answer has one entry per observation. */
  predicate Answers(answers: seq<Result<Neighbours>>, n: nat) {
    forall t :: 0 <= t < |answers| && answers[t].Ok? ==> |answers[t].value.samples| == n
  }

  /** What the walk over the masks collects: for each mask in order, the child's samples (one
      entry per observation) and the loss vector. */
  datatype Evaluations = Evaluations(samples: seq<seq<seq<Row>>>, losses: seq<seq<real>>)

  /** The samples and loss vectors of the answers in order, or the first error: an answer that
      is an error, or a loss that cannot be evaluated. */
  function Evaluate(loss: LossStrategy, answers: seq<Result<Neighbours>>, n: nat)
    : (r: Result<Evaluations>)
    requires Answers(answers, n)
    ensures r.Ok? ==> |r.value.samples| == |answers| && |r.value.losses| == |answers|
    ensures r.Ok? ==> forall t :: 0 <= t < |answers| ==>
                        |r.value.samples[t]| == n && |r.value.losses[t]| == n
  {
    if answers == [] then Ok(Evaluations([], []))
    else
      var prev := Evaluate(loss, answers[..|answers| - 1], n);
      var c := answers[|answers| - 1];
      if prev.Err? then prev
      else if c.Err? then Err(c.error)
      else
        var l := EvaluateLoss(loss, c.value.samples);
        if l.Err? then Err(l.error)
        else Ok(Evaluations(prev.value.samples + [c.value.samples], prev.value.losses + [l.value]))
  }

  /** A successful walk holds, for every mask, the child's samples and their loss vector. */
  lemma {:induction false} EvaluateSound(loss: LossStrategy, answers: seq<Result<Neighbours>>,
                                         n: nat, t: nat)
    requires Answers(answers, n) && t < |answers| && Evaluate(loss, answers, n).Ok?
    ensures answers[t].Ok?
    ensures Evaluate(loss, answers, n).value.samples[t] == answers[t].value.samples
    ensures EvaluateLoss(loss, Evaluate(loss, answers, n).value.samples[t])
            == Ok(Evaluate(loss, answers, n).value.losses[t])
  {
    var last := |answers| - 1;
    var prev := Evaluate(loss, answers[..last], n);
    assert prev.Ok?;
    if t < last {
      EvaluateSound(loss, answers[..last], n, t);
      assert answers[..last][t] == answers[t];
    }
  }

  /** The first error stops the walk: once a prefix of the answers fails, the whole walk fails
      with the same error. */
  lemma {:induction false} EvaluateKeepsError(loss: LossStrategy,
                                              answers: seq<Result<Neighbours>>, n: nat, j: nat)
    requires Answers(answers, n) && j <= |answers| && Evaluate(loss, answers[..j], n).Err?
    ensures Evaluate(loss, answers, n) == Evaluate(loss, answers[..j], n)
  {
    if j < |answers| {
      var last := |answers| - 1;
      assert answers[..last][..j] == answers[..j];
      EvaluateKeepsError(loss, answers[..last], n, j);
    } else {
      assert answers[..j] == answers;
    }
  }

  /** One step of the walk from the evaluations of the first `t` answers: answer `t`'s error,
      or its loss error, ends the whole walk; otherwise its samples and losses are appended. */
  lemma EvaluateStep(loss: LossStrategy, answers: seq<Result<Neighbours>>, n: nat, t: nat,
                     e: Evaluations)
    requires Answers(answers, n) && t < |answers| && Evaluate(loss, answers[..t], n) == Ok(e)
    ensures answers[t].Err? ==> Evaluate(loss, answers, n) == Err(answers[t].error)
    ensures answers[t].Ok? && EvaluateLoss(loss, answers[t].value.samples).Err? ==>
              Evaluate(loss, answers, n) == Err(LossNotImplemented)
    ensures answers[t].Ok? && EvaluateLoss(loss, answers[t].value.samples).Ok? ==>
              Evaluate(loss, answers[..t + 1], n)
              == Ok(Evaluations(e.samples + [answers[t].value.samples],
                                e.losses + [EvaluateLoss(loss, answers[t].value.samples).value]))
  {
    assert answers[..t + 1][..t] == answers[..t];
    if Evaluate(loss, answers[..t + 1], n).Err? {
      EvaluateKeepsError(loss, answers, n, t + 1);
    }
  }

  /** `EvaluateStep` for a successful answer `t` of the walk over `masks`: the evaluations grow
      by that answer's samples and loss vector, each with one entry per observation. */
  lemma WalkStep(loss: LossStrategy, answers: seq<Result<Neighbours>>, masks: seq<Mask>, n: nat,
                 t: nat, evaluated: seq<seq<seq<Row>>>, losses: seq<seq<real>>)
    requires Answers(answers, n) && t < |answers| && |masks| == |answers|
    requires Evaluate(loss, answers[..t], n) == Ok(Evaluations(evaluated, losses))
    requires Evaluated(masks[..t], Evaluations(evaluated, losses), n)
    requires answers[t].Ok? && EvaluateLoss(loss, answers[t].value.samples).Ok?
    ensures |answers[t].value.samples| == n
    ensures |EvaluateLoss(loss, answers[t].value.samples).value| == n
    ensures Evaluate(loss, answers[..t + 1], n)
            == Ok(Evaluations(evaluated + [answers[t].value.samples],
                              losses + [EvaluateLoss(loss, answers[t].value.samples).value]))
    ensures Evaluated(masks[..t + 1],
                      Evaluations(evaluated + [answers[t].value.samples],
                                  losses + [EvaluateLoss(loss, answers[t].value.samples).value]),
                      n)
  {
    EvaluateStep(loss, answers, n, t, Evaluations(evaluated, losses));
  }

  /** Per observation: the samples of the winning mask, the winning mask, and its loss. */
  datatype Best = Best(samples: seq<seq<Row>>, mask: seq<Mask>, loss: seq<real>)

  /** The evaluations of `masks` for `n` observations: one samples entry and one loss vector per
      mask, each with one entry per observation. */
  predicate Evaluated(masks: seq<Mask>, e: Evaluations, n: nat) {
    && |e.samples| == |masks| && |e.losses| == |masks|
    && forall t :: 0 <= t < |masks| ==> |e.samples[t]| == n && |e.losses[t]| == n
  }

  /** The winners over `masks`: for each observation, the samples and the mask of the first
      mask whose loss is smallest, and that loss. */
  function Winners(masks: seq<Mask>, e: Evaluations, n: nat): (b: Best)
    requires |masks| > 0 && Evaluated(masks, e, n)
    ensures |b.samples| == n && |b.mask| == n && |b.loss| == n
  {
    Best(
      seq(n, i requires 0 <= i < n => e.samples[FirstArgMin(Column(e.losses, i))][i]),
      seq(n, i requires 0 <= i < n => masks[FirstArgMin(Column(e.losses, i))]),
      seq(n, i requires 0 <= i < n => MinOf(Column(e.losses, i))))
  }

  /** One keep-best step over all observations at once: the observations whose new loss is
      strictly below their best so far take the new samples, the new mask and the new loss;
      the others keep theirs. */
  function KeepStrictlyBetter(b: Best, samples: seq<seq<Row>>, mask: Mask, lossVec: seq<real>)
    : (r: Best)
    requires |b.samples| == |b.loss| && |b.mask| == |b.loss|
    requires |samples| == |b.loss| && |lossVec| == |b.loss|
    ensures |r.samples| == |b.loss| && |r.mask| == |b.loss| && |r.loss| == |b.loss|
    ensures forall i :: 0 <= i < |b.loss| ==> r.loss[i] <= b.loss[i] && r.loss[i] <= lossVec[i]
  {
    var n := |b.loss|;
    Best(
      seq(n, i requires 0 <= i < n => if lossVec[i] < b.loss[i] then samples[i] else b.samples[i]),
      seq(n, i requires 0 <= i < n => if lossVec[i] < b.loss[i] then mask else b.mask[i]),
      seq(n, i requires 0 <= i < n => if lossVec[i] < b.loss[i] then lossVec[i] else b.loss[i]))
  }

  /** With a single mask, every observation's winner is that mask. */
  lemma WinnersFirst(mask: Mask, e: Evaluations, n: nat)
    requires Evaluated([mask], e, n)
    ensures Winners([mask], e, n) == Best(e.samples[0], seq(n, _ => mask), e.losses[0])
  {
    var w := Winners([mask], e, n);
    forall i | 0 <= i < n ensures Column(e.losses, i) == [e.losses[0][i]] {
    }
  }

  /** Adding a mask to the walk changes each observation's winner by one keep-best step. */
  lemma WinnersExtend(masks: seq<Mask>, e: Evaluations, n: nat)
    requires |masks| > 1 && Evaluated(masks, e, n)
    ensures Evaluated(masks[..|masks| - 1],
                      Evaluations(e.samples[..|masks| - 1], e.losses[..|masks| - 1]), n)
    ensures Winners(masks, e, n)
            == KeepStrictlyBetter(
                 Winners(masks[..|masks| - 1],
                         Evaluations(e.samples[..|masks| - 1], e.losses[..|masks| - 1]), n),
                 e.samples[|masks| - 1], masks[|masks| - 1], e.losses[|masks| - 1])
  {
    var last := |masks| - 1;
    var prev := Evaluations(e.samples[..last], e.losses[..last]);
    var w := Winners(masks, e, n);
    var b := Winners(masks[..last], prev, n);
    var u := KeepStrictlyBetter(b, e.samples[last], masks[last], e.losses[last]);
    assert e.losses == prev.losses + [e.losses[last]];
    forall i | 0 <= i < n
      ensures w.samples[i] == u.samples[i] && w.mask[i] == u.mask[i] && w.loss[i] == u.loss[i]
    {
      ColumnStep(prev.losses, e.losses[last], i);
    }
  }

  /** `WinnersFirst` for the first mask of a walk. */
  lemma WinnersStart(masks: seq<Mask>, samples: seq<seq<Row>>, lossVec: seq<real>, n: nat)
    requires |masks| > 0 && Evaluated(masks[..1], Evaluations([samples], [lossVec]), n)
    ensures Winners(masks[..1], Evaluations([samples], [lossVec]), n)
            == Best(samples, seq(|lossVec|, _ => masks[0]), lossVec)
  {
    assert masks[..1] == [masks[0]];
    WinnersFirst(masks[0], Evaluations([samples], [lossVec]), n);
  }

  /** `WinnersExtend` for mask `t` of a walk. */
  lemma WinnersAfter(masks: seq<Mask>, t: nat, evaluated: seq<seq<seq<Row>>>,
                     losses: seq<seq<real>>, samples: seq<seq<Row>>, lossVec: seq<real>, n: nat)
    requires 0 < t < |masks|
    requires Evaluated(masks[..t + 1], Evaluations(evaluated + [samples], losses + [lossVec]), n)
    ensures Evaluated(masks[..t], Evaluations(evaluated, losses), n)
    ensures |samples| == n && |lossVec| == n
    ensures Winners(masks[..t + 1], Evaluations(evaluated + [samples], losses + [lossVec]), n)
            == KeepStrictlyBetter(Winners(masks[..t], Evaluations(evaluated, losses), n),
                                  samples, masks[t], lossVec)
  {
    var next := Evaluations(evaluated + [samples], losses + [lossVec]);
    assert next.samples[t] == samples && next.losses[t] == lossVec;
    WinnersExtend(masks[..t + 1], next, n);
    assert masks[..t + 1][..t] == masks[..t];
    assert next.samples[..t] == evaluated && next.losses[..t] == losses;
  }

  /** The keep-best step for one observation: its minimum and first minimiser after one more
      loss vector. */
  lemma ColumnStep(losses: seq<seq<real>>, x: seq<real>, i: nat)
    requires |losses| > 0 && i < |x|
    requires forall t :: 0 <= t < |losses| ==> i < |losses[t]|
    ensures MinOf(Column(losses + [x], i))
            == if x[i] < MinOf(Column(losses, i)) then x[i] else MinOf(Column(losses, i))
    ensures FirstArgMin(Column(losses + [x], i))
            == if x[i] < MinOf(Column(losses, i)) then |losses| else FirstArgMin(Column(losses, i))
  {
    ColumnExtend(losses, x, i);
    MinOfExtend(Column(losses, i), x[i]);
    FirstArgMinExtend(Column(losses, i), x[i]);
  }

  /** What the subset search returns: the per-observation winners (`None` when there is no
      candidate mask), the masks in evaluation order, and every mask's loss vector. */
  datatype Selection = Selection(best: Option<Best>, masks: seq<Mask>, losses: seq<seq<real>>)

  /** The search over the children's answers to `masks`, in order: the first error, or each
      observation's winner with every mask's loss vector. */
  function Choose(masks: seq<Mask>, loss: LossStrategy, answers: seq<Result<Neighbours>>, n: nat)
    : (r: Result<Selection>)
    requires |masks| > 0 && |answers| == |masks| && Answers(answers, n)
    ensures r.Err? <==> Evaluate(loss, answers, n).Err?
    ensures r.Ok? ==> && r.value.masks == masks && r.value.best.Some?
                      && |r.value.losses| == |masks|
                      && (forall t :: 0 <= t < |masks| ==> |r.value.losses[t]| == n)
                      && |r.value.best.value.samples| == n && |r.value.best.value.mask| == n
                      && |r.value.best.value.loss| == n
  {
    var e := Evaluate(loss, answers, n);
    if e.Err? then Err(e.error)
    else Ok(Selection(Some(Winners(masks, e.value, n)), masks, e.value.losses))
  }

  /** Each observation's winner in a successful search is the first mask of smallest loss for
      that observation, and its samples are that mask's answer for the observation. */
  lemma ChooseFirstMinimum(masks: seq<Mask>, loss: LossStrategy, answers: seq<Result<Neighbours>>,
                           n: nat, i: nat)
    returns (b: nat)
    requires |masks| > 0 && |answers| == |masks| && Answers(answers, n)
    requires Choose(masks, loss, answers, n).Ok? && i < n
    ensures var sel := Choose(masks, loss, answers, n).value;
            && b < |masks|
            && sel.best.value.mask[i] == masks[b]
            && sel.best.value.loss[i] == sel.losses[b][i]
            && (forall t :: 0 <= t < |masks| ==> sel.best.value.loss[i] <= sel.losses[t][i])
            && (forall t :: 0 <= t < b ==> sel.best.value.loss[i] < sel.losses[t][i])
            && answers[b].Ok? && sel.best.value.samples[i] == answers[b].value.samples[i]
  {
    var e := Evaluate(loss, answers, n).value;
    b := FirstArgMin(Column(e.losses, i));
    EvaluateSound(loss, answers, n, b);
  }

  /** The reference definition of `SubsetSelectionAlgorithm.sample`. The data are standardised
      when there is a scaler; the masks are enumerated; without a mask the search returns no
      winner; the data must then be a matrix with the training features' columns; every mask's
      child must answer and the loss be evaluated; and each observation gets the samples and the
      mask of the first mask of smallest loss, with that loss. */
  function SelectBest(ref: Reference, loss: LossStrategy, data: NdArray, k: int)
    : (r: Result<Selection>)
    requires ref.Valid()
  {
    var std := Standardize(ref.scaler, data);
    if std.Err? then Err(std.error)
    else
      var masks := Masks(ref.width);
      MasksCount(ref.width);
      if masks == [] then Ok(Selection(None, masks, []))
      else if !std.value.Matrix? then Err(QueryNotTwoDimensional)
      else if std.value.width != ref.width then Err(QueryWidthMismatch)
      else
        var rows := std.value.rows;
        Choose(masks, loss, ChildAnswers(ref, rows, masks, k), |rows|)
  }

  /** The query rows the masks are applied to: the data after standardisation, when that
      succeeded and gave a matrix of the training features' width. */
  predicate Prepared(ref: Reference, data: NdArray)
    requires ref.Valid()
  {
    var std := Standardize(ref.scaler, data);
    std.Ok? && std.value.Matrix? && std.value.width == ref.width
  }

  /** The outcome of a walk over answers that all succeed or all fail alike: the first answer's
      error, else the loss hook's error, else success. */
  lemma {:induction false} EvaluateOutcome(loss: LossStrategy, answers: seq<Result<Neighbours>>,
                                           n: nat)
    requires Answers(answers, n) && |answers| > 0
    requires forall t :: 0 <= t < |answers| ==> answers[t].Ok? == answers[0].Ok?
    ensures answers[0].Err? ==> Evaluate(loss, answers, n) == Err(answers[0].error)
    ensures answers[0].Ok? && loss.Unimplemented? ==>
              Evaluate(loss, answers, n) == Err(LossNotImplemented)
    ensures answers[0].Ok? && loss.Entropy? ==> Evaluate(loss, answers, n).Ok?
  {
    var last := |answers| - 1;
    if answers[0].Err? || loss.Unimplemented? {
      assert answers[..1][..0] == answers[..0];
      EvaluateKeepsError(loss, answers, n, 1);
    } else if last > 0 {
      EvaluateOutcome(loss, answers[..last], n);
    }
  }

  /** The search over answers that all succeed or all fail alike: the first answer's error,
      else the loss hook's error, else a selection. */
  lemma ChooseOutcome(masks: seq<Mask>, loss: LossStrategy, answers: seq<Result<Neighbours>>,
                      n: nat)
    requires |masks| > 0 && |answers| == |masks| && Answers(answers, n)
    requires forall t :: 0 <= t < |answers| ==> answers[t].Ok? == answers[0].Ok?
    ensures answers[0].Err? ==> Choose(masks, loss, answers, n) == Err(answers[0].error)
    ensures answers[0].Ok? && loss.Unimplemented? ==>
              Choose(masks, loss, answers, n) == Err(LossNotImplemented)
    ensures answers[0].Ok? && loss.Entropy? ==> Choose(masks, loss, answers, n).Ok?
  {
    EvaluateOutcome(loss, answers, n);
  }

  /** When the search fails before any child is asked, and with which error: a failed
      standardisation; no candidate mask (no winner is then reported, whatever the data); data
      that are not a matrix or have the wrong number of columns. */
  lemma SelectBestEarlyOutcome(ref: Reference, loss: LossStrategy, data: NdArray, k: int)
    requires ref.Valid()
    ensures var std := Standardize(ref.scaler, data);
            std.Err? ==> SelectBest(ref, loss, data, k) == Err(std.error)
    ensures Standardize(ref.scaler, data).Ok? && ref.width == 0 ==>
              SelectBest(ref, loss, data, k) == Ok(Selection(None, [], []))
    ensures var std := Standardize(ref.scaler, data);
            std.Ok? && ref.width > 0 && !std.value.Matrix? ==>
              SelectBest(ref, loss, data, k) == Err(QueryNotTwoDimensional)
    ensures var std := Standardize(ref.scaler, data);
            std.Ok? && ref.width > 0 && std.value.Matrix? && std.value.width != ref.width ==>
              SelectBest(ref, loss, data, k) == Err(QueryWidthMismatch)
  {
    MasksCount(ref.width);
    if ref.width == 0 {
      assert Masks(0) == [];
    }
  }

  /** On prepared data with at least one feature, when the search succeeds and when it fails:
      fewer than one neighbour, or more neighbours than training rows while there is an
      observation, make every child fail; otherwise the base class's missing loss fails and the
      entropy loss succeeds. */
  lemma SelectBestOutcome(ref: Reference, loss: LossStrategy, data: NdArray, k: int)
    requires ref.Valid() && ref.width > 0 && Prepared(ref, data)
    ensures k < 1 ==> SelectBest(ref, loss, data, k) == Err(NumSamplesNotPositive)
    ensures k >= 1 && |Standardize(ref.scaler, data).value.rows| > 0 && k > |ref.data| ==>
              SelectBest(ref, loss, data, k) == Err(TooFewReferenceRows)
    ensures k >= 1 && (|Standardize(ref.scaler, data).value.rows| == 0 || k <= |ref.data|) ==>
              (loss.Unimplemented? ==> SelectBest(ref, loss, data, k) == Err(LossNotImplemented)) &&
              (loss.Entropy? ==> SelectBest(ref, loss, data, k).Ok?)
  {
    MasksCount(ref.width);
    var rows := Standardize(ref.scaler, data).value.rows;
    var masks := Masks(ref.width);
    ChildAnswersAlike(ref, rows, masks, k);
    ChildSameMask(ref, rows, masks[0], k);
    ChooseOutcome(masks, loss, ChildAnswers(ref, rows, masks, k), |rows|);
  }

  /** Every mask's child succeeds or fails alike, as the first mask's child does. */
  lemma ChildAnswersAlike(ref: Reference, rows: seq<Row>, masks: seq<Mask>, k: int)
    requires ref.Valid() && Rectangular(rows, ref.width) && |masks| > 0
    requires forall t :: 0 <= t < |masks| ==> |masks[t]| == ref.width
    ensures ChildAnswers(ref, rows, masks, k)[0] == ChildSample(ref, rows, masks[0], k)
    ensures forall t :: 0 <= t < |masks| ==>
              ChildAnswers(ref, rows, masks, k)[t].Ok? == ChildAnswers(ref, rows, masks, k)[0].Ok?
    ensures ChildAnswers(ref, rows, masks, k)[0].Err? ==>
              forall t :: 0 <= t < |masks| ==>
                ChildAnswers(ref, rows, masks, k)[t] == ChildAnswers(ref, rows, masks, k)[0]
  {
    var answers := ChildAnswers(ref, rows, masks, k);
    ChildAnswersAt(ref, rows, masks, k, 0);
    ChildSameMask(ref, rows, masks[0], k);
    forall t | 0 <= t < |masks|
      ensures answers[t].Ok? == answers[0].Ok?
      ensures answers[0].Err? ==> answers[t] == answers[0]
    {
      ChildAnswersAt(ref, rows, masks, k, t);
      ChildSameMask(ref, rows, masks[t], k);
    }
  }

  /** A successful search reports the masks in enumeration order (so `2^p - 1` of them) and one
      loss vector per mask; it reports a winner for every observation exactly when there is at
      least one feature. */
  lemma SelectBestShape(ref: Reference, loss: LossStrategy, data: NdArray, k: int)
    requires ref.Valid() && SelectBest(ref, loss, data, k).Ok?
    ensures SelectBest(ref, loss, data, k).value.masks == Masks(ref.width)
    ensures |SelectBest(ref, loss, data, k).value.masks| == Pow2(ref.width) - 1
    ensures |SelectBest(ref, loss, data, k).value.losses| == Pow2(ref.width) - 1
    ensures SelectBest(ref, loss, data, k).value.best.None? <==> ref.width == 0
    ensures ref.width > 0 ==> Prepared(ref, data)
    ensures ref.width > 0 ==>
              var n := |Standardize(ref.scaler, data).value.rows|;
              var sel := SelectBest(ref, loss, data, k).value;
              && |sel.best.value.samples| == n && |sel.best.value.mask| == n
              && |sel.best.value.loss| == n
              && forall t :: 0 <= t < |sel.losses| ==> |sel.losses[t]| == n
  {
    MasksCount(ref.width);
    if ref.width == 0 {
      assert Masks(0) == [];
    }
  }

  /** Each mask's loss vector in a successful search is the loss of that mask's child samples,
      one value per observation. */
  lemma SelectBestLosses(ref: Reference, loss: LossStrategy, data: NdArray, k: int, t: nat)
    requires ref.Valid() && SelectBest(ref, loss, data, k).Ok?
    requires t < |SelectBest(ref, loss, data, k).value.masks|
    ensures Prepared(ref, data) && |SelectBest(ref, loss, data, k).value.masks[t]| == ref.width
    ensures var rows := Standardize(ref.scaler, data).value.rows;
            var sel := SelectBest(ref, loss, data, k).value;
            && t < |sel.losses|
            && ChildSample(ref, rows, sel.masks[t], k).Ok?
            && EvaluateLoss(loss, ChildSample(ref, rows, sel.masks[t], k).value.samples)
               == Ok(sel.losses[t])
  {
    MasksCount(ref.width);
    var rows := Standardize(ref.scaler, data).value.rows;
    var masks := Masks(ref.width);
    EvaluateSound(loss, ChildAnswers(ref, rows, masks, k), |rows|, t);
    ChildAnswersAt(ref, rows, masks, k, t);
  }

  /** Each observation's winner is the first mask of smallest loss for that observation: its
      loss is the winning mask's loss, no mask has a smaller one, and every earlier mask has a
      strictly larger one (ties go to the mask evaluated first). */
  lemma BestIsFirstMinimum(ref: Reference, loss: LossStrategy, data: NdArray, k: int, i: nat)
    returns (b: nat)
    requires ref.Valid() && SelectBest(ref, loss, data, k).Ok?
    requires SelectBest(ref, loss, data, k).value.best.Some?
    requires i < |SelectBest(ref, loss, data, k).value.best.value.loss|
    ensures var sel := SelectBest(ref, loss, data, k).value;
            && b < |sel.masks| && b < |sel.losses|
            && (forall t :: 0 <= t < |sel.losses| ==> i < |sel.losses[t]|)
            && sel.best.value.mask[i] == sel.masks[b]
            && sel.best.value.loss[i] == sel.losses[b][i]
            && (forall t :: 0 <= t < |sel.losses| ==> sel.best.value.loss[i] <= sel.losses[t][i])
            && (forall t :: 0 <= t < b ==> sel.best.value.loss[i] < sel.losses[t][i])
  {
    SelectBestShape(ref, loss, data, k);
    MasksCount(ref.width);
    var rows := Standardize(ref.scaler, data).value.rows;
    var masks := Masks(ref.width);
    b := ChooseFirstMinimum(masks, loss, ChildAnswers(ref, rows, masks, k), |rows|, i);
  }

  /** Each observation's reported samples are its neighbours' parameter rows under the child
      sampler of its reported mask. */
  lemma BestSamples(ref: Reference, loss: LossStrategy, data: NdArray, k: int, i: nat)
    requires ref.Valid() && SelectBest(ref, loss, data, k).Ok?
    requires SelectBest(ref, loss, data, k).value.best.Some?
    requires i < |SelectBest(ref, loss, data, k).value.best.value.loss|
    ensures Prepared(ref, data)
    ensures var rows := Standardize(ref.scaler, data).value.rows;
            var best := SelectBest(ref, loss, data, k).value.best.value;
            && i < |best.mask| && |best.mask[i]| == ref.width
            && ChildSample(ref, rows, best.mask[i], k).Ok?
            && i < |best.samples| && i < |ChildSample(ref, rows, best.mask[i], k).value.samples|
            && best.samples[i] == ChildSample(ref, rows, best.mask[i], k).value.samples[i]
  {
    SelectBestShape(ref, loss, data, k);
    MasksCount(ref.width);
    var rows := Standardize(ref.scaler, data).value.rows;
    var masks := Masks(ref.width);
    var b := ChooseFirstMinimum(masks, loss, ChildAnswers(ref, rows, masks, k), |rows|, i);
    ChildAnswersAt(ref, rows, masks, k, b);
  }

  /** The full feature set is the last candidate, so every observation's winning loss is at
      most the full feature set's loss (by `SelectBestLosses` and `FullMaskChild`, the loss of
      the plain nearest-neighbour sampler on all the standardised features). */
  lemma BestAtMostFullMask(ref: Reference, loss: LossStrategy, data: NdArray, k: int, i: nat)
    requires ref.Valid() && SelectBest(ref, loss, data, k).Ok?
    requires SelectBest(ref, loss, data, k).value.best.Some?
    requires i < |SelectBest(ref, loss, data, k).value.best.value.loss|
    ensures var sel := SelectBest(ref, loss, data, k).value;
            && |sel.masks| > 0 && |sel.losses| == |sel.masks|
            && sel.masks[|sel.masks| - 1] == AllTrue(ref.width)
            && i < |sel.losses[|sel.losses| - 1]|
            && sel.best.value.loss[i] <= sel.losses[|sel.losses| - 1][i]
  {
    SelectBestShape(ref, loss, data, k);
    MasksEndWithAllTrue(ref.width);
    var b := BestIsFirstMinimum(ref, loss, data, k, i);
  }

  /** A subset-selection sampler (`SubsetSelectionAlgorithm`, or `NunesAlgorithm` with the
      entropy loss). */
  class SubsetSelection {
    var table: Reference
    var loss: LossStrategy

    ghost predicate Valid()
      reads this
    {
      table.Valid()
    }

    constructor FromReference(ref: Reference, loss: LossStrategy)
      requires ref.Valid()
      ensures Valid() && table == ref && this.loss == loss
    {
      table := ref;
      this.loss := loss;
    }

    /** `SubsetSelectionAlgorithm(train_data, train_params, standardize=True)`: the base class,
        whose loss is not implemented. */
    static method New(trainData: NdArray, trainParams: NdArray, fit: Fitter,
                      standardize: bool := true)
      returns (r: Result<SubsetSelection>)
      ensures r.Err? ==> CheckReference(trainData, trainParams, standardize, fit) == Err(r.error)
      ensures r.Ok? ==> fresh(r.value) && r.value.Valid() && r.value.loss == Unimplemented &&
                        Ok(r.value.table) == CheckReference(trainData, trainParams, standardize, fit)
    {
      var ref := CheckReference(trainData, trainParams, standardize, fit);
      if ref.Err? {
        return Err(ref.error);
      }
      var s := new SubsetSelection.FromReference(ref.value, Unimplemented);
      return Ok(s);
    }

    /** `NunesAlgorithm(train_data, train_params, standardize=True)`: the loss is the entropy of
        each observation's candidate samples. */
    static method Nunes(trainData: NdArray, trainParams: NdArray, fit: Fitter,
                        estimate: seq<Row> -> real, standardize: bool := true)
      returns (r: Result<SubsetSelection>)
      ensures r.Err? ==> CheckReference(trainData, trainParams, standardize, fit) == Err(r.error)
      ensures r.Ok? ==> fresh(r.value) && r.value.Valid() && r.value.loss == Entropy(estimate) &&
                        Ok(r.value.table) == CheckReference(trainData, trainParams, standardize, fit)
    {
      var ref := CheckReference(trainData, trainParams, standardize, fit);
      if ref.Err? {
        return Err(ref.error);
      }
      var s := new SubsetSelection.FromReference(ref.value, Entropy(estimate));
      return Ok(s);
    }

    /** `get_compressor`: subset selection has no compressor of its own; the chosen subsets are
        reported by `Sample` instead. */
    function GetCompressor(data: NdArray): (r: Result<Compressor>)
      ensures r.Err? && r.error == CompressorNotSupported
    {
      Err(CompressorNotSupported)
    }

    /** `sample`: the data are standardised, the masks enumerated and the data checked, then
        the masks are walked by `Search`. */
    method Sample(data: NdArray, k: int) returns (r: Result<Selection>)
      requires Valid()
      ensures r == SelectBest(table, loss, data, k)
    {
      var std := Standardize(table.scaler, data);
      if std.Err? {
        return Err(std.error);
      }
      var masks := Masks(table.width);
      MasksCount(table.width);
      if |masks| == 0 {
        return Ok(Selection(None, masks, []));
      }
      var q := std.value;
      if !q.Matrix? {
        return Err(QueryNotTwoDimensional);
      }
      if q.width != table.width {
        return Err(QueryWidthMismatch);
      }
      ghost var answers := ChildAnswers(table, q.rows, masks, k);
      forall t | 0 <= t < |masks|
        ensures answers[t] == ChildSample(table, q.rows, masks[t], k)
      {
        ChildAnswersAt(table, q.rows, masks, k, t);
      }
      r := Search(table, loss, q.rows, masks, k, answers);
    }

    /** The walk over the masks: the first mask's samples, mask and losses are taken as they
        are, and every later mask replaces them for exactly the observations whose loss it
        lowers strictly. */
    static method Search(ref: Reference, loss: LossStrategy, rows: seq<Row>, masks: seq<Mask>,
                         k: int, ghost answers: seq<Result<Neighbours>>)
      returns (r: Result<Selection>)
      requires ref.Valid() && Rectangular(rows, ref.width) && |masks| > 0
      requires forall t :: 0 <= t < |masks| ==> |masks[t]| == ref.width
      requires |answers| == |masks| && Answers(answers, |rows|)
      requires forall t {:trigger ChildSample(ref, rows, masks[t], k)} :: 0 <= t < |masks| ==>
                 answers[t] == ChildSample(ref, rows, masks[t], k)
      ensures r == Choose(masks, loss, answers, |rows|)
    {
      var m := |rows|;
      var bestSamples: array<seq<Row>> := new seq<Row>[0];
      var bestMask: array<Mask> := new Mask[0];
      var bestLoss: array<real> := new real[0];
      var losses: seq<seq<real>> := [];
      ghost var evaluated: seq<seq<seq<Row>>> := [];
      var t := 0;
      while t < |masks|
        invariant 0 <= t <= |masks|
        invariant Evaluate(loss, answers[..t], m) == Ok(Evaluations(evaluated, losses))
        invariant fresh(bestSamples) && fresh(bestMask) && fresh(bestLoss)
        invariant t > 0 ==> bestSamples.Length == m && bestMask.Length == m && bestLoss.Length == m
        invariant Evaluated(masks[..t], Evaluations(evaluated, losses), m)
        invariant t > 0 ==> Best(bestSamples[..], bestMask[..], bestLoss[..])
                            == Winners(masks[..t], Evaluations(evaluated, losses), m)
      {
        var a := Assess(ref, loss, rows, masks, k, t, answers, evaluated, losses);
        if a.Err? {
          return Err(a.error);
        }
        var (samples, lossVec) := a.value;
        bestSamples, bestMask, bestLoss :=
          Record(masks, t, evaluated, losses, samples, lossVec, m,
                 bestSamples, bestMask, bestLoss);
        losses, evaluated := losses + [lossVec], evaluated + [samples];
        t := t + 1;
      }
      assert masks[..t] == masks && answers[..t] == answers;
      return Ok(Selection(Some(Best(bestSamples[..], bestMask[..], bestLoss[..])), masks, losses));
    }

    /** Mask `t`'s step of the walk: its child's samples and their loss vector, or the error
        that ends the walk. */
    static method Assess(ref: Reference, loss: LossStrategy, rows: seq<Row>, masks: seq<Mask>,
                         k: int, t: nat, ghost answers: seq<Result<Neighbours>>,
                         ghost evaluated: seq<seq<seq<Row>>>, ghost losses: seq<seq<real>>)
      returns (r: Result<(seq<seq<Row>>, seq<real>)>)
      requires ref.Valid() && Rectangular(rows, ref.width) && t < |masks|
      requires forall t :: 0 <= t < |masks| ==> |masks[t]| == ref.width
      requires |answers| == |masks| && Answers(answers, |rows|)
      requires forall t {:trigger ChildSample(ref, rows, masks[t], k)} :: 0 <= t < |masks| ==>
                 answers[t] == ChildSample(ref, rows, masks[t], k)
      requires Evaluate(loss, answers[..t], |rows|) == Ok(Evaluations(evaluated, losses))
      requires Evaluated(masks[..t], Evaluations(evaluated, losses), |rows|)
      ensures r.Err? ==> Evaluate(loss, answers, |rows|) == Err(r.error)
      ensures r.Ok? ==>
                && Evaluate(loss, answers[..t + 1], |rows|)
                   == Ok(Evaluations(evaluated + [r.value.0], losses + [r.value.1]))
                && Evaluated(masks[..t + 1],
                             Evaluations(evaluated + [r.value.0], losses + [r.value.1]), |rows|)
    {
      var s := AskChild(ref, rows, masks, t, k, answers);
      if s.Err? {
        EvaluateStep(loss, answers, |rows|, t, Evaluations(evaluated, losses));
        return Err(s.error);
      }
      var lv := EvaluateLoss(loss, s.value.samples);
      if lv.Err? {
        EvaluateStep(loss, answers, |rows|, t, Evaluations(evaluated, losses));
        return Err(lv.error);
      }
      WalkStep(loss, answers, masks, |rows|, t, evaluated, losses);
      return Ok((s.value.samples, lv.value));
    }

    /** Folds mask `t` into the winners of the masks before it: the first mask's samples, mask
        and losses are taken as they are, and every later mask replaces them in place for the
        observations whose loss it lowers strictly. */
    static method Record(masks: seq<Mask>, t: nat, ghost evaluated: seq<seq<seq<Row>>>,
                         ghost losses: seq<seq<real>>, samples: seq<seq<Row>>, lossVec: seq<real>,
                         m: nat, bestSamples: array<seq<Row>>, bestMask: array<Mask>,
                         bestLoss: array<real>)
      returns (newSamples: array<seq<Row>>, newMask: array<Mask>, newLoss: array<real>)
      requires t < |masks|
      requires Evaluated(masks[..t + 1], Evaluations(evaluated + [samples], losses + [lossVec]), m)
      requires t > 0 ==> bestSamples.Length == m && bestMask.Length == m && bestLoss.Length == m
      requires t > 0 ==> Evaluated(masks[..t], Evaluations(evaluated, losses), m)
      requires t > 0 ==> Best(bestSamples[..], bestMask[..], bestLoss[..])
                         == Winners(masks[..t], Evaluations(evaluated, losses), m)
      modifies bestSamples, bestMask, bestLoss
      ensures t == 0 ==> fresh(newSamples) && fresh(newMask) && fresh(newLoss)
      ensures t > 0 ==> newSamples == bestSamples && newMask == bestMask && newLoss == bestLoss
      ensures newSamples.Length == m && newMask.Length == m && newLoss.Length == m
      ensures Best(newSamples[..], newMask[..], newLoss[..])
              == Winners(masks[..t + 1], Evaluations(evaluated + [samples], losses + [lossVec]), m)
    {
      if t == 0 {
        assert evaluated + [samples] == [samples] && losses + [lossVec] == [lossVec];
        WinnersStart(masks, samples, lossVec, m);
        newSamples, newMask, newLoss := FirstBest(samples, masks[t], lossVec);
      } else {
        WinnersAfter(masks, t, evaluated, losses, samples, lossVec, m);
        KeepStrictlyBetterInPlace(bestSamples, bestMask, bestLoss, samples, masks[t], lossVec);
        newSamples, newMask, newLoss := bestSamples, bestMask, bestLoss;
      }
    }

    /** The winners after the first mask: its samples, its mask and its losses, for every
        observation. */
    static method FirstBest(samples: seq<seq<Row>>, mask: Mask, lossVec: seq<real>)
      returns (bestSamples: array<seq<Row>>, bestMask: array<Mask>, bestLoss: array<real>)
      requires |samples| == |lossVec|
      ensures fresh(bestSamples) && fresh(bestMask) && fresh(bestLoss)
      ensures Best(bestSamples[..], bestMask[..], bestLoss[..])
              == Best(samples, seq(|lossVec|, _ => mask), lossVec)
    {
      var m := |lossVec|;
      bestLoss := new real[m](i requires 0 <= i < m => lossVec[i]);
      bestSamples := new seq<Row>[m](i requires 0 <= i < m => samples[i]);
      bestMask := new Mask[m](_ => mask);
      assert bestLoss[..] == lossVec && bestSamples[..] == samples;
      assert bestMask[..] == seq(m, _ => mask);
    }

    /** A child nearest-neighbour sampler on the masked training features, without
        standardisation, queried with the masked rows. */
    static method AskChild(ref: Reference, rows: seq<Row>, masks: seq<Mask>, t: nat, k: int,
                           ghost answers: seq<Result<Neighbours>>)
      returns (s: Result<Neighbours>)
      requires ref.Valid() && Rectangular(rows, ref.width) && t < |masks| && |answers| == |masks|
      requires forall t :: 0 <= t < |masks| ==> |masks[t]| == ref.width
      requires forall t {:trigger ChildSample(ref, rows, masks[t], k)} :: 0 <= t < |masks| ==>
                 answers[t] == ChildSample(ref, rows, masks[t], k)
      ensures s == answers[t]
    {
      var mask := masks[t];
      // The table `NearestNeighborSampler.New` builds with `standardize=False` from the masked
      // columns and the same parameters, by `ChildConstruction`.
      var child := new NearestNeighborSampler.FromReference(ChildReference(ref, mask));
      s := child.Sample(Matrix(SelectColumns(rows, mask), Count(mask)), k);
      assert s == ChildSample(ref, rows, mask, k);
    }

    /** The vectorised keep-best update on the arrays of winners. */
    static method KeepStrictlyBetterInPlace(bestSamples: array<seq<Row>>, bestMask: array<Mask>,
                                            bestLoss: array<real>, samples: seq<seq<Row>>,
                                            mask: Mask, lossVec: seq<real>)
      requires bestSamples.Length == bestLoss.Length && bestMask.Length == bestLoss.Length
      requires |samples| == bestLoss.Length && |lossVec| == bestLoss.Length
      modifies bestSamples, bestMask, bestLoss
      ensures Best(bestSamples[..], bestMask[..], bestLoss[..])
              == KeepStrictlyBetter(old(Best(bestSamples[..], bestMask[..], bestLoss[..])),
                                    samples, mask, lossVec)
    {
      var m := bestLoss.Length;
      forall i | 0 <= i < m && lossVec[i] < bestLoss[i] {
        bestSamples[i] := samples[i];
      }
      forall i | 0 <= i < m && lossVec[i] < bestLoss[i] {
        bestMask[i] := mask;
      }
      forall i | 0 <= i < m && lossVec[i] < bestLoss[i] {
        bestLoss[i] := lossVec[i];
      }
    }
  }
}
