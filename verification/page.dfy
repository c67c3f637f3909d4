/** The parsed page as the extraction rules see it. A selector's matches are
    an ordered sequence of nodes; each node either reads cleanly into the
    fields a rule asks of it, or throws while being read. Two loop shapes
    consume such sequences: `Keep`, the per-item loop that pushes the items a
    step accepts, and `ReadAll`, the loop without a `try` whose first
    throwing node aborts the whole route. */
module Page {
  import opened Wrappers

  /** One matched element: the values read from it, or the message of the
      error reading it raised. */
  datatype Node<+F> = Readable(fields: F) | Broken(reason: string)

  /** The loop `each(item => { if (step accepts) results.push(...) })`: the
      results of the accepted items, in document order. */
  function Keep<X, T>(xs: seq<X>, step: X -> Option<T>): (r: seq<T>)
    ensures |r| <= |xs|
  {
    if |xs| == 0 then []
    else
      var rest := Keep(xs[1..], step);
      match step(xs[0])
      case None => rest
      case Some(t) => [t] + rest
  }

  /** Result `k` is what `step` makes of item `idx[k]`. */
  ghost predicate Picks<X, T>(xs: seq<X>, step: X -> Option<T>, r: seq<T>, idx: seq<nat>) {
    && |idx| == |r|
    && forall k :: 0 <= k < |idx| ==> idx[k] < |xs| && step(xs[idx[k]]) == Some(r[k])
  }

  /** The indices ascend strictly. */
  ghost predicate Increasing(idx: seq<nat>) {
    forall k, l :: 0 <= k < l < |idx| ==> idx[k] < idx[l]
  }

  /** Every item from position `from` on that `step` accepts is indexed. */
  ghost predicate Covers<X, T>(xs: seq<X>, step: X -> Option<T>, idx: seq<nat>, from: nat) {
    forall i :: from <= i < |xs| && step(xs[i]).Some? ==> i in idx
  }

  /** `idx` picks out, in increasing order, exactly the items `step`
      accepts, and `r` holds their results in that order. */
  ghost predicate Selects<X, T>(xs: seq<X>, step: X -> Option<T>, r: seq<T>, idx: seq<nat>) {
    Picks(xs, step, r, idx) && Increasing(idx) && Covers(xs, step, idx, 0)
  }

  /** Every index moved up by one. */
  function Shift(idx: seq<nat>): (r: seq<nat>)
    ensures |r| == |idx| && forall k :: 0 <= k < |idx| ==> r[k] == idx[k] + 1
  {
    seq(|idx|, k requires 0 <= k < |idx| => idx[k] + 1)
  }

  /** Shifted indices pick out of `xs` what the indices picked out of its tail. */
  lemma ShiftPicks<X, T>(xs: seq<X>, step: X -> Option<T>, r: seq<T>, idx: seq<nat>)
    requires |xs| > 0 && Picks(xs[1..], step, r, idx)
    ensures Picks(xs, step, r, Shift(idx))
    ensures forall k :: 0 <= k < |idx| ==> 1 <= Shift(idx)[k]
  {
    forall k | 0 <= k < |idx| ensures step(xs[Shift(idx)[k]]) == Some(r[k]) {
      assert xs[Shift(idx)[k]] == xs[1..][idx[k]];
    }
  }

  /** Shifting keeps the order. */
  lemma ShiftIncreasing(idx: seq<nat>)
    requires Increasing(idx)
    ensures Increasing(Shift(idx))
  {
  }

  /** Shifted indices cover what the indices covered in the tail, one
      position further on. */
  lemma ShiftCovers<X, T>(xs: seq<X>, step: X -> Option<T>, idx: seq<nat>)
    requires |xs| > 0 && Covers(xs[1..], step, idx, 0)
    ensures Covers(xs, step, Shift(idx), 1)
  {
    var shifted := Shift(idx);
    forall i | 1 <= i < |xs| && step(xs[i]).Some? ensures i in shifted {
      assert xs[i] == xs[1..][i - 1];
      var k :| 0 <= k < |idx| && idx[k] == i - 1;
      assert shifted[k] == i;
    }
  }

  /** A first item that is accepted, put in front, keeps the picks. */
  lemma PrependPicks<X, T>(xs: seq<X>, step: X -> Option<T>, r: seq<T>, idx: seq<nat>)
    requires |xs| > 0 && step(xs[0]).Some? && Picks(xs, step, r, idx)
    ensures Picks(xs, step, [step(xs[0]).value] + r, [0] + idx)
  {
    var out := [step(xs[0]).value] + r;
    assert forall k :: 1 <= k < |idx| + 1 ==> ([0] + idx)[k] == idx[k - 1] && out[k] == r[k - 1];
  }

  /** Index 0 in front of indices that are all positive keeps the order. */
  lemma PrependIncreasing(idx: seq<nat>)
    requires Increasing(idx) && forall k :: 0 <= k < |idx| ==> 1 <= idx[k]
    ensures Increasing([0] + idx)
  {
    assert forall k :: 1 <= k < |idx| + 1 ==> ([0] + idx)[k] == idx[k - 1];
  }

  /** Covering from position 1 and then item 0 covers everything. */
  lemma PrependCovers<X, T>(xs: seq<X>, step: X -> Option<T>, idx: seq<nat>)
    requires Covers(xs, step, idx, 1)
    ensures Covers(xs, step, [0] + idx, 0)
  {
    assert ([0] + idx)[0] == 0;
  }

  /** Covering from position 1 covers everything when item 0 is rejected. */
  lemma SkipCovers<X, T>(xs: seq<X>, step: X -> Option<T>, idx: seq<nat>)
    requires |xs| > 0 && step(xs[0]).None? && Covers(xs, step, idx, 1)
    ensures Covers(xs, step, idx, 0)
  {
  }

  /** The output of `Keep` is the order-preserving subsequence of accepted
      items: the indices of the accepted items, ascending, select it. */
  lemma {:induction false} KeepSelects<X, T>(xs: seq<X>, step: X -> Option<T>) returns (idx: seq<nat>)
    ensures Selects(xs, step, Keep(xs, step), idx)
  {
    if |xs| == 0 {
      idx := [];
    } else {
      var r := Keep(xs[1..], step);
      var rest := KeepSelects(xs[1..], step);
      var shifted := Shift(rest);
      ShiftPicks(xs, step, r, rest);
      ShiftIncreasing(rest);
      ShiftCovers(xs, step, rest);
      if step(xs[0]).None? {
        SkipCovers(xs, step, shifted);
        idx := shifted;
      } else {
        PrependPicks(xs, step, r, shifted);
        PrependIncreasing(shifted);
        PrependCovers(xs, step, shifted);
        idx := [0] + shifted;
      }
    }
  }

  /** Every result comes from some item, and every accepted item's result
      is present. */
  lemma KeepSources<X, T>(xs: seq<X>, step: X -> Option<T>)
    ensures forall k :: 0 <= k < |Keep(xs, step)| ==>
              exists i :: 0 <= i < |xs| && step(xs[i]) == Some(Keep(xs, step)[k])
    ensures forall i :: 0 <= i < |xs| && step(xs[i]).Some? ==> step(xs[i]).value in Keep(xs, step)
  {
    var r := Keep(xs, step);
    var idx := KeepSelects(xs, step);
    forall k | 0 <= k < |r| ensures exists i :: 0 <= i < |xs| && step(xs[i]) == Some(r[k]) {
      assert step(xs[idx[k]]) == Some(r[k]);
    }
    forall i | 0 <= i < |xs| && step(xs[i]).Some? ensures step(xs[i]).value in r {
      var k :| 0 <= k < |idx| && idx[k] == i;
    }
  }

  /** `Keep` distributes over concatenation: how the items of one stretch
      of the document fare does not depend on the items around it. */
  lemma {:induction false} KeepAppend<X, T>(a: seq<X>, b: seq<X>, step: X -> Option<T>)
    ensures Keep(a + b, step) == Keep(a, step) + Keep(b, step)
  {
    if |a| == 0 {
      assert a + b == b;
    } else {
      assert (a + b)[1..] == a[1..] + b;
      KeepAppend(a[1..], b, step);
    }
  }

  /** An item the step rejects leaves the results of its neighbours exactly
      as they would be without it. */
  lemma KeepSkips<X, T>(a: seq<X>, x: X, b: seq<X>, step: X -> Option<T>)
    requires step(x).None?
    ensures Keep(a + [x] + b, step) == Keep(a, step) + Keep(b, step)
  {
    KeepAppend(a + [x], b, step);
    KeepAppend(a, [x], step);
  }

  /** An item the step accepts contributes its result, in place. */
  lemma KeepEmits<X, T>(a: seq<X>, x: X, b: seq<X>, step: X -> Option<T>)
    requires step(x).Some?
    ensures Keep(a + [x] + b, step) == Keep(a, step) + [step(x).value] + Keep(b, step)
  {
    assert [x][1..] == [];
    assert Keep([x], step) == [step(x).value];
    KeepAppend(a + [x], b, step);
    KeepAppend(a, [x], step);
  }

  /** When every item is accepted nothing is lost. */
  lemma {:induction false} KeepAll<X, T>(xs: seq<X>, step: X -> Option<T>)
    requires forall i :: 0 <= i < |xs| ==> step(xs[i]).Some?
    ensures |Keep(xs, step)| == |xs|
  {
    if |xs| > 0 {
      assert forall i :: 0 <= i < |xs[1..]| ==> xs[1..][i] == xs[i + 1];
      KeepAll(xs[1..], step);
    }
  }

  /** The loop with no `try` around its body: it yields every node's fields
      when all nodes read cleanly, and otherwise fails with the message of
      the first node that throws. */
  function ReadAll<F>(nodes: seq<Node<F>>): (r: Result<seq<F>, string>)
    ensures r.Success? <==> forall i :: 0 <= i < |nodes| ==> nodes[i].Readable?
    ensures r.Success? ==> |r.value| == |nodes|
                           && forall i :: 0 <= i < |nodes| ==> nodes[i] == Readable(r.value[i])
    ensures r.Failure? ==> exists i :: 0 <= i < |nodes| && nodes[i] == Broken(r.error)
                                       && forall j :: 0 <= j < i ==> nodes[j].Readable?
  {
    if |nodes| == 0 then Success([])
    else
      assert forall i :: 1 <= i < |nodes| ==> nodes[i] == nodes[1..][i - 1];
      match nodes[0]
      case Broken(why) => Failure(why)
      case Readable(f) =>
        match ReadAll(nodes[1..])
        case Failure(why) => Failure(why)
        case Success(fs) => Success([f] + fs)
  }
}
