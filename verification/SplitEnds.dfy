/** scripts/check_merge_base_overlap.py: exactly when reading a capped range by halves ends. */
module SplitEnds {
  import opened Trees
  import opened CompareRange
  import opened CompareMerges
  import Order

  /** The base and the head of a range. */
  type Span = (nat, nat)

  ghost predicate IsFound(api: Endpoint, base: nat, head: nat)
  {
    exists depth :: Compare(api, base, head, depth).Found?
  }

  /** A range read for another: its lower half, and its upper half once the lower one has been found. */
  ghost predicate IsHalf(api: Endpoint, span: Span, half: Span)
  {
    var answer := api(span.0, span.1);
    && answer.capped && |answer.commits| >= 2
    && var boundary := Boundary(answer.commits);
      half == (span.0, boundary) || (half == (boundary, span.1) && IsFound(api, span.0, boundary))
  }

  /** Each range a half of the one before. */
  ghost predicate IsDescent(api: Endpoint, spans: seq<Span>)
  {
    |spans| > 0 && forall i :: 0 <= i < |spans| - 1 ==> IsHalf(api, spans[i], spans[i + 1])
  }

  ghost predicate Repeats(spans: seq<Span>)
  {
    exists i, j :: 0 <= i < j < |spans| && spans[i] == spans[j]
  }

  /** Some range read on the way is read again for one of its own halves. */
  ghost predicate Recurs(api: Endpoint, span: Span)
  {
    exists spans :: IsDescent(api, spans) && spans[0] == span && Repeats(spans)
  }

  // How deep a read goes.

  /** More depth changes nothing once there is enough. */
  lemma {:induction false} DeeperIsSame(api: Endpoint, base: nat, head: nat, depth: nat, more: nat)
    requires depth <= more && !Compare(api, base, head, depth).TooDeep?
    ensures Compare(api, base, head, more) == Compare(api, base, head, depth)
    decreases depth
  {
    var answer := api(base, head);
    if depth > 0 && answer.capped && |answer.commits| >= 2 {
      var boundary := Boundary(answer.commits);
      DeeperIsSame(api, base, boundary, depth - 1, more - 1);
      if Compare(api, base, boundary, depth - 1).Found? {
        DeeperIsSame(api, boundary, head, depth - 1, more - 1);
      }
    }
  }

  lemma FoundOrTooDeep(api: Endpoint, base: nat, head: nat, depth: nat)
    requires IsFound(api, base, head)
    ensures !Compare(api, base, head, depth).Refused?
  {
    var enough :| Compare(api, base, head, enough).Found?;
    if !Compare(api, base, head, depth).TooDeep? {
      if depth <= enough {
        DeeperIsSame(api, base, head, depth, enough);
      } else {
        DeeperIsSame(api, base, head, enough, depth);
      }
    }
  }

  lemma HalfIsDeep(api: Endpoint, span: Span, half: Span, depth: nat)
    requires IsHalf(api, span, half) && Compare(api, half.0, half.1, depth).TooDeep?
    ensures Compare(api, span.0, span.1, depth + 1).TooDeep?
  {
    var boundary := Boundary(api(span.0, span.1).commits);
    if half != (span.0, boundary) {
      FoundOrTooDeep(api, span.0, boundary, depth);
    }
  }

  lemma DeepHasHalf(api: Endpoint, span: Span, depth: nat) returns (half: Span)
    requires Compare(api, span.0, span.1, depth + 1).TooDeep?
    ensures IsHalf(api, span, half) && Compare(api, half.0, half.1, depth).TooDeep?
  {
    var boundary := Boundary(api(span.0, span.1).commits);
    if Compare(api, span.0, boundary, depth).TooDeep? {
      half := (span.0, boundary);
    } else {
      half := (boundary, span.1);
      assert Compare(api, span.0, boundary, depth).Found?;
    }
  }

  /** So many calls are too few if and only if there is a descent of one range more. */
  lemma {:induction false} DescentIsDeep(api: Endpoint, spans: seq<Span>)
    requires IsDescent(api, spans)
    ensures Compare(api, spans[0].0, spans[0].1, |spans| - 1).TooDeep?
  {
    hide IsHalf;
    if |spans| > 1 {
      DescentIsDeep(api, spans[1..]);
      assert IsHalf(api, spans[0], spans[1]);
      HalfIsDeep(api, spans[0], spans[1], |spans| - 2);
    }
  }

  lemma {:induction false} DeepHasDescent(api: Endpoint, span: Span, depth: nat) returns (spans: seq<Span>)
    requires Compare(api, span.0, span.1, depth).TooDeep?
    ensures IsDescent(api, spans) && spans[0] == span && |spans| == depth + 1
    decreases depth
  {
    hide IsHalf;
    if depth == 0 {
      spans := [span];
    } else {
      var half := DeepHasHalf(api, span, depth - 1);
      var rest := DeepHasDescent(api, half, depth - 1);
      spans := [span] + rest;
    }
  }

  // A descent longer than there are ranges repeats one.

  lemma PrefixRepeats(spans: seq<Span>, n: nat)
    requires n <= |spans| && Repeats(spans[..n])
    ensures Repeats(spans)
  {
    var i, j :| 0 <= i < j < n && spans[..n][i] == spans[..n][j];
    assert spans[i] == spans[j];
  }

  lemma {:induction false} DistinctAreFew(spans: seq<Span>, all: set<Span>)
    requires !Repeats(spans) && forall i :: 0 <= i < |spans| ==> spans[i] in all
    ensures |spans| <= |all|
  {
    if |spans| > 0 {
      var init, last := spans[..|spans| - 1], spans[|spans| - 1];
      forall i | 0 <= i < |init| ensures init[i] in all - {last} {
        assert init[i] == spans[i];
      }
      var n: nat := |init|;
      if Repeats(spans[..n]) {
        PrefixRepeats(spans, n);
      }
      DistinctAreFew(init, all - {last});
    }
  }

  ghost function Spans(h: History): set<Span>
  {
    set base, head | 0 <= base < |h.parents| && 0 <= head < |h.parents| :: (base, head)
  }

  lemma {:induction false} DescentStaysIn(h: History, api: Endpoint, spans: seq<Span>, i: nat)
    requires h.Valid() && Truthful(h, api) && IsDescent(api, spans) && i < |spans|
    requires h.Has(spans[0].0) && h.Has(spans[0].1)
    ensures h.Has(spans[i].0) && h.Has(spans[i].1)
  {
    hide Truthful;
    if i > 0 {
      DescentStaysIn(h, api, spans, i - 1);
      assert IsHalf(api, spans[i - 1], spans[i]);
      BoundaryIsInside(h, api, spans[i - 1].0, spans[i - 1].1);
    }
  }

  // A descent that repeats goes on for ever.

  /** A descent back to an earlier range, gone on with for ever so long. */
  lemma {:induction false} RepeatGoesOn(api: Endpoint, spans: seq<Span>, i: nat,
      length: nat) returns (longer: seq<Span>)
    requires IsDescent(api, spans) && i < |spans| - 1 && spans[i] == spans[|spans| - 1]
    ensures IsDescent(api, longer) && longer[0] == spans[0] && |longer| >= length
    decreases length - |spans|
  {
    hide IsHalf;
    if |spans| >= length {
      longer := spans;
    } else {
      var more := spans + spans[i + 1..];
      forall k | 0 <= k < |more| - 1 ensures IsHalf(api, more[k], more[k + 1]) {
        if k < |spans| - 1 {
          assert IsHalf(api, spans[k], spans[k + 1]);
        } else if k == |spans| - 1 {
          assert IsHalf(api, spans[i], spans[i + 1]);
        } else {
          var back := k - |spans| + i + 1;
          assert IsHalf(api, spans[back], spans[back + 1]);
        }
      }
      longer := RepeatGoesOn(api, more, i, length);
    }
  }

  lemma RecursIsDeep(api: Endpoint, span: Span, depth: nat)
    requires Recurs(api, span)
    ensures Compare(api, span.0, span.1, depth).TooDeep?
  {
    hide IsHalf;
    var spans :| IsDescent(api, spans) && spans[0] == span && Repeats(spans);
    var i, j :| 0 <= i < j < |spans| && spans[i] == spans[j];
    assert IsDescent(api, spans[..j + 1]);
    var longer := RepeatGoesOn(api, spans[..j + 1], i, depth + 1);
    var exact := longer[..depth + 1];
    assert IsDescent(api, exact) && exact[0] == span;
    DescentIsDeep(api, exact);
  }

  /** A read ends, at whatever depth, if and only if no range on its way is read again for one of its own halves. */
  lemma ReadEndsIff(h: History, api: Endpoint, base: nat, head: nat)
    requires h.Valid() && Truthful(h, api) && h.Has(base) && h.Has(head)
    ensures (exists depth :: !Compare(api, base, head, depth).TooDeep?) <==> !Recurs(api, (base, head))
  {
    hide Truthful, Compare, IsDescent, Repeats;
    if Recurs(api, (base, head)) {
      forall depth ensures Compare(api, base, head, depth).TooDeep? {
        RecursIsDeep(api, (base, head), depth);
      }
    } else {
      var depth: nat := |Spans(h)|;
      if Compare(api, base, head, depth).TooDeep? {
        NoDescentIsThatLong(h, api, (base, head), depth);
      }
      assert !Compare(api, base, head, depth).TooDeep?;
    }
  }

  lemma NoDescentIsThatLong(h: History, api: Endpoint, span: Span, depth: nat)
    requires h.Valid() && Truthful(h, api) && h.Has(span.0) && h.Has(span.1)
    requires Compare(api, span.0, span.1, depth).TooDeep? && depth >= |Spans(h)|
    ensures Recurs(api, span)
  {
    hide Truthful, Compare, IsDescent, Repeats;
    var spans := DeepHasDescent(api, span, depth);
    forall i | 0 <= i < |spans| ensures spans[i] in Spans(h) {
      DescentStaysIn(h, api, spans, i);
    }
    if !Repeats(spans) {
      DistinctAreFew(spans, Spans(h));
    }
  }
}
