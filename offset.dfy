/** The stacking offset of a toast: how far it sits from the anchor of its
    screen position, given the toasts drawn ahead of it. */
module Offset {
  import opened Types

  datatype OffsetOptions = OffsetOptions(gutter: int, reverseOrder: bool, defaultPosition: Position)

  function PositionOf(t: Toast, o: OffsetOptions): Position {
    t.position.GetOr(o.defaultPosition)
  }

  /** A toast takes room in the target's stack when it is visible and shares
      the target's effective position. */
  predicate Relevant(u: Toast, target: Toast, o: OffsetOptions) {
    u.visible && PositionOf(u, o) == PositionOf(target, o)
  }

  /** The room a toast takes: its measured height (none yet counts as 0) and
      one gutter. */
  function Weight(u: Toast, o: OffsetOptions): int {
    u.height.GetOr(0) + o.gutter
  }

  function Select(all: seq<Toast>, target: Toast, o: OffsetOptions): seq<Toast>
    decreases |all|
  {
    if all == [] then []
    else if Relevant(all[0], target, o) then [all[0]] + Select(all[1..], target, o)
    else Select(all[1..], target, o)
  }

  /** The toasts in the opposite order. */
  function Reverse(s: seq<Toast>): (r: seq<Toast>)
    ensures |r| == |s|
    ensures forall k :: 0 <= k < |s| ==> r[k] == s[|s| - 1 - k]
    decreases |s|
  {
    if s == [] then [] else [s[|s| - 1]] + Reverse(s[..|s| - 1])
  }

  /** The index of the first toast with `id`, or `|s|` when there is none. */
  function IndexOfId(s: seq<Toast>, id: string): (k: nat)
    ensures k <= |s|
    ensures forall j :: 0 <= j < k ==> s[j].id != id
    ensures k < |s| ==> s[k].id == id
    decreases |s|
  {
    if s == [] then 0 else if s[0].id == id then 0 else 1 + IndexOfId(s[1..], id)
  }

  function SumWeights(s: seq<Toast>, o: OffsetOptions): int
    decreases |s|
  {
    if s == [] then 0 else Weight(s[0], o) + SumWeights(s[1..], o)
  }

  /** `calculateOffset`: keep the relevant toasts, put them in display order,
      find the target by id and add up the room taken by those ahead of it;
      0 when the target is not among them. */
  function CalculateOffset(target: Toast, all: seq<Toast>, o: OffsetOptions): int {
    var relevant := Select(all, target, o);
    var ordered := if o.reverseOrder then Reverse(relevant) else relevant;
    var k := IndexOfId(ordered, target.id);
    if k < |ordered| then SumWeights(ordered[..k], o) else 0
  }

  // ------------------------------------------------------------ reference

  /** Independent one-pass formulation: walk the list in display order,
      accumulating the room of relevant toasts until the relevant target is
      met; None if it never is. */
  function ScanFront(all: seq<Toast>, target: Toast, o: OffsetOptions): Option<int>
    decreases |all|
  {
    if all == [] then None
    else if !Relevant(all[0], target, o) then ScanFront(all[1..], target, o)
    else if all[0].id == target.id then Some(0)
    else match ScanFront(all[1..], target, o)
      case Some(v) => Some(Weight(all[0], o) + v)
      case None => None
  }

  /** The same walk from the back of the list, for the reversed order. */
  function ScanBack(all: seq<Toast>, target: Toast, o: OffsetOptions): Option<int>
    decreases |all|
  {
    if all == [] then None
    else
      var last := all[|all| - 1];
      if !Relevant(last, target, o) then ScanBack(all[..|all| - 1], target, o)
      else if last.id == target.id then Some(0)
      else match ScanBack(all[..|all| - 1], target, o)
        case Some(v) => Some(Weight(last, o) + v)
        case None => None
  }

  /** The room ahead of `id` in an already ordered stack, None if absent. */
  function Ahead(s: seq<Toast>, id: string, o: OffsetOptions): Option<int>
    decreases |s|
  {
    if s == [] then None
    else if s[0].id == id then Some(0)
    else match Ahead(s[1..], id, o)
      case Some(v) => Some(Weight(s[0], o) + v)
      case None => None
  }

  lemma {:induction false} AheadIsPrefixSum(s: seq<Toast>, id: string, o: OffsetOptions)
    ensures Ahead(s, id, o) ==
      if IndexOfId(s, id) < |s| then Some(SumWeights(s[..IndexOfId(s, id)], o)) else None
    decreases |s|
  {
    if s != [] && s[0].id != id {
      AheadIsPrefixSum(s[1..], id, o);
      var k := IndexOfId(s[1..], id);
      assert s[..k + 1][1..] == s[1..][..k];
    }
  }

  lemma {:induction false} ScanFrontIsAhead(all: seq<Toast>, target: Toast, o: OffsetOptions)
    ensures ScanFront(all, target, o) == Ahead(Select(all, target, o), target.id, o)
    decreases |all|
  {
    if all != [] {
      ScanFrontIsAhead(all[1..], target, o);
    }
  }

  lemma {:induction false} SelectSnoc(init: seq<Toast>, x: Toast, target: Toast, o: OffsetOptions)
    ensures Select(init + [x], target, o) ==
      Select(init, target, o) + (if Relevant(x, target, o) then [x] else [])
    decreases |init|
  {
    if init != [] {
      assert (init + [x])[1..] == init[1..] + [x];
      SelectSnoc(init[1..], x, target, o);
    }
  }

  lemma ReverseSnoc(s: seq<Toast>, x: Toast)
    ensures Reverse(s + [x]) == [x] + Reverse(s)
  {
    assert (s + [x])[..|s|] == s;
  }

  lemma AheadCons(x: Toast, s: seq<Toast>, id: string, o: OffsetOptions)
    ensures Ahead([x] + s, id, o) ==
      if x.id == id then Some(0)
      else match Ahead(s, id, o)
        case Some(v) => Some(Weight(x, o) + v)
        case None => None
  {
    assert ([x] + s)[1..] == s;
  }

  lemma {:induction false} ScanBackIsAhead(all: seq<Toast>, target: Toast, o: OffsetOptions)
    ensures ScanBack(all, target, o) == Ahead(Reverse(Select(all, target, o)), target.id, o)
    decreases |all|
  {
    if all != [] {
      var init := all[..|all| - 1];
      var last := all[|all| - 1];
      assert all == init + [last];
      ScanBackIsAhead(init, target, o);
      SelectSnoc(init, last, target, o);
      var sel := Select(init, target, o);
      if Relevant(last, target, o) {
        ReverseSnoc(sel, last);
        AheadCons(last, Reverse(sel), target.id, o);
      } else {
        assert sel + [] == sel;
      }
    }
  }

  /** The offset agrees with the one-pass walk in display order, forward or
      reversed; a target not in its stack gets 0. */
  lemma OffsetMatchesScan(target: Toast, all: seq<Toast>, o: OffsetOptions)
    ensures CalculateOffset(target, all, o) ==
      (if o.reverseOrder then ScanBack(all, target, o) else ScanFront(all, target, o)).GetOr(0)
  {
    var relevant := Select(all, target, o);
    var ordered := if o.reverseOrder then Reverse(relevant) else relevant;
    AheadIsPrefixSum(ordered, target.id, o);
    if o.reverseOrder {
      ScanBackIsAhead(all, target, o);
    } else {
      ScanFrontIsAhead(all, target, o);
    }
  }

  // ------------------------------------------------------------ properties

  lemma {:induction false} SelectAppend(a: seq<Toast>, b: seq<Toast>, target: Toast, o: OffsetOptions)
    ensures Select(a + b, target, o) == Select(a, target, o) + Select(b, target, o)
    decreases |a|
  {
    if a != [] {
      assert (a + b)[0] == a[0];
      assert (a + b)[1..] == a[1..] + b;
      SelectAppend(a[1..], b, target, o);
      if Relevant(a[0], target, o) {
        assert [a[0]] + (Select(a[1..], target, o) + Select(b, target, o)) ==
               ([a[0]] + Select(a[1..], target, o)) + Select(b, target, o);
      }
    } else {
      assert a + b == b;
    }
  }

  /** Invisible toasts and toasts at another position do not affect anyone's
      offset, wherever they appear in the list. */
  lemma OffsetIgnoresIrrelevant(target: Toast, xs: seq<Toast>, u: Toast, ys: seq<Toast>, o: OffsetOptions)
    requires !Relevant(u, target, o)
    ensures CalculateOffset(target, xs + [u] + ys, o) == CalculateOffset(target, xs + ys, o)
  {
    SelectAppend(xs + [u], ys, target, o);
    SelectAppend(xs, [u], target, o);
    SelectAppend(xs, ys, target, o);
    assert [u][1..] == [];
    assert Select([u], target, o) == [];
    assert Select(xs, target, o) + [] == Select(xs, target, o);
  }

  /** The first toast of its stack sits at offset 0; the second sits one
      weight of the first further; reversing the order swaps their roles. */
  lemma FirstAndSecond(a: Toast, b: Toast, xs: seq<Toast>, o: OffsetOptions)
    requires Select(xs, a, o) == [a, b] && a.id != b.id
    requires PositionOf(a, o) == PositionOf(b, o)
    ensures !o.reverseOrder ==> CalculateOffset(a, xs, o) == 0
    ensures !o.reverseOrder ==> CalculateOffset(b, xs, o) == Weight(a, o)
    ensures o.reverseOrder ==> CalculateOffset(a, xs, o) == Weight(b, o)
    ensures o.reverseOrder ==> CalculateOffset(b, xs, o) == 0
  {
    assert Select(xs, b, o) == Select(xs, a, o) by {
      SelectSamePosition(xs, a, b, o);
    }
    assert [a, b][..1] == [a];
    assert Reverse([a, b]) == [b, a] by {
      assert [a, b][..1] == [a];
    }
    assert [b, a][..1] == [b];
    assert [b][1..] == [] && [a][1..] == [];
    assert SumWeights([b], o) == Weight(b, o);
    assert SumWeights([a], o) == Weight(a, o);
  }

  lemma {:induction false} SelectSamePosition(xs: seq<Toast>, a: Toast, b: Toast, o: OffsetOptions)
    requires PositionOf(a, o) == PositionOf(b, o)
    ensures Select(xs, a, o) == Select(xs, b, o)
    decreases |xs|
  {
    if xs != [] {
      SelectSamePosition(xs[1..], a, b, o);
    }
  }

  /** With non-negative heights and gutter the offset is never negative. */
  lemma OffsetNonNegative(target: Toast, all: seq<Toast>, o: OffsetOptions)
    requires o.gutter >= 0
    requires forall u :: u in all ==> u.height.GetOr(0) >= 0
    ensures CalculateOffset(target, all, o) >= 0
  {
    var relevant := Select(all, target, o);
    var ordered := if o.reverseOrder then Reverse(relevant) else relevant;
    SelectMembers(all, target, o);
    ReverseMembers(relevant);
    var k := IndexOfId(ordered, target.id);
    if k < |ordered| {
      assert forall u :: u in ordered[..k] ==> u in ordered;
      SumWeightsNonNegative(ordered[..k], o);
    }
  }

  lemma {:induction false} SelectMembers(all: seq<Toast>, target: Toast, o: OffsetOptions)
    ensures forall u :: u in Select(all, target, o) <==> u in all && Relevant(u, target, o)
    decreases |all|
  {
    if all != [] {
      SelectMembers(all[1..], target, o);
      assert all == [all[0]] + all[1..];
    }
  }

  lemma {:induction false} ReverseMembers(s: seq<Toast>)
    ensures forall u :: u in Reverse(s) <==> u in s
    decreases |s|
  {
    if s != [] {
      ReverseMembers(s[..|s| - 1]);
      assert s == s[..|s| - 1] + [s[|s| - 1]];
    }
  }

  lemma {:induction false} SumWeightsNonNegative(s: seq<Toast>, o: OffsetOptions)
    requires o.gutter >= 0
    requires forall u :: u in s ==> u.height.GetOr(0) >= 0
    ensures SumWeights(s, o) >= 0
    decreases |s|
  {
    if s != [] {
      assert s[0] in s;
      SumWeightsNonNegative(s[1..], o);
    }
  }

  /** The example stack: a and b visible at the top, c hidden at the top,
      d at the bottom; gutter 8. */
  lemma OffsetExample(base: Toast)
    ensures var a := base.(id := "a", height := Some(10), visible := true, position := Some(TopCenter));
      var b := base.(id := "b", height := Some(20), visible := true, position := Some(TopCenter));
      var c := base.(id := "c", height := Some(30), visible := false, position := Some(TopCenter));
      var d := base.(id := "d", height := Some(40), visible := true, position := Some(BottomCenter));
      CalculateOffset(a, [a, b, c, d], OffsetOptions(8, false, TopCenter)) == 0 &&
      CalculateOffset(b, [a, b, c, d], OffsetOptions(8, false, TopCenter)) == 18 &&
      CalculateOffset(a, [a, b, c, d], OffsetOptions(8, true, TopCenter)) == 28
  {
    var a := base.(id := "a", height := Some(10), visible := true, position := Some(TopCenter));
    var b := base.(id := "b", height := Some(20), visible := true, position := Some(TopCenter));
    var c := base.(id := "c", height := Some(30), visible := false, position := Some(TopCenter));
    var d := base.(id := "d", height := Some(40), visible := true, position := Some(BottomCenter));
    var all := [a, b, c, d];
    forall o: OffsetOptions | o.defaultPosition == TopCenter
      ensures Select(all, a, o) == [a, b]
    {
      assert all[1..] == [b, c, d];
      assert [b, c, d][1..] == [c, d];
      assert [c, d][1..] == [d];
      assert [d][1..] == [];
      assert Select([d], a, o) == [];
      assert Select([c, d], a, o) == [];
      assert Select([b, c, d], a, o) == [b];
    }
    FirstAndSecond(a, b, all, OffsetOptions(8, false, TopCenter));
    FirstAndSecond(a, b, all, OffsetOptions(8, true, TopCenter));
  }
}
