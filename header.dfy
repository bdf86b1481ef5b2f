/** The sticky header's collapsed state (`isScrolled`), updated on every
    scroll event with a gap between the threshold that collapses it and the
    threshold that expands it, so that the height change caused by
    collapsing cannot flip it straight back. */
module Header {

  const EnterAbove: real := 120.0
  const LeaveBelow: real := 20.0

  /** The updater passed to `setIsScrolled` for one scroll position. */
  function NextScrolled(prev: bool, scrollY: real): (r: bool)
    ensures !prev ==> (r <==> scrollY > EnterAbove)
    ensures prev ==> (!r <==> scrollY < LeaveBelow)
    ensures LeaveBelow <= scrollY <= EnterAbove ==> r == prev
  {
    if !prev && scrollY > EnterAbove then true
    else if prev && scrollY < LeaveBelow then false
    else prev
  }

  /** The state after a sequence of scroll events, oldest first. */
  function AfterScrolls(prev: bool, ys: seq<real>): bool
    decreases |ys|
  {
    if ys == [] then prev else AfterScrolls(NextScrolled(prev, ys[0]), ys[1..])
  }

  /** Positions inside the dead band never change the state. */
  lemma {:induction false} BandKeepsState(prev: bool, ys: seq<real>)
    requires forall i :: 0 <= i < |ys| ==> LeaveBelow <= ys[i] <= EnterAbove
    ensures AfterScrolls(prev, ys) == prev
    decreases |ys|
  {
    if ys != [] {
      BandKeepsState(prev, ys[1..]);
    }
  }

  /** Once collapsed, the header stays collapsed through any positions that
      do not go below the lower threshold. */
  lemma {:induction false} StaysCollapsed(ys: seq<real>)
    requires forall i :: 0 <= i < |ys| ==> ys[i] >= LeaveBelow
    ensures AfterScrolls(true, ys)
    decreases |ys|
  {
    if ys != [] {
      StaysCollapsed(ys[1..]);
    }
  }

  /** Once expanded, the header stays expanded through any positions that
      do not go above the upper threshold. */
  lemma {:induction false} StaysExpanded(ys: seq<real>)
    requires forall i :: 0 <= i < |ys| ==> ys[i] <= EnterAbove
    ensures !AfterScrolls(false, ys)
    decreases |ys|
  {
    if ys != [] {
      StaysExpanded(ys[1..]);
    }
  }

  /** The same position reported twice acts as once. */
  lemma Idempotent(prev: bool, scrollY: real)
    ensures NextScrolled(NextScrolled(prev, scrollY), scrollY) == NextScrolled(prev, scrollY)
  {
  }
}
