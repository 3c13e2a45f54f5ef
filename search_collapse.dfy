// updateSearchCollapse: on narrow screens the search bar collapses once the
// page is scrolled past 120px and expands again only above 60px; between
// the two thresholds it keeps its state.

module SearchCollapse {
  /** px scrolled to collapse. */
  const CollapseY: real := 120.0
  /** px to expand again. */
  const ExpandY: real := 60.0

  /** The `search-collapsed` class after one scroll or resize event. */
  function NextCollapsed(collapsed: bool, mobile: bool, scrollY: real): (r: bool)
    ensures !mobile ==> !r
    ensures mobile && scrollY > CollapseY ==> r
    ensures mobile && scrollY < ExpandY ==> !r
    ensures mobile && ExpandY <= scrollY <= CollapseY ==> r == collapsed
  {
    if !mobile then false
    else if scrollY > CollapseY then true
    else if scrollY < ExpandY then false
    else collapsed
  }

  /** Focusing the search input always expands it. */
  function OnFocus(collapsed: bool): (r: bool)
    ensures !r
  {
    false
  }

  /** The class after a run of scroll events on a narrow screen. */
  function AfterScrolls(collapsed: bool, ys: seq<real>): (r: bool)
    ensures |ys| > 0 && ys[|ys| - 1] > CollapseY ==> r
    ensures |ys| > 0 && ys[|ys| - 1] < ExpandY ==> !r
    decreases |ys|
  {
    if ys == [] then collapsed else AfterScrolls(NextCollapsed(collapsed, true, ys[0]), ys[1..])
  }

  /** Hysteresis: scrolling that stays within the 60px..120px band never
    changes the state, whatever it was. */
  lemma {:induction false} BandKeepsState(collapsed: bool, ys: seq<real>)
    requires forall i :: 0 <= i < |ys| ==> ExpandY <= ys[i] <= CollapseY
    ensures AfterScrolls(collapsed, ys) == collapsed
    decreases |ys|
  {
    if ys != [] {
      BandKeepsState(NextCollapsed(collapsed, true, ys[0]), ys[1..]);
    }
  }

  /** Once collapsed, the bar stays collapsed while the page stays at 60px
    or further down; and once expanded, it stays expanded while the page
    stays at 120px or above. */
  lemma {:induction false} NoFlicker(ys: seq<real>)
    ensures (forall i :: 0 <= i < |ys| ==> ys[i] >= ExpandY) ==> AfterScrolls(true, ys)
    ensures (forall i :: 0 <= i < |ys| ==> ys[i] <= CollapseY) ==> !AfterScrolls(false, ys)
    decreases |ys|
  {
    if ys != [] {
      NoFlicker(ys[1..]);
    }
  }

  /** The state after a run of scrolls depends only on the last scroll that
    left the band: scrolling past 120px and then anywhere within the band
    leaves it collapsed. */
  lemma LastExitDecides(collapsed: bool, y: real, ys: seq<real>)
    requires y > CollapseY
    requires forall i :: 0 <= i < |ys| ==> ExpandY <= ys[i] <= CollapseY
    ensures AfterScrolls(collapsed, [y] + ys)
  {
    assert ([y] + ys)[1..] == ys;
    BandKeepsState(true, ys);
  }
}
