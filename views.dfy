/**
 * The observable state of one matrix view, as a value.  Items are the list
 * entries, numbered 0 .. n-1 in document order.
 */
module Views {
  import opened Base
  import opened Geometry

  /** What the view fires: `select`, `deselect`, `open` and `delete`, with their arguments. */
  datatype Event =
    | Selected(args: seq<Option<nat>>)
    | Deselected
    | Opened(item: nat)
    | DeleteRequested(items: seq<Option<nat>>)

  /** An abstract `scrollIntoView(item, direction)` call. */
  datatype ScrollRequest = ScrollRequest(item: nat, dir: Dir)

  /**
   * flags[i] is item i's `selected` class; `sel` is `selectedItems`, whose
   * entries may be `null` holes and may repeat; then the drag fields and the
   * logs of fired events and requested scrolls.
   */
  datatype View = View(
    flags: seq<bool>,
    sel: seq<Option<nat>>,
    dragging: bool,
    originX: int,
    originY: int,
    events: seq<Event>,
    scrolls: seq<ScrollRequest>)

  /** Every entry of `selectedItems` that is not a hole names an item of the list. */
  predicate WellFormed(v: View) {
    forall k :: 0 <= k < |v.sel| && v.sel[k].Some? ==> v.sel[k].value < |v.flags|
  }

  /** No item occurs twice in `selectedItems` (holes may). */
  predicate NoDup(s: seq<Option<nat>>) {
    forall j, k :: 0 <= j < k < |s| && s[j].Some? ==> s[j] != s[k]
  }

  /** The two views agree: an item carries the flag exactly when it occurs in `selectedItems`. */
  predicate Agree(v: View) {
    forall i: nat :: i < |v.flags| ==> (v.flags[i] <==> Some(i) in v.sel)
  }

  /** The state in which the flags and `selectedItems` describe one and the same set. */
  predicate Consistent(v: View) {
    WellFormed(v) && Agree(v) && NoDup(v.sel)
  }

  /** Exactly item t is selected, in both views. */
  predicate SelectsOnly(v: View, t: nat) {
    v.sel == [Some(t)] && forall i :: 0 <= i < |v.flags| ==> (v.flags[i] <==> i == t)
  }

  function Cleared(n: nat): (f: seq<bool>)
    ensures |f| == n && forall i :: 0 <= i < n ==> !f[i]
  {
    seq(n, i => false)
  }

  function Filled(n: nat): (f: seq<bool>)
    ensures |f| == n && forall i :: 0 <= i < n ==> f[i]
  {
    seq(n, i => true)
  }

  function Only(n: nat, t: nat): (f: seq<bool>)
    ensures |f| == n && forall i :: 0 <= i < n ==> (f[i] <==> i == t)
  {
    seq(n, i => i == t)
  }

  /** The items lo, lo+1, ..., hi-1. */
  function Range(lo: nat, hi: nat): (r: seq<nat>)
    requires lo <= hi
    ensures |r| == hi - lo && forall k :: 0 <= k < |r| ==> r[k] == lo + k
  {
    seq(hi - lo, k requires 0 <= k < hi - lo => lo + k)
  }

  /** `getAllNext()` / `nextSiblings()` of item a: a+1, ..., n-1. */
  function After(a: nat, n: nat): (r: seq<nat>)
    requires a < n
    ensures |r| == n - a - 1 && forall k :: 0 <= k < |r| ==> r[k] == a + 1 + k
  {
    Range(a + 1, n)
  }

  /** `getAllPrevious()` / `previousSiblings()` of item a, nearest first: a-1, ..., 0. */
  function Before(a: nat): (r: seq<nat>)
    ensures |r| == a && forall k :: 0 <= k < |r| ==> r[k] == a - 1 - k
  {
    seq(a, k requires 0 <= k < a => a - 1 - k)
  }

  /** Items as entries of `selectedItems`. */
  function Somes(xs: seq<nat>): (r: seq<Option<nat>>)
    ensures |r| == |xs| && forall k :: 0 <= k < |r| ==> r[k] == Some(xs[k])
  {
    seq(|xs|, k requires 0 <= k < |xs| => Some(xs[k]))
  }

  /** f with every item of xs flagged as well. */
  function Flagged(f: seq<bool>, xs: seq<nat>): (r: seq<bool>)
    ensures |r| == |f| && forall i :: 0 <= i < |f| ==> (r[i] <==> f[i] || i in xs)
  {
    seq(|f|, i requires 0 <= i < |f| => f[i] || i in xs)
  }

  /** `Array.indexOf`: the first slot holding item x, or -1. */
  function IndexOf(s: seq<Option<nat>>, x: nat): (k: int)
    ensures -1 <= k < |s|
    ensures k == -1 <==> Some(x) !in s
    ensures 0 <= k ==> s[k] == Some(x) && forall j :: 0 <= j < k ==> s[j] != Some(x)
  {
    if s == [] then -1
    else if s[0] == Some(x) then 0
    else
      var k := IndexOf(s[1..], x);
      if k == -1 then -1 else k + 1
  }

  /**
   * `s[s.indexOf(x)] = null`: the first slot of x becomes a hole; when x is
   * absent the assignment goes to the array property "-1" and no slot changes.
   */
  function NullFirst(s: seq<Option<nat>>, x: nat): seq<Option<nat>> {
    var k := IndexOf(s, x);
    if k == -1 then s else s[k := None]
  }

  /** The first flagged item in document order (`getElement('li.selected')`). */
  function FirstTrue(f: seq<bool>): (r: Option<nat>)
    ensures r.None? ==> forall i :: 0 <= i < |f| ==> !f[i]
    ensures r.Some? ==> r.value < |f| && f[r.value] && forall i :: 0 <= i < r.value ==> !f[i]
  {
    if f == [] then None
    else if f[0] then Some(0)
    else match FirstTrue(f[1..])
      case None => None
      case Some(i) => Some(i + 1)
  }

  /** The last flagged item in document order. */
  function LastTrue(f: seq<bool>): (r: Option<nat>)
    ensures r.None? ==> forall i :: 0 <= i < |f| ==> !f[i]
    ensures r.Some? ==> r.value < |f| && f[r.value] && forall i :: r.value < i < |f| ==> !f[i]
  {
    if f == [] then None
    else if f[|f| - 1] then Some(|f| - 1)
    else LastTrue(f[..|f| - 1])
  }

  /**
   * The selector `li.selected:last-child` read literally: an item that is
   * flagged AND the last child of the container.  `areaLast` says whether
   * the selection-area div that `initialize` appends is that last child (it
   * is when the items are already in place); then no item can match.
   */
  function LastChildSelected(f: seq<bool>, areaLast: bool): (r: Option<nat>)
    ensures r.Some? <==> !areaLast && |f| > 0 && f[|f| - 1]
    ensures r.Some? ==> r.value == |f| - 1
  {
    if !areaLast && |f| > 0 && f[|f| - 1] then Some(|f| - 1) else None
  }

  /**
   * How many elements a walk with a `done` flag visits before it stops:
   * up to and including the first marked one, or all of them.
   */
  function Through(marks: seq<bool>): (t: nat)
    ensures t <= |marks|
    ensures (true in marks) ==> 0 < t && marks[t - 1] && true !in marks[..t - 1]
    ensures (true !in marks) ==> t == |marks|
  {
    if marks == [] then 0
    else
      var m := |marks| - 1;
      assert marks[..m] + [marks[m]] == marks;
      if true in marks[..m] then
        assert marks[..Through(marks[..m])] == marks[..m][..Through(marks[..m])];
        Through(marks[..m])
      else |marks|
  }

  /** Which items of a walk contain the point (x, y), in walk order. */
  function Hits(order: seq<nat>, g: seq<Item>, x: int, y: int): (h: seq<bool>)
    requires forall k :: 0 <= k < |order| ==> order[k] < |g|
    ensures |h| == |order| && forall k :: 0 <= k < |order| ==> (h[k] <==> Within(g[order[k]].box, x, y))
  {
    seq(|order|, k requires 0 <= k < |order| => Within(g[order[k]].box, x, y))
  }

  /** Which elements of a walk are the item el. */
  function Matches(order: seq<nat>, el: nat): (h: seq<bool>)
    ensures |h| == |order| && forall k :: 0 <= k < |order| ==> (h[k] <==> order[k] == el)
  {
    seq(|order|, k requires 0 <= k < |order| => order[k] == el)
  }

  /** Which items a drag area hits by a corner. */
  function CornerHits(g: seq<Item>, area: Box): (h: seq<bool>)
    ensures |h| == |g| && forall i :: 0 <= i < |g| ==> (h[i] <==> CornerHit(g[i].box, area))
  {
    seq(|g|, i requires 0 <= i < |g| => CornerHit(g[i].box, area))
  }
}
