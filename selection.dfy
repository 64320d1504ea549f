/**
 * What each `MatrixView` handler does to the view, as a function of the
 * view before it.  Loops of the source over item lists (`each`) are folds
 * over the walk, element by element.
 */
module Selection {
  import opened Base
  import opened Geometry
  import opened Keys
  import opened Views

  function Fire(v: View, e: Event): View { v.(events := v.events + [e]) }

  function Scroll(v: View, t: nat, d: Dir): View { v.(scrolls := v.scrolls + [ScrollRequest(t, d)]) }

  /** A freshly constructed view over n items: nothing selected, not dragging. */
  function Initial(n: nat): View { View(Cleared(n), [], false, 0, 0, [], []) }

  /** `deselectAll`. */
  function DeselectAll(v: View): View {
    Fire(v.(flags := Cleared(|v.flags|), sel := []), Deselected)
  }

  /** `select(el)` with neither shift nor meta. */
  function PlainSelect(v: View, el: nat): View
    requires el < |v.flags|
  {
    Fire(v.(flags := Only(|v.flags|, el), sel := [Some(el)]), Selected([Some(el)]))
  }

  /** `select(el)` with meta: toggle el. */
  function MetaSelect(v: View, el: nat): View
    requires el < |v.flags|
  {
    var w := if v.flags[el] then v.(flags := v.flags[el := false], sel := NullFirst(v.sel, el))
             else v.(flags := v.flags[el := true], sel := v.sel + [Some(el)]);
    Fire(w, Selected([Some(el)]))
  }

  /**
   * An `each` over `order` guarded by `done`: every element is flagged and
   * pushed until and including the first marked one; a marked element asks
   * to be scrolled into view in direction d, if one is given.
   */
  function Walked(v: View, order: seq<nat>, marks: seq<bool>, d: Option<Dir>): (r: View)
    requires |marks| == |order|
    requires forall k :: 0 <= k < |order| ==> order[k] < |v.flags|
    ensures |r.flags| == |v.flags|
    decreases |order|
  {
    if order == [] then v
    else
      var m := |order| - 1;
      var w := Walked(v, order[..m], marks[..m], d);
      var el := order[m];
      var w' := if true in marks[..m] then w else w.(flags := w.flags[el := true], sel := w.sel + [Some(el)]);
      if marks[m] && d.Some? then Scroll(w', el, d.value) else w'
  }

  /** `select(el)` with shift: extend from the first flagged item towards el. */
  function ShiftSelect(v: View, el: nat): View
    requires el < |v.flags|
  {
    match FirstTrue(v.flags)
    case None => PlainSelect(v, el)
    case Some(a) =>
      if a == el then v
      else
        var order := if a < el then After(a, |v.flags|) else Before(a);
        Fire(Walked(v, order, Matches(order, el), None), Selected([Some(el)]))
  }

  /** `select(el, event)`: shift wins over meta. */
  function Select(v: View, el: nat, shift: bool, meta: bool): View
    requires el < |v.flags|
  {
    if shift then ShiftSelect(v, el)
    else if meta then MetaSelect(v, el)
    else PlainSelect(v, el)
  }

  /** `open(el)`: deselect everything, flag el (without listing it) and fire `open`. */
  function Open(v: View, el: nat): View
    requires el < |v.flags|
  {
    var d := DeselectAll(v);
    Fire(d.(flags := d.flags[el := true]), Opened(el))
  }

  /** `destroy(selectedItems)`: only fires `delete`. */
  function Destroy(v: View): View {
    Fire(v, DeleteRequested(v.sel))
  }

  /** `selectAll`. */
  function SelectAll(v: View): View {
    var d := DeselectAll(v);
    var all := Somes(Range(0, |v.flags|));
    Fire(d.(flags := Filled(|v.flags|), sel := all), Selected(all))
  }

  /** `selectFirst`: the first list item, alone. */
  function SelectFirst(v: View): View
    requires |v.flags| > 0
  {
    Fire(Scroll(PlainSelect(DeselectAll(v), 0), 0, Down), Selected([Some(0)]))
  }

  /** `selectLast`: the last list item, alone. */
  function SelectLast(v: View): View
    requires |v.flags| > 0
  {
    var t := |v.flags| - 1;
    Fire(Scroll(PlainSelect(DeselectAll(v), t), t, Down), Selected([Some(t)]))
  }

  /** `moveLeft`. */
  function MoveLeft(v: View): View
    requires |v.flags| > 0
  {
    match FirstTrue(v.flags)
    case None => SelectFirst(v)
    case Some(e) => if e > 0 then Scroll(PlainSelect(v, e - 1), e - 1, Up) else SelectFirst(v)
  }

  /** `moveRight`, from the last flagged item. */
  function MoveRight(v: View): View
    requires |v.flags| > 0
  {
    match LastTrue(v.flags)
    case None => SelectFirst(v)
    case Some(e) => if e + 1 < |v.flags| then Scroll(PlainSelect(v, e + 1), e + 1, Down) else SelectLast(v)
  }

  /**
   * `moveRight` with its selector read literally as `li.selected:last-child`:
   * the only item that can match is the last one, and only when the
   * selection-area div is not the container's last child; that item has no
   * next sibling, so the handler either restarts at the first item or stays
   * on the last.
   */
  function MoveRightAsWritten(v: View, areaLast: bool): View
    requires |v.flags| > 0
  {
    match LastChildSelected(v.flags, areaLast)
    case None => SelectFirst(v)
    case Some(_) => SelectLast(v)
  }

  /** An `each` that plain-selects (and scrolls to) every walked item containing (x, y). */
  function SelectEach(v: View, order: seq<nat>, g: seq<Item>, x: int, y: int, d: Dir): (r: View)
    requires |g| == |v.flags|
    requires forall k :: 0 <= k < |order| ==> order[k] < |v.flags|
    ensures |r.flags| == |v.flags|
    decreases |order|
  {
    if order == [] then v
    else
      var m := |order| - 1;
      var w := SelectEach(v, order[..m], g, x, y, d);
      if Within(g[order[m]].box, x, y) then Scroll(PlainSelect(w, order[m]), order[m], d) else w
  }

  /** The point above an item: same left, one item height above its top. */
  function UpTarget(it: Item): (int, int) {
    (it.box.left, it.box.top - Height(it))
  }

  /**
   * The point below an item: same left, at floor(top + height + height / 2)
   * plus its bottom margin.  All terms but height / 2 are integers, and
   * Dafny's division by 2 rounds down, so this is the floor.
   */
  function DownTarget(it: Item): (int, int) {
    (it.box.left, it.box.top + Height(it) + Height(it) / 2 + it.marginBottom)
  }

  /** `moveUp`, from the first flagged item. */
  function MoveUp(v: View, g: seq<Item>): View
    requires |v.flags| > 0 && |g| == |v.flags|
  {
    match FirstTrue(v.flags)
    case None => SelectFirst(v)
    case Some(e) =>
      if e == 0 then SelectFirst(v)
      else
        var (x, y) := UpTarget(g[e]);
        SelectEach(v, Before(e), g, x, y, Up)
  }

  /** `moveDown`, from the last flagged item; with no hit it ends on the last item. */
  function MoveDown(v: View, g: seq<Item>): View
    requires |v.flags| > 0 && |g| == |v.flags|
  {
    match LastTrue(v.flags)
    case None => SelectFirst(v)
    case Some(e) =>
      var (x, y) := DownTarget(g[e]);
      var order := After(e, |v.flags|);
      var w := SelectEach(v, order, g, x, y, Down);
      if true in Hits(order, g, x, y) then w else SelectLast(w)
  }

  /** The source dereferences `getPrevious()` and `getNext()` of this item. */
  predicate CanExpandLeft(v: View) {
    FirstTrue(v.flags).Some? && FirstTrue(v.flags).value > 0
  }

  predicate CanExpandRight(v: View) {
    FirstTrue(v.flags).Some? && FirstTrue(v.flags).value + 1 < |v.flags|
  }

  /**
   * `expandSelectionLeft`: flag and push the item before the first flagged
   * one.  Without one the handler throws before changing anything.
   */
  function ExpandLeft(v: View): View {
    if !CanExpandLeft(v) then v
    else
      var e := FirstTrue(v.flags).value;
      Fire(Scroll(v.(flags := v.flags[e - 1 := true], sel := v.sel + [Some(e - 1)]), e, Up), Selected([Some(e)]))
  }

  /** `expandSelectionRight`: flag and push the item after the first flagged one. */
  function ExpandRight(v: View): View {
    if !CanExpandRight(v) then v
    else
      var e := FirstTrue(v.flags).value;
      Fire(Scroll(v.(flags := v.flags[e + 1 := true], sel := v.sel + [Some(e + 1)]), e, Down), Selected([Some(e)]))
  }

  /**
   * `expandSelectionUp`: walk back from the first flagged item, flagging and
   * pushing up to the first item holding the point above it.  With nothing
   * flagged the handler throws before changing anything.
   */
  function ExpandUp(v: View, g: seq<Item>): View
    requires |g| == |v.flags|
  {
    match FirstTrue(v.flags)
    case None => v
    case Some(e) =>
      var (x, y) := UpTarget(g[e]);
      var order := Before(e);
      Fire(Walked(v, order, Hits(order, g, x, y), Some(Up)), Selected([Some(e)]))
  }

  /** `expandSelectionDown`: walk on from the last flagged item towards the point below it. */
  function ExpandDown(v: View, g: seq<Item>): View
    requires |g| == |v.flags|
  {
    match LastTrue(v.flags)
    case None => v
    case Some(e) =>
      var (x, y) := DownTarget(g[e]);
      var order := After(e, |v.flags|);
      Fire(Walked(v, order, Hits(order, g, x, y), Some(Down)), Selected([Some(e)]))
  }

  /** One item of the drag sweep: a hit is pushed unless present, a miss loses its first slot. */
  function SweepStep(s: seq<Option<nat>>, i: nat, hit: bool): seq<Option<nat>> {
    if hit then (if Some(i) in s then s else s + [Some(i)])
    else NullFirst(s, i)
  }

  /** The drag sweep over items 0 .. |hits|-1 in document order. */
  function Sweep(s: seq<Option<nat>>, hits: seq<bool>): seq<Option<nat>>
    decreases |hits|
  {
    if hits == [] then s
    else
      var m := |hits| - 1;
      SweepStep(Sweep(s, hits[..m]), m, hits[m])
  }

  /** The first i steps of a sweep, indexed into the whole hit sequence. */
  function SweepTo(s: seq<Option<nat>>, hits: seq<bool>, i: nat): seq<Option<nat>>
    requires i <= |hits|
  {
    if i == 0 then s else SweepStep(SweepTo(s, hits, i - 1), i - 1, hits[i - 1])
  }

  /** Sweeping i items of a hit sequence is sweeping its first i items. */
  lemma {:induction false} SweepToIsSweep(s: seq<Option<nat>>, hits: seq<bool>, i: nat)
    requires i <= |hits|
    ensures SweepTo(s, hits, i) == Sweep(s, hits[..i])
  {
    if i > 0 {
      SweepToIsSweep(s, hits, i - 1);
      assert hits[..i][..i - 1] == hits[..i - 1];
    }
  }

  /** Whether a prefix holds a mark, one element at a time. */
  lemma MarkedExtend(marks: seq<bool>, k: nat)
    requires k < |marks|
    ensures (true in marks[..k + 1]) == ((true in marks[..k]) || marks[k])
  {
    assert marks[..k + 1] == marks[..k] + [marks[k]];
  }

  /**
   * The first k steps of a walk, indexed into the whole walk order: the
   * state of the `each` loop after k items.
   */
  function WalkTo(v: View, order: seq<nat>, marks: seq<bool>, d: Option<Dir>, k: nat): (r: View)
    requires |marks| == |order| && k <= |order|
    requires forall j :: 0 <= j < |order| ==> order[j] < |v.flags|
    ensures |r.flags| == |v.flags| && r.events == v.events
    ensures r.dragging == v.dragging && r.originX == v.originX && r.originY == v.originY
    decreases k
  {
    if k == 0 then v
    else
      var w := WalkTo(v, order, marks, d, k - 1);
      var el := order[k - 1];
      var w' := if true in marks[..k - 1] then w else w.(flags := w.flags[el := true], sel := w.sel + [Some(el)]);
      if marks[k - 1] && d.Some? then Scroll(w', el, d.value) else w'
  }

  /** Walking k items of an order is walking its first k items. */
  lemma {:induction false} WalkToIsWalked(v: View, order: seq<nat>, marks: seq<bool>, d: Option<Dir>, k: nat)
    requires |marks| == |order| && k <= |order|
    requires forall j :: 0 <= j < |order| ==> order[j] < |v.flags|
    ensures WalkTo(v, order, marks, d, k) == Walked(v, order[..k], marks[..k], d)
  {
    if k > 0 {
      WalkToIsWalked(v, order, marks, d, k - 1);
      assert order[..k][..k - 1] == order[..k - 1];
      assert marks[..k][..k - 1] == marks[..k - 1];
    }
  }

  /** One more element of a select-each walk. */
  lemma SelectEachExtend(v: View, order: seq<nat>, g: seq<Item>, x: int, y: int, d: Dir, k: nat)
    requires |g| == |v.flags| && k < |order|
    requires forall j :: 0 <= j < |order| ==> order[j] < |v.flags|
    ensures
      var w := SelectEach(v, order[..k], g, x, y, d);
      SelectEach(v, order[..k + 1], g, x, y, d)
        == if Within(g[order[k]].box, x, y) then Scroll(PlainSelect(w, order[k]), order[k], d) else w
  {
    assert order[..k + 1][..k] == order[..k];
  }

  /** One more item of the drag sweep. */
  lemma SweepExtend(s: seq<Option<nat>>, hits: seq<bool>, i: nat)
    requires i < |hits|
    ensures Sweep(s, hits[..i + 1]) == SweepStep(Sweep(s, hits[..i]), i, hits[i])
  {
    assert hits[..i + 1][..i] == hits[..i];
  }

  /** `mousedown` on an item (or on none): select, then start a drag at the pointer. */
  function MouseDown(v: View, target: Option<nat>, shift: bool, meta: bool, x: int, y: int): View
    requires target.Some? ==> target.value < |v.flags|
  {
    var w := match target
      case Some(el) => Select(v, el, shift, meta)
      case None => DeselectAll(v);
    w.(dragging := true, originX := x, originY := y)
  }

  /** `mouseup`: stop dragging and fire `select` with the whole sequence. */
  function MouseUp(v: View): View {
    Fire(v.(dragging := false), Selected(v.sel))
  }

  /** `mousemove` with the pointer at (x, y) and the container at (cx, cy). */
  function MouseMove(v: View, x: int, y: int, cx: int, cy: int, g: seq<Item>): View
    requires |g| == |v.flags|
  {
    if !v.dragging then v
    else
      var area := AreaBox(DragRect(v.originX, v.originY, x, y, cx, cy), cx, cy);
      var hits := CornerHits(g, area);
      v.(flags := hits, sel := Sweep(v.sel, hits))
  }

  /** `dblclick` on an item (or on none). */
  function Dblclick(v: View, target: Option<nat>): View
    requires target.Some? ==> target.value < |v.flags|
  {
    match target
    case None => v
    case Some(el) => Open(DeselectAll(v), el)
  }

  /**
   * `keypress`.  Enter with one hole as the whole selection runs
   * `deselectAll` inside `open(null)` and then throws.
   */
  function Keypress(v: View, ev: KeyEvent, g: seq<Item>): View
    requires |g| == |v.flags| && WellFormed(v)
    requires Dispatch(ev, |v.sel|).MoveCmd? ==> |v.flags| > 0
  {
    match Dispatch(ev, |v.sel|)
    case NoCommand => v
    case SelectAllCmd => SelectAll(v)
    case ExpandCmd(d) =>
      (match d
       case Left => ExpandLeft(v)
       case Right => ExpandRight(v)
       case Up => ExpandUp(v, g)
       case Down => ExpandDown(v, g))
    case MoveCmd(d) =>
      (match d
       case Left => MoveLeft(v)
       case Right => MoveRight(v)
       case Up => MoveUp(v, g)
       case Down => MoveDown(v, g))
    case OpenCmd =>
      (match v.sel[0]
       case Some(i) => Open(v, i)
       case None => DeselectAll(v))
    case DeleteCmd => Destroy(v)
    case Missing(_) => v
  }
}
