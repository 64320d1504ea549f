/**
 * The `MatrixView` class: the `selected` class of each list item as a flag
 * array, `selectedItems`, the drag fields, and logs of what it fires and
 * which scrolls it asks for.  Every handler is proved to move the view
 * exactly as its function in `Selection` says.
 */
module MatrixViews {
  import opened Base
  import opened Geometry
  import opened Keys
  import opened Views
  import Selection

  class MatrixView {
    const flags: array<bool>
    var selectedItems: seq<Option<nat>>
    var dragging: bool
    var originX: int
    var originY: int
    var events: seq<Event>
    var scrolls: seq<ScrollRequest>

    /** The view as a value. */
    ghost function Model(): View
      reads this, flags
    {
      View(flags[..], selectedItems, dragging, originX, originY, events, scrolls)
    }

    ghost predicate Valid()
      reads this, flags
    {
      WellFormed(Model())
    }

    /** `initialize`: a view over n list items, none selected. */
    constructor (n: nat)
      ensures Valid() && fresh(flags)
      ensures Model() == Selection.Initial(n)
    {
      flags := new bool[n](i => false);
      selectedItems := [];
      dragging := false;
      originX, originY := 0, 0;
      events, scrolls := [], [];
      new;
      assert flags[..] == Cleared(n);
    }

    /** `getElement('li.selected')`: the first flagged item. */
    method FirstSelected() returns (r: Option<nat>)
      ensures r == FirstTrue(flags[..])
    {
      var i := 0;
      while i < flags.Length && !flags[i]
        invariant 0 <= i <= flags.Length
        invariant forall j :: 0 <= j < i ==> !flags[j]
      {
        i := i + 1;
      }
      r := if i < flags.Length then Some(i) else None;
      ghost var f := FirstTrue(flags[..]);
      assert f.Some? ==> f.value >= i;
    }

    /** The last flagged item (what `li.selected:last-child` is meant to find). */
    method LastSelected() returns (r: Option<nat>)
      ensures r == LastTrue(flags[..])
    {
      var i := flags.Length;
      while i > 0 && !flags[i - 1]
        invariant 0 <= i <= flags.Length
        invariant forall j :: i <= j < flags.Length ==> !flags[j]
      {
        i := i - 1;
      }
      r := if i > 0 then Some(i - 1) else None;
      ghost var f := LastTrue(flags[..]);
      assert f.Some? ==> f.value < i;
    }

    /** `addClass('selected')` or `removeClass('selected')` on item i. */
    method SetFlag(i: nat, b: bool)
      requires i < flags.Length
      modifies flags
      ensures flags[..] == old(flags[..])[i := b]
    {
      flags[i] := b;
    }

    /** `getElements('li.selected').removeClass('selected')`. */
    method ClearFlags()
      modifies flags
      ensures flags[..] == Cleared(flags.Length)
    {
      var i := 0;
      while i < flags.Length
        invariant 0 <= i <= flags.Length
        invariant forall j :: 0 <= j < i ==> !flags[j]
      {
        if flags[i] {
          flags[i] := false;
        }
        i := i + 1;
      }
    }

    method DeselectAll()
      requires Valid()
      modifies this, flags
      ensures Valid() && Model() == Selection.DeselectAll(old(Model()))
    {
      ClearFlags();
      selectedItems := [];
      events := events + [Deselected];
    }

    /** `select(el)` without modifiers. */
    method SelectOnly(el: nat)
      requires Valid() && el < flags.Length
      modifies this, flags
      ensures Valid() && Model() == Selection.PlainSelect(old(Model()), el)
    {
      ClearFlags();
      selectedItems := [Some(el)];
      flags[el] := true;
      events := events + [Selected([Some(el)])];
      assert flags[..] == Only(flags.Length, el);
    }

    /** `select(el)` with meta. */
    method Toggle(el: nat)
      requires Valid() && el < flags.Length
      modifies this, flags
      ensures Valid() && Model() == Selection.MetaSelect(old(Model()), el)
    {
      if flags[el] {
        var k := IndexOf(selectedItems, el);
        if k != -1 {
          selectedItems := selectedItems[k := None];
        }
        flags[el] := false;
      } else {
        selectedItems := selectedItems + [Some(el)];
        flags[el] := true;
      }
      events := events + [Selected([Some(el)])];
    }

    /** The `each` with a `done` flag of shift-select and of vertical expansion. */
    method Walk(order: seq<nat>, marks: seq<bool>, d: Option<Dir>)
      requires Valid() && |marks| == |order|
      requires forall k :: 0 <= k < |order| ==> order[k] < flags.Length
      modifies this, flags
      ensures Valid() && Model() == Selection.Walked(old(Model()), order, marks, d)
    {
      ghost var v0 := Model();
      var sel, scr := selectedItems, scrolls;
      var done := false;
      var k := 0;
      while k < |order|
        modifies flags
        invariant 0 <= k <= |order|
        invariant done == (true in marks[..k])
        invariant flags[..] == Selection.WalkTo(v0, order, marks, d, k).flags
        invariant sel == Selection.WalkTo(v0, order, marks, d, k).sel
        invariant scr == Selection.WalkTo(v0, order, marks, d, k).scrolls
        invariant forall j :: 0 <= j < |sel| && sel[j].Some? ==> sel[j].value < flags.Length
      {
        var el := order[k];
        Selection.MarkedExtend(marks, k);
        if !done {
          SetFlag(el, true);
          sel := sel + [Some(el)];
        }
        if marks[k] {
          done := true;
          if d.Some? {
            scr := scr + [ScrollRequest(el, d.value)];
          }
        }
        k := k + 1;
      }
      Selection.WalkToIsWalked(v0, order, marks, d, k);
      assert order[..k] == order && marks[..k] == marks;
      selectedItems, scrolls := sel, scr;
    }

    /** `select(el)` with shift. */
    method SelectRange(el: nat)
      requires Valid() && el < flags.Length
      modifies this, flags
      ensures Valid() && Model() == Selection.ShiftSelect(old(Model()), el)
    {
      var first := FirstSelected();
      if first == Some(el) {
        return;
      }
      if first.None? {
        SelectOnly(el);
        return;
      }
      var a := first.value;
      var siblings := if a < el then After(a, flags.Length) else Before(a);
      Walk(siblings, Matches(siblings, el), None);
      events := events + [Selected([Some(el)])];
    }

    /** `select(el, event)`. */
    method Select(el: nat, shift: bool, meta: bool)
      requires Valid() && el < flags.Length
      modifies this, flags
      ensures Valid() && Model() == Selection.Select(old(Model()), el, shift, meta)
    {
      if shift {
        SelectRange(el);
      } else if meta {
        Toggle(el);
      } else {
        SelectOnly(el);
      }
    }

    method Open(el: nat)
      requires Valid() && el < flags.Length
      modifies this, flags
      ensures Valid() && Model() == Selection.Open(old(Model()), el)
    {
      DeselectAll();
      flags[el] := true;
      events := events + [Opened(el)];
    }

    method Destroy()
      requires Valid()
      modifies this
      ensures Valid() && Model() == Selection.Destroy(old(Model()))
    {
      events := events + [DeleteRequested(selectedItems)];
    }

    method SelectAll()
      requires Valid()
      modifies this, flags
      ensures Valid() && Model() == Selection.SelectAll(old(Model()))
    {
      DeselectAll();
      var sel: seq<Option<nat>> := [];
      var i := 0;
      while i < flags.Length
        modifies flags
        invariant 0 <= i <= flags.Length
        invariant forall j :: 0 <= j < i ==> flags[j]
        invariant forall j :: i <= j < flags.Length ==> !flags[j]
        invariant |sel| == i && forall j :: 0 <= j < i ==> sel[j] == Some(j)
      {
        SetFlag(i, true);
        sel := sel + [Some(i)];
        i := i + 1;
      }
      assert sel == Somes(Range(0, i));
      selectedItems := sel;
      events := events + [Selected(sel)];
      assert flags[..] == Filled(flags.Length);
    }

    method SelectFirst()
      requires Valid() && flags.Length > 0
      modifies this, flags
      ensures Valid() && Model() == Selection.SelectFirst(old(Model()))
    {
      DeselectAll();
      SelectOnly(0);
      scrolls := scrolls + [ScrollRequest(0, Down)];
      events := events + [Selected([Some(0)])];
    }

    method SelectLast()
      requires Valid() && flags.Length > 0
      modifies this, flags
      ensures Valid() && Model() == Selection.SelectLast(old(Model()))
    {
      var last := flags.Length - 1;
      DeselectAll();
      SelectOnly(last);
      scrolls := scrolls + [ScrollRequest(last, Down)];
      events := events + [Selected([Some(last)])];
    }

    method MoveLeft()
      requires Valid() && flags.Length > 0
      modifies this, flags
      ensures Valid() && Model() == Selection.MoveLeft(old(Model()))
    {
      var element := FirstSelected();
      if element.None? {
        SelectFirst();
        return;
      }
      var e := element.value;
      if e > 0 {
        SelectOnly(e - 1);
        scrolls := scrolls + [ScrollRequest(e - 1, Up)];
      } else {
        SelectFirst();
      }
    }

    method MoveRight()
      requires Valid() && flags.Length > 0
      modifies this, flags
      ensures Valid() && Model() == Selection.MoveRight(old(Model()))
    {
      var element := LastSelected();
      if element.None? {
        SelectFirst();
        return;
      }
      var e := element.value;
      if e + 1 < flags.Length {
        SelectOnly(e + 1);
        scrolls := scrolls + [ScrollRequest(e + 1, Down)];
      } else {
        SelectLast();
      }
    }

    /** The `each` of `moveUp`/`moveDown`: select every walked item holding (x, y). */
    method SelectEachWithin(order: seq<nat>, g: seq<Item>, x: int, y: int, d: Dir) returns (selected: bool)
      requires Valid() && |g| == flags.Length
      requires forall k :: 0 <= k < |order| ==> order[k] < flags.Length
      modifies this, flags
      ensures Valid() && Model() == Selection.SelectEach(old(Model()), order, g, x, y, d)
      ensures selected == (true in Hits(order, g, x, y))
    {
      ghost var v0 := Model();
      ghost var hits := Hits(order, g, x, y);
      selected := false;
      var k := 0;
      while k < |order|
        invariant 0 <= k <= |order|
        invariant Valid()
        invariant selected == (true in hits[..k])
        invariant Model() == Selection.SelectEach(v0, order[..k], g, x, y, d)
      {
        Selection.MarkedExtend(hits, k);
        var hit := SelectEachItem(v0, order, g, x, y, d, k);
        selected := selected || hit;
        k := k + 1;
      }
      assert order[..k] == order && hits[..k] == hits;
    }

    method MoveUp(g: seq<Item>)
      requires Valid() && flags.Length > 0 && |g| == flags.Length
      modifies this, flags
      ensures Valid() && Model() == Selection.MoveUp(old(Model()), g)
    {
      var element := FirstSelected();
      if element.None? {
        SelectFirst();
        return;
      }
      var e := element.value;
      var (x, y) := Selection.UpTarget(g[e]);
      var previous := Before(e);
      if |previous| == 0 {
        SelectFirst();
        return;
      }
      var _ := SelectEachWithin(previous, g, x, y, Up);
    }

    method MoveDown(g: seq<Item>)
      requires Valid() && flags.Length > 0 && |g| == flags.Length
      modifies this, flags
      ensures Valid() && Model() == Selection.MoveDown(old(Model()), g)
    {
      var element := LastSelected();
      if element.None? {
        SelectFirst();
        return;
      }
      var e := element.value;
      var (x, y) := Selection.DownTarget(g[e]);
      var next := After(e, flags.Length);
      var selected := SelectEachWithin(next, g, x, y, Down);
      if !selected {
        SelectLast();
      }
    }

    /** ok is false when the source throws (no item before the first flagged one). */
    method ExpandSelectionLeft() returns (ok: bool)
      requires Valid()
      modifies this, flags
      ensures Valid() && Model() == Selection.ExpandLeft(old(Model()))
      ensures ok == Selection.CanExpandLeft(old(Model()))
    {
      var element := FirstSelected();
      if element.None? || element.value == 0 {
        return false;
      }
      var e := element.value;
      flags[e - 1] := true;
      selectedItems := selectedItems + [Some(e - 1)];
      scrolls := scrolls + [ScrollRequest(e, Up)];
      events := events + [Selected([Some(e)])];
      ok := true;
    }

    /** ok is false when the source throws (no item after the first flagged one). */
    method ExpandSelectionRight() returns (ok: bool)
      requires Valid()
      modifies this, flags
      ensures Valid() && Model() == Selection.ExpandRight(old(Model()))
      ensures ok == Selection.CanExpandRight(old(Model()))
    {
      var element := FirstSelected();
      if element.None? || element.value + 1 >= flags.Length {
        return false;
      }
      var e := element.value;
      flags[e + 1] := true;
      selectedItems := selectedItems + [Some(e + 1)];
      scrolls := scrolls + [ScrollRequest(e, Down)];
      events := events + [Selected([Some(e)])];
      ok := true;
    }

    /** ok is false when the source throws (nothing flagged). */
    method ExpandSelectionUp(g: seq<Item>) returns (ok: bool)
      requires Valid() && |g| == flags.Length
      modifies this, flags
      ensures Valid() && Model() == Selection.ExpandUp(old(Model()), g)
      ensures ok == FirstTrue(old(flags[..])).Some?
    {
      var element := FirstSelected();
      if element.None? {
        return false;
      }
      var e := element.value;
      var (x, y) := Selection.UpTarget(g[e]);
      var previous := Before(e);
      Walk(previous, Hits(previous, g, x, y), Some(Up));
      events := events + [Selected([Some(e)])];
      ok := true;
    }

    /** ok is false when the source throws (nothing flagged). */
    method ExpandSelectionDown(g: seq<Item>) returns (ok: bool)
      requires Valid() && |g| == flags.Length
      modifies this, flags
      ensures Valid() && Model() == Selection.ExpandDown(old(Model()), g)
      ensures ok == LastTrue(old(flags[..])).Some?
    {
      var element := LastSelected();
      if element.None? {
        return false;
      }
      var e := element.value;
      var (x, y) := Selection.DownTarget(g[e]);
      var next := After(e, flags.Length);
      Walk(next, Hits(next, g, x, y), Some(Down));
      events := events + [Selected([Some(e)])];
      ok := true;
    }

    /** `mousedown` on `target` (the item `getAncestor('li')` found, if any) at (x, y). */
    method MouseDown(target: Option<nat>, shift: bool, meta: bool, x: int, y: int)
      requires Valid() && (target.Some? ==> target.value < flags.Length)
      modifies this, flags
      ensures Valid() && Model() == Selection.MouseDown(old(Model()), target, shift, meta, x, y)
    {
      if target.Some? {
        Select(target.value, shift, meta);
      } else {
        DeselectAll();
      }
      dragging := true;
      originX := x;
      originY := y;
    }

    method MouseUp()
      requires Valid()
      modifies this
      ensures Valid() && Model() == Selection.MouseUp(old(Model()))
    {
      dragging := false;
      events := events + [Selected(selectedItems)];
    }

    /** One round of `selectEachWithin`: select the item and scroll to it when it holds the point. */
    method SelectEachItem(ghost v0: View, order: seq<nat>, g: seq<Item>, x: int, y: int, d: Dir, k: nat)
      returns (hit: bool)
      requires Valid() && |g| == flags.Length && |v0.flags| == flags.Length && k < |order|
      requires forall j :: 0 <= j < |order| ==> order[j] < flags.Length
      requires Model() == Selection.SelectEach(v0, order[..k], g, x, y, d)
      modifies this, flags
      ensures Valid() && Model() == Selection.SelectEach(v0, order[..k + 1], g, x, y, d)
      ensures hit == Within(g[order[k]].box, x, y)
    {
      var el := order[k];
      Selection.SelectEachExtend(v0, order, g, x, y, d, k);
      hit := Within(g[el].box, x, y);
      if hit {
        SelectOnly(el);
        scrolls := scrolls + [ScrollRequest(el, d)];
      }
    }

    /** `mousemove` with the pointer at (x, y), the container at (cx, cy) and item layout g. */
    method MouseMove(x: int, y: int, cx: int, cy: int, g: seq<Item>)
      requires Valid() && |g| == flags.Length
      modifies this, flags
      ensures Valid() && Model() == Selection.MouseMove(old(Model()), x, y, cx, cy, g)
    {
      if !dragging {
        return;
      }
      var area := AreaBox(DragRect(originX, originY, x, y, cx, cy), cx, cy);
      var sel := SweepArea(area, g);
      selectedItems := sel;
    }

    /** The `each` of `mousemove`: which items the drag area hits by a corner, in document order. */
    method SweepArea(area: Box, g: seq<Item>) returns (sel: seq<Option<nat>>)
      requires |g| == flags.Length
      requires forall k :: 0 <= k < |selectedItems| && selectedItems[k].Some? ==> selectedItems[k].value < flags.Length
      modifies flags
      ensures flags[..] == CornerHits(g, area)
      ensures sel == Selection.Sweep(selectedItems, CornerHits(g, area))
      ensures forall k :: 0 <= k < |sel| && sel[k].Some? ==> sel[k].value < flags.Length
    {
      ghost var hits := CornerHits(g, area);
      ghost var f0 := flags[..];
      sel := selectedItems;
      var i := 0;
      while i < flags.Length
        invariant 0 <= i <= flags.Length
        invariant forall j :: 0 <= j < i ==> flags[j] == hits[j]
        invariant forall j :: i <= j < flags.Length ==> flags[j] == f0[j]
        invariant sel == Selection.SweepTo(selectedItems, hits, i)
        invariant forall k :: 0 <= k < |sel| && sel[k].Some? ==> sel[k].value < flags.Length
      {
        var hit := CornerHit(g[i].box, area);
        assert hit == hits[i];
        sel := SweepItem(sel, i, hit);
        i := i + 1;
      }
      Selection.SweepToIsSweep(selectedItems, hits, i);
      assert hits[..i] == hits;
      assert flags[..] == hits;
    }

    /**
     * The body of the `mousemove` loop for item i: a hit flags it and pushes
     * it unless listed; a miss nulls its first slot and unflags it.
     */
    method SweepItem(sel: seq<Option<nat>>, i: nat, hit: bool) returns (r: seq<Option<nat>>)
      requires i < flags.Length
      requires forall k :: 0 <= k < |sel| && sel[k].Some? ==> sel[k].value < flags.Length
      modifies flags
      ensures flags[..] == old(flags[..])[i := hit]
      ensures r == Selection.SweepStep(sel, i, hit)
      ensures forall k :: 0 <= k < |r| && r[k].Some? ==> r[k].value < flags.Length
    {
      r := sel;
      if hit {
        flags[i] := true;
        if IndexOf(r, i) == -1 {
          r := r + [Some(i)];
        }
      } else {
        var k := IndexOf(r, i);
        if k != -1 {
          r := r[k := None];
        }
        flags[i] := false;
      }
    }

    method Dblclick(target: Option<nat>)
      requires Valid() && (target.Some? ==> target.value < flags.Length)
      modifies this, flags
      ensures Valid() && Model() == Selection.Dblclick(old(Model()), target)
    {
      if target.None? {
        return;
      }
      DeselectAll();
      Open(target.value);
    }

    method Keypress(ev: KeyEvent, g: seq<Item>)
      requires Valid() && |g| == flags.Length
      requires Dispatch(ev, |selectedItems|).MoveCmd? ==> flags.Length > 0
      modifies this, flags
      ensures Valid() && Model() == Selection.Keypress(old(Model()), ev, g)
    {
      match Dispatch(ev, |selectedItems|)
      case NoCommand =>
      case SelectAllCmd => SelectAll();
      case ExpandCmd(d) =>
        match d {
          case Left => var _ := ExpandSelectionLeft();
          case Right => var _ := ExpandSelectionRight();
          case Up => var _ := ExpandSelectionUp(g);
          case Down => var _ := ExpandSelectionDown(g);
        }
      case MoveCmd(d) =>
        match d {
          case Left => MoveLeft();
          case Right => MoveRight();
          case Up => MoveUp(g);
          case Down => MoveDown(g);
        }
      case OpenCmd =>
        // `open(null)` runs `deselectAll` and then throws
        match selectedItems[0] {
          case Some(i) => Open(i);
          case None => DeselectAll();
        }
      case DeleteCmd => Destroy();
      case Missing(_) =>
    }
  }
}
