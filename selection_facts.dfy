/**
 * Properties of the matrix view handlers: what each one selects, what it
 * never changes, and exactly when the `selected` flags and `selectedItems`
 * keep describing the same set.
 */
module SelectionFacts {
  import opened Base
  import opened Geometry
  import opened Keys
  import opened Views
  import opened Selection

  /** e is the first flagged item. */
  predicate IsFirstFlag(f: seq<bool>, e: nat) {
    e < |f| && f[e] && forall i :: 0 <= i < e ==> !f[i]
  }

  /** e is the last flagged item. */
  predicate IsLastFlag(f: seq<bool>, e: nat) {
    e < |f| && f[e] && forall i :: e < i < |f| ==> !f[i]
  }

  predicate NoneFlagged(f: seq<bool>) {
    forall i :: 0 <= i < |f| ==> !f[i]
  }

  lemma FirstFlagIsFirstTrue(f: seq<bool>, e: nat)
    requires IsFirstFlag(f, e)
    ensures FirstTrue(f) == Some(e)
  {
    assert f[e];
  }

  lemma LastFlagIsLastTrue(f: seq<bool>, e: nat)
    requires IsLastFlag(f, e)
    ensures LastTrue(f) == Some(e)
  {
    assert f[e];
  }

  /** A walk that stops at its element t visits exactly t + 1 elements. */
  lemma ThroughFirstMark(marks: seq<bool>, t: nat)
    requires t < |marks| && marks[t] && forall k :: 0 <= k < t ==> !marks[k]
    ensures Through(marks) == t + 1
  {
    assert marks[t] in marks;
    var u := Through(marks);
    assert forall j :: 0 <= j < u - 1 ==> marks[..u - 1][j] == marks[j];
  }

  lemma ThroughNoMark(marks: seq<bool>)
    requires forall k :: 0 <= k < |marks| ==> !marks[k]
    ensures Through(marks) == |marks|
  {
  }

  lemma FlaggedSnoc(f: seq<bool>, xs: seq<nat>, a: nat)
    requires a < |f|
    ensures Flagged(f, xs + [a]) == Flagged(f, xs)[a := true]
  {
  }

  /** A directed walk whose first mark is at k. */
  lemma WalkStopsAt(v: View, order: seq<nat>, marks: seq<bool>, d: Dir, k: nat)
    requires |marks| == |order| && k < |order| && marks[k]
    requires forall j :: 0 <= j < k ==> !marks[j]
    requires forall j :: 0 <= j < |order| ==> order[j] < |v.flags|
    ensures var r := Walked(v, order, marks, Some(d));
      && r.flags == Flagged(v.flags, order[..k + 1])
      && r.sel == v.sel + Somes(order[..k + 1])
      && r.events == v.events
      && |r.scrolls| > |v.scrolls| && r.scrolls[..|v.scrolls|] == v.scrolls
      && r.scrolls[|v.scrolls|] == ScrollRequest(order[k], d)
  {
    ThroughFirstMark(marks, k);
    WalkedClosedForm(v, order, marks, Some(d));
    WalkedScrolls(v, order, marks, d);
    RequestsFirst(order, marks, d, k);
  }

  /** A directed walk with no mark visits every element and asks for no scrolling. */
  lemma WalkRunsOut(v: View, order: seq<nat>, marks: seq<bool>, d: Dir)
    requires |marks| == |order|
    requires forall j :: 0 <= j < |marks| ==> !marks[j]
    requires forall j :: 0 <= j < |order| ==> order[j] < |v.flags|
    ensures var r := Walked(v, order, marks, Some(d));
      && r.flags == Flagged(v.flags, order)
      && r.sel == v.sel + Somes(order)
      && r.events == v.events
      && r.scrolls == v.scrolls
  {
    ThroughNoMark(marks);
    WalkedClosedForm(v, order, marks, Some(d));
    assert order[..|order|] == order;
    WalkedScrolls(v, order, marks, d);
    RequestsNone(order, marks, d);
  }

  /** A walk changes nothing but the flags, the sequence and (given a direction) the scroll log. */
  lemma {:induction false} WalkedFrame(v: View, order: seq<nat>, marks: seq<bool>, d: Option<Dir>)
    requires |marks| == |order|
    requires forall k :: 0 <= k < |order| ==> order[k] < |v.flags|
    ensures var r := Walked(v, order, marks, d);
      r.dragging == v.dragging && r.originX == v.originX && r.originY == v.originY && r.events == v.events
    ensures d.None? ==> Walked(v, order, marks, d).scrolls == v.scrolls
    decreases |order|
  {
    if order != [] {
      WalkedFrame(v, order[..|order| - 1], marks[..|order| - 1], d);
    }
  }

  /** Through on a non-empty walk, one element at a time. */
  lemma ThroughLast(marks: seq<bool>)
    requires |marks| > 0
    ensures var m := |marks| - 1;
      Through(marks) == if true in marks[..m] then Through(marks[..m]) else |marks|
  {
  }

  /** One step of a walk on `selectedItems`. */
  lemma WalkedSelStep(v: View, order: seq<nat>, marks: seq<bool>, d: Option<Dir>)
    requires |marks| == |order| > 0
    requires forall k :: 0 <= k < |order| ==> order[k] < |v.flags|
    ensures var m := |order| - 1;
      Walked(v, order, marks, d).sel ==
        if true in marks[..m] then Walked(v, order[..m], marks[..m], d).sel
        else Walked(v, order[..m], marks[..m], d).sel + [Some(order[m])]
  {
  }

  /** A walk appends exactly the elements up to and including the first marked one. */
  lemma {:induction false} WalkedSel(v: View, order: seq<nat>, marks: seq<bool>, d: Option<Dir>)
    requires |marks| == |order|
    requires forall k :: 0 <= k < |order| ==> order[k] < |v.flags|
    ensures Walked(v, order, marks, d).sel == v.sel + Somes(order[..Through(marks)])
    decreases |order|
  {
    if order != [] {
      var m := |order| - 1;
      WalkedSel(v, order[..m], marks[..m], d);
      WalkedSelStep(v, order, marks, d);
      ThroughLast(marks);
      var t := Through(marks[..m]);
      if true in marks[..m] {
        assert order[..m][..t] == order[..t];
      } else {
        assert t == m;
        assert order[..m][..t] + [order[m]] == order[..|marks|];
        assert Somes(order[..m][..t]) + [Some(order[m])] == Somes(order[..|marks|]);
      }
    }
  }

  /** One step of a walk on the flags. */
  lemma WalkedFlagsStep(v: View, order: seq<nat>, marks: seq<bool>, d: Option<Dir>)
    requires |marks| == |order| > 0
    requires forall k :: 0 <= k < |order| ==> order[k] < |v.flags|
    ensures var m := |order| - 1;
      Walked(v, order, marks, d).flags ==
        if true in marks[..m] then Walked(v, order[..m], marks[..m], d).flags
        else Walked(v, order[..m], marks[..m], d).flags[order[m] := true]
  {
  }

  /** A walk flags exactly the elements up to and including the first marked one. */
  lemma {:induction false} WalkedFlags(v: View, order: seq<nat>, marks: seq<bool>, d: Option<Dir>)
    requires |marks| == |order|
    requires forall k :: 0 <= k < |order| ==> order[k] < |v.flags|
    ensures Walked(v, order, marks, d).flags == Flagged(v.flags, order[..Through(marks)])
    decreases |order|
  {
    if order != [] {
      var m := |order| - 1;
      WalkedFlags(v, order[..m], marks[..m], d);
      WalkedFlagsStep(v, order, marks, d);
      ThroughLast(marks);
      var t := Through(marks[..m]);
      if true in marks[..m] {
        assert order[..m][..t] == order[..t];
      } else {
        assert t == m;
        assert order[..m][..t] + [order[m]] == order[..|marks|];
        FlaggedSnoc(v.flags, order[..m][..t], order[m]);
      }
    }
  }

  /** The scroll requests a walk makes: one for every marked element, before or after the stop. */
  function Requests(order: seq<nat>, marks: seq<bool>, d: Dir): (q: seq<ScrollRequest>)
    requires |marks| == |order|
    ensures |q| <= |order|
    decreases |order|
  {
    if order == [] then []
    else
      var m := |order| - 1;
      Requests(order[..m], marks[..m], d) + (if marks[m] then [ScrollRequest(order[m], d)] else [])
  }

  /** A walk with a direction logs exactly its requests. */
  lemma {:induction false} WalkedScrolls(v: View, order: seq<nat>, marks: seq<bool>, d: Dir)
    requires |marks| == |order|
    requires forall k :: 0 <= k < |order| ==> order[k] < |v.flags|
    ensures Walked(v, order, marks, Some(d)).scrolls == v.scrolls + Requests(order, marks, d)
    decreases |order|
  {
    if order != [] {
      var m := |order| - 1;
      WalkedScrolls(v, order[..m], marks[..m], d);
    }
  }

  /** The first request of a walk is for its first marked element. */
  lemma {:induction false} RequestsFirst(order: seq<nat>, marks: seq<bool>, d: Dir, k: nat)
    requires |marks| == |order| && k < |order| && marks[k]
    requires forall j :: 0 <= j < k ==> !marks[j]
    ensures var q := Requests(order, marks, d); |q| > 0 && q[0] == ScrollRequest(order[k], d)
    decreases |order|
  {
    var m := |order| - 1;
    if k < m {
      RequestsFirst(order[..m], marks[..m], d, k);
    } else {
      RequestsNone(order[..m], marks[..m], d);
    }
  }

  /** A walk with no marked element asks for no scrolling. */
  lemma {:induction false} RequestsNone(order: seq<nat>, marks: seq<bool>, d: Dir)
    requires |marks| == |order|
    requires forall j :: 0 <= j < |marks| ==> !marks[j]
    ensures Requests(order, marks, d) == []
    decreases |order|
  {
    if order != [] {
      RequestsNone(order[..|order| - 1], marks[..|order| - 1], d);
    }
  }

  lemma WalkedClosedForm(v: View, order: seq<nat>, marks: seq<bool>, d: Option<Dir>)
    requires |marks| == |order|
    requires forall k :: 0 <= k < |order| ==> order[k] < |v.flags|
    ensures var r := Walked(v, order, marks, d);
      && r.flags == Flagged(v.flags, order[..Through(marks)])
      && r.sel == v.sel + Somes(order[..Through(marks)])
      && r.dragging == v.dragging && r.originX == v.originX && r.originY == v.originY
      && r.events == v.events
      && (d.None? ==> r.scrolls == v.scrolls)
  {
    WalkedFrame(v, order, marks, d);
    WalkedSel(v, order, marks, d);
    WalkedFlags(v, order, marks, d);
  }

  /** Flagging a range of consecutive items. */
  lemma FlaggedRange(f: seq<bool>, lo: nat, hi: nat)
    requires lo <= hi
    ensures forall i :: 0 <= i < |f| ==> (Flagged(f, Range(lo, hi))[i] <==> f[i] || lo <= i < hi)
  {
    var r := Range(lo, hi);
    forall i | 0 <= i < |f| && lo <= i < hi ensures i in r {
      assert r[i - lo] == i;
    }
  }

  /** Flagging a backward run a-1, ..., lo of items. */
  lemma FlaggedBackward(f: seq<bool>, a: nat, lo: nat)
    requires lo <= a
    ensures forall i :: 0 <= i < |f| ==> (Flagged(f, Before(a)[..a - lo])[i] <==> f[i] || lo <= i < a)
  {
    var r := Before(a)[..a - lo];
    forall i | 0 <= i < |f| && lo <= i < a ensures i in r {
      assert r[a - 1 - i] == i;
    }
  }

  /** With a single item selected, every flag and entry names that item. */
  lemma PlainSelectReplaces(v: View, el: nat)
    requires el < |v.flags|
    ensures SelectsOnly(PlainSelect(v, el), el) && Consistent(PlainSelect(v, el))
    ensures PlainSelect(v, el).events == v.events + [Selected([Some(el)])]
    ensures PlainSelect(v, el).scrolls == v.scrolls && PlainSelect(v, el).dragging == v.dragging
  {
  }

  /** Meta-select of an unflagged item appends it and flags it; nothing else moves. */
  lemma MetaSelectAdds(v: View, el: nat)
    requires el < |v.flags| && !v.flags[el]
    ensures MetaSelect(v, el).sel == v.sel + [Some(el)]
    ensures MetaSelect(v, el).flags == v.flags[el := true]
    ensures MetaSelect(v, el).events == v.events + [Selected([Some(el)])]
  {
  }

  /**
   * Meta-select of a flagged item clears its flag and turns its first slot
   * into a hole; the length and every other entry stay.
   */
  lemma MetaSelectRemoves(v: View, el: nat)
    requires el < |v.flags| && v.flags[el]
    ensures MetaSelect(v, el).flags == v.flags[el := false]
    ensures |MetaSelect(v, el).sel| == |v.sel|
    ensures forall k :: 0 <= k < |v.sel| ==>
              MetaSelect(v, el).sel[k] == if k == IndexOf(v.sel, el) then None else v.sel[k]
    ensures MetaSelect(v, el).events == v.events + [Selected([Some(el)])]
  {
  }

  /** Removing the first slot of an item listed at most once removes it entirely. */
  lemma NullFirstNoDup(s: seq<Option<nat>>, x: nat)
    requires NoDup(s)
    ensures NoDup(NullFirst(s, x)) && Some(x) !in NullFirst(s, x)
    ensures forall y: nat :: y != x ==> (Some(y) in NullFirst(s, x) <==> Some(y) in s)
  {
    var k := IndexOf(s, x);
    if k != -1 {
      var r := s[k := None];
      forall j | 0 <= j < |r| ensures r[j] != Some(x) {
        if j < k {
          assert r[j] == s[j];
        } else if j > k {
          assert s[k] != s[j];
        }
      }
      forall y: nat | y != x && Some(y) in s ensures Some(y) in r {
        var j :| 0 <= j < |s| && s[j] == Some(y);
        assert r[j] == Some(y);
      }
    }
  }

  /** Meta-select keeps the two views in agreement, with no item listed twice. */
  lemma MetaSelectKeepsConsistent(v: View, el: nat)
    requires el < |v.flags| && Consistent(v)
    ensures Consistent(MetaSelect(v, el))
  {
    var r := MetaSelect(v, el);
    if v.flags[el] {
      NullFirstNoDup(v.sel, el);
      forall k | 0 <= k < |r.sel| && r.sel[k].Some? ensures r.sel[k].value < |r.flags| {
        assert r.sel[k] == v.sel[k];
      }
    } else {
      assert Some(el) !in v.sel;
      assert forall j :: 0 <= j < |v.sel| ==> v.sel[j] != Some(el);
    }
  }

  /**
   * Toggling twice restores every flag; `selectedItems` grows by one slot:
   * a hole where the appended entry was, or the item re-appended after the
   * hole left in its old slot.
   */
  lemma MetaSelectTwice(v: View, el: nat)
    requires el < |v.flags| && Consistent(v)
    ensures MetaSelect(MetaSelect(v, el), el).flags == v.flags
    ensures !v.flags[el] ==> MetaSelect(MetaSelect(v, el), el).sel == v.sel + [None]
    ensures v.flags[el] ==> MetaSelect(MetaSelect(v, el), el).sel == NullFirst(v.sel, el) + [Some(el)]
    ensures Consistent(MetaSelect(MetaSelect(v, el), el))
  {
    MetaSelectKeepsConsistent(v, el);
    MetaSelectKeepsConsistent(MetaSelect(v, el), el);
    if !v.flags[el] {
      assert Some(el) !in v.sel;
      assert IndexOf(v.sel + [Some(el)], el) == |v.sel| by {
        assert forall j :: 0 <= j < |v.sel| ==> v.sel[j] != Some(el);
      }
      assert (v.sel + [Some(el)])[|v.sel| := None] == v.sel + [None];
    } else {
      assert v.flags[el := false][el := true] == v.flags;
    }
  }

  /** Shift-select on the first flagged item itself changes nothing and fires nothing. */
  lemma ShiftSelectOnAnchor(v: View, el: nat)
    requires IsFirstFlag(v.flags, el)
    ensures ShiftSelect(v, el) == v
  {
    FirstFlagIsFirstTrue(v.flags, el);
  }

  /** Shift-select with nothing flagged is a plain select. */
  lemma ShiftSelectWithoutAnchor(v: View, el: nat)
    requires el < |v.flags| && NoneFlagged(v.flags)
    ensures ShiftSelect(v, el) == PlainSelect(v, el)
  {
  }

  /**
   * Shift-select after the first flagged item a flags and appends a+1, ...,
   * el in that order, keeps every earlier entry, and fires `select` with el.
   */
  lemma ShiftSelectForward(v: View, a: nat, el: nat)
    requires IsFirstFlag(v.flags, a) && a < el < |v.flags|
    ensures var r := ShiftSelect(v, el);
      && r.sel == v.sel + Somes(Range(a + 1, el + 1))
      && (forall i :: 0 <= i < |v.flags| ==> (r.flags[i] <==> v.flags[i] || a < i <= el))
      && r.events == v.events + [Selected([Some(el)])]
      && r.scrolls == v.scrolls
  {
    FirstFlagIsFirstTrue(v.flags, a);
    var order := After(a, |v.flags|);
    WalkToMatch(v, order, el, el - a - 1);
    AfterPrefix(a, |v.flags|, el);
    FlaggedForward(v.flags, a, el);
  }

  /** A shift-select walk stops at the first item equal to its target. */
  lemma WalkToMatch(v: View, order: seq<nat>, el: nat, t: nat)
    requires t < |order| && order[t] == el && forall k :: 0 <= k < t ==> order[k] != el
    requires forall k :: 0 <= k < |order| ==> order[k] < |v.flags|
    ensures var r := Walked(v, order, Matches(order, el), None);
      && r.flags == Flagged(v.flags, order[..t + 1])
      && r.sel == v.sel + Somes(order[..t + 1])
      && r.events == v.events && r.scrolls == v.scrolls
  {
    var marks := Matches(order, el);
    ThroughFirstMark(marks, t);
    WalkedClosedForm(v, order, marks, None);
  }

  /**
   * Shift-select before the first flagged item a flags and appends a-1, ...,
   * el in that order (nearest first), keeps every earlier entry, and fires
   * `select` with el.
   */
  lemma ShiftSelectBackward(v: View, a: nat, el: nat)
    requires IsFirstFlag(v.flags, a) && el < a
    ensures ShiftSelect(v, el).sel == v.sel + Somes(Before(a)[..a - el])
    ensures forall i :: 0 <= i < |v.flags| ==> (ShiftSelect(v, el).flags[i] <==> v.flags[i] || el <= i < a)
    ensures ShiftSelect(v, el).events == v.events + [Selected([Some(el)])]
    ensures ShiftSelect(v, el).scrolls == v.scrolls
  {
    FirstFlagIsFirstTrue(v.flags, a);
    var order := Before(a);
    var marks := Matches(order, el);
    ThroughFirstMark(marks, a - 1 - el);
    WalkedClosedForm(v, order, marks, None);
    FlaggedBackward(v.flags, a, el);
  }

  /**
   * From a single selected item a, shift-select b flags exactly the items
   * between a and b inclusive, whichever way round they are.
   */
  lemma ShiftFromSingle(v: View, a: nat, b: nat)
    requires a < |v.flags| && b < |v.flags|
    ensures forall i :: 0 <= i < |v.flags| ==>
              (ShiftSelect(PlainSelect(v, a), b).flags[i] <==> Min(a, b) <= i <= Max(a, b))
  {
    var w := PlainSelect(v, a);
    assert IsFirstFlag(w.flags, a);
    if a < b {
      ShiftSelectForward(w, a, b);
    } else if b < a {
      ShiftSelectBackward(w, a, b);
    } else {
      ShiftSelectOnAnchor(w, b);
    }
  }

  /** Items appended as entries are exactly the items of the list appended. */
  lemma SomesMember(xs: seq<nat>, i: nat)
    ensures Some(i) in Somes(xs) <==> i in xs
  {
    if i in xs {
      var k :| 0 <= k < |xs| && xs[k] == i;
      assert Somes(xs)[k] == Some(i);
    }
  }

  /** Flagging items and appending the same items keeps the two views in agreement. */
  lemma FlagAndAppendAgree(v: View, xs: seq<nat>)
    requires WellFormed(v) && Agree(v)
    requires forall k :: 0 <= k < |xs| ==> xs[k] < |v.flags|
    ensures var w := v.(flags := Flagged(v.flags, xs), sel := v.sel + Somes(xs));
      WellFormed(w) && Agree(w)
  {
    forall i: nat | i < |v.flags| {
      SomesMember(xs, i);
    }
  }

  /** Appending distinct items that were not listed adds no duplicate. */
  lemma AppendFreshNoDup(s: seq<Option<nat>>, xs: seq<nat>)
    requires NoDup(s)
    requires forall j, k :: 0 <= j < k < |xs| ==> xs[j] != xs[k]
    requires forall k :: 0 <= k < |xs| ==> Some(xs[k]) !in s
    ensures NoDup(s + Somes(xs))
  {
    var r := s + Somes(xs);
    forall j, k | 0 <= j < k < |r| && r[j].Some? ensures r[j] != r[k] {
      if k >= |s| {
        assert r[k] == Some(xs[k - |s|]);
        if j < |s| {
          assert s[j] in s;
        } else {
          assert r[j] == Some(xs[j - |s|]);
        }
      }
    }
  }

  /**
   * A walk over distinct items none of which is flagged keeps a consistent
   * view consistent.
   */
  lemma WalkFreshConsistent(v: View, order: seq<nat>, marks: seq<bool>, d: Option<Dir>)
    requires Consistent(v) && |marks| == |order|
    requires forall k :: 0 <= k < |order| ==> order[k] < |v.flags| && !v.flags[order[k]]
    requires forall j, k :: 0 <= j < k < |order| ==> order[j] != order[k]
    ensures Consistent(Walked(v, order, marks, d))
  {
    WalkedClosedForm(v, order, marks, d);
    var xs := order[..Through(marks)];
    FlagAndAppendAgree(v, xs);
    AppendFreshNoDup(v.sel, xs);
  }

  /** Shift-select keeps the two views in agreement. */
  lemma ShiftSelectKeepsAgree(v: View, el: nat)
    requires el < |v.flags| && WellFormed(v) && Agree(v)
    ensures WellFormed(ShiftSelect(v, el)) && Agree(ShiftSelect(v, el))
  {
    match FirstTrue(v.flags)
    case None =>
    case Some(a) =>
      if a != el {
        var order := if a < el then After(a, |v.flags|) else Before(a);
        var marks := Matches(order, el);
        WalkedClosedForm(v, order, marks, None);
        FlagAndAppendAgree(v, order[..Through(marks)]);
      }
  }

  /** Shift-select towards the top of the list also lists no item twice. */
  lemma ShiftSelectBackwardConsistent(v: View, a: nat, el: nat)
    requires Consistent(v) && IsFirstFlag(v.flags, a) && el < a
    ensures Consistent(ShiftSelect(v, el))
  {
    FirstFlagIsFirstTrue(v.flags, a);
    WalkFreshConsistent(v, Before(a), Matches(Before(a), el), None);
  }

  /**
   * Shift-select towards the end of the list can list an item twice: the
   * walk starts at the first flagged item and re-appends flagged ones.
   */
  lemma ShiftSelectForwardDuplicates()
    ensures var v := View([true, true, false], [Some(0), Some(1)], false, 0, 0, [], []);
      Consistent(v) && ShiftSelect(v, 2).sel == [Some(0), Some(1), Some(1), Some(2)]
      && !NoDup(ShiftSelect(v, 2).sel)
  {
    var v := View([true, true, false], [Some(0), Some(1)], false, 0, 0, [], []);
    assert IsFirstFlag(v.flags, 0);
    ShiftSelectForward(v, 0, 2);
    assert Somes(Range(1, 3)) == [Some(1), Some(2)];
    assert ShiftSelect(v, 2).sel[1] == ShiftSelect(v, 2).sel[2];
  }

  /** `deselectAll` empties both views and fires `deselect`. */
  lemma DeselectAllClears(v: View)
    ensures DeselectAll(v).sel == [] && NoneFlagged(DeselectAll(v).flags)
    ensures |DeselectAll(v).flags| == |v.flags|
    ensures DeselectAll(v).events == v.events + [Deselected]
    ensures Consistent(DeselectAll(v))
  {
  }

  /**
   * `selectAll` lists every item once in document order, flags every item,
   * and fires `deselect` and then `select` with that sequence.
   */
  lemma SelectAllSelectsEverything(v: View)
    ensures |SelectAll(v).sel| == |v.flags|
    ensures forall k :: 0 <= k < |v.flags| ==> SelectAll(v).sel[k] == Some(k)
    ensures forall i :: 0 <= i < |v.flags| ==> SelectAll(v).flags[i]
    ensures SelectAll(v).events == v.events + [Deselected, Selected(SelectAll(v).sel)]
    ensures Consistent(SelectAll(v))
  {
    var r := SelectAll(v);
    forall i: nat | i < |v.flags| ensures Some(i) in r.sel {
      assert r.sel[i] == Some(i);
    }
  }

  /**
   * `open` flags the item without listing it, so the two views disagree
   * afterwards, whatever they were before.
   */
  lemma OpenDiverges(v: View, el: nat)
    requires el < |v.flags|
    ensures Open(v, el).sel == [] && Open(v, el).flags == Only(|v.flags|, el)
    ensures Open(v, el).events == v.events + [Deselected, Opened(el)]
    ensures !Agree(Open(v, el))
  {
    var r := Open(v, el);
    assert r.flags == Only(|v.flags|, el);
    assert r.flags[el] && Some(el) !in r.sel;
  }

  /** `dblclick` on an item deselects twice (once itself, once in `open`) and then opens it. */
  lemma DblclickOpens(v: View, el: nat)
    requires el < |v.flags|
    ensures Dblclick(v, Some(el)).events == v.events + [Deselected, Deselected, Opened(el)]
    ensures Dblclick(v, Some(el)).sel == [] && Dblclick(v, Some(el)).flags == Only(|v.flags|, el)
  {
  }

  /** Nulling the first slot of x changes at most that slot and keeps every other item listed. */
  lemma NullFirstSlots(s: seq<Option<nat>>, x: nat)
    ensures |NullFirst(s, x)| == |s|
    ensures forall k :: 0 <= k < |s| ==>
              NullFirst(s, x)[k] == s[k] || (NullFirst(s, x)[k] == None && s[k] == Some(x))
    ensures forall y: nat :: y != x && Some(y) in s ==> Some(y) in NullFirst(s, x)
  {
    forall y: nat | y != x && Some(y) in s ensures Some(y) in NullFirst(s, x) {
      var j :| 0 <= j < |s| && s[j] == Some(y);
      assert NullFirst(s, x)[j] == Some(y);
    }
  }

  /**
   * The shape of a drag sweep: every old slot keeps its entry or, for an
   * item the area missed, becomes a hole; every new slot lists a hit item.
   */
  lemma {:induction false} SweepShape(s: seq<Option<nat>>, hits: seq<bool>)
    ensures |s| <= |Sweep(s, hits)|
    ensures forall k :: 0 <= k < |s| ==>
              || Sweep(s, hits)[k] == s[k]
              || (Sweep(s, hits)[k] == None && s[k].Some? && s[k].value < |hits| && !hits[s[k].value])
    ensures forall k :: |s| <= k < |Sweep(s, hits)| ==>
              Sweep(s, hits)[k].Some? && Sweep(s, hits)[k].value < |hits| && hits[Sweep(s, hits)[k].value]
    decreases |hits|
  {
    if hits != [] {
      var m := |hits| - 1;
      var h := hits[..m];
      SweepShape(s, h);
      assert forall i :: 0 <= i < m ==> h[i] == hits[i];
      var r' := Sweep(s, h);
      if !hits[m] {
        NullFirstSlots(r', m);
      }
    }
  }

  /** Every item the area hits is listed after the sweep. */
  lemma {:induction false} SweepHitsListed(s: seq<Option<nat>>, hits: seq<bool>)
    ensures forall i :: 0 <= i < |hits| && hits[i] ==> Some(i) in Sweep(s, hits)
    decreases |hits|
  {
    if hits != [] {
      var m := |hits| - 1;
      var h := hits[..m];
      SweepHitsListed(s, h);
      assert forall i :: 0 <= i < m ==> h[i] == hits[i];
      var r' := Sweep(s, h);
      if !hits[m] {
        NullFirstSlots(r', m);
      } else {
        assert Some(m) in SweepStep(r', m, true);
      }
    }
  }

  /**
   * From a sequence without repeats, the sweep adds no repeat and leaves no
   * missed item listed.
   */
  lemma {:induction false} SweepNoDup(s: seq<Option<nat>>, hits: seq<bool>)
    requires NoDup(s)
    ensures NoDup(Sweep(s, hits))
    ensures forall i :: 0 <= i < |hits| && !hits[i] ==> Some(i) !in Sweep(s, hits)
    decreases |hits|
  {
    if hits != [] {
      var m := |hits| - 1;
      var h := hits[..m];
      SweepNoDup(s, h);
      var r := Sweep(s, h);
      SweepStepNoDup(r, m, hits[m]);
      forall i | 0 <= i < |hits| && !hits[i] ensures Some(i) !in SweepStep(r, m, hits[m]) {
        if i < m {
          assert !h[i];
        }
      }
    }
  }

  /** One sweep step keeps a sequence without repeats and touches only its own item. */
  lemma SweepStepNoDup(r: seq<Option<nat>>, m: nat, hit: bool)
    requires NoDup(r)
    ensures NoDup(SweepStep(r, m, hit))
    ensures !hit ==> Some(m) !in SweepStep(r, m, hit)
    ensures forall y: nat :: y != m ==> (Some(y) in SweepStep(r, m, hit) <==> Some(y) in r)
  {
    if hit {
      if Some(m) !in r {
        assert forall j :: 0 <= j < |r| ==> r[j] != Some(m);
      }
    } else {
      NullFirstNoDup(r, m);
    }
  }

  /** A sequence that already lists exactly the hit items is left as it is. */
  lemma {:induction false} SweepFixed(s: seq<Option<nat>>, hits: seq<bool>)
    requires forall i :: 0 <= i < |hits| ==> (hits[i] <==> Some(i) in s)
    ensures Sweep(s, hits) == s
    decreases |hits|
  {
    if hits != [] {
      var m := |hits| - 1;
      SweepFixed(s, hits[..m]);
    }
  }

  /** Sweeping twice with the same hits is sweeping once, given no repeats. */
  lemma SweepIdempotent(s: seq<Option<nat>>, hits: seq<bool>)
    requires NoDup(s)
    ensures Sweep(Sweep(s, hits), hits) == Sweep(s, hits)
  {
    SweepHitsListed(s, hits);
    SweepNoDup(s, hits);
    SweepFixed(Sweep(s, hits), hits);
  }

  /** `mousemove` while not dragging changes nothing. */
  lemma MouseMoveIdle(v: View, x: int, y: int, cx: int, cy: int, g: seq<Item>)
    requires |g| == |v.flags| && !v.dragging
    ensures MouseMove(v, x, y, cx, cy, g) == v
  {
  }

  /**
   * While dragging, an item ends flagged exactly when one of its corners
   * lies within the box spanned by the drag origin and the pointer.
   */
  lemma MouseMoveFlags(v: View, x: int, y: int, cx: int, cy: int, g: seq<Item>)
    requires |g| == |v.flags| && v.dragging
    ensures |MouseMove(v, x, y, cx, cy, g).flags| == |v.flags|
    ensures forall i :: 0 <= i < |v.flags| ==>
              (MouseMove(v, x, y, cx, cy, g).flags[i] <==>
               CornerHit(g[i].box, Box(Min(v.originX, x), Min(v.originY, y), Max(v.originX, x), Max(v.originY, y))))
  {
    AreaSpansDrag(v.originX, v.originY, x, y, cx, cy);
  }

  /**
   * While dragging, `selectedItems` keeps every old entry except that a
   * missed item's slot may become a hole; new entries are hit items, and
   * every hit item is listed.  No fields besides the flags and the
   * sequence change.
   */
  lemma MouseMoveSlots(v: View, x: int, y: int, cx: int, cy: int, g: seq<Item>)
    requires |g| == |v.flags| && v.dragging
    ensures var r := MouseMove(v, x, y, cx, cy, g);
      && |v.sel| <= |r.sel|
      && (forall k :: 0 <= k < |v.sel| ==> r.sel[k] == v.sel[k] || (r.sel[k] == None && v.sel[k].Some? && v.sel[k].value < |r.flags| && !r.flags[v.sel[k].value]))
      && (forall k :: |v.sel| <= k < |r.sel| ==> r.sel[k].Some? && r.sel[k].value < |r.flags| && r.flags[r.sel[k].value])
      && (forall i :: 0 <= i < |r.flags| && r.flags[i] ==> Some(i) in r.sel)
      && r == v.(flags := r.flags, sel := r.sel)
  {
    var area := AreaBox(DragRect(v.originX, v.originY, x, y, cx, cy), cx, cy);
    SweepShape(v.sel, CornerHits(g, area));
    SweepHitsListed(v.sel, CornerHits(g, area));
  }

  /**
   * While dragging from a sequence without repeats (holes allowed), the two
   * views end in agreement: the sweep never lists a hit twice and drops
   * every miss.
   */
  lemma MouseMoveConsistent(v: View, x: int, y: int, cx: int, cy: int, g: seq<Item>)
    requires |g| == |v.flags| && v.dragging && WellFormed(v) && NoDup(v.sel)
    ensures Consistent(MouseMove(v, x, y, cx, cy, g))
  {
    var area := AreaBox(DragRect(v.originX, v.originY, x, y, cx, cy), cx, cy);
    var hits := CornerHits(g, area);
    SweepShape(v.sel, hits);
    SweepHitsListed(v.sel, hits);
    SweepNoDup(v.sel, hits);
  }

  /** Repeating a `mousemove` at the same point changes nothing more. */
  lemma MouseMoveIdempotent(v: View, x: int, y: int, cx: int, cy: int, g: seq<Item>)
    requires |g| == |v.flags| && NoDup(v.sel)
    ensures MouseMove(MouseMove(v, x, y, cx, cy, g), x, y, cx, cy, g) == MouseMove(v, x, y, cx, cy, g)
  {
    if v.dragging {
      var area := AreaBox(DragRect(v.originX, v.originY, x, y, cx, cy), cx, cy);
      SweepIdempotent(v.sel, CornerHits(g, area));
    }
  }

  /**
   * Dropped or coalesced moves do not matter: after a move to (x1, y1) and
   * one to (x2, y2) the same items are flagged and listed as after the move
   * to (x2, y2) alone.
   */
  lemma MouseMoveLatestWins(v: View, x1: int, y1: int, x2: int, y2: int, cx: int, cy: int, g: seq<Item>)
    requires |g| == |v.flags| && WellFormed(v) && NoDup(v.sel)
    ensures var both := MouseMove(MouseMove(v, x1, y1, cx, cy, g), x2, y2, cx, cy, g);
      var last := MouseMove(v, x2, y2, cx, cy, g);
      both.flags == last.flags && forall i :: 0 <= i < |v.flags| ==> (Some(i) in both.sel <==> Some(i) in last.sel)
  {
    if v.dragging {
      var w := MouseMove(v, x1, y1, cx, cy, g);
      MouseMoveConsistent(v, x1, y1, cx, cy, g);
      MouseMoveConsistent(w, x2, y2, cx, cy, g);
      MouseMoveConsistent(v, x2, y2, cx, cy, g);
    }
  }

  /**
   * A repeated entry defeats the sweep: only the first slot of a missed
   * item becomes a hole, so the item stays listed without its flag.
   */
  lemma DuplicateSurvivesMiss()
    ensures var v := View([true], [Some(0), Some(0)], true, 0, 0, [], []);
      var r := MouseMove(v, 1, 1, 0, 0, [Item(Box(10, 10, 20, 20), 0)]);
      WellFormed(v) && Agree(v) && r.sel == [None, Some(0)] && !r.flags[0] && !Agree(r)
  {
    var v := View([true], [Some(0), Some(0)], true, 0, 0, [], []);
    var g := [Item(Box(10, 10, 20, 20), 0)];
    var area := AreaBox(DragRect(0, 0, 1, 1, 0, 0), 0, 0);
    assert area == Box(0, 0, 1, 1);
    var hits := CornerHits(g, area);
    assert hits == [false];
    assert hits[..0] == [];
    assert Sweep(v.sel, hits) == NullFirst(v.sel, 0);
    assert IndexOf(v.sel, 0) == 0;
    var r := MouseMove(v, 1, 1, 0, 0, g);
    assert r.sel[1] == Some(0);
  }

  /** A single selected item is a consistent view. */
  lemma SelectsOnlyConsistent(v: View, t: nat)
    requires t < |v.flags| && SelectsOnly(v, t)
    ensures Consistent(v)
  {
  }

  lemma SelectFirstOnly(v: View)
    requires |v.flags| > 0
    ensures SelectsOnly(SelectFirst(v), 0)
    ensures SelectFirst(v).scrolls == v.scrolls + [ScrollRequest(0, Down)]
    ensures SelectFirst(v).events == v.events + [Deselected, Selected([Some(0)]), Selected([Some(0)])]
  {
  }

  lemma SelectLastOnly(v: View)
    requires |v.flags| > 0
    ensures SelectsOnly(SelectLast(v), |v.flags| - 1)
    ensures SelectLast(v).scrolls == v.scrolls + [ScrollRequest(|v.flags| - 1, Down)]
    ensures SelectLast(v).events == v.events + [Deselected, Selected([Some(|v.flags| - 1)]), Selected([Some(|v.flags| - 1)])]
  {
  }

  /** `moveLeft` selects the item before the first flagged one, saturating at the first item. */
  lemma MoveLeftFrom(v: View, e: nat)
    requires IsFirstFlag(v.flags, e)
    ensures SelectsOnly(MoveLeft(v), if e > 0 then e - 1 else 0)
    ensures e > 0 ==> MoveLeft(v).scrolls == v.scrolls + [ScrollRequest(e - 1, Up)]
  {
    FirstFlagIsFirstTrue(v.flags, e);
  }

  /** `moveLeft` with nothing flagged selects the first item. */
  lemma MoveLeftWithoutSelection(v: View)
    requires |v.flags| > 0 && NoneFlagged(v.flags)
    ensures SelectsOnly(MoveLeft(v), 0)
  {
  }

  /** `moveRight` selects the item after the last flagged one, saturating at the last item. */
  lemma MoveRightFrom(v: View, e: nat)
    requires IsLastFlag(v.flags, e)
    ensures SelectsOnly(MoveRight(v), if e + 1 < |v.flags| then e + 1 else |v.flags| - 1)
    ensures e + 1 < |v.flags| ==> MoveRight(v).scrolls == v.scrolls + [ScrollRequest(e + 1, Down)]
  {
    LastFlagIsLastTrue(v.flags, e);
  }

  /** `moveRight` with nothing flagged selects the first item. */
  lemma MoveRightWithoutSelection(v: View)
    requires |v.flags| > 0 && NoneFlagged(v.flags)
    ensures SelectsOnly(MoveRight(v), 0)
  {
  }

  /** Away from the end of the list, right then left comes back to the same single item. */
  lemma RightThenLeft(v: View, e: nat)
    requires e + 1 < |v.flags| && SelectsOnly(v, e)
    ensures SelectsOnly(MoveLeft(MoveRight(v)), e)
  {
    assert IsLastFlag(v.flags, e);
    MoveRightFrom(v, e);
    assert IsFirstFlag(MoveRight(v).flags, e + 1);
    MoveLeftFrom(MoveRight(v), e + 1);
  }

  /** Away from the start of the list, left then right comes back to the same single item. */
  lemma LeftThenRight(v: View, e: nat)
    requires 0 < e < |v.flags| && SelectsOnly(v, e)
    ensures SelectsOnly(MoveRight(MoveLeft(v)), e)
  {
    assert IsFirstFlag(v.flags, e);
    MoveLeftFrom(v, e);
    assert IsLastFlag(MoveLeft(v).flags, e - 1);
    MoveRightFrom(MoveLeft(v), e - 1);
  }

  /** Selecting each containing item in turn changes nothing when no item contains the point. */
  lemma {:induction false} SelectEachNoHit(v: View, order: seq<nat>, g: seq<Item>, x: int, y: int, d: Dir)
    requires |g| == |v.flags|
    requires forall k :: 0 <= k < |order| ==> order[k] < |v.flags|
    requires forall k :: 0 <= k < |order| ==> !Within(g[order[k]].box, x, y)
    ensures SelectEach(v, order, g, x, y, d) == v
    decreases |order|
  {
    if order != [] {
      SelectEachNoHit(v, order[..|order| - 1], g, x, y, d);
    }
  }

  /** Selecting each containing item in turn ends with the last one walked, alone. */
  lemma {:induction false} SelectEachLastHit(v: View, order: seq<nat>, g: seq<Item>, x: int, y: int, d: Dir, k: nat)
    requires |g| == |v.flags|
    requires forall j :: 0 <= j < |order| ==> order[j] < |v.flags|
    requires k < |order| && Within(g[order[k]].box, x, y)
    requires forall j :: k < j < |order| ==> !Within(g[order[j]].box, x, y)
    ensures SelectsOnly(SelectEach(v, order, g, x, y, d), order[k])
    ensures var r := SelectEach(v, order, g, x, y, d);
      |r.scrolls| > 0 && r.scrolls[|r.scrolls| - 1] == ScrollRequest(order[k], d)
    decreases |order|
  {
    var m := |order| - 1;
    if k < m {
      SelectEachLastHit(v, order[..m], g, x, y, d, k);
    }
  }

  /** Selecting each containing item in turn keeps a consistent view consistent. */
  lemma {:induction false} SelectEachConsistent(v: View, order: seq<nat>, g: seq<Item>, x: int, y: int, d: Dir)
    requires |g| == |v.flags| && Consistent(v)
    requires forall k :: 0 <= k < |order| ==> order[k] < |v.flags|
    ensures Consistent(SelectEach(v, order, g, x, y, d))
    decreases |order|
  {
    if order != [] {
      SelectEachConsistent(v, order[..|order| - 1], g, x, y, d);
    }
  }

  /** Item j holds the point `moveUp` and `expandSelectionUp` aim at from item e. */
  predicate AboveHit(g: seq<Item>, e: nat, j: nat)
    requires e < |g| && j < |g|
  {
    Within(g[j].box, g[e].box.left, g[e].box.top - Height(g[e]))
  }

  /** Item j holds the point `moveDown` and `expandSelectionDown` aim at from item e. */
  predicate BelowHit(g: seq<Item>, e: nat, j: nat)
    requires e < |g| && j < |g|
  {
    Within(g[j].box, g[e].box.left, g[e].box.top + Height(g[e]) + Height(g[e]) / 2 + g[e].marginBottom)
  }

  /**
   * `moveUp` from the first flagged item e: of the earlier items holding the
   * point above e, the walk (nearest first) selects each in turn, so the
   * earliest one in document order ends selected, alone.
   */
  lemma MoveUpFinds(v: View, g: seq<Item>, e: nat, j: nat)
    requires |g| == |v.flags| && IsFirstFlag(v.flags, e)
    requires j < e && AboveHit(g, e, j)
    requires forall i :: 0 <= i < j ==> !AboveHit(g, e, i)
    ensures SelectsOnly(MoveUp(v, g), j)
    ensures var r := MoveUp(v, g); |r.scrolls| > 0 && r.scrolls[|r.scrolls| - 1] == ScrollRequest(j, Up)
  {
    FirstFlagIsFirstTrue(v.flags, e);
    var (x, y) := UpTarget(g[e]);
    var order := Before(e);
    var k := e - 1 - j;
    assert order[k] == j;
    forall m | k < m < |order|
      ensures !Within(g[order[m]].box, x, y)
    {
      assert !AboveHit(g, e, order[m]);
    }
    SelectEachLastHit(v, order, g, x, y, Up, k);
  }

  /** `moveUp` leaves everything as it was when no earlier item holds the point above. */
  lemma MoveUpFindsNothing(v: View, g: seq<Item>, e: nat)
    requires |g| == |v.flags| && IsFirstFlag(v.flags, e) && e > 0
    requires forall i :: 0 <= i < e ==> !AboveHit(g, e, i)
    ensures MoveUp(v, g) == v
  {
    FirstFlagIsFirstTrue(v.flags, e);
    var (x, y) := UpTarget(g[e]);
    var order := Before(e);
    forall m | 0 <= m < |order|
      ensures !Within(g[order[m]].box, x, y)
    {
      assert !AboveHit(g, e, order[m]);
    }
    SelectEachNoHit(v, order, g, x, y, Up);
  }

  /** `moveUp` with nothing flagged, or from the first item, selects the first item. */
  lemma MoveUpFromTop(v: View, g: seq<Item>)
    requires |g| == |v.flags| > 0 && (NoneFlagged(v.flags) || v.flags[0])
    ensures SelectsOnly(MoveUp(v, g), 0)
  {
    if v.flags[0] {
      FirstFlagIsFirstTrue(v.flags, 0);
    }
  }

  /**
   * `moveDown` from the last flagged item e: of the later items holding the
   * point below e, the last in document order ends selected, alone.
   */
  lemma MoveDownFinds(v: View, g: seq<Item>, e: nat, j: nat)
    requires |g| == |v.flags| && IsLastFlag(v.flags, e)
    requires e < j < |v.flags| && BelowHit(g, e, j)
    requires forall i :: j < i < |v.flags| ==> !BelowHit(g, e, i)
    ensures SelectsOnly(MoveDown(v, g), j)
    ensures var r := MoveDown(v, g); |r.scrolls| > 0 && r.scrolls[|r.scrolls| - 1] == ScrollRequest(j, Down)
  {
    LastFlagIsLastTrue(v.flags, e);
    var (x, y) := DownTarget(g[e]);
    var order := After(e, |v.flags|);
    var k := j - e - 1;
    assert order[k] == j;
    assert Hits(order, g, x, y)[k];
    forall m | k < m < |order|
      ensures !Within(g[order[m]].box, x, y)
    {
      assert !BelowHit(g, e, order[m]);
    }
    SelectEachLastHit(v, order, g, x, y, Down, k);
  }

  /** `moveDown` with no later item holding the point below saturates to the last item. */
  lemma MoveDownFindsNothing(v: View, g: seq<Item>, e: nat)
    requires |g| == |v.flags| && IsLastFlag(v.flags, e)
    requires forall i :: e < i < |v.flags| ==> !BelowHit(g, e, i)
    ensures SelectsOnly(MoveDown(v, g), |v.flags| - 1)
  {
    LastFlagIsLastTrue(v.flags, e);
    var (x, y) := DownTarget(g[e]);
    var order := After(e, |v.flags|);
    forall m | 0 <= m < |order|
      ensures !Within(g[order[m]].box, x, y)
    {
      assert !BelowHit(g, e, order[m]);
    }
    SelectEachNoHit(v, order, g, x, y, Down);
    var h := Hits(order, g, x, y);
    assert forall m :: 0 <= m < |h| ==> !h[m];
    assert true !in h;
  }

  /** `moveDown` with nothing flagged selects the first item. */
  lemma MoveDownWithoutSelection(v: View, g: seq<Item>)
    requires |g| == |v.flags| > 0 && NoneFlagged(v.flags)
    ensures SelectsOnly(MoveDown(v, g), 0)
  {
  }

  /** `moveLeft` always ends with one item selected, in both views alike. */
  lemma MoveLeftKeepsConsistent(v: View)
    requires |v.flags| > 0
    ensures Consistent(MoveLeft(v))
  {
    match FirstTrue(v.flags)
    case None =>
      SelectsOnlyConsistent(MoveLeft(v), 0);
    case Some(e) =>
      SelectsOnlyConsistent(MoveLeft(v), if e > 0 then e - 1 else 0);
  }

  /** `moveRight` always ends with one item selected, in both views alike. */
  lemma MoveRightKeepsConsistent(v: View)
    requires |v.flags| > 0
    ensures Consistent(MoveRight(v))
  {
    match LastTrue(v.flags)
    case None =>
      SelectsOnlyConsistent(MoveRight(v), 0);
    case Some(e) =>
      SelectsOnlyConsistent(MoveRight(v), if e + 1 < |v.flags| then e + 1 else |v.flags| - 1);
  }

  /** `moveUp` keeps a consistent view consistent. */
  lemma MoveUpKeepsConsistent(v: View, g: seq<Item>)
    requires |g| == |v.flags| > 0 && Consistent(v)
    ensures Consistent(MoveUp(v, g))
  {
    match FirstTrue(v.flags)
    case None =>
    case Some(e) =>
      var (x, y) := UpTarget(g[e]);
      SelectEachConsistent(v, Before(e), g, x, y, Up);
  }

  /** `moveDown` keeps a consistent view consistent. */
  lemma MoveDownKeepsConsistent(v: View, g: seq<Item>)
    requires |g| == |v.flags| > 0 && Consistent(v)
    ensures Consistent(MoveDown(v, g))
  {
    match LastTrue(v.flags)
    case None =>
    case Some(e) =>
      var (x, y) := DownTarget(g[e]);
      SelectEachConsistent(v, After(e, |v.flags|), g, x, y, Down);
  }

  /**
   * `expandSelectionLeft` from the first flagged item e > 0 flags and appends
   * e-1; it scrolls to and fires `select` with e itself.  At the first item
   * (or with nothing flagged) the handler throws and nothing changes.
   */
  lemma ExpandLeftFrom(v: View, e: nat)
    requires IsFirstFlag(v.flags, e)
    ensures var r := ExpandLeft(v);
      if e == 0 then r == v
      else
        && (forall i :: 0 <= i < |v.flags| ==> (r.flags[i] <==> v.flags[i] || i == e - 1))
        && r.sel == v.sel + [Some(e - 1)]
        && r.scrolls == v.scrolls + [ScrollRequest(e, Up)]
        && r.events == v.events + [Selected([Some(e)])]
  {
    FirstFlagIsFirstTrue(v.flags, e);
  }

  /**
   * `expandSelectionRight` from the FIRST flagged item e flags and appends
   * e+1, whether or not it is selected already; at the last item nothing
   * changes.
   */
  lemma ExpandRightFrom(v: View, e: nat)
    requires IsFirstFlag(v.flags, e)
    ensures var r := ExpandRight(v);
      if e + 1 == |v.flags| then r == v
      else
        && (forall i :: 0 <= i < |v.flags| ==> (r.flags[i] <==> v.flags[i] || i == e + 1))
        && r.sel == v.sel + [Some(e + 1)]
        && r.scrolls == v.scrolls + [ScrollRequest(e, Down)]
        && r.events == v.events + [Selected([Some(e)])]
  {
    FirstFlagIsFirstTrue(v.flags, e);
  }

  /** With nothing flagged every expansion throws before changing anything. */
  lemma ExpandWithoutSelection(v: View, g: seq<Item>)
    requires |g| == |v.flags| && NoneFlagged(v.flags)
    ensures ExpandLeft(v) == v && ExpandRight(v) == v
    ensures ExpandUp(v, g) == v && ExpandDown(v, g) == v
  {
    assert FirstTrue(v.flags).None?;
    assert LastTrue(v.flags).None?;
  }

  /**
   * Two items selected in order: expanding right from the first pushes the
   * second a second time, so `selectedItems` lists it twice.
   */
  lemma ExpandRightDuplicates()
    ensures var v := View([true, true], [Some(0), Some(1)], false, 0, 0, [], []);
      Consistent(v) && ExpandRight(v).sel == [Some(0), Some(1), Some(1)] && !NoDup(ExpandRight(v).sel)
  {
    var v := View([true, true], [Some(0), Some(1)], false, 0, 0, [], []);
    assert FirstTrue(v.flags) == Some(0);
    assert ExpandRight(v).sel[1] == ExpandRight(v).sel[2];
  }

  /**
   * `expandSelectionUp` from the first flagged item e: walking back from e-1,
   * it flags and appends every item down to and including j, the nearest one
   * holding the point above e, scrolls up to j, and fires `select` with e.
   */
  lemma ExpandUpStops(v: View, g: seq<Item>, e: nat, j: nat)
    requires |g| == |v.flags| && IsFirstFlag(v.flags, e)
    requires j < e && AboveHit(g, e, j)
    requires forall i :: j < i < e ==> !AboveHit(g, e, i)
    ensures var r := ExpandUp(v, g);
      && r.sel == v.sel + Somes(Before(e)[..e - j])
      && (forall i :: 0 <= i < |v.flags| ==> (r.flags[i] <==> v.flags[i] || j <= i < e))
      && |r.scrolls| > |v.scrolls| && r.scrolls[..|v.scrolls|] == v.scrolls
      && r.scrolls[|v.scrolls|] == ScrollRequest(j, Up)
      && r.events == v.events + [Selected([Some(e)])]
  {
    FirstFlagIsFirstTrue(v.flags, e);
    var (x, y) := UpTarget(g[e]);
    var order := Before(e);
    var marks := Hits(order, g, x, y);
    var k := e - 1 - j;
    assert order[k] == j;
    forall m | 0 <= m < k
      ensures !marks[m]
    {
      assert !AboveHit(g, e, order[m]);
    }
    WalkStopsAt(v, order, marks, Up, k);
    FlaggedBackward(v.flags, e, j);
  }

  /**
   * `expandSelectionUp` when no earlier item holds the point above e: the
   * walk runs out, flagging and appending every item before e.
   */
  lemma ExpandUpRunsOut(v: View, g: seq<Item>, e: nat)
    requires |g| == |v.flags| && IsFirstFlag(v.flags, e)
    requires forall i :: 0 <= i < e ==> !AboveHit(g, e, i)
    ensures var r := ExpandUp(v, g);
      && r.sel == v.sel + Somes(Before(e))
      && (forall i :: 0 <= i < |v.flags| ==> (r.flags[i] <==> v.flags[i] || i < e))
      && r.scrolls == v.scrolls
      && r.events == v.events + [Selected([Some(e)])]
  {
    FirstFlagIsFirstTrue(v.flags, e);
    var (x, y) := UpTarget(g[e]);
    var order := Before(e);
    var marks := Hits(order, g, x, y);
    forall m | 0 <= m < |marks|
      ensures !marks[m]
    {
      assert !AboveHit(g, e, order[m]);
    }
    WalkRunsOut(v, order, marks, Up);
    assert order[..e] == order;
    FlaggedBackward(v.flags, e, 0);
  }

  /** `expandSelectionDown` from the last flagged item e, as a walk. */
  lemma ExpandDownUnfolds(v: View, g: seq<Item>, e: nat)
    requires |g| == |v.flags| && IsLastFlag(v.flags, e)
    ensures var (x, y) := DownTarget(g[e]);
      var order := After(e, |v.flags|);
      ExpandDown(v, g) == Fire(Walked(v, order, Hits(order, g, x, y), Some(Down)), Selected([Some(e)]))
  {
    LastFlagIsLastTrue(v.flags, e);
  }

  /** Which walked items hold the point below e, stated per item. */
  lemma BelowMarks(g: seq<Item>, e: nat, lo: nat, hi: nat)
    requires e < |g| && lo <= hi <= |g| - e - 1
    requires forall i :: e + 1 + lo <= i < e + 1 + hi ==> !BelowHit(g, e, i)
    ensures var (x, y) := DownTarget(g[e]);
      var order := After(e, |g|);
      forall m :: lo <= m < hi ==> !Hits(order, g, x, y)[m]
  {
    var (x, y) := DownTarget(g[e]);
    var order := After(e, |g|);
    var marks := Hits(order, g, x, y);
    forall m | lo <= m < hi
      ensures !marks[m]
    {
      assert !BelowHit(g, e, order[m]);
    }
  }

  lemma BelowMark(g: seq<Item>, e: nat, j: nat)
    requires e < j < |g| && BelowHit(g, e, j)
    ensures var (x, y) := DownTarget(g[e]);
      var order := After(e, |g|);
      order[j - e - 1] == j && Hits(order, g, x, y)[j - e - 1]
  {
  }

  /**
   * `expandSelectionDown` from the last flagged item e: it flags and appends
   * e+1, ..., j, where j is the first later item holding the point below e,
   * scrolls down to j, and fires `select` with e.
   */
  lemma ExpandDownStops(v: View, g: seq<Item>, e: nat, j: nat)
    requires |g| == |v.flags| && IsLastFlag(v.flags, e)
    requires e < j < |v.flags| && BelowHit(g, e, j)
    requires forall i :: e < i < j ==> !BelowHit(g, e, i)
    ensures var r := ExpandDown(v, g);
      && r.sel == v.sel + Somes(Range(e + 1, j + 1))
      && (forall i :: 0 <= i < |v.flags| ==> (r.flags[i] <==> v.flags[i] || e < i <= j))
      && |r.scrolls| > |v.scrolls| && r.scrolls[..|v.scrolls|] == v.scrolls
      && r.scrolls[|v.scrolls|] == ScrollRequest(j, Down)
      && r.events == v.events + [Selected([Some(e)])]
  {
    ExpandDownUnfolds(v, g, e);
    var k := j - e - 1;
    BelowMarks(g, e, 0, k);
    BelowMark(g, e, j);
    var (x, y) := DownTarget(g[e]);
    var order := After(e, |v.flags|);
    var w := Walked(v, order, Hits(order, g, x, y), Some(Down));
    WalkStopsAt(v, order, Hits(order, g, x, y), Down, k);
    AfterPrefix(e, |v.flags|, j);
    FlaggedForward(v.flags, e, j);
    assert ExpandDown(v, g) == Fire(w, Selected([Some(e)]));
  }

  lemma AfterPrefix(e: nat, n: nat, j: nat)
    requires e < j < n
    ensures After(e, n)[..j - e] == Range(e + 1, j + 1)
  {
  }

  /** Flagging a forward run e+1, ..., j of items. */
  lemma FlaggedForward(f: seq<bool>, e: nat, j: nat)
    requires e < j < |f|
    ensures forall i :: 0 <= i < |f| ==> (Flagged(f, After(e, |f|)[..j - e])[i] <==> f[i] || e < i <= j)
  {
    AfterPrefix(e, |f|, j);
    FlaggedRange(f, e + 1, j + 1);
  }

  /** `expandSelectionDown` with no later item below e flags and appends every later item. */
  lemma ExpandDownRunsOut(v: View, g: seq<Item>, e: nat)
    requires |g| == |v.flags| && IsLastFlag(v.flags, e)
    requires forall i :: e < i < |v.flags| ==> !BelowHit(g, e, i)
    ensures var r := ExpandDown(v, g);
      && r.sel == v.sel + Somes(Range(e + 1, |v.flags|))
      && (forall i :: 0 <= i < |v.flags| ==> (r.flags[i] <==> v.flags[i] || e < i))
      && r.scrolls == v.scrolls
      && r.events == v.events + [Selected([Some(e)])]
  {
    ExpandDownUnfolds(v, g, e);
    BelowMarks(g, e, 0, |v.flags| - e - 1);
    var (x, y) := DownTarget(g[e]);
    var order := After(e, |v.flags|);
    WalkRunsOut(v, order, Hits(order, g, x, y), Down);
    FlaggedRange(v.flags, e + 1, |v.flags|);
  }

  /** r only adds to v: every flag stays set and `selectedItems` keeps v's entries as a prefix. */
  predicate Grows(v: View, r: View) {
    && |r.flags| == |v.flags|
    && (forall i :: 0 <= i < |v.flags| && v.flags[i] ==> r.flags[i])
    && |v.sel| <= |r.sel| && r.sel[..|v.sel|] == v.sel
  }

  /** A walk only adds. */
  lemma WalkedGrows(v: View, order: seq<nat>, marks: seq<bool>, d: Option<Dir>)
    requires |marks| == |order|
    requires forall k :: 0 <= k < |order| ==> order[k] < |v.flags|
    ensures Grows(v, Walked(v, order, marks, d))
  {
    WalkedClosedForm(v, order, marks, d);
  }

  /** No expansion clears a flag or drops an entry of `selectedItems`. */
  lemma ExpansionOnlyAdds(v: View, g: seq<Item>)
    requires |g| == |v.flags|
    ensures Grows(v, ExpandLeft(v)) && Grows(v, ExpandRight(v))
    ensures Grows(v, ExpandUp(v, g)) && Grows(v, ExpandDown(v, g))
  {
    ExpandSidewaysOnlyAdds(v);
    ExpandUpOnlyAdds(v, g);
    ExpandDownOnlyAdds(v, g);
  }

  /** `expandSelectionLeft` and `expandSelectionRight` only add. */
  lemma ExpandSidewaysOnlyAdds(v: View)
    ensures Grows(v, ExpandLeft(v)) && Grows(v, ExpandRight(v))
  {
    if CanExpandLeft(v) {
      assert ExpandLeft(v).sel[..|v.sel|] == v.sel;
    }
    if CanExpandRight(v) {
      assert ExpandRight(v).sel[..|v.sel|] == v.sel;
    }
  }

  /** `expandSelectionUp` only adds. */
  lemma ExpandUpOnlyAdds(v: View, g: seq<Item>)
    requires |g| == |v.flags|
    ensures Grows(v, ExpandUp(v, g))
  {
    if FirstTrue(v.flags).Some? {
      var e := FirstTrue(v.flags).value;
      var (x, y) := UpTarget(g[e]);
      WalkedGrows(v, Before(e), Hits(Before(e), g, x, y), Some(Up));
    }
  }

  /** `expandSelectionDown` only adds. */
  lemma ExpandDownOnlyAdds(v: View, g: seq<Item>)
    requires |g| == |v.flags|
    ensures Grows(v, ExpandDown(v, g))
  {
    if LastTrue(v.flags).Some? {
      var e := LastTrue(v.flags).value;
      var (x, y) := DownTarget(g[e]);
      var order := After(e, |v.flags|);
      WalkedGrows(v, order, Hits(order, g, x, y), Some(Down));
    }
  }

  /** Shift-selecting with an anchor flagged only adds. */
  lemma ShiftSelectGrows(v: View, el: nat)
    requires el < |v.flags| && FirstTrue(v.flags).Some?
    ensures Grows(v, ShiftSelect(v, el))
  {
    var a := FirstTrue(v.flags).value;
    if a != el {
      var order := if a < el then After(a, |v.flags|) else Before(a);
      WalkedGrows(v, order, Matches(order, el), None);
    }
  }

  /** `expandSelectionLeft` keeps a consistent view consistent: the item before the first flagged one is new. */
  lemma ExpandLeftKeepsConsistent(v: View)
    requires Consistent(v)
    ensures Consistent(ExpandLeft(v))
  {
    if CanExpandLeft(v) {
      var e := FirstTrue(v.flags).value;
      FlagAndAppendAgree(v, [e - 1]);
      AppendFreshNoDup(v.sel, [e - 1]);
      assert Flagged(v.flags, [e - 1]) == v.flags[e - 1 := true];
      assert Somes([e - 1]) == [Some(e - 1)];
    }
  }

  /** `expandSelectionUp` keeps a consistent view consistent: everything it walks is before the first flag. */
  lemma ExpandUpKeepsConsistent(v: View, g: seq<Item>)
    requires |g| == |v.flags| && Consistent(v)
    ensures Consistent(ExpandUp(v, g))
  {
    match FirstTrue(v.flags)
    case None =>
    case Some(e) =>
      var (x, y) := UpTarget(g[e]);
      WalkFreshConsistent(v, Before(e), Hits(Before(e), g, x, y), Some(Up));
  }

  /** `expandSelectionDown` keeps a consistent view consistent: everything it walks is after the last flag. */
  lemma ExpandDownKeepsConsistent(v: View, g: seq<Item>)
    requires |g| == |v.flags| && Consistent(v)
    ensures Consistent(ExpandDown(v, g))
  {
    match LastTrue(v.flags)
    case None =>
    case Some(e) =>
      var (x, y) := DownTarget(g[e]);
      var order := After(e, |v.flags|);
      WalkFreshConsistent(v, order, Hits(order, g, x, y), Some(Down));
  }

  /**
   * On an empty list every key but the moves is handled without an item:
   * Delete asks to delete nothing, meta-A fires `deselect` and an empty
   * `select`, and every other non-move key leaves the view as it is.
   */
  lemma KeypressOnEmptyList(ev: KeyEvent)
    requires !Dispatch(ev, 0).MoveCmd?
    ensures var r := Keypress(Initial(0), ev, []);
      && r.flags == [] && r.sel == []
      && (Dispatch(ev, 0) == DeleteCmd ==> r.events == [DeleteRequested([])])
      && (Dispatch(ev, 0) == SelectAllCmd ==> r.events == [Deselected, Selected([])])
      && (Dispatch(ev, 0) !in {DeleteCmd, SelectAllCmd} ==> r == Initial(0))
  {
    var v := Initial(0);
    match Dispatch(ev, 0)
    case SelectAllCmd =>
      assert Range(0, 0) == [];
    case ExpandCmd(d) =>
      assert FirstTrue(v.flags).None? && LastTrue(v.flags).None?;
    case _ =>
  }

  /**
   * Every key command except Enter (`open` flags without listing) and
   * shift-right (which may push a listed item again) keeps a consistent
   * view consistent.
   */
  lemma KeypressKeepsConsistent(v: View, ev: KeyEvent, g: seq<Item>)
    requires |g| == |v.flags| && Consistent(v)
    requires Dispatch(ev, |v.sel|).MoveCmd? ==> |v.flags| > 0
    requires Dispatch(ev, |v.sel|) != OpenCmd && Dispatch(ev, |v.sel|) != ExpandCmd(Right)
    ensures Consistent(Keypress(v, ev, g))
  {
    match Dispatch(ev, |v.sel|)
    case NoCommand =>
    case SelectAllCmd => SelectAllSelectsEverything(v);
    case ExpandCmd(d) =>
      match d {
        case Left => ExpandLeftKeepsConsistent(v);
        case Up => ExpandUpKeepsConsistent(v, g);
        case Down => ExpandDownKeepsConsistent(v, g);
      }
    case MoveCmd(d) =>
      match d {
        case Left => MoveLeftKeepsConsistent(v);
        case Right => MoveRightKeepsConsistent(v);
        case Up => MoveUpKeepsConsistent(v, g);
        case Down => MoveDownKeepsConsistent(v, g);
      }
    case DeleteCmd =>
  }

  /**
   * Read literally, `li.selected:last-child` matches nothing unless the last
   * item is flagged, so `moveRight` from item 0 of two jumps back to the first
   * item instead of moving on to the second, as the corrected version does,
   * wherever the selection-area div sits.
   */
  lemma MoveRightAsWrittenRestarts(areaLast: bool)
    ensures var v := PlainSelect(Initial(2), 0);
      SelectsOnly(MoveRightAsWritten(v, areaLast), 0) && SelectsOnly(MoveRight(v), 1)
  {
    var v := PlainSelect(Initial(2), 0);
    assert IsLastFlag(v.flags, 0);
    MoveRightFrom(v, 0);
  }

  /** With the selection-area div as the container's last child, literal `moveRight` always restarts. */
  lemma MoveRightAsWrittenWithArea(v: View)
    requires |v.flags| > 0
    ensures MoveRightAsWritten(v, true) == SelectFirst(v)
  {
  }

  /**
   * Read literally, the selector agrees with the last flagged item only when
   * the last item is flagged and the selection-area div is not after it.
   */
  lemma LastChildAgreesOnlyAtEnd(f: seq<bool>, areaLast: bool)
    requires LastTrue(f).Some?
    ensures LastChildSelected(f, areaLast) == LastTrue(f) <==> !areaLast && f[|f| - 1]
  {
  }
}
