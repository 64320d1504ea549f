/**
 * `Element.getAncestor(match, top)`: the nearest node at or above a start
 * node that matches a selector, giving up on reaching `top` or the root.
 * Nodes are numbered in document order, so a parent precedes its children.
 */
module Dom {
  import opened Base

  /** parents[k] is the parent of node k, or negative for none. */
  predicate IsTree(parents: seq<int>) {
    forall k :: 0 <= k < |parents| ==> parents[k] < k
  }

  /** The nodes the walk tests from p: p, then its parents until the root or `top`. */
  function Path(parents: seq<int>, p: nat, top: Option<nat>): (path: seq<nat>)
    requires IsTree(parents) && p < |parents|
    ensures |path| > 0 && path[0] == p
    ensures forall k :: 0 <= k < |path| ==> path[k] <= p
    ensures forall j, k :: 0 <= j < k < |path| ==> path[j] > path[k]
    decreases p
  {
    var q := parents[p];
    if q < 0 || (top.Some? && top.value == q) then [p]
    else [p] + Path(parents, q, top)
  }

  /** One step up: the rest of the path after p is the path from p's parent, unless the walk stops. */
  lemma PathTail(parents: seq<int>, p: nat, top: Option<nat>, path: seq<nat>, i: nat)
    requires IsTree(parents) && p < |parents|
    requires i < |path| && path[i..] == Path(parents, p, top)
    ensures var q := parents[p];
      if q < 0 || (top.Some? && top.value == q) then i + 1 == |path|
      else path[i + 1..] == Path(parents, q, top)
  {
    assert path[i + 1..] == path[i..][1..];
  }

  /** The first node of a path that matches, if any. */
  function FirstMatch(path: seq<nat>, matches: seq<bool>): Option<nat>
    requires forall k :: 0 <= k < |path| ==> path[k] < |matches|
  {
    if path == [] then None
    else if matches[path[0]] then Some(path[0])
    else FirstMatch(path[1..], matches)
  }

  /** `FirstMatch` finds the earliest matching node, and nothing only when no node matches. */
  lemma {:induction false} FirstMatchIsFirst(path: seq<nat>, matches: seq<bool>)
    requires forall k :: 0 <= k < |path| ==> path[k] < |matches|
    ensures FirstMatch(path, matches).None? <==> forall k :: 0 <= k < |path| ==> !matches[path[k]]
    ensures FirstMatch(path, matches).Some? ==>
      exists k :: 0 <= k < |path| && path[k] == FirstMatch(path, matches).value
        && matches[path[k]] && forall j :: 0 <= j < k ==> !matches[path[j]]
  {
    if path != [] && !matches[path[0]] {
      var t := path[1..];
      FirstMatchIsFirst(t, matches);
      assert forall k :: 0 <= k < |t| ==> t[k] == path[k + 1];
      if FirstMatch(t, matches).Some? {
        var k :| 0 <= k < |t| && t[k] == FirstMatch(t, matches).value
          && matches[t[k]] && forall j :: 0 <= j < k ==> !matches[t[j]];
        assert path[k + 1] == FirstMatch(path, matches).value;
      }
    }
  }

  /**
   * `getAncestor` returns a matching node at or above the start node, and
   * every node strictly between the two fails to match; it returns nothing
   * only when no node of the path matches.
   */
  lemma AncestorIsNearest(parents: seq<int>, matches: seq<bool>, start: nat, top: Option<nat>)
    requires IsTree(parents) && |matches| == |parents| && start < |parents|
    ensures var path := Path(parents, start, top);
      var r := FirstMatch(path, matches);
      && (r.None? <==> forall k :: 0 <= k < |path| ==> !matches[path[k]])
      && (r.Some? ==> r.value <= start && matches[r.value] && r.value in path)
      && (r.Some? ==> forall k :: 0 <= k < |path| && path[k] > r.value ==> !matches[path[k]])
  {
    var path := Path(parents, start, top);
    FirstMatchIsFirst(path, matches);
  }

  /** The walk of `getAncestor`, following parent links from the start node. */
  method GetAncestor(parents: seq<int>, matches: seq<bool>, start: nat, top: Option<nat>)
    returns (r: Option<nat>)
    requires IsTree(parents) && |matches| == |parents| && start < |parents|
    ensures r == FirstMatch(Path(parents, start, top), matches)
  {
    ghost var path := Path(parents, start, top);
    ghost var i := 0;
    var p: int := start;
    while p >= 0
      invariant p < |parents|
      invariant 0 <= i <= |path|
      invariant p >= 0 ==> i < |path| && path[i..] == Path(parents, p, top)
      invariant p < 0 ==> i == |path|
      invariant FirstMatch(path[i..], matches) == FirstMatch(path, matches)
      decreases p + 1
    {
      if matches[p] {
        return Some(p);
      }
      PathTail(parents, p, top, path, i);
      assert path[i..][1..] == path[i + 1..];
      p := parents[p];
      i := i + 1;
      // `parent == top` also holds when both are missing (null == undefined)
      if (p < 0 && top.None?) || (top.Some? && top.value == p) {
        return None;
      }
    }
    return None;
  }
}
