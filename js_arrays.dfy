/** JavaScript array operations that the undo manager relies on: `splice`,
    `push` and the `removeFromTo` extension that the source installs on
    `Array.prototype`. Indices and counts are integers; the coercions of
    non-integer arguments that JavaScript performs are not modelled. */
module JsArrays {

  /** The index at which `splice(start, …)` begins on an array of length `len`:
      a negative start counts from the end, and the result is clamped to
      `0 .. len`. */
  function SpliceStart(len: nat, start: int): (a: nat)
    ensures a <= len
    ensures 0 <= start <= len ==> a == start
    ensures -(len as int) <= start < 0 ==> a == len + start
  {
    if start < 0 then (if len + start < 0 then 0 else len + start)
    else if start > len then len
    else start
  }

  /** The number of elements `splice(…, deleteCount)` removes once the start is
      `a`: a negative count removes nothing, and no more than what is left. */
  function SpliceCount(len: nat, a: nat, deleteCount: int): (d: nat)
    requires a <= len
    ensures a + d <= len
    ensures 0 <= deleteCount <= len - a ==> d == deleteCount
  {
    if deleteCount < 0 then 0
    else if deleteCount > len - a then len - a
    else deleteCount
  }

  /** The contents an array holds after `splice(start, deleteCount)`. */
  function Spliced<T>(s: seq<T>, start: int, deleteCount: int): seq<T>
  {
    var a := SpliceStart(|s|, start);
    var d := SpliceCount(|s|, a, deleteCount);
    s[..a] + s[a + d..]
  }

  /** The elements `splice(start, deleteCount)` returns. */
  function SpliceRemoved<T>(s: seq<T>, start: int, deleteCount: int): seq<T>
  {
    var a := SpliceStart(|s|, start);
    var d := SpliceCount(|s|, a, deleteCount);
    s[a..a + d]
  }

  /** The delete count `removeFromTo(from, to)` hands to `splice`: `!to` short-
      circuits to `true` (a count of 1) when `to` is 0; otherwise the count is
      `1 + to - from`, corrected by the array length when exactly one of `from`
      and `to` is given relative to the end. */
  function RemoveFromToCount(len: nat, from: int, to: int): int
  {
    if to == 0 then 1
    else 1 + to - from + (if (to < 0) == (from >= 0) then (if to < 0 then len as int else -(len as int)) else 0)
  }

  /** The contents an array holds after `removeFromTo(from, to)`. */
  function RemovedFromTo<T>(s: seq<T>, from: int, to: int): seq<T>
  {
    Spliced(s, from, RemoveFromToCount(|s|, from, to))
  }

  /** `splice` with an in-range start and a count reaching past the end keeps
      exactly the prefix before the start. */
  lemma SplicedTail<T>(s: seq<T>, start: int, deleteCount: int)
    requires 0 <= start <= |s|
    requires deleteCount >= |s| - start
    ensures Spliced(s, start, deleteCount) == s[..start]
    ensures SpliceRemoved(s, start, deleteCount) == s[start..]
  {
  }

  /** `removeFromTo(from, to)` removes the elements from position `from` up to and
      including position `to`, where a negative `to` counts from the end
      (-1 is the last element), provided `from` is not past `to`. */
  lemma RemovedFromToInclusive<T>(s: seq<T>, from: int, to: int)
    requires 0 <= from
    requires -|s| <= to < |s|
    requires from <= (if to < 0 then |s| + to else to)
    ensures var last := if to < 0 then |s| + to else to;
            RemovedFromTo(s, from, to) == s[..from] + s[last + 1..]
  {
    var last := if to < 0 then |s| + to else to;
    assert RemoveFromToCount(|s|, from, to) == last - from + 1;
  }

  /** The call the undo manager makes when the history exceeds a positive limit:
      `removeFromTo(0, -(limit + 1))` keeps exactly the newest `limit` elements,
      in order. */
  lemma RemovedFromToKeepsNewest<T>(s: seq<T>, limit: int)
    requires 0 < limit < |s|
    ensures RemovedFromTo(s, 0, -(limit + 1)) == s[|s| - limit..]
  {
    RemovedFromToInclusive(s, 0, -(limit + 1));
  }

  /** With a negative limit the same call removes the `-limit` oldest elements
      (or all of them when there are fewer). */
  lemma RemovedFromToNegativeLimit<T>(s: seq<T>, limit: int)
    requires limit < 0
    ensures RemovedFromTo(s, 0, -(limit + 1)) == s[if -limit < |s| then -limit else |s|..]
  {
    assert RemoveFromToCount(|s|, 0, -(limit + 1)) == -limit;
  }

  /** A JavaScript array object: `items` is its contents, changed in place by the
      methods below and shared by everyone holding a reference to it. */
  class JsArray<T> {
    var items: seq<T>

    constructor (init: seq<T>)
      ensures items == init
    {
      items := init;
    }

    /** `push(x)`: appends and returns the new length. */
    method Push(x: T) returns (length: nat)
      modifies this
      ensures items == old(items) + [x]
      ensures length == |items|
    {
      items := items + [x];
      length := |items|;
    }

    /** `splice(start, deleteCount)`: removes elements in place and returns them. */
    method Splice(start: int, deleteCount: int) returns (removed: seq<T>)
      modifies this
      ensures items == Spliced(old(items), start, deleteCount)
      ensures removed == SpliceRemoved(old(items), start, deleteCount)
    {
      removed := SpliceRemoved(items, start, deleteCount);
      items := Spliced(items, start, deleteCount);
    }

    /** `removeFromTo(from, to)`: splices in place and returns the new length. */
    method RemoveFromTo(from: int, to: int) returns (length: nat)
      modifies this
      ensures items == RemovedFromTo(old(items), from, to)
      ensures length == |items|
    {
      var _ := Splice(from, RemoveFromToCount(|items|, from, to));
      length := |items|;
    }
  }
}
