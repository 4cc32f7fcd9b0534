/** getopt.c's exchange: two adjacent blocks of argv trade places, in place. */
module ArgvBlocks {
  /** `s` with the blocks [bottom, middle) and [middle, top) in the other order. */
  ghost function Rotated(s: seq<string>, bottom: nat, middle: nat, top: nat): (r: seq<string>)
    requires bottom <= middle <= top <= |s|
    ensures |r| == |s|
  {
    s[..bottom] + (s[middle..top] + s[bottom..middle]) + s[top..]
  }

  /** Rotating the blocks [bottom, middle) and [middle, top) of `s` would give `goal`. */
  ghost predicate RotatesTo(s: seq<string>, bottom: int, middle: int, top: int, goal: seq<string>) {
    && 0 <= bottom <= middle <= top <= |s| == |goal|
    && (forall k {:trigger s[k]} :: 0 <= k < bottom || top <= k < |s| ==> s[k] == goal[k])
    && (forall k {:trigger s[k]} :: bottom <= k < middle ==> s[k] == goal[k + (top - middle)])
    && (forall k {:trigger s[k]} :: middle <= k < top ==> s[k] == goal[k - (middle - bottom)])
  }

  lemma RotatedByIndex(s: seq<string>, bottom: nat, middle: nat, top: nat)
    requires bottom <= middle <= top <= |s|
    ensures RotatesTo(s, bottom, middle, top, Rotated(s, bottom, middle, top))
  {
  }

  /** `t` is `s` with the blocks [x, x+len) and [y, y+len) in each other's place. */
  ghost predicate Swapped(s: seq<string>, t: seq<string>, x: int, y: int, len: int) {
    && 0 <= x <= x + len <= y <= y + len <= |s| == |t|
    && (forall k {:trigger t[k]} :: x <= k < x + len ==> t[k] == s[k + (y - x)])
    && (forall k {:trigger t[k]} :: y <= k < y + len ==> t[k] == s[k - (y - x)])
    && (forall k {:trigger t[k]} :: 0 <= k < |t| && !(x <= k < x + len) && !(y <= k < y + len) ==> t[k] == s[k])
  }

  /** The bottom block, when it is the shorter, swapped with the end of the top one. */
  lemma SwapLow(s: seq<string>, t: seq<string>, bottom: int, middle: int, y: int, top: int, goal: seq<string>)
    requires RotatesTo(s, bottom, middle, top, goal) && middle < y && top - y == middle - bottom
    requires Swapped(s, t, bottom, y, middle - bottom)
    ensures RotatesTo(t, bottom, middle, y, goal)
  {
  }

  /** The top block, when it is not the longer, swapped with the start of the bottom one. */
  lemma SwapHigh(s: seq<string>, t: seq<string>, bottom: int, x: int, middle: int, top: int, goal: seq<string>)
    requires RotatesTo(s, bottom, middle, top, goal) && x <= middle && x - bottom == top - middle
    requires Swapped(s, t, bottom, middle, x - bottom)
    ensures RotatesTo(t, x, middle, top, goal)
  {
  }

  method SwapBlocks(a: array<string>, x: nat, y: nat, len: nat)
    requires x + len <= y && y + len <= a.Length
    modifies a
    ensures Swapped(old(a[..]), a[..], x, y, len)
  {
    var i := 0;
    while i < len
      invariant i <= len
      invariant forall k :: x <= k < x + i ==> a[k] == old(a[k + (y - x)])
      invariant forall k :: y <= k < y + i ==> a[k] == old(a[k - (y - x)])
      invariant forall k {:trigger a[k]} :: 0 <= k < a.Length && !(x <= k < x + i) && !(y <= k < y + i) ==>
                a[k] == old(a[k])
    {
      a[x + i], a[y + i] := a[y + i], a[x + i];
      i := i + 1;
    }
  }

  /** The bottom block is the short one: swap it with the top part of the top block. */
  method SwapBottomUp(a: array<string>, bottom: int, middle: int, top: int, ghost goal: seq<string>) returns (top': int)
    requires RotatesTo(a[..], bottom, middle, top, goal) && bottom < middle && middle - bottom < top - middle
    modifies a
    ensures bottom < top' < top && RotatesTo(a[..], bottom, middle, top', goal)
  {
    ghost var was := a[..];
    var len := middle - bottom;
    top' := top - len;
    SwapBlocks(a, bottom, top', len);
    SwapLow(was, a[..], bottom, middle, top', top, goal);
  }

  /** The top block is the short one: swap it with the bottom part of the bottom block. */
  method SwapTopDown(a: array<string>, bottom: int, middle: int, top: int, ghost goal: seq<string>)
    returns (bottom': int)
    requires RotatesTo(a[..], bottom, middle, top, goal) && middle < top && top - middle <= middle - bottom
    modifies a
    ensures bottom < bottom' < top && RotatesTo(a[..], bottom', middle, top, goal)
  {
    ghost var was := a[..];
    var len := top - middle;
    bottom' := bottom + len;
    SwapBlocks(a, bottom, middle, len);
    SwapHigh(was, a[..], bottom, bottom', middle, top, goal);
  }

  /** exchange: [first, last) and [last, end) change places, by swapping the
      shorter block into its final place until nothing is left to swap. */
  method Exchange(a: array<string>, first: nat, last: nat, end: nat)
    requires first <= last <= end <= a.Length
    modifies a
    ensures a[..] == Rotated(old(a[..]), first, last, end)
  {
    var bottom, middle, top := first, last, end;
    ghost var goal := Rotated(a[..], first, last, end);
    RotatedByIndex(a[..], first, last, end);
    while top > middle && middle > bottom
      invariant RotatesTo(a[..], bottom, middle, top, goal)
      decreases top - bottom
    {
      if top - middle > middle - bottom {
        top := SwapBottomUp(a, bottom, middle, top, goal);
      } else {
        bottom := SwapTopDown(a, bottom, middle, top, goal);
      }
    }
  }
}
