/** A doubly linked ring through arrays of links, headed by a sentinel: the free list of buffers. */
module FreeRing {
  import opened Numbers

  /** Node `i` of the cycle and its successor point at each other. */
  ghost predicate LinkAt(next: seq<nat>, prev: seq<nat>, c: seq<nat>, i: nat)
    requires i < |c|
  {
    var j := Succ(i, |c|);
    c[i] < |next| && c[j] < |prev| && next[c[i]] == c[j] && prev[c[j]] == c[i]
  }

  ghost predicate Distinct(c: seq<nat>) { forall i, j :: 0 <= i < j < |c| ==> c[i] != c[j] }

  /** The links form exactly the cycle `c`. */
  ghost predicate Linked(next: seq<nat>, prev: seq<nat>, c: seq<nat>) {
    && |next| == |prev| && c != [] && Distinct(c)
    && forall i :: 0 <= i < |c| ==> LinkAt(next, prev, c, i)
  }

  lemma Around(next: seq<nat>, prev: seq<nat>, c: seq<nat>, k: nat)
    requires Linked(next, prev, c) && 0 < k < |c|
    ensures LinkAt(next, prev, c, k) && LinkAt(next, prev, c, k - 1)
    ensures c[k] < |next| && prev[c[k]] == c[k - 1] && next[c[k]] == c[Succ(k, |c|)] < |next|
  {
  }

  /** Unlinking node `k`: its neighbours are joined. */
  lemma Unlinked(next: seq<nat>, prev: seq<nat>, next': seq<nat>, prev': seq<nat>, c: seq<nat>, k: nat)
    requires Linked(next, prev, c) && 0 < k < |c| && c[k - 1] < |next| && c[Succ(k, |c|)] < |prev|
    requires next' == next[c[k - 1] := c[Succ(k, |c|)]] && prev' == prev[c[Succ(k, |c|)] := c[k - 1]]
    ensures Linked(next', prev', c[..k] + c[k + 1..])
  {
    var d := c[..k] + c[k + 1..];
    forall i | 0 <= i < |d|
      ensures LinkAt(next', prev', d, i)
    {
      var o := if i < k then i else i + 1;
      assert LinkAt(next, prev, c, o) && LinkAt(next, prev, c, k);
      assert d[i] == c[o];
    }
  }

  /** Linking `b` in before the sentinel. */
  lemma LinkedLast(next: seq<nat>, prev: seq<nat>, next': seq<nat>, prev': seq<nat>, c: seq<nat>, b: nat)
    requires Linked(next, prev, c) && b < |next| && b !in c
    requires c[|c| - 1] < |next| && c[0] < |next|
    requires next' == next[b := c[0]][c[|c| - 1] := b] && prev' == prev[b := c[|c| - 1]][c[0] := b]
    ensures Linked(next', prev', c + [b])
  {
    var d := c + [b];
    forall i | 0 <= i < |d|
      ensures LinkAt(next', prev', d, i)
    {
      if i < |c| { assert LinkAt(next, prev, c, i); }
    }
  }

  /** Nodes 0 to n-1, and the sentinel n. */
  class Ring {
    const next: array<nat>
    const prev: array<nat>
    const head: nat
    ghost var order: seq<nat>

    ghost predicate Valid()
      reads this, next, prev
    {
      && next != prev && next.Length == prev.Length == head + 1
      && (forall i :: 0 <= i < |order| ==> order[i] < head)
      && Linked(next[..], prev[..], [head] + order)
    }

    constructor (n: nat)
      ensures Valid() && order == [] && head == n && fresh(next) && fresh(prev)
    {
      next := new nat[n + 1](_ => n);
      prev := new nat[n + 1](_ => n);
      head, order := n, [];
      new;
      assert LinkAt(next[..], prev[..], [head], 0);
    }

    method First() returns (b: nat)
      requires Valid()
      ensures b == if order == [] then head else order[0]
    {
      assert LinkAt(next[..], prev[..], [head] + order, 0);
      b := next[head];
    }

    method Remove(b: nat, ghost k: nat)
      requires Valid() && k < |order| && order[k] == b
      modifies next, prev, `order
      ensures Valid() && order == old(order)[..k] + old(order)[k + 1..]
    {
      hide Linked, Distinct;
      ghost var c, n0, p0 := [head] + order, next[..], prev[..];
      Around(n0, p0, c, k + 1);
      var before, behind := prev[b], next[b];
      next[before] := behind;
      prev[behind] := before;
      Unlinked(n0, p0, next[..], prev[..], c, k + 1);
      assert c[..k + 1] + c[k + 2..] == [head] + (order[..k] + order[k + 1..]);
      order := order[..k] + order[k + 1..];
    }

    method Append(b: nat)
      requires Valid() && b < head && b !in order
      modifies next, prev, `order
      ensures Valid() && order == old(order) + [b]
    {
      ghost var c, n0, p0 := [head] + order, next[..], prev[..];
      assert LinkAt(n0, p0, c, |c| - 1);
      hide Linked, Distinct;
      next[b] := head;
      prev[b] := prev[head];
      next[prev[head]] := b;
      prev[head] := b;
      LinkedLast(n0, p0, next[..], prev[..], c, b);
      assert c + [b] == [head] + (order + [b]);
      order := order + [b];
    }
  }
}
