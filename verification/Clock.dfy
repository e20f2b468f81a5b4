// The clock replacement of lab3/kern/mm/swap_clock.c: what a victim search does
// from any state, and why with these three operations it is first in, first out.

module Clock {
  import opened Lists

  const HEAD: int := -1   // the list head, between the last page and the first

  // list_next on a list of n entries.
  function Next(hand: int, n: nat): int {
    if hand + 1 < n then hand + 1 else HEAD
  }

  // Where a search begins: the head is skipped.
  function First(hand: int): int {
    if hand == HEAD then 0 else hand
  }

  // The list as the hand comes by it, once round.
  function Round(q: seq<nat>, start: nat): seq<nat>
    requires start < |q|
  {
    q[start..] + q[..start]
  }

  // Position of the hand after k entries.
  function Turn(start: nat, k: nat, n: nat): nat
    requires start < n && k <= n
  {
    if start + k < n then start + k else start + k - n
  }

  lemma {:induction false} RoundAt(q: seq<nat>, start: nat, k: nat)
    requires start < |q| && k <= |q|
    ensures |Round(q, start)| == |q|
    ensures k < |q| ==> Round(q, start)[k] == q[Turn(start, k, |q|)]
                        && First(Next(Turn(start, k, |q|), |q|)) == Turn(start, k + 1, |q|)
    ensures k == |q| ==> Turn(start, k, |q|) == start && Round(q, start)[0] == q[start]
  {
  }

  lemma {:induction false} RoundNoDup(q: seq<nat>, start: nat)
    requires NoDup(q) && start < |q|
    ensures NoDup(Round(q, start)) && forall i :: 0 <= i < |q| ==> Round(q, start)[i] in q
  {
    var r := Round(q, start);
    forall i, j | 0 <= i < j < |r| ensures r[i] != r[j] {
      RoundAt(q, start, i);
      RoundAt(q, start, j);
    }
  }

  // Every page of the first k in r was seen, the next was not if there is one.
  ghost predicate Chosen(r: seq<nat>, k: nat, seen: seq<bool>) {
    && k <= |r| && (forall j :: 0 <= j < |r| ==> r[j] < |seen|)
    && (forall j :: 0 <= j < k ==> seen[r[j]])
    && (k < |r| ==> !seen[r[k]])
  }

  // The pages in the list were marked not seen.
  ghost predicate Cleared(list: seq<nat>, was: seq<bool>, now: seq<bool>) {
    |now| == |was| && forall p :: 0 <= p < |was| ==> now[p] == (was[p] && p !in list)
  }

  lemma {:induction false} ClearedNone(r: seq<nat>, seen: seq<bool>)
    ensures Cleared(r[..0], seen, seen)
  {
  }

  // The page the hand is at after k entries.
  function Looked(r: seq<nat>, k: nat): nat
    requires r != [] && k <= |r|
  {
    r[if k < |r| then k else 0]
  }

  lemma {:induction false} Look(r: seq<nat>, k: nat, was: seq<bool>, now: seq<bool>)
    requires NoDup(r) && r != [] && k <= |r| && Cleared(r[..k], was, now)
    requires forall j :: 0 <= j < |r| ==> r[j] < |was|
    ensures k < |r| ==> now[r[k]] == was[r[k]] && Cleared(r[..k + 1], was, now[r[k] := false])
    ensures k == |r| ==> !now[r[0]]
  {
    if k < |r| {
      assert r[..k + 1] == r[..k] + [r[k]];
    } else {
      assert r[0] in r[..k];
    }
  }

  function Without(q: seq<nat>, i: nat): seq<nat>
    requires i < |q|
  {
    q[..i] + q[i + 1..]
  }

  lemma {:induction false} WithoutNoDup(q: seq<nat>, i: nat)
    requires NoDup(q) && i < |q|
    ensures NoDup(Without(q, i))
    ensures forall x :: x in Without(q, i) <==> x in q && x != q[i]
  {
    var r := Without(q, i);
    forall j | 0 <= j < |r| ensures r[j] == q[if j < i then j else j + 1] {
    }
    forall x | x in q && x != q[i] ensures x in r {
      var j :| 0 <= j < |q| && q[j] == x;
      assert r[if j < i then j else j - 1] == x;
    }
  }

  // ---------- First in, first out ----------

  // The first z pages of the queue are not seen, the others are.
  ghost predicate SplitAt(q: seq<nat>, seen: seq<bool>, z: int) {
    forall i :: 0 <= i < |q| ==> q[i] < |seen| && (seen[q[i]] <==> i >= z)
  }

  // The hand rests before or at the first page, and the pages not seen come
  // before those seen.
  ghost predicate InOrder(q: seq<nat>, seen: seq<bool>, hand: int) {
    HEAD <= hand <= 0 && exists z :: 0 <= z <= |q| && SplitAt(q, seen, z)
  }

  lemma {:induction false} InOrderMapped(q: seq<nat>, seen: seq<bool>, hand: int, p: nat)
    requires InOrder(q, seen, hand) && p !in q && p < |seen|
    ensures InOrder(q + [p], seen[p := true], hand)
  {
    var z :| 0 <= z <= |q| && SplitAt(q, seen, z);
    assert SplitAt(q + [p], seen[p := true], z);
  }

  // In such a state the victim is the first page, found at once or after one
  // full turn, and the state stays such.
  lemma {:induction false} InOrderVictim(q: seq<nat>, seen: seq<bool>, hand: int, k: nat, now: seq<bool>, hand': int)
    requires InOrder(q, seen, hand) && q != [] && NoDup(q)
    requires Chosen(Round(q, First(hand)), k, seen) && Cleared(Round(q, First(hand))[..k], seen, now)
    requires var i := Turn(First(hand), k, |q|); hand' == if i + 1 < |q| then i else HEAD
    ensures Turn(First(hand), k, |q|) == 0 && (k == 0 || k == |q|)
    ensures Without(q, 0) == q[1..] && InOrder(q[1..], now, hand')
  {
    hide NoDup, Chosen, Cleared, SplitAt, Round, Without;
    var z :| 0 <= z <= |q| && SplitAt(q, seen, z);
    AtFront(q);
    if z == 0 {
      AllSeen(q, seen, k, now);
    } else {
      FirstUnseen(q, seen, z, k, now);
    }
  }

  lemma {:induction false} AtFront(q: seq<nat>)
    requires q != []
    ensures Round(q, 0) == q && Without(q, 0) == q[1..]
  {
  }

  lemma {:induction false} AllSeen(q: seq<nat>, seen: seq<bool>, k: nat, now: seq<bool>)
    requires q != [] && SplitAt(q, seen, 0) && Chosen(q, k, seen) && Cleared(q[..k], seen, now)
    ensures k == |q| && SplitAt(q[1..], now, |q| - 1)
  {
    assert q[..|q|] == q;
  }

  lemma {:induction false} FirstUnseen(q: seq<nat>, seen: seq<bool>, z: int, k: nat, now: seq<bool>)
    requires 0 < z <= |q| && SplitAt(q, seen, z) && Chosen(q, k, seen) && Cleared(q[..k], seen, now)
    ensures k == 0 && SplitAt(q[1..], now, z - 1)
  {
    assert !seen[q[0]];
  }

  class ClockManager {
    var queue: seq<nat>          // pra_list_head, from the first entry on
    var hand: int                // curr_ptr
    const visited: array<bool>   // of each page
    ghost var arrived: seq<nat>
    ghost var evicted: seq<nat>

    ghost predicate Valid()
      reads this
    {
      && NoDup(queue) && (forall i :: 0 <= i < |queue| ==> queue[i] < visited.Length)
      && HEAD <= hand < |queue|
    }

    ghost predicate Fifo()
      reads this, visited
    {
      InOrder(queue, visited[..], hand) && arrived == evicted + queue
    }

    constructor (pages: nat)
      ensures Valid() && queue == [] && visited.Length == pages && Fifo() && fresh(visited)
    {
      queue, hand := [], HEAD;
      visited := new bool[pages];
      arrived, evicted := [], [];
      new;
      assert SplitAt(queue, visited[..], 0);
    }

    // _clock_init_mm
    method InitMm()
      modifies this
      ensures Valid() && queue == [] && Fifo()
    {
      queue, hand := [], HEAD;
      arrived, evicted := [], [];
      assert SplitAt(queue, visited[..], 0);
    }

    // _clock_map_swappable
    method MapSwappable(p: nat)
      requires Valid() && p !in queue && p < visited.Length
      modifies this`queue, this`arrived, visited
      ensures Valid() && queue == old(queue) + [p] && hand == old(hand)
      ensures visited[p] && forall q :: 0 <= q < visited.Length && q != p ==> visited[q] == old(visited[q])
      ensures old(Fifo()) ==> Fifo() && arrived == old(arrived) + [p]
    {
      queue := queue + [p];
      arrived := arrived + [p];
      visited[p] := true;
      if old(Fifo()) {
        InOrderMapped(old(queue), old(visited[..]), hand, p);
      }
    }

    // _clock_swap_out_victim. From any state the victim is the first page not
    // seen from the hand on or, when every page was seen, the page at the hand;
    // the pages passed over are marked not seen, and no other page is touched.
    method SwapOutVictim() returns (p: nat, ghost k: nat)
      requires Valid() && queue != []
      modifies this`queue, this`hand, this`evicted, visited
      ensures var r := Round(old(queue), First(old(hand)));
        && Chosen(r, k, old(visited[..])) && p == Looked(r, k)
        && Cleared(r[..k], old(visited[..]), visited[..])
      ensures var n, i := |old(queue)|, Turn(First(old(hand)), k, |old(queue)|);
        && p == old(queue)[i] && queue == Without(old(queue), i)
        && hand == if i + 1 < n then i else HEAD
      ensures Valid() && evicted == old(evicted) + [p]
      ensures old(Fifo()) ==> Fifo() && p == old(queue)[0] && queue == old(queue)[1..] && (k == 0 || k == |old(queue)|)
    {
      hide NoDup, Cleared, Chosen, Round, InOrder;
      ghost var q, seen, h, gone := queue, visited[..], hand, evicted;
      k := Search();
      p := queue[hand];
      RoundAt(q, First(h), k);
      Evict();
      if InOrder(q, seen, h) && arrived == gone + q {
        InOrderVictim(q, seen, h, k, visited[..], hand);
        assert arrived == gone + [q[0]] + q[1..];
      }
    }

    // The search itself: the hand stops at the victim.
    method Search() returns (ghost k: nat)
      requires Valid() && queue != []
      modifies this`hand, visited
      ensures Valid() && Chosen(Round(queue, First(old(hand))), k, old(visited[..]))
      ensures Cleared(Round(queue, First(old(hand)))[..k], old(visited[..]), visited[..])
      ensures k <= |queue| && hand == Turn(First(old(hand)), k, |queue|)
    {
      hide NoDup, Cleared, Round;
      ghost var start, seen := First(hand), visited[..];
      ghost var r := Round(queue, start);
      RoundNoDup(queue, start);
      RoundAt(queue, start, |queue|);
      ClearedNone(r, seen);
      k := 0;
      while true
        invariant Valid() && k <= |queue| && First(hand) == Turn(start, k, |queue|)
        invariant forall j :: 0 <= j < k ==> seen[r[j]]
        invariant Cleared(r[..k], seen, visited[..])
        decreases |queue| - k
      {
        RoundAt(queue, start, k);
        Look(r, k, seen, visited[..]);
        if hand == HEAD {
          hand := 0;
        }
        var p := queue[hand];
        if visited[p] {
          visited[p] := false;
        } else {
          break;
        }
        hand := Next(hand, |queue|);
        k := k + 1;
      }
    }

    // Unlink the page at the hand, which moves on.
    method Evict()
      requires Valid() && hand != HEAD
      modifies this`queue, this`hand, this`evicted
      ensures Valid() && queue == Without(old(queue), old(hand)) && evicted == old(evicted) + [old(queue[hand])]
      ensures hand == if old(hand) + 1 < |old(queue)| then old(hand) else HEAD
    {
      var i := hand;
      WithoutNoDup(queue, i);
      evicted := evicted + [queue[i]];
      hand := Next(hand, |queue|);
      queue := Without(queue, i);
      hand := if hand == HEAD then HEAD else hand - 1;
    }
  }
}
