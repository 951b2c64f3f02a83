/** `findRelated`: breadth-first search over the links of active memories, bounded in depth. */
module Related {
  import opened Base

  type MemoryId = int

  /** For each active memory the active memories its links name, in the query's order. */
  type Links = map<MemoryId, seq<MemoryId>>

  ghost predicate Closed(links: Links) {
    forall a, b :: a in links && b in links[a] ==> b in links
  }

  /** The memories at link distance at most d. */
  ghost function Ball(links: Links, start: MemoryId, d: nat): set<MemoryId> {
    if d == 0 then {start}
    else Ball(links, start, d - 1) + set a, b | a in Ball(links, start, d - 1) && a in links && b in links[a] :: b
  }

  /** A walk along links. */
  ghost predicate IsWalk(links: Links, walk: seq<MemoryId>) {
    |walk| > 0 && forall i :: 0 <= i < |walk| - 1 ==> walk[i] in links && walk[i + 1] in links[walk[i]]
  }

  ghost predicate WalkTo(links: Links, start: MemoryId, id: MemoryId, d: nat) {
    exists walk :: IsWalk(links, walk) && walk[0] == start && walk[|walk| - 1] == id && |walk| <= d + 1
  }

  /** The ball holds exactly the memories that a walk of at most d links leads to. */
  lemma {:induction false} BallIsWalks(links: Links, start: MemoryId, id: MemoryId, d: nat)
    ensures id in Ball(links, start, d) <==> WalkTo(links, start, id, d)
  {
    if id in Ball(links, start, d) { WalkInBall(links, start, id, d); }
    if WalkTo(links, start, id, d) {
      var walk :| IsWalk(links, walk) && walk[0] == start && walk[|walk| - 1] == id && |walk| <= d + 1;
      WalkStaysInBall(links, start, walk, d);
    }
  }

  lemma {:induction false} WalkInBall(links: Links, start: MemoryId, id: MemoryId, d: nat)
    requires id in Ball(links, start, d)
    ensures WalkTo(links, start, id, d)
    decreases d
  {
    if d == 0 {
      assert IsWalk(links, [start]);
    } else if id in Ball(links, start, d - 1) {
      WalkInBall(links, start, id, d - 1);
    } else {
      var a :| a in Ball(links, start, d - 1) && a in links && id in links[a];
      WalkInBall(links, start, a, d - 1);
      var walk :| IsWalk(links, walk) && walk[0] == start && walk[|walk| - 1] == a && |walk| <= d;
      assert IsWalk(links, walk + [id]);
    }
  }

  lemma StepInBall(links: Links, start: MemoryId, a: MemoryId, b: MemoryId, d: nat)
    requires d > 0 && a in Ball(links, start, d - 1) && a in links && b in links[a]
    ensures b in Ball(links, start, d)
  {
  }

  lemma {:induction false} WalkStaysInBall(links: Links, start: MemoryId, walk: seq<MemoryId>, d: nat)
    requires IsWalk(links, walk) && walk[0] == start && |walk| <= d + 1
    ensures walk[|walk| - 1] in Ball(links, start, d)
  {
    if |walk| > 1 {
      var n := |walk| - 1;
      assert walk[n - 1] in links && walk[n - 1 + 1] in links[walk[n - 1]];
      WalkStaysInBall(links, start, walk[..n], d - 1);
      StepInBall(links, start, walk[..n][n - 1], walk[n], d);
    } else {
      BallsGrow(links, start, 0, d);
    }
  }

  /** The link distance is exactly d. */
  ghost predicate AtDistance(links: Links, start: MemoryId, id: MemoryId, d: nat) {
    id in Ball(links, start, d) && forall e: nat :: e < d ==> id !in Ball(links, start, e)
  }

  lemma {:induction false} BallsGrow(links: Links, start: MemoryId, d: nat, e: nat)
    requires d <= e
    ensures Ball(links, start, d) <= Ball(links, start, e)
  {
    if d < e { BallsGrow(links, start, d, e - 1); }
  }

  /** Memories are discovered in order of distance. */
  ghost predicate InOrder(depths: seq<nat>) {
    forall i, j :: 0 <= i < j < |depths| ==> depths[i] <= depths[j]
  }

  ghost predicate DepthsAreDistances(links: Links, start: MemoryId, cap: nat, order: seq<MemoryId>, depths: seq<nat>)
    requires |order| == |depths|
  {
    forall i :: 0 <= i < |order|
      ==> order[i] in links && depths[i] <= cap && AtDistance(links, start, order[i], depths[i])
  }

  /** The neighbours of every expanded memory have been discovered. */
  ghost predicate Expanded(links: Links, cap: nat, order: seq<MemoryId>, depths: seq<nat>, head: nat)
    requires |order| == |depths| && head <= |order|
  {
    forall i, b :: 0 <= i < head && depths[i] < cap && order[i] in links && b in links[order[i]] ==> b in order
  }

  /** What the search knows: the discovered memories in order, their depths, and how many were expanded. */
  ghost predicate Progress(links: Links, start: MemoryId, cap: nat, order: seq<MemoryId>, depths: seq<nat>, head: nat) {
    && |order| == |depths| && 0 < |order| && head <= |order| && order[0] == start && depths[0] == 0
    && Distinct(order) && InOrder(depths)
    && DepthsAreDistances(links, start, cap, order, depths)
    && Expanded(links, cap, order, depths, head)
  }

  /** Nothing discovered is more than one step beyond the memory being expanded. */
  ghost predicate Within(depths: seq<nat>, bound: nat) {
    forall i :: 0 <= i < |depths| ==> depths[i] <= bound
  }

  /** Discovering one more memory keeps what the search knows. */
  lemma PushKeeps(links: Links, start: MemoryId, cap: nat, order: seq<MemoryId>, depths: seq<nat>, head: nat,
                  b: MemoryId, d: nat)
    requires Progress(links, start, cap, order, depths, head) && Within(depths, d) && d <= cap
    requires b !in order && b in links && AtDistance(links, start, b, d)
    ensures Progress(links, start, cap, order + [b], depths + [d], head)
  {
    hide AtDistance, Ball;
    assert Distinct(order + [b]);
    assert InOrder(depths + [d]);
    assert DepthsAreDistances(links, start, cap, order + [b], depths + [d]);
    forall i, x | 0 <= i < head && depths[i] < cap && order[i] in links && x in links[order[i]]
      ensures x in order + [b]
    {
      assert x in order;
    }
    assert Expanded(links, cap, order + [b], depths + [d], head);
  }

  /** Once all neighbours of the memory at the head are known, the head moves on. */
  lemma AdvanceKeeps(links: Links, start: MemoryId, cap: nat, order: seq<MemoryId>, depths: seq<nat>, head: nat)
    requires Progress(links, start, cap, order, depths, head) && head < |order|
    requires depths[head] < cap ==> forall b :: b in links[order[head]] ==> b in order
    ensures Progress(links, start, cap, order, depths, head + 1)
  {
    hide AtDistance, Ball;
  }

  /** A neighbour of a discovered memory nearer than the head has been discovered. */
  lemma NeighbourIsKnown(links: Links, start: MemoryId, cap: nat, order: seq<MemoryId>, depths: seq<nat>, head: nat,
                         d: nat, i: nat, x: MemoryId)
    requires Progress(links, start, cap, order, depths, head) && 0 < d <= cap && (head < |order| ==> d <= depths[head])
    requires i < |order| && order[i] in Ball(links, start, d - 1) && order[i] in links && x in links[order[i]]
    ensures x in order
  {
    hide Distinct, Ball;
    assert AtDistance(links, start, order[i], depths[i]);
    assert depths[i] <= d - 1;
    assert i < head;
  }

  lemma NewInBall(links: Links, start: MemoryId, d: nat, x: MemoryId) returns (a: MemoryId)
    requires 0 < d && x in Ball(links, start, d) && x !in Ball(links, start, d - 1)
    ensures a in Ball(links, start, d - 1) && a in links && x in links[a]
  {
    a :| a in Ball(links, start, d - 1) && a in links && x in links[a];
  }

  /** Everything nearer than an unexpanded memory has been discovered. */
  lemma {:induction false} NearerIsKnown(links: Links, start: MemoryId, cap: nat, order: seq<MemoryId>,
                                         depths: seq<nat>, head: nat, d: nat)
    requires Progress(links, start, cap, order, depths, head) && d <= cap
    requires head < |order| ==> d <= depths[head]
    ensures forall x :: x in Ball(links, start, d) ==> x in order
  {
    hide AtDistance, Distinct, InOrder, Expanded, DepthsAreDistances;
    if d > 0 {
      NearerIsKnown(links, start, cap, order, depths, head, d - 1);
      forall x | x in Ball(links, start, d) && x !in Ball(links, start, d - 1) ensures x in order {
        var a := NewInBall(links, start, d, x);
        var i :| 0 <= i < |order| && order[i] == a;
        NeighbourIsKnown(links, start, cap, order, depths, head, d, i, x);
      }
    }
  }

  /** A newly found neighbour of the memory being expanded lies one step further away. */
  lemma DiscoveredAtNextDepth(links: Links, start: MemoryId, cap: nat, order: seq<MemoryId>, depths: seq<nat>,
                              head: nat, b: MemoryId)
    requires Progress(links, start, cap, order, depths, head) && head < |order| && depths[head] < cap
    requires b in links[order[head]] && b !in order
    ensures AtDistance(links, start, b, depths[head] + 1)
  {
    var d := depths[head];
    assert AtDistance(links, start, order[head], d);
    NearerIsKnown(links, start, cap, order, depths, head, d);
    forall e: nat | e < d + 1 ensures b !in Ball(links, start, e) { BallsGrow(links, start, e, d); }
  }

  datatype QueueEntry = QueueEntry(row: MemoryId, depth: nat)

  /** The queue is the undiscovered rest of the discovery order, with depths. */
  ghost predicate QueueIs(queue: seq<QueueEntry>, order: seq<MemoryId>, depths: seq<nat>, head: nat) {
    && |order| == |depths| && head <= |order| && |queue| == |order| - head
    && forall i :: 0 <= i < |queue| ==> queue[i] == QueueEntry(order[head + i], depths[head + i])
  }

  /** Expanding one memory, which has just left the queue: the loop over its links. */
  method Expand(links: Links, start: MemoryId, cap: nat, current: QueueEntry, rows: seq<MemoryId>,
                queue: seq<QueueEntry>,
                ghost depths: seq<nat>, ghost head: nat)
    returns (rows': seq<MemoryId>, queue': seq<QueueEntry>, ghost depths': seq<nat>)
    requires Closed(links) && Progress(links, start, cap, rows, depths, head) && head < |rows|
    requires QueueIs(queue, rows, depths, head + 1)
    requires current == QueueEntry(rows[head], depths[head]) && current.depth < cap && Within(depths, current.depth + 1)
    ensures Progress(links, start, cap, rows', depths', head + 1) && QueueIs(queue', rows', depths', head + 1)
    ensures Within(depths', current.depth + 1) && rows <= rows' && depths <= depths'
  {
    hide AtDistance, Ball;
    var next := links[current.row];
    rows', queue', depths' := rows, queue, depths;
    for k := 0 to |next|
      invariant Progress(links, start, cap, rows', depths', head) && QueueIs(queue', rows', depths', head + 1)
      invariant Within(depths', current.depth + 1) && rows <= rows' && depths <= depths'
      invariant forall j :: 0 <= j < k ==> next[j] in rows'
    {
      var row := next[k];
      if row !in rows' {
        DiscoveredAtNextDepth(links, start, cap, rows', depths', head, row);
        PushKeeps(links, start, cap, rows', depths', head, row, current.depth + 1);
        rows', queue', depths' :=
          rows' + [row], queue' + [QueueEntry(row, current.depth + 1)], depths' + [current.depth + 1];
      }
    }
    AdvanceKeeps(links, start, cap, rows', depths', head);
  }

  /** `Math.min(Math.max(requestedDepth, 1), 3)`. */
  function CappedDepth(requested: int): (cap: nat)
    ensures 1 <= cap <= 3
  {
    if requested < 1 then 1 else if requested > 3 then 3 else requested
  }

  /**
    The search returns every memory at link distance at most the capped depth exactly once, nothing else,
    and in order of distance; it stops on cyclic graphs because it discovers each memory once.
   */
  method FindRelated(links: Links, start: MemoryId, requestedDepth: int)
    returns (rows: seq<MemoryId>, truncated: bool, ghost depths: seq<nat>)
    requires Closed(links) && start in links
    ensures Distinct(rows) && Elements(rows) == Ball(links, start, CappedDepth(requestedDepth))
    ensures 1 <= requestedDepth <= 3 ==> Elements(rows) == Ball(links, start, requestedDepth)
    ensures requestedDepth < 1 ==> Elements(rows) == Ball(links, start, 1)
    ensures requestedDepth > 3 ==> Elements(rows) == Ball(links, start, 3)
    ensures |depths| == |rows| && forall i :: 0 <= i < |rows| ==> AtDistance(links, start, rows[i], depths[i])
    ensures InOrder(depths)
    ensures truncated <==> requestedDepth > 3
  {
    var cap := CappedDepth(requestedDepth);
    truncated := requestedDepth > 3;
    rows, depths := [start], [0];
    var queue := [QueueEntry(start, 0)];
    ghost var head := 0;
    while |queue| > 0
      invariant Progress(links, start, cap, rows, depths, head) && QueueIs(queue, rows, depths, head)
      invariant head < |rows| ==> Within(depths, depths[head] + 1)
      invariant |rows| <= |links|
      decreases |links| - |rows|, |queue|
    {
      hide AtDistance, Ball;
      var current := queue[0];
      queue := queue[1..];
      if current.depth >= cap {
        AdvanceKeeps(links, start, cap, rows, depths, head);
      } else {
        rows, queue, depths := Expand(links, start, cap, current, rows, queue, depths, head);
        DiscoveredWithinLinks(links, rows);
      }
      head := head + 1;
    }
    SearchFoundTheBall(links, start, cap, rows, depths);
  }

  lemma FoundIsInBall(links: Links, start: MemoryId, cap: nat, rows: seq<MemoryId>, depths: seq<nat>, i: nat)
    requires Progress(links, start, cap, rows, depths, |rows|) && i < |rows|
    ensures rows[i] in Ball(links, start, cap)
  {
    hide Distinct, InOrder, Expanded, Ball;
    assert AtDistance(links, start, rows[i], depths[i]);
    BallsGrow(links, start, depths[i], cap);
  }

  lemma SearchFoundTheBall(links: Links, start: MemoryId, cap: nat, rows: seq<MemoryId>, depths: seq<nat>)
    requires Progress(links, start, cap, rows, depths, |rows|)
    ensures Elements(rows) == Ball(links, start, cap)
  {
    hide Distinct, InOrder, Expanded, DepthsAreDistances, AtDistance;
    NearerIsKnown(links, start, cap, rows, depths, |rows|, cap);
    forall i | 0 <= i < |rows| ensures rows[i] in Ball(links, start, cap) {
      FoundIsInBall(links, start, cap, rows, depths, i);
    }
    var ball := Ball(links, start, cap);
    forall x | x in ball ensures x in rows {}
    SameElements(rows, ball);
  }

  lemma SameElements<T>(s: seq<T>, ball: set<T>)
    requires forall i :: 0 <= i < |s| ==> s[i] in ball
    requires forall x :: x in ball ==> x in s
    ensures Elements(s) == ball
  {
  }

  lemma DiscoveredWithinLinks(links: Links, rows: seq<MemoryId>)
    requires Distinct(rows) && forall i :: 0 <= i < |rows| ==> rows[i] in links
    ensures |rows| <= |links|
  {
    DistinctCount(rows);
    SubsetCount(Elements(rows), links.Keys);
    assert |links.Keys| == |links|;
  }

  lemma {:induction false} DistinctCount<T>(s: seq<T>)
    requires Distinct(s)
    ensures |Elements(s)| == |s|
  {
    if s != [] {
      var n := |s| - 1;
      DistinctCount(s[..n]);
      assert Elements(s) == Elements(s[..n]) + {s[n]};
      assert s[n] !in s[..n];
    }
  }

  lemma {:induction false} SubsetCount<T>(a: set<T>, b: set<T>)
    requires a <= b
    ensures |a| <= |b|
  {
    if a != {} {
      var x :| x in a;
      SubsetCount(a - {x}, b - {x});
    }
  }
}
