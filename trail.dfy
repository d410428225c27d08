/** The bot's bounded memory of its own cells (client_evaks.cpp:34-37, 141-151):
    a set for membership and a queue for arrival order, capped at 5000 entries. */
module Trail {
  import opened Geometry

  /** MAX_TRAIL_SIZE. */
  const MaxTrailSize: nat := 5000

  function Min(a: int, b: int): int
  {
    if a < b then a else b
  }

  /** The cells held anywhere in a queue. */
  function Elements(q: seq<Position>): set<Position>
  {
    set p | p in q
  }

  predicate Distinct(q: seq<Position>)
  {
    forall i, j :: 0 <= i < j < |q| ==> q[i] != q[j]
  }

  /** The two containers side by side: `trail` (unordered_set) and `queue` (std::queue, front first). */
  datatype TrailMemory = TrailMemory(trail: set<Position>, queue: seq<Position>)

  const Empty := TrailMemory({}, [])

  /** What always holds: the queue fits the capacity and every remembered cell is queued. */
  predicate Bounded(m: TrailMemory)
  {
    |m.queue| <= MaxTrailSize && m.trail <= Elements(m.queue)
  }

  /** What holds while no cell has been recorded twice: set and queue agree
      and the queue has no duplicates. */
  predicate Consistent(m: TrailMemory)
  {
    |m.queue| <= MaxTrailSize && m.trail == Elements(m.queue) && Distinct(m.queue)
  }

  /** The trail update in sendMove: insert into the set, push on the queue,
      and when the queue has grown past the capacity pop its front and erase
      that cell from the set. */
  function Recorded(m: TrailMemory, p: Position): (r: TrailMemory)
  {
    var trail, queue := m.trail + {p}, m.queue + [p];
    if |queue| > MaxTrailSize then TrailMemory(trail - {queue[0]}, queue[1..])
    else TrailMemory(trail, queue)
  }

  /** Queue length is min(old length + 1, 5000); the new cell is at the back;
      eviction drops exactly the front entry and keeps the others in order. */
  lemma RecordIsFifo(m: TrailMemory, p: Position)
    requires |m.queue| <= MaxTrailSize
    ensures |Recorded(m, p).queue| == Min(|m.queue| + 1, MaxTrailSize)
    ensures |m.queue| < MaxTrailSize ==> Recorded(m, p).queue == m.queue + [p]
    ensures |m.queue| == MaxTrailSize ==> Recorded(m, p).queue == m.queue[1..] + [p]
  {
  }

  /** The weak invariant survives every record, duplicates included. */
  lemma RecordKeepsBounded(m: TrailMemory, p: Position)
    requires Bounded(m)
    ensures Bounded(Recorded(m, p))
  {
    var q := m.queue + [p];
    var r := Recorded(m, p);
    if |q| > MaxTrailSize {
      forall c | c in r.trail
        ensures c in Elements(r.queue)
      {
        assert c in Elements(q);
        var i :| 0 <= i < |q| && q[i] == c;
        assert i != 0;
        assert r.queue[i - 1] == c;
      }
    }
  }

  /** Recording a cell that is not yet remembered keeps set and queue in
      agreement and the queue duplicate-free; the cell is then remembered. */
  lemma RecordKeepsConsistent(m: TrailMemory, p: Position)
    requires Consistent(m)
    requires p !in m.trail
    ensures Consistent(Recorded(m, p))
    ensures p in Recorded(m, p).trail
  {
    var q := m.queue + [p];
    var r := Recorded(m, p);
    assert Distinct(q) by {
      forall i, j | 0 <= i < j < |q| ensures q[i] != q[j] {
        if j < |m.queue| {
          assert q[i] == m.queue[i] && q[j] == m.queue[j];
        } else {
          assert q[i] in Elements(m.queue);
        }
      }
    }
    assert Elements(q) == m.trail + {p};
    if |q| > MaxTrailSize {
      assert r.queue == q[1..];
      forall c | c in Elements(r.queue)
        ensures c in r.trail
      {
        var i :| 0 <= i < |r.queue| && r.queue[i] == c;
        assert q[i + 1] == c;
      }
      forall c | c in r.trail
        ensures c in Elements(r.queue)
      {
        var i :| 0 <= i < |q| && q[i] == c;
        assert r.queue[i - 1] == c;
      }
    }
  }

  /** Hazard: recording a cell already remembered (the forced east move can do
      this) pushes a second copy onto the queue. */
  lemma RecordAgainDuplicates(m: TrailMemory, p: Position)
    requires Bounded(m)
    requires p in m.trail
    requires |m.queue| < MaxTrailSize
    ensures !Distinct(Recorded(m, p).queue)
  {
    var i :| 0 <= i < |m.queue| && m.queue[i] == p;
    var q := Recorded(m, p).queue;
    assert q[i] == p && q[|m.queue|] == p;
  }

  /** Hazard: when the copy being evicted is the older copy of the cell being
      recorded, the set forgets a cell that the queue still holds. */
  lemma EvictingOlderCopyForgets(m: TrailMemory, p: Position)
    requires Consistent(m)
    requires |m.queue| == MaxTrailSize && m.queue[0] == p
    ensures p in Elements(Recorded(m, p).queue)
    ensures p !in Recorded(m, p).trail
    ensures !Consistent(Recorded(m, p))
  {
    var r := Recorded(m, p);
    assert r.queue[|r.queue| - 1] == p;
  }

  /** Recording the cells of `ps` one after the other, oldest first. */
  function RecordAll(m: TrailMemory, ps: seq<Position>): (r: TrailMemory)
  {
    if ps == [] then m else Recorded(RecordAll(m, ps[..|ps| - 1]), ps[|ps| - 1])
  }

  /** Starting from an empty trail, the queue holds exactly the newest
      min(|ps|, 5000) recorded cells, oldest first: the others were evicted in order. */
  lemma {:induction false} RecordAllKeepsNewest(ps: seq<Position>)
    ensures RecordAll(Empty, ps).queue == ps[|ps| - Min(|ps|, MaxTrailSize)..]
  {
    if ps != [] {
      var n := |ps|;
      var init := ps[..n - 1];
      RecordAllKeepsNewest(init);
      var prev := RecordAll(Empty, init);
      assert prev.queue == init[n - 1 - Min(n - 1, MaxTrailSize)..];
      if n - 1 < MaxTrailSize {
        assert prev.queue == init;
        assert init + [ps[n - 1]] == ps;
      } else {
        assert prev.queue + [ps[n - 1]] == ps[n - 1 - MaxTrailSize..];
        assert (prev.queue + [ps[n - 1]])[1..] == ps[n - MaxTrailSize..];
      }
    }
  }

  /** The newest recorded cell of a distinct sequence is not remembered before it is recorded. */
  lemma NewCellNotRemembered(ps: seq<Position>)
    requires Distinct(ps) && ps != []
    requires Consistent(RecordAll(Empty, ps[..|ps| - 1]))
    ensures ps[|ps| - 1] !in RecordAll(Empty, ps[..|ps| - 1]).trail
  {
    RecordAllKeepsNewest(ps[..|ps| - 1]);
  }

  /** Starting from an empty trail and recording pairwise distinct cells, set
      and queue agree after every record. */
  lemma {:induction false} RecordAllDistinctConsistent(ps: seq<Position>)
    requires Distinct(ps)
    ensures Consistent(RecordAll(Empty, ps))
  {
    if ps != [] {
      var init := ps[..|ps| - 1];
      assert Distinct(init) by {
        forall i, j | 0 <= i < j < |init| ensures init[i] != init[j] {
          assert init[i] == ps[i] && init[j] == ps[j];
        }
      }
      RecordAllDistinctConsistent(init);
      NewCellNotRemembered(ps);
      RecordKeepsConsistent(RecordAll(Empty, init), ps[|ps| - 1]);
    }
  }

  /** A duplicate-free queue holds as many distinct cells as it has entries. */
  lemma {:induction false} DistinctQueueSize(q: seq<Position>)
    requires Distinct(q)
    ensures |Elements(q)| == |q|
  {
    if q != [] {
      var init := q[..|q| - 1];
      assert Distinct(init) by {
        forall i, j | 0 <= i < j < |init| ensures init[i] != init[j] {
          assert init[i] == q[i] && init[j] == q[j];
        }
      }
      DistinctQueueSize(init);
      assert q == init + [q[|q| - 1]];
      assert Elements(q) == Elements(init) + {q[|q| - 1]};
      assert q[|q| - 1] !in Elements(init) by {
        forall i | 0 <= i < |init| ensures init[i] != q[|q| - 1] {
          assert init[i] == q[i];
        }
      }
    }
  }

  /** Recording n pairwise distinct cells from an empty trail leaves exactly
      min(n, 5000) cells remembered: the set reaches the capacity and stays there. */
  lemma TrailSizeWhenDistinct(ps: seq<Position>)
    requires Distinct(ps)
    ensures |RecordAll(Empty, ps).trail| == Min(|ps|, MaxTrailSize)
  {
    RecordAllDistinctConsistent(ps);
    RecordAllKeepsNewest(ps);
    DistinctQueueSize(RecordAll(Empty, ps).queue);
  }

  /** So, recording capacity + k distinct cells leaves exactly the k oldest forgotten:
      a cell is remembered iff it is one of the newest 5000 recorded. */
  lemma ForgetsExactlyTheOldest(ps: seq<Position>, c: Position)
    requires Distinct(ps)
    ensures c in RecordAll(Empty, ps).trail <==> c in ps[|ps| - Min(|ps|, MaxTrailSize)..]
  {
    RecordAllDistinctConsistent(ps);
    RecordAllKeepsNewest(ps);
  }
}
