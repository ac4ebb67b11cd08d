/** CUnitQueue: the units shared by all receive buffers of a multiplexer. */
module UnitQueue {
  import opened Chunks

  class CUnit {
    var chunk: Chunk       // m_Packet
    var flag: int          // 0 free, 1 occupied, 2 read but not yet acknowledged

    constructor ()
      ensures flag == 0
    {
      chunk := Chunk(MsgNo(false, false, false, 0), []);
      flag := 0;
    }
  }

  /** How many of these units are not free. */
  ghost function TakenUnits(units: seq<CUnit>): (n: nat)
    reads units`flag
    ensures n <= |units|
  {
    if |units| == 0 then 0 else TakenUnits(units[..|units| - 1]) + if units[|units| - 1].flag != 0 then 1 else 0
  }

  lemma {:induction false} TakenAppend(a: seq<CUnit>, b: seq<CUnit>)
    ensures TakenUnits(a + b) == TakenUnits(a) + TakenUnits(b)
    decreases |b|
  {
    if |b| == 0 {
      assert a + b == a;
    } else {
      assert (a + b)[..|a + b| - 1] == a + b[..|b| - 1];
      TakenAppend(a, b[..|b| - 1]);
    }
  }

  lemma {:induction false} NoneTaken(units: seq<CUnit>)
    requires forall u :: u in units ==> u.flag == 0
    ensures TakenUnits(units) == 0
  {
    if |units| > 0 {
      NoneTaken(units[..|units| - 1]);
    }
  }

  /** The units a search from this place visits are all taken: in the entry it starts in, the first one and
      those from the place on, and everywhere all but the last, which is never visited. */
  ghost predicate VisitedTaken(queues: seq<seq<CUnit>>, currQueue: nat, availUnit: nat)
    reads set i, j | 0 <= i < |queues| && 0 <= j < |queues[i]| :: queues[i][j]
  {
    forall i, j | 0 <= i < |queues| && 0 <= j < |queues[i]| - 1 && (i != currQueue || j == 0 || j >= availUnit) ::
      queues[i][j].flag != 0
  }

  class CUnitQueue {
    var queues: seq<seq<CUnit>>   // m_pQEntry and those after it, up to m_pLastQueue
    var currQueue: nat            // m_pCurrQueue
    var availUnit: nat            // m_pAvailUnit
    var count: int                // m_iCount: the units said to be taken
    var size: int                 // m_iSize: all units

    ghost function Units(): seq<CUnit>
      reads this
    {
      Join(queues)
    }

    static ghost function Join(qs: seq<seq<CUnit>>): seq<CUnit> {
      if |qs| == 0 then [] else Join(qs[..|qs| - 1]) + qs[|qs| - 1]
    }

    static lemma JoinAppend(qs: seq<seq<CUnit>>, units: seq<CUnit>)
      ensures Join(qs + [units]) == Join(qs) + units
    {
      assert (qs + [units])[..|qs|] == qs;
    }

    /** All entries have the same size, and the place of the next search is in one of them. */
    ghost predicate Valid()
      reads this
    {
      && |queues| > 0 && |queues[0]| > 0
      && (forall i :: 0 <= i < |queues| ==> |queues[i]| == |queues[0]|)
      && currQueue < |queues| && availUnit < |queues[0]|
      && size == |Units()|
    }

    constructor (n: nat)
      requires n > 0
      ensures Valid() && count == 0 && size == n && TakenUnits(Units()) == 0
    {
      var units := Fresh(n);
      queues := [units];
      currQueue, availUnit, count, size := 0, 0, 0, n;
      new;
      assert queues[..0] == [];
      assert Join([]) + units == units;
      NoneTaken(units);
    }

    static method Fresh(n: nat) returns (units: seq<CUnit>)
      ensures |units| == n && forall u :: u in units ==> fresh(u) && u.flag == 0
    {
      units := [];
      while |units| < n
        invariant |units| <= n && forall u :: u in units ==> fresh(u) && u.flag == 0
      {
        var u := new CUnit();
        units := units + [u];
      }
    }

    /** Counts the units that are really taken. */
    method Recount() returns (n: int)
      requires Valid()
      ensures n == TakenUnits(Units())
    {
      n := 0;
      var p := 0;
      while p < |queues|
        invariant 0 <= p <= |queues| && n == TakenUnits(Join(queues[..p]))
      {
        var u := 0;
        ghost var before := n;
        assert queues[p][..0] == [];
        while u < |queues[p]|
          invariant 0 <= u <= |queues[p]| && n == before + TakenUnits(queues[p][..u])
        {
          assert queues[p][..u + 1][..u] == queues[p][..u];
          if queues[p][u].flag != 0 {
            n := n + 1;
          }
          u := u + 1;
        }
        assert queues[p][..u] == queues[p];
        assert queues[..p + 1][..p] == queues[..p];
        TakenAppend(Join(queues[..p]), queues[p]);
        p := p + 1;
      }
      assert queues[..p] == queues;
    }

    /** increase: the count is corrected, and if nine units in ten are taken, as many new units are
        added as one entry holds.  No unit changes. */
    method Increase() returns (r: int)
      requires Valid()
      modifies this`count, this`queues, this`size
      ensures Valid() && count == TakenUnits(Units()) <= old(size) && old(queues) <= queues
      ensures r == (if 10 * count < 9 * old(size) then -1 else 0)
      ensures r == -1 ==> queues == old(queues)
      ensures r == 0 ==> size == old(size) + |queues[0]| && |queues| == |old(queues)| + 1
      ensures r == 0 ==> forall u :: u in queues[|queues| - 1] ==> u.flag == 0 && fresh(u)
    {
      hide TakenUnits, Join;
      ghost var all := Units();
      var realCount := Recount();
      assert realCount == TakenUnits(all);
      count := realCount;
      assert count == TakenUnits(all);
      if 10 * count < 9 * size {
        return -1;
      }
      var units := Fresh(|queues[0]|);
      assert all == Join(queues) && TakenUnits(all) == count;
      JoinAppend(queues, units);
      TakenAppend(all, units);
      NoneTaken(units);
      queues := queues + [units];
      size := size + |units|;
      return 0;
    }

    /** getNextAvailUnit: a free unit of the pool, or null.  The search goes on where the last one
        ended; of every entry it sees all units but the last, of the first entry those from where it
        starts, and the first unit. */
    method GetNextAvailUnit() returns (u: CUnit?)
      requires Valid()
      modifies this`count, this`queues, this`size, this`currQueue, this`availUnit
      ensures Valid() && old(queues) <= queues
      ensures u != null ==> u in Units() && u.flag == 0 && (u in old(Units()) || fresh(u))
      ensures u == null ==> count == TakenUnits(Units()) && VisitedTaken(old(queues), old(currQueue), old(availUnit))
    {
      hide TakenUnits, Join;
      SizeIsPositive();
      if count * 10 > size * 9 {
        var r := Increase();
        LastEntry(queues);
        assert queues[..|old(queues)|] == old(queues);
      }
      if count >= size {
        return null;
      }
      u := Search();
      if u == null {
        var r := Increase();
      }
    }

    static lemma LastEntry(qs: seq<seq<CUnit>>)
      requires |qs| > 0
      ensures Join(qs) == Join(qs[..|qs| - 1]) + qs[|qs| - 1]
    {
    }

    lemma SizeIsPositive()
      requires Valid()
      ensures size > 0
    {
      EntryInPool(0);
      assert queues[0][0] in Units();
    }

    method Search() returns (u: CUnit?)
      requires Valid()
      modifies this`currQueue, this`availUnit
      ensures Valid()
      ensures u != null ==> u in Units() && u.flag == 0
      ensures u == null ==>
        forall i, j | 0 <= i < |queues| && 0 <= j < |queues[0]| - 1
                      && (i != old(currQueue) || j == 0 || j >= old(availUnit)) :: queues[i][j].flag != 0
    {
      var entrance := currQueue;
      u := SearchEntry();
      if u != null {
        return;
      }
      NextEntry();
      while currQueue != entrance
        invariant Valid() && availUnit == 0 && entrance < |queues| && u == null
        invariant forall i, j | 0 <= i < |queues| && 0 <= j < |queues[0]| - 1 && Passed(entrance, currQueue, i)
                                && (i != entrance || j == 0 || j >= old(availUnit)) :: queues[i][j].flag != 0
        decreases if currQueue > entrance then |queues| - currQueue + entrance else entrance - currQueue
      {
        u := SearchEntry();
        if u != null {
          return;
        }
        NextEntry();
      }
    }

    /** The entries from entrance up to, not including, at, in the order of the circle. */
    static predicate Passed(entrance: int, at: int, i: int) {
      if at > entrance then entrance <= i < at else i >= entrance || i < at
    }

    method SearchEntry() returns (u: CUnit?)
      requires Valid()
      modifies this`availUnit
      ensures Valid()
      ensures u != null ==> u in Units() && u.flag == 0
      ensures u == null ==>
        forall j :: 0 <= j < |queues[0]| - 1 && (j == 0 || j >= old(availUnit)) ==> queues[currQueue][j].flag != 0
    {
      var entry := queues[currQueue];
      EntryInPool(currQueue);
      while availUnit != |entry| - 1
        invariant old(availUnit) <= availUnit < |entry|
        invariant forall j :: old(availUnit) <= j < availUnit ==> entry[j].flag != 0
        decreases |entry| - availUnit
      {
        if entry[availUnit].flag == 0 {
          return entry[availUnit];
        }
        availUnit := availUnit + 1;
      }
      if entry[0].flag == 0 {
        availUnit := 0;
        return entry[0];
      }
      return null;
    }

    method NextEntry()
      requires Valid()
      modifies this`currQueue, this`availUnit
      ensures Valid() && availUnit == 0
      ensures currQueue == if old(currQueue) + 1 == |queues| then 0 else old(currQueue) + 1
    {
      currQueue := if currQueue + 1 == |queues| then 0 else currQueue + 1;
      availUnit := 0;
    }

    lemma EntryInPool(i: int)
      requires 0 <= i < |queues|
      ensures forall u :: u in queues[i] ==> u in Units()
    {
      InJoin(queues, i);
    }

    static lemma {:induction false} InJoin(qs: seq<seq<CUnit>>, i: int)
      requires 0 <= i < |qs|
      ensures forall u :: u in qs[i] ==> u in Join(qs)
    {
      if i < |qs| - 1 {
        InJoin(qs[..|qs| - 1], i);
      }
    }
  }
}
