/** The side of a book as the code stores it: an array of 64 levels and a count,
    binary search, and block moves written as loops.  Each method is proved
    against the list model of `Levels`; nothing depends on what lies past the
    count. */
module BookSides {
  import opened Ticks
  import opened Levels

  class BookSide {
    var count: nat
    const levels: array<Level>

    ghost predicate Shape()
      reads this
    {
      levels.Length == MAX_LEVELS && count <= MAX_LEVELS
    }

    /** The levels in use. */
    ghost function Contents(): (ls: seq<Level>)
      requires Shape()
      reads this, levels
    {
      levels[..count]
    }

    ghost predicate Valid(descending: bool)
      reads this, levels
    {
      Shape() && Sorted(descending, Contents())
    }

    constructor ()
      ensures Shape() && Contents() == [] && fresh(levels)
    {
      count := 0;
      levels := new Level[MAX_LEVELS](_ => Level(0, 0));
    }

    method Clear()
      requires Shape()
      modifies this
      ensures Shape() && Contents() == []
    {
      count := 0;
    }

    method Best() returns (best: Option<Level>)
      requires Shape()
      ensures best == if Contents() == [] then None else Some(Contents()[0])
    {
      best := if count > 0 then Some(levels[0]) else None;
    }

    /** Binary search: the index of the price, or where it would be inserted. */
    method Search(price: u64, descending: bool) returns (found: bool, idx: nat)
      requires Valid(descending)
      ensures found <==> Tracks(Contents(), price)
      ensures idx == if found then Position(Contents(), price) else InsertionPoint(descending, Contents(), price)
    {
      ghost var ls := Contents();
      var lo, hi := 0, count;
      while lo < hi
        invariant 0 <= lo <= hi <= count
        invariant forall k :: 0 <= k < lo ==> Better(descending, ls[k].price, price)
        invariant forall k :: hi <= k < count ==> Better(descending, price, ls[k].price)
      {
        var mid := lo + (hi - lo) / 2;
        var p := levels[mid].price;
        assert p == ls[mid].price;
        if p == price {
          PositionUnique(descending, ls, price, mid);
          return true, mid;
        } else if Better(descending, p, price) {
          lo := mid + 1;
        } else {
          hi := mid;
        }
      }
      InsertionUnique(descending, ls, price, lo);
      return false, lo;
    }

    method Remove(idx: nat) returns (r: DeltaResult)
      requires Shape() && idx < count
      modifies this, levels
      ensures Shape() && Contents() == RemovedAt(old(Contents()), idx)
      ensures r == Removed
    {
      ghost var was := Contents();
      var tail := count - 1;
      var j := idx;
      while j < tail
        invariant count == |was| && idx <= j <= tail
        invariant forall k :: 0 <= k < idx ==> levels[k] == was[k]
        invariant forall k :: idx <= k < j ==> levels[k] == was[k + 1]
        invariant forall k :: j <= k < count ==> levels[k] == was[k]
      {
        levels[j] := levels[j + 1];
        j := j + 1;
      }
      count := tail;
      r := Removed;
    }

    /** Move the levels of [idx, end) one place up. */
    method ShiftUp(idx: nat, end: nat)
      requires Shape() && idx <= end < MAX_LEVELS
      modifies levels
      ensures forall k :: 0 <= k < idx ==> levels[k] == old(levels[k])
      ensures forall k :: idx < k <= end ==> levels[k] == old(levels[k - 1])
      ensures forall k :: end < k < MAX_LEVELS ==> levels[k] == old(levels[k])
    {
      var j := end;
      while j > idx
        invariant idx <= j <= end
        invariant forall k :: 0 <= k <= j ==> levels[k] == old(levels[k])
        invariant forall k :: j < k <= end ==> levels[k] == old(levels[k - 1])
        invariant forall k :: end < k < MAX_LEVELS ==> levels[k] == old(levels[k])
      {
        levels[j] := levels[j - 1];
        j := j - 1;
      }
    }

    method Insert(idx: nat, level: Level) returns (r: DeltaResult)
      requires Shape() && idx <= count
      modifies this, levels
      ensures Shape()
      ensures var was := old(Contents());
        var longer := InsertedAt(was, idx, level);
        (Contents(), r) ==
          if |was| < 64 then (longer, Inserted)
          else if idx < 64 then (longer[..64], InsertedEvicted)
          else (was, Discarded)
    {
      ghost var was := Contents();
      ghost var longer := InsertedAt(was, idx, level);
      if count < MAX_LEVELS {
        ShiftUp(idx, count);
        levels[idx] := level;
        count := count + 1;
        forall k | 0 <= k < count ensures levels[k] == longer[k] {
          InsertedIndex(was, idx, level, k);
        }
        assert Contents() == longer;
        r := Inserted;
      } else if idx < MAX_LEVELS {
        ShiftUp(idx, MAX_LEVELS - 1);
        levels[idx] := level;
        forall k | 0 <= k < MAX_LEVELS ensures levels[k] == longer[k] {
          InsertedIndex(was, idx, level, k);
        }
        assert Contents() == longer[..MAX_LEVELS];
        r := InsertedEvicted;
      } else {
        r := Discarded;
      }
    }

    /** Exactly the list model: new levels and result code, whatever the stale part holds. */
    method ApplyDelta(price: u64, qty: u64, descending: bool) returns (r: DeltaResult)
      requires Valid(descending)
      modifies this, levels
      ensures Valid(descending)
      ensures (Contents(), r) == ListDelta(descending, old(Contents()), price, qty)
    {
      ghost var was := Contents();
      DeltaMeaning(descending, was, price, qty);
      PositionTracks(was, price);
      var found, idx := Search(price, descending);
      if qty == 0 {
        if found {
          r := Remove(idx);
        } else {
          r := NoOp;
        }
      } else if found {
        levels[idx] := Level(levels[idx].price, qty);
        assert Contents() == was[idx := Level(price, qty)];
        r := Updated;
      } else {
        r := Insert(idx, Level(price, qty));
      }
    }
  }
}
