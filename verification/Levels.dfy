/** One side of a book as a sorted list of at most 64 levels: the list model
    that the array code is proved against, and what a delta means for it. */
module Levels {
  import opened Ticks

  /** Bids are sorted descending, asks ascending: the best price comes first. */
  predicate Better(descending: bool, a: u64, b: u64) {
    if descending then a > b else a < b
  }

  predicate Sorted(descending: bool, ls: seq<Level>) {
    forall i, j :: 0 <= i < j < |ls| ==> Better(descending, ls[i].price, ls[j].price)
  }

  predicate WellFormed(descending: bool, ls: seq<Level>) {
    Sorted(descending, ls) && |ls| <= MAX_LEVELS
  }

  predicate Tracks(ls: seq<Level>, price: u64) {
    exists i :: 0 <= i < |ls| && ls[i].price == price
  }

  function PositionFrom(ls: seq<Level>, price: u64, k: nat): (i: nat)
    requires k <= |ls|
    ensures k <= i <= |ls|
    ensures i < |ls| ==> ls[i].price == price
    ensures forall m :: k <= m < i ==> ls[m].price != price
    decreases |ls| - k
  {
    if k == |ls| || ls[k].price == price then k else PositionFrom(ls, price, k + 1)
  }

  /** Index of the first level with this price, or the length. */
  function Position(ls: seq<Level>, price: u64): (i: nat)
    ensures i <= |ls|
    ensures i < |ls| ==> ls[i].price == price
    ensures forall m :: 0 <= m < i ==> ls[m].price != price
  {
    PositionFrom(ls, price, 0)
  }

  function BeatenFrom(descending: bool, ls: seq<Level>, price: u64, k: nat): (i: nat)
    requires k <= |ls|
    ensures k <= i <= |ls|
    ensures i < |ls| ==> Better(descending, price, ls[i].price)
    ensures forall m :: k <= m < i ==> !Better(descending, price, ls[m].price)
    decreases |ls| - k
  {
    if k == |ls| || Better(descending, price, ls[k].price) then k else BeatenFrom(descending, ls, price, k + 1)
  }

  /** Index of the first level that this price beats, or the length. */
  function InsertionPoint(descending: bool, ls: seq<Level>, price: u64): (i: nat)
    ensures i <= |ls|
    ensures i < |ls| ==> Better(descending, price, ls[i].price)
    ensures forall m :: 0 <= m < i ==> !Better(descending, price, ls[m].price)
  {
    BeatenFrom(descending, ls, price, 0)
  }

  function InsertedAt(ls: seq<Level>, i: nat, l: Level): (r: seq<Level>)
    requires i <= |ls|
    ensures |r| == |ls| + 1
  {
    ls[..i] + [l] + ls[i..]
  }

  function RemovedAt(ls: seq<Level>, i: nat): (r: seq<Level>)
    requires i < |ls|
    ensures |r| == |ls| - 1
  {
    ls[..i] + ls[i + 1..]
  }

  /** The reference model: linear search, list insertion and removal. */
  function ListDelta(descending: bool, ls: seq<Level>, price: u64, qty: u64): (seq<Level>, DeltaResult) {
    var at := Position(ls, price);
    if qty == 0 then
      if at < |ls| then (RemovedAt(ls, at), Removed) else (ls, NoOp)
    else if at < |ls| then
      (ls[at := Level(price, qty)], Updated)
    else
      var i := InsertionPoint(descending, ls, price);
      var longer := InsertedAt(ls, i, Level(price, qty));
      if |ls| < MAX_LEVELS then (longer, Inserted)
      else if i < MAX_LEVELS then (longer[..MAX_LEVELS], InsertedEvicted)
      else (ls, Discarded)
  }

  lemma TracksMember(ls: seq<Level>, price: u64)
    ensures Tracks(ls, price) <==> exists l {:trigger l in ls} :: l in ls && l.price == price
  {
    if Tracks(ls, price) {
      var i :| 0 <= i < |ls| && ls[i].price == price;
      assert ls[i] in ls;
    }
  }

  lemma PositionTracks(ls: seq<Level>, price: u64)
    ensures Position(ls, price) < |ls| <==> Tracks(ls, price)
  {
  }

  /** In a sorted side the price is tracked at an index exactly when that is its position. */
  lemma PositionUnique(descending: bool, ls: seq<Level>, price: u64, i: nat)
    requires Sorted(descending, ls) && i < |ls| && ls[i].price == price
    ensures Position(ls, price) == i
  {
  }

  /** Levels before the insertion point of an untracked price beat it, the rest lose to it. */
  lemma InsertionSplits(descending: bool, ls: seq<Level>, price: u64)
    requires Sorted(descending, ls) && !Tracks(ls, price)
    ensures var i := InsertionPoint(descending, ls, price);
      && (forall k :: 0 <= k < i ==> Better(descending, ls[k].price, price))
      && (forall k :: i <= k < |ls| ==> Better(descending, price, ls[k].price))
  {
    var i := InsertionPoint(descending, ls, price);
    forall k | i <= k < |ls| ensures Better(descending, price, ls[k].price) {
      if k > i {
        assert Better(descending, ls[i].price, ls[k].price);
      }
    }
  }

  lemma {:induction false} BeatenFromUnique(descending: bool, ls: seq<Level>, price: u64, k: nat, i: nat)
    requires k <= i <= |ls|
    requires forall m :: k <= m < i ==> Better(descending, ls[m].price, price)
    requires i < |ls| ==> Better(descending, price, ls[i].price)
    ensures BeatenFrom(descending, ls, price, k) == i
    decreases i - k
  {
    if k < i {
      BeatenFromUnique(descending, ls, price, k + 1, i);
    }
  }

  /** An index that splits the levels into better and worse ones is the insertion point. */
  lemma InsertionUnique(descending: bool, ls: seq<Level>, price: u64, i: nat)
    requires i <= |ls|
    requires forall k :: 0 <= k < i ==> Better(descending, ls[k].price, price)
    requires forall k :: i <= k < |ls| ==> Better(descending, price, ls[k].price)
    ensures InsertionPoint(descending, ls, price) == i && !Tracks(ls, price)
  {
    BeatenFromUnique(descending, ls, price, 0, i);
  }

  lemma InsertedSorted(descending: bool, ls: seq<Level>, l: Level)
    requires Sorted(descending, ls) && !Tracks(ls, l.price)
    ensures Sorted(descending, InsertedAt(ls, InsertionPoint(descending, ls, l.price), l))
  {
    InsertionSplits(descending, ls, l.price);
  }

  /** What a delta means, without saying how it is computed: which case applies,
      which levels are left, and that a well-formed side stays well-formed. */
  lemma DeltaMeaning(descending: bool, ls: seq<Level>, price: u64, qty: u64)
    requires WellFormed(descending, ls)
    ensures var (ls', r) := ListDelta(descending, ls, price, qty);
      var full := |ls| == 64;
      && WellFormed(descending, ls') && |ls'| <= 64
      && r == (if Tracks(ls, price) then (if qty == 0 then Removed else Updated)
               else if qty == 0 then NoOp
               else if !full then Inserted
               else if Better(descending, price, ls[63].price) then InsertedEvicted
               else Discarded)
      && |ls'| == |ls| + (if r == Inserted then 1 else if r == Removed then -1 else 0)
      && (forall l {:trigger l in ls'} {:trigger l in ls} :: l in ls' <==>
            match r
            case NoOp | Discarded => l in ls
            case Removed => l in ls && l.price != price
            case Updated => l == Level(price, qty) || (l in ls && l.price != price)
            case Inserted => l == Level(price, qty) || l in ls
            case InsertedEvicted => l == Level(price, qty) || (l in ls && l != ls[63]))
  {
    var at := Position(ls, price);
    PositionTracks(ls, price);
    if at < |ls| {
      if qty == 0 {
        RemovedSorted(descending, ls, at);
        RemovedContents(descending, ls, at);
      } else {
        UpdatedContents(descending, ls, at, Level(price, qty));
      }
    } else if qty > 0 {
      InsertedContents(descending, ls, Level(price, qty));
    }
  }

  lemma RemovedIndex(ls: seq<Level>, i: nat, k: nat)
    requires i < |ls| && k < |ls| - 1
    ensures RemovedAt(ls, i)[k] == ls[if k < i then k else k + 1]
  {
  }

  lemma RemovedSorted(descending: bool, ls: seq<Level>, i: nat)
    requires Sorted(descending, ls) && i < |ls|
    ensures Sorted(descending, RemovedAt(ls, i))
  {
    var r := RemovedAt(ls, i);
    forall j, k | 0 <= j < k < |r| ensures Better(descending, r[j].price, r[k].price) {
      RemovedIndex(ls, i, j);
      RemovedIndex(ls, i, k);
    }
  }

  lemma RemovedContents(descending: bool, ls: seq<Level>, i: nat)
    requires Sorted(descending, ls) && i < |ls|
    ensures forall l {:trigger l in RemovedAt(ls, i)} {:trigger l in ls} :: l in RemovedAt(ls, i) <==> l in ls && l.price != ls[i].price
  {
    var r := RemovedAt(ls, i);
    forall l | l in ls && l.price != ls[i].price ensures l in r {
      var k :| 0 <= k < |ls| && ls[k] == l;
      RemovedIndex(ls, i, if k < i then k else k - 1);
    }
    forall l | l in r ensures l in ls && l.price != ls[i].price {
      var k :| 0 <= k < |r| && r[k] == l;
      RemovedIndex(ls, i, k);
      var m := if k < i then k else k + 1;
      assert Better(descending, ls[if m < i then m else i].price, ls[if m < i then i else m].price);
    }
  }

  lemma UpdatedContents(descending: bool, ls: seq<Level>, i: nat, l: Level)
    requires Sorted(descending, ls) && i < |ls| && l.price == ls[i].price
    ensures Sorted(descending, ls[i := l])
    ensures forall x {:trigger x in ls[i := l]} {:trigger x in ls} :: x in ls[i := l] <==> x == l || (x in ls && x.price != l.price)
  {
    var r := ls[i := l];
    forall x ensures x in r <==> x == l || (x in ls && x.price != l.price) {
      if x == l {
        assert r[i] == x;
      } else if x in ls && x.price != l.price {
        var k :| 0 <= k < |ls| && ls[k] == x;
        assert r[k] == x;
      }
    }
  }

  lemma InsertedIndex(ls: seq<Level>, i: nat, l: Level, k: nat)
    requires i <= |ls| && k <= |ls|
    ensures InsertedAt(ls, i, l)[k] == if k < i then ls[k] else if k == i then l else ls[k - 1]
  {
  }

  lemma InsertedMembers(ls: seq<Level>, i: nat, l: Level)
    requires i <= |ls|
    ensures forall x :: x in InsertedAt(ls, i, l) <==> x == l || x in ls
  {
    var r := InsertedAt(ls, i, l);
    assert r[i] == l;
    forall x | x in ls ensures x in r {
      var k :| 0 <= k < |ls| && ls[k] == x;
      assert r[if k < i then k else k + 1] == x;
    }
  }

  /** Cutting the last level off a sorted list takes out just that level. */
  lemma CutMembers(descending: bool, ls: seq<Level>, n: nat)
    requires Sorted(descending, ls) && |ls| == n + 1
    ensures forall x :: x in ls[..n] <==> x in ls && x != ls[n]
  {
    assert ls == ls[..n] + [ls[n]];
    forall x | x in ls[..n] ensures x != ls[n] {
      var k :| 0 <= k < n && ls[k] == x;
      assert Better(descending, ls[k].price, ls[n].price);
    }
  }

  /** An untracked price is inserted before the last level of a full side exactly
      when it beats that level, which then is the one to go. */
  lemma EvictedLast(descending: bool, ls: seq<Level>, l: Level)
    requires Sorted(descending, ls) && |ls| == MAX_LEVELS && !Tracks(ls, l.price)
    ensures var i := InsertionPoint(descending, ls, l.price);
      && (i < MAX_LEVELS <==> Better(descending, l.price, ls[MAX_LEVELS - 1].price))
      && (i < MAX_LEVELS ==> InsertedAt(ls, i, l)[MAX_LEVELS] == ls[MAX_LEVELS - 1])
  {
    InsertionSplits(descending, ls, l.price);
  }

  lemma InsertedContents(descending: bool, ls: seq<Level>, l: Level)
    requires WellFormed(descending, ls) && !Tracks(ls, l.price)
    ensures var i := InsertionPoint(descending, ls, l.price);
      var r := InsertedAt(ls, i, l);
      && Sorted(descending, r)
      && (forall x :: x in r <==> x == l || x in ls)
      && (|ls| == MAX_LEVELS ==>
            && (i < MAX_LEVELS <==> Better(descending, l.price, ls[MAX_LEVELS - 1].price))
            && (i < MAX_LEVELS ==> forall x :: x in r[..MAX_LEVELS] <==> x == l || (x in ls && x != ls[MAX_LEVELS - 1])))
  {
    InsertedSorted(descending, ls, l);
    var i := InsertionPoint(descending, ls, l.price);
    InsertedMembers(ls, i, l);
    if |ls| == MAX_LEVELS {
      EvictedLast(descending, ls, l);
      if i < MAX_LEVELS {
        CutMembers(descending, InsertedAt(ls, i, l), MAX_LEVELS);
        TracksMember(ls, l.price);
      }
    }
  }

  /** The best n levels of a list, all of them if there are fewer. */
  function Top(ls: seq<Level>, n: int): seq<Level> {
    if n <= 0 then [] else if n < |ls| then ls[..n] else ls
  }
}
