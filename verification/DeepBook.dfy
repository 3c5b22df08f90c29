/** What a side of 64 levels says about the true, unbounded book.

    A level that was evicted or discarded does not come back when room appears,
    so the tracked side is not always the best 64 levels of the true book.  The
    theorems here say how much of it is exact: all but as many levels as were
    removed after the side had lost one, counted from its last clear. */
module DeepBook {
  import opened Ticks
  import opened Levels

  datatype Delta = Delta(price: u64, qty: u64)

  /** The tracked side after a run of deltas on a cleared side. */
  function SideAfter(descending: bool, ds: seq<Delta>): seq<Level> {
    if ds == [] then []
    else
      var d := ds[|ds| - 1];
      ListDelta(descending, SideAfter(descending, ds[..|ds| - 1]), d.price, d.qty).0
  }

  /** The result of the last delta of a run. */
  function LastResult(descending: bool, ds: seq<Delta>): DeltaResult
    requires ds != []
  {
    var d := ds[|ds| - 1];
    ListDelta(descending, SideAfter(descending, ds[..|ds| - 1]), d.price, d.qty).1
  }

  /** How many deltas of the run had the given result. */
  function Count(descending: bool, ds: seq<Delta>, r: DeltaResult): nat {
    if ds == [] then 0
    else Count(descending, ds[..|ds| - 1], r) + if LastResult(descending, ds) == r then 1 else 0
  }

  /** The prices that one delta evicts from the side or discards on the way in. */
  function LostBy(descending: bool, ls: seq<Level>, d: Delta): set<u64> {
    match ListDelta(descending, ls, d.price, d.qty).1
    case Discarded => {d.price}
    case InsertedEvicted => if ls == [] then {} else {ls[|ls| - 1].price}
    case _ => {}
  }

  /** Precisely the prices that the delta makes live but untracked. */
  lemma LostMeans(descending: bool, ls: seq<Level>, d: Delta, price: u64)
    requires WellFormed(descending, ls)
    ensures price in LostBy(descending, ls, d)
      <==>
      && !Tracks(ListDelta(descending, ls, d.price, d.qty).0, price)
      && (if price == d.price then d.qty > 0 else Tracks(ls, price))
  {
    var (ls', r) := ListDelta(descending, ls, d.price, d.qty);
    DeltaMeaning(descending, ls, d.price, d.qty);
    TracksMember(ls', price);
    TracksMember(ls, price);
    if r == InsertedEvicted {
      WorstGone(descending, ls, ls', Level(d.price, d.qty));
    }
    assert r == Updated || r == Inserted || r == InsertedEvicted ==> Level(d.price, d.qty) in ls';
  }

  lemma WorstGone(descending: bool, ls: seq<Level>, ls': seq<Level>, l: Level)
    requires Sorted(descending, ls) && |ls| == MAX_LEVELS && !Tracks(ls, l.price)
    requires forall x {:trigger x in ls'} :: x in ls' ==> x == l || (x in ls && x != ls[MAX_LEVELS - 1])
    ensures forall x {:trigger x in ls'} :: x in ls' ==> x.price != ls[MAX_LEVELS - 1].price
  {
    forall x | x in ls' ensures x.price != ls[MAX_LEVELS - 1].price {
      if x != l {
        var k :| 0 <= k < |ls| && ls[k] == x;
        assert Better(descending, ls[k].price, ls[MAX_LEVELS - 1].price);
      }
    }
  }

  function Lost(descending: bool, ds: seq<Delta>): set<u64> {
    if ds == [] then {}
    else
      var prefix := ds[..|ds| - 1];
      Lost(descending, prefix) + LostBy(descending, SideAfter(descending, prefix), ds[|ds| - 1])
  }

  /** How many removals came after the side had lost a level. */
  function Late(descending: bool, ds: seq<Delta>): nat {
    if ds == [] then 0
    else
      var prefix := ds[..|ds| - 1];
      Late(descending, prefix)
      + if LastResult(descending, ds) == Removed && Lost(descending, prefix) != {} then 1 else 0
  }

  /** The unbounded book: every price's last quantity, if that is not zero. */
  function DeepStep(m: map<u64, u64>, d: Delta): map<u64, u64> {
    if d.qty == 0 then m - {d.price} else m[d.price := d.qty]
  }

  function Deep(ds: seq<Delta>): map<u64, u64> {
    if ds == [] then map[] else DeepStep(Deep(ds[..|ds| - 1]), ds[|ds| - 1])
  }

  /** The first n levels all exist and beat the price. */
  predicate Covers(descending: bool, ls: seq<Level>, n: int, price: u64) {
    n <= |ls| && forall i :: 0 <= i < n ==> Better(descending, ls[i].price, price)
  }

  /** Every tracked level is live with its latest quantity; every live price that
      is not tracked was lost, and is beaten by at least 64 - n tracked levels. */
  ghost predicate LossInv(descending: bool, ls: seq<Level>, deep: map<u64, u64>, n: nat, lost: set<u64>) {
    && WellFormed(descending, ls)
    && (forall l {:trigger l in ls} :: l in ls ==> l.price in deep && deep[l.price] == l.qty)
    && (forall p :: p in deep && !Tracks(ls, p) ==> p in lost && Covers(descending, ls, MAX_LEVELS - n, p))
  }

  /** The invariant survives the delta d. */
  ghost predicate StepKeeps(
      descending: bool, ls: seq<Level>, deep: map<u64, u64>, n: nat, lost: set<u64>, d: Delta)
  {
    var (ls', r) := ListDelta(descending, ls, d.price, d.qty);
    LossInv(descending, ls', DeepStep(deep, d), n + (if r == Removed then 1 else 0),
            lost + LostBy(descending, ls, d))
  }

  lemma CoversRemoved(descending: bool, ls: seq<Level>, i: nat, n: int, price: u64)
    requires i < |ls| && Covers(descending, ls, n, price)
    ensures Covers(descending, RemovedAt(ls, i), n - 1, price)
  {
    var r := RemovedAt(ls, i);
    forall j | 0 <= j < n - 1 ensures Better(descending, r[j].price, price) {
      assert r[j] == ls[if j < i then j else j + 1];
    }
  }

  lemma CoversInserted(descending: bool, ls: seq<Level>, l: Level, n: int, price: u64)
    requires Sorted(descending, ls) && !Tracks(ls, l.price) && Covers(descending, ls, n, price)
    ensures Covers(descending, InsertedAt(ls, InsertionPoint(descending, ls, l.price), l), n, price)
  {
    InsertionSplits(descending, ls, l.price);
    var i := InsertionPoint(descending, ls, l.price);
    var r := InsertedAt(ls, i, l);
    forall j | 0 <= j < n ensures Better(descending, r[j].price, price) {
      assert Better(descending, ls[j].price, price);
      assert r[j] == if j < i then ls[j] else if j == i then l else ls[j - 1];
      assert j > i ==> Better(descending, ls[j - 1].price, ls[j].price);
    }
  }

  /** If only one price's level may have gone, other untracked prices were untracked before. */
  lemma UntrackedFrom(ls: seq<Level>, ls': seq<Level>, p: u64, price: u64)
    requires forall l {:trigger l in ls} {:trigger l in ls'} :: l in ls && l.price != price ==> l in ls'
    requires p != price && !Tracks(ls', p)
    ensures !Tracks(ls, p)
  {
    TracksMember(ls, p);
    TracksMember(ls', p);
  }

  lemma LossInvRemoved(descending: bool, ls: seq<Level>, deep: map<u64, u64>, n: nat, lost: set<u64>, price: u64)
    requires LossInv(descending, ls, deep, n, lost) && Tracks(ls, price)
    ensures StepKeeps(descending, ls, deep, n, lost, Delta(price, 0))
  {
    DeltaMeaning(descending, ls, price, 0);
    PositionTracks(ls, price);
    var ls', deep' := ListDelta(descending, ls, price, 0).0, deep - {price};
    forall p | p in deep' && !Tracks(ls', p)
      ensures p in lost && Covers(descending, ls', MAX_LEVELS - (n + 1), p)
    {
      UntrackedFrom(ls, ls', p, price);
      CoversRemoved(descending, ls, Position(ls, price), MAX_LEVELS - n, p);
    }
  }

  lemma LossInvCancelled(descending: bool, ls: seq<Level>, deep: map<u64, u64>, n: nat, lost: set<u64>, price: u64)
    requires LossInv(descending, ls, deep, n, lost) && !Tracks(ls, price)
    ensures StepKeeps(descending, ls, deep, n, lost, Delta(price, 0))
  {
    PositionTracks(ls, price);
    TracksMember(ls, price);
  }

  lemma LossInvUpdated(descending: bool, ls: seq<Level>, deep: map<u64, u64>, n: nat, lost: set<u64>, d: Delta)
    requires LossInv(descending, ls, deep, n, lost) && d.qty > 0 && Tracks(ls, d.price)
    ensures StepKeeps(descending, ls, deep, n, lost, d)
  {
    DeltaMeaning(descending, ls, d.price, d.qty);
    PositionTracks(ls, d.price);
    var ls', deep' := ListDelta(descending, ls, d.price, d.qty).0, deep[d.price := d.qty];
    TracksMember(ls', d.price);
    forall p | p in deep' && !Tracks(ls', p)
      ensures p in lost && Covers(descending, ls', MAX_LEVELS - n, p)
    {
      assert Level(d.price, d.qty) in ls';
      UntrackedFrom(ls, ls', p, d.price);
    }
  }

  /** A new level inserted in its place, before any level is cut off. */
  lemma GrownCovers(descending: bool, ls: seq<Level>, deep: map<u64, u64>, n: nat, lost: set<u64>, l: Level)
    requires LossInv(descending, ls, deep, n, lost) && !Tracks(ls, l.price)
    ensures var longer := InsertedAt(ls, InsertionPoint(descending, ls, l.price), l);
      forall p :: p in deep[l.price := l.qty] && !Tracks(longer, p) ==>
        p in lost && Covers(descending, longer, MAX_LEVELS - n, p)
  {
    var i := InsertionPoint(descending, ls, l.price);
    var longer := InsertedAt(ls, i, l);
    InsertedMembers(ls, i, l);
    TracksMember(longer, l.price);
    forall p | p in deep[l.price := l.qty] && !Tracks(longer, p)
      ensures p in lost && Covers(descending, longer, MAX_LEVELS - n, p)
    {
      assert l in longer;
      UntrackedFrom(ls, longer, p, l.price);
      CoversInserted(descending, ls, l, MAX_LEVELS - n, p);
    }
  }

  lemma LossInvInserted(descending: bool, ls: seq<Level>, deep: map<u64, u64>, n: nat, lost: set<u64>, d: Delta)
    requires LossInv(descending, ls, deep, n, lost) && d.qty > 0
    requires !Tracks(ls, d.price) && |ls| < MAX_LEVELS
    ensures StepKeeps(descending, ls, deep, n, lost, d)
  {
    DeltaMeaning(descending, ls, d.price, d.qty);
    PositionTracks(ls, d.price);
    TracksMember(ls, d.price);
    GrownCovers(descending, ls, deep, n, lost, Level(d.price, d.qty));
  }

  lemma LossInvDiscarded(descending: bool, ls: seq<Level>, deep: map<u64, u64>, n: nat, lost: set<u64>, d: Delta)
    requires LossInv(descending, ls, deep, n, lost) && d.qty > 0 && !Tracks(ls, d.price)
    requires |ls| == MAX_LEVELS && InsertionPoint(descending, ls, d.price) == MAX_LEVELS
    ensures StepKeeps(descending, ls, deep, n, lost, d)
  {
    PositionTracks(ls, d.price);
    InsertionSplits(descending, ls, d.price);
    TracksMember(ls, d.price);
  }

  /** Cutting the last level off keeps the cover of every price that the cut list
      does not track, the cut one included. */
  lemma CutCovers(descending: bool, longer: seq<Level>, n: nat, p: u64)
    requires Sorted(descending, longer) && |longer| == MAX_LEVELS + 1 && !Tracks(longer[..MAX_LEVELS], p)
    requires !Tracks(longer, p) ==> Covers(descending, longer, MAX_LEVELS - n, p)
    ensures Covers(descending, longer[..MAX_LEVELS], MAX_LEVELS - n, p)
    ensures Tracks(longer, p) ==> p == longer[MAX_LEVELS].price
  {
    forall k | 0 <= k < MAX_LEVELS ensures longer[k].price != p {
      assert longer[..MAX_LEVELS][k] == longer[k];
    }
  }

  lemma LossInvEvicted(descending: bool, ls: seq<Level>, deep: map<u64, u64>, n: nat, lost: set<u64>, d: Delta)
    requires LossInv(descending, ls, deep, n, lost) && d.qty > 0 && !Tracks(ls, d.price)
    requires |ls| == MAX_LEVELS && InsertionPoint(descending, ls, d.price) < MAX_LEVELS
    ensures StepKeeps(descending, ls, deep, n, lost, d)
  {
    var l := Level(d.price, d.qty);
    DeltaMeaning(descending, ls, d.price, d.qty);
    PositionTracks(ls, d.price);
    TracksMember(ls, d.price);
    InsertedSorted(descending, ls, l);
    EvictedLast(descending, ls, l);
    GrownCovers(descending, ls, deep, n, lost, l);
    var longer := InsertedAt(ls, InsertionPoint(descending, ls, d.price), l);
    forall p | p in deep[d.price := d.qty] && !Tracks(longer[..MAX_LEVELS], p)
      ensures p in lost + {ls[MAX_LEVELS - 1].price} && Covers(descending, longer[..MAX_LEVELS], MAX_LEVELS - n, p)
    {
      CutCovers(descending, longer, n, p);
    }
  }

  lemma LossInvStep(descending: bool, ls: seq<Level>, deep: map<u64, u64>, n: nat, lost: set<u64>, d: Delta)
    requires LossInv(descending, ls, deep, n, lost)
    ensures StepKeeps(descending, ls, deep, n, lost, d)
  {
    if d.qty == 0 {
      if Tracks(ls, d.price) {
        LossInvRemoved(descending, ls, deep, n, lost, d.price);
      } else {
        LossInvCancelled(descending, ls, deep, n, lost, d.price);
      }
    } else if Tracks(ls, d.price) {
      LossInvUpdated(descending, ls, deep, n, lost, d);
    } else if |ls| < MAX_LEVELS {
      LossInvInserted(descending, ls, deep, n, lost, d);
    } else if InsertionPoint(descending, ls, d.price) < MAX_LEVELS {
      LossInvEvicted(descending, ls, deep, n, lost, d);
    } else {
      LossInvDiscarded(descending, ls, deep, n, lost, d);
    }
  }

  /** As long as nothing was lost, a removal does not weaken the invariant. */
  lemma {:induction false} LossInvHolds(descending: bool, ds: seq<Delta>)
    ensures LossInv(descending, SideAfter(descending, ds), Deep(ds), Late(descending, ds), Lost(descending, ds))
  {
    if ds != [] {
      var prefix := ds[..|ds| - 1];
      LossInvHolds(descending, prefix);
      LossInvStep(descending, SideAfter(descending, prefix), Deep(prefix), Late(descending, prefix),
                  Lost(descending, prefix), ds[|ds| - 1]);
    }
  }

  lemma {:induction false} LateAmongRemovals(descending: bool, ds: seq<Delta>)
    ensures Late(descending, ds) <= Count(descending, ds, Removed)
  {
    if ds != [] {
      LateAmongRemovals(descending, ds[..|ds| - 1]);
    }
  }

  /** The levels of a book, best first. */
  ghost predicate IsRanking(descending: bool, deep: map<u64, u64>, ranking: seq<Level>) {
    && Sorted(descending, ranking)
    && (forall l {:trigger l in ranking} :: l in ranking <==> l.price in deep && deep[l.price] == l.qty)
  }

  /** The best n levels of two lists are the same. */
  predicate AgreeTo(n: int, ls: seq<Level>, all: seq<Level>) {
    Top(ls, n) == Top(all, n)
  }

  lemma NotEarlier(descending: bool, ls: seq<Level>, m: nat)
    requires Sorted(descending, ls) && m < |ls|
    ensures ls[m] !in ls[..m]
  {
    forall k | 0 <= k < m ensures ls[k] != ls[m] {
      assert Better(descending, ls[k].price, ls[m].price);
    }
  }

  /** `ls` and `all` are sorted, `all` has the levels of `ls`, and the first n
      levels of `ls` beat everything that `ls` lacks. */
  ghost predicate Approximates(descending: bool, ls: seq<Level>, all: seq<Level>, n: int) {
    && Sorted(descending, ls) && Sorted(descending, all)
    && (forall l {:trigger l in ls} {:trigger l in all} :: l in ls ==> l in all)
    && (forall l {:trigger l in ls} {:trigger l in all} :: l in all && l !in ls ==> Covers(descending, ls, n, l.price))
  }

  lemma NextAgrees(descending: bool, ls: seq<Level>, all: seq<Level>, n: nat, i: nat)
    requires Approximates(descending, ls, all, n)
    requires i < n && i < |ls| && i <= |all|
    requires forall k :: 0 <= k < i ==> ls[k] == all[k]
    ensures i < |all| && ls[i] == all[i]
  {
    assert ls[i] in all;
    var j :| 0 <= j < |all| && all[j] == ls[i];
    forall k | 0 <= k < i ensures all[k] != ls[i] {
      assert Better(descending, ls[k].price, ls[i].price);
    }
    assert j > i ==> Better(descending, all[i].price, ls[i].price);
    forall k | 0 <= k < i ensures ls[k] != all[i] {
      assert Better(descending, all[k].price, all[i].price);
    }
    assert forall k :: i < k < |ls| ==> Better(descending, ls[i].price, ls[k].price);
    assert all[i] !in ls ==> Better(descending, ls[i].price, all[i].price);
  }

  lemma {:induction false} AgreesAt(descending: bool, ls: seq<Level>, all: seq<Level>, n: nat, m: nat)
    requires Approximates(descending, ls, all, n)
    requires m <= n && m <= |ls|
    ensures m <= |all| && ls[..m] == all[..m]
  {
    if m > 0 {
      AgreesAt(descending, ls, all, n, m - 1);
      forall k | 0 <= k < m - 1 ensures ls[k] == all[k] {
        assert ls[..m - 1][k] == all[..m - 1][k];
      }
      NextAgrees(descending, ls, all, n, m - 1);
    }
  }

  lemma PrefixAgrees(descending: bool, ls: seq<Level>, all: seq<Level>, n: nat)
    requires Approximates(descending, ls, all, n)
    ensures AgreeTo(n, ls, all)
  {
    var m := if n < |ls| then n else |ls|;
    AgreesAt(descending, ls, all, n, m);
    if |ls| < |all| {
      NotEarlier(descending, all, |ls|);
      assert m == |ls| ==> ls == all[..m];
      assert m == |ls| ==> all[m] !in ls;
    }
  }

  /** For a sorted list and one that contains it, the best n levels agree exactly
      when n levels of the first beat every level it lacks. */
  lemma PrefixAgreesIff(descending: bool, ls: seq<Level>, all: seq<Level>, n: nat)
    requires Sorted(descending, ls) && Sorted(descending, all) && forall l {:trigger l in ls} {:trigger l in all} :: l in ls ==> l in all
    ensures AgreeTo(n, ls, all) <==> Approximates(descending, ls, all, n)
  {
    if Approximates(descending, ls, all, n) {
      PrefixAgrees(descending, ls, all, n);
    }
    if AgreeTo(n, ls, all) {
      forall l | l in all && l !in ls ensures Covers(descending, ls, n, l.price) {
        var j :| 0 <= j < |all| && all[j] == l;
        MissingIsLater(ls, all, n, j);
        forall i | 0 <= i < n ensures Better(descending, ls[i].price, l.price) {
          assert Better(descending, all[i].price, all[j].price);
        }
      }
    }
  }

  lemma MissingIsLater(ls: seq<Level>, all: seq<Level>, n: nat, j: nat)
    requires AgreeTo(n, ls, all) && j < |all| && all[j] !in ls
    ensures n <= |ls| && n <= j
    ensures forall i :: 0 <= i < n ==> ls[i] == all[i]
  {
    var top := Top(ls, n);
    forall i | 0 <= i < n && i < |all| ensures i < |ls| && all[i] == ls[i] {
      assert top[i] == all[i];
    }
    assert |all| < n ==> all == top;
  }

  lemma RankingMissing(descending: bool, ls: seq<Level>, deep: map<u64, u64>, ranking: seq<Level>, n: int)
    requires IsRanking(descending, deep, ranking) && Sorted(descending, ls)
    requires forall l {:trigger l in ls} :: l in ls ==> l.price in deep && deep[l.price] == l.qty
    ensures Approximates(descending, ls, ranking, n)
      <==> forall p :: p in deep && !Tracks(ls, p) ==> Covers(descending, ls, n, p)
  {
    forall l | l in ranking && l !in ls ensures !Tracks(ls, l.price) {
      TracksMember(ls, l.price);
    }
    forall p | p in deep && !Tracks(ls, p) ensures Level(p, deep[p]) in ranking && Level(p, deep[p]) !in ls {
      TracksMember(ls, p);
    }
  }

  lemma LossInvTopIff(
      descending: bool, ls: seq<Level>, deep: map<u64, u64>, m: nat, lost: set<u64>, ranking: seq<Level>, n: nat)
    requires LossInv(descending, ls, deep, m, lost) && IsRanking(descending, deep, ranking)
    ensures AgreeTo(n, ls, ranking)
      <==> forall p :: p in lost && p in deep ==> Tracks(ls, p) || Covers(descending, ls, n, p)
  {
    RankingMissing(descending, ls, deep, ranking, n);
    PrefixAgreesIff(descending, ls, ranking, n);
  }

  /** The exact condition, for every depth n: the best n levels are those of the
      unbounded book exactly when every price that was lost and is live is
      tracked again or beaten by n tracked levels. */
  lemma TopExactIff(descending: bool, ds: seq<Delta>, ranking: seq<Level>, n: nat)
    requires IsRanking(descending, Deep(ds), ranking)
    ensures var ls := SideAfter(descending, ds);
      AgreeTo(n, ls, ranking)
      <==> forall p :: p in Lost(descending, ds) && p in Deep(ds) ==> Tracks(ls, p) || Covers(descending, ls, n, p)
  {
    LossInvHolds(descending, ds);
    LossInvTopIff(descending, SideAfter(descending, ds), Deep(ds), Late(descending, ds), Lost(descending, ds), ranking, n);
  }

  lemma TopShorter(ls: seq<Level>, all: seq<Level>, n: int, m: int)
    requires AgreeTo(n, ls, all) && m <= n
    ensures AgreeTo(m, ls, all)
  {
    if 0 < m {
      assert Top(ls, m) == Top(Top(ls, n), m);
      assert Top(all, m) == Top(Top(all, n), m);
    }
  }

  lemma LossInvTop(
      descending: bool, ls: seq<Level>, deep: map<u64, u64>, late: nat, lost: set<u64>, ranking: seq<Level>)
    requires LossInv(descending, ls, deep, late, lost) && IsRanking(descending, deep, ranking)
    ensures AgreeTo(MAX_LEVELS - late, ls, ranking)
  {
    if late <= MAX_LEVELS {
      RankingMissing(descending, ls, deep, ranking, MAX_LEVELS - late);
      PrefixAgrees(descending, ls, ranking, MAX_LEVELS - late);
    }
  }

  /** Top-of-book exactness.  After any run of deltas on a cleared side, the best
      64 - L levels, prices and quantities, are those of the unbounded book fed
      the same deltas, where L counts the `Removed` results that came after the
      first lost level. */
  lemma TopOfBookExact(descending: bool, ds: seq<Delta>, ranking: seq<Level>)
    requires IsRanking(descending, Deep(ds), ranking)
    ensures var n := MAX_LEVELS - Late(descending, ds);
      AgreeTo(n, SideAfter(descending, ds), ranking)
  {
    LossInvHolds(descending, ds);
    LossInvTop(descending, SideAfter(descending, ds), Deep(ds), Late(descending, ds), Lost(descending, ds), ranking);
  }

  /** And so are the best 64 - R, R counting all `Removed` results of the run. */
  lemma TopByRemovals(descending: bool, ds: seq<Delta>, ranking: seq<Level>)
    requires IsRanking(descending, Deep(ds), ranking)
    ensures var n := MAX_LEVELS - Count(descending, ds, Removed);
      AgreeTo(n, SideAfter(descending, ds), ranking)
  {
    TopOfBookExact(descending, ds, ranking);
    LateAmongRemovals(descending, ds);
    TopShorter(SideAfter(descending, ds), ranking, MAX_LEVELS - Late(descending, ds),
               MAX_LEVELS - Count(descending, ds, Removed));
  }

  /** Lossy-book soundness: a tracked level is live with its latest quantity, and
      a price that was never lost is tracked exactly when it is live.  So every
      price better than all the lost ones is exact. */
  lemma LossySoundness(descending: bool, ds: seq<Delta>, price: u64)
    ensures var ls, deep := SideAfter(descending, ds), Deep(ds);
      && (forall l {:trigger l in ls} :: l in ls ==> l.price in deep && deep[l.price] == l.qty)
      && (price !in Lost(descending, ds) ==> (price in deep <==> Tracks(ls, price)))
      && ((forall p :: p in Lost(descending, ds) ==> Better(descending, price, p)) ==>
            (price in deep <==> Tracks(ls, price)))
  {
    LossInvHolds(descending, ds);
    var ls := SideAfter(descending, ds);
    TracksMember(ls, price);
    if price in Lost(descending, ds) {
      assert !Better(descending, price, price);
    }
  }

  /** Level conservation: the side holds as many levels as were inserted into
      free room less those removed, and a level is lost only when it is full. */
  lemma {:induction false} LevelConservation(descending: bool, ds: seq<Delta>)
    ensures var ls := SideAfter(descending, ds);
      && WellFormed(descending, ls)
      && 0 <= |ls| == Count(descending, ds, Inserted) - Count(descending, ds, Removed) <= 64
      && (ds != [] && LastResult(descending, ds) in {InsertedEvicted, Discarded} ==>
            |SideAfter(descending, ds[..|ds| - 1])| == 64)
  {
    if ds != [] {
      LevelConservation(descending, ds[..|ds| - 1]);
      var d := ds[|ds| - 1];
      DeltaMeaning(descending, SideAfter(descending, ds[..|ds| - 1]), d.price, d.qty);
    }
  }

  // ----- the same counts, from the result codes alone

  /** The result codes of a run.  A caller who keeps them can compute its counts. */
  function Results(descending: bool, ds: seq<Delta>): (rs: seq<DeltaResult>)
    ensures |rs| == |ds|
  {
    if ds == [] then [] else Results(descending, ds[..|ds| - 1]) + [LastResult(descending, ds)]
  }

  function Times(rs: seq<DeltaResult>, r: DeltaResult): nat {
    if rs == [] then 0 else Times(rs[..|rs| - 1], r) + if rs[|rs| - 1] == r then 1 else 0
  }

  /** A code that says that a level was lost. */
  predicate Loses(r: DeltaResult) {
    r == InsertedEvicted || r == Discarded
  }

  /** `Removed` codes after a code that says that a level was lost. */
  function LateIn(rs: seq<DeltaResult>): nat {
    if rs == [] then 0
    else
      var before := rs[..|rs| - 1];
      LateIn(before)
      + if rs[|rs| - 1] == Removed && Times(before, InsertedEvicted) + Times(before, Discarded) > 0 then 1 else 0
  }

  lemma CodeAppended(rs: seq<DeltaResult>, last: DeltaResult, r: DeltaResult)
    ensures Times(rs + [last], r) == Times(rs, r) + if last == r then 1 else 0
    ensures LateIn(rs + [last])
      == LateIn(rs) + if last == Removed && Times(rs, InsertedEvicted) + Times(rs, Discarded) > 0 then 1 else 0
  {
    assert (rs + [last])[..|rs|] == rs;
  }

  lemma LossShows(descending: bool, ls: seq<Level>, d: Delta)
    ensures LostBy(descending, ls, d) != {} <==> Loses(ListDelta(descending, ls, d.price, d.qty).1)
  {
    var (ls', r) := ListDelta(descending, ls, d.price, d.qty);
    assert r == Discarded ==> d.price in LostBy(descending, ls, d);
    assert r == InsertedEvicted ==> ls[|ls| - 1].price in LostBy(descending, ls, d);
  }

  lemma {:induction false} ResultsCount(descending: bool, ds: seq<Delta>, r: DeltaResult)
    ensures Times(Results(descending, ds), r) == Count(descending, ds, r)
  {
    if ds != [] {
      var prefix := ds[..|ds| - 1];
      ResultsCount(descending, prefix, r);
      CodeAppended(Results(descending, prefix), LastResult(descending, ds), r);
    }
  }

  lemma {:induction false} LossesCount(descending: bool, ds: seq<Delta>)
    ensures Lost(descending, ds) != {} <==> Count(descending, ds, InsertedEvicted) + Count(descending, ds, Discarded) > 0
  {
    if ds != [] {
      var prefix := ds[..|ds| - 1];
      LossesCount(descending, prefix);
      LossShows(descending, SideAfter(descending, prefix), ds[|ds| - 1]);
    }
  }

  lemma {:induction false} ResultsLate(descending: bool, ds: seq<Delta>)
    ensures LateIn(Results(descending, ds)) == Late(descending, ds)
  {
    if ds != [] {
      var prefix := ds[..|ds| - 1];
      ResultsLate(descending, prefix);
      LossesCount(descending, prefix);
      ResultsCount(descending, prefix, InsertedEvicted);
      ResultsCount(descending, prefix, Discarded);
      CodeAppended(Results(descending, prefix), LastResult(descending, ds), Removed);
    }
  }

  // ----- every book has a ranking

  lemma {:induction false} RankingExists(descending: bool, deep: map<u64, u64>) returns (ranking: seq<Level>)
    ensures IsRanking(descending, deep, ranking)
    decreases |deep|
  {
    if deep == map[] {
      ranking := [];
    } else {
      var p :| p in deep;
      var rest := deep - {p};
      assert p !in rest && rest.Keys == deep.Keys - {p};
      assert |rest.Keys| == |deep.Keys| - 1;
      var r := RankingExists(descending, rest);
      var l := Level(p, deep[p]);
      TracksMember(r, p);
      InsertedSorted(descending, r, l);
      var i := InsertionPoint(descending, r, p);
      ranking := InsertedAt(r, i, l);
      assert ranking[i] == l;
      forall x ensures x in ranking <==> x.price in deep && deep[x.price] == x.qty {
        if x in r {
          var k :| 0 <= k < |r| && r[k] == x;
          assert ranking[if k < i then k else k + 1] == x;
        }
      }
    }
  }

  /** A book has only one ranking. */
  lemma RankingUnique(descending: bool, deep: map<u64, u64>, r1: seq<Level>, r2: seq<Level>)
    requires IsRanking(descending, deep, r1) && IsRanking(descending, deep, r2)
    ensures r1 == r2
  {
    PrefixAgrees(descending, r1, r2, |r1| + |r2|);
  }

  // ----- no bound that looks only at the number of late removals does better

  lemma Appended(descending: bool, ds: seq<Delta>, d: Delta)
    ensures var ds' := ds + [d];
      var (ls, result) := ListDelta(descending, SideAfter(descending, ds), d.price, d.qty);
      && SideAfter(descending, ds') == ls
      && Deep(ds') == DeepStep(Deep(ds), d)
      && LastResult(descending, ds') == result
      && Lost(descending, ds') == Lost(descending, ds) + LostBy(descending, SideAfter(descending, ds), d)
      && Late(descending, ds') == Late(descending, ds) + (if result == Removed && Lost(descending, ds) != {} then 1 else 0)
      && (forall r :: Count(descending, ds', r) == Count(descending, ds, r) + if result == r then 1 else 0)
  {
    assert (ds + [d])[..|ds|] == ds;
  }

  /** Prices in the order of their rank, best first. */
  function Rung(descending: bool, n: nat): u64
    requires n <= MAX_LEVELS + 1
  {
    if descending then 100 - n else n
  }

  /** One level at each of the rungs 1, 2, ..., n. */
  function Ladder(descending: bool, n: nat): (ls: seq<Level>)
    requires n <= MAX_LEVELS
    ensures |ls| == n && forall i :: 0 <= i < n ==> ls[i] == Level(Rung(descending, i + 1), 1)
  {
    seq(n, i requires 0 <= i < n => Level(Rung(descending, i + 1), 1))
  }

  lemma LadderOffer(descending: bool, n: nat)
    requires 1 <= n <= MAX_LEVELS + 1
    ensures ListDelta(descending, Ladder(descending, n - 1), Rung(descending, n), 1)
      == if n <= MAX_LEVELS then (Ladder(descending, n), Inserted) else (Ladder(descending, n - 1), Discarded)
  {
    var ls, p := Ladder(descending, n - 1), Rung(descending, n);
    assert Position(ls, p) == |ls| && InsertionPoint(descending, ls, p) == |ls|;
    assert n <= MAX_LEVELS ==> InsertedAt(ls, |ls|, Level(p, 1)) == Ladder(descending, n);
  }

  lemma LadderCancel(descending: bool, n: nat)
    requires 1 <= n <= MAX_LEVELS
    ensures ListDelta(descending, Ladder(descending, n), Rung(descending, n), 0) == (Ladder(descending, n - 1), Removed)
  {
    var ls, p := Ladder(descending, n), Rung(descending, n);
    assert ls[n - 1].price == p;
    assert Position(ls, p) == n - 1;
    assert RemovedAt(ls, n - 1) == Ladder(descending, n - 1);
  }

  ghost predicate Filled(descending: bool, ds: seq<Delta>, n: nat)
    requires n <= MAX_LEVELS
  {
    && SideAfter(descending, ds) == Ladder(descending, n)
    && Lost(descending, ds) == {} && Late(descending, ds) == 0 && Count(descending, ds, Removed) == 0
  }

  lemma FillStep(descending: bool, ds: seq<Delta>, n: nat)
    requires 1 <= n <= MAX_LEVELS && Filled(descending, ds, n - 1)
    ensures Filled(descending, ds + [Delta(Rung(descending, n), 1)], n)
  {
    Appended(descending, ds, Delta(Rung(descending, n), 1));
    LadderOffer(descending, n);
  }

  /** Offer the first n rungs, best first. */
  lemma {:induction false} Fill(descending: bool, n: nat) returns (ds: seq<Delta>)
    requires n <= MAX_LEVELS
    ensures Filled(descending, ds, n)
  {
    if n == 0 {
      ds := [];
      assert Ladder(descending, 0) == [];
    } else {
      ds := Fill(descending, n - 1);
      FillStep(descending, ds, n);
      ds := ds + [Delta(Rung(descending, n), 1)];
    }
  }

  /** Every length up to 64 is reached, by insertions into free room alone. */
  lemma SideFills(descending: bool, n: nat) returns (ds: seq<Delta>)
    requires n <= 64
    ensures |SideAfter(descending, ds)| == Count(descending, ds, Inserted) == n && Count(descending, ds, Removed) == 0
  {
    ds := Fill(descending, n);
    LevelConservation(descending, ds);
  }

  /** The state after r removals: what is left of the ladder, and the 65th price
      lost but still live. */
  ghost predicate Drained(descending: bool, ds: seq<Delta>, r: nat) {
    var last := Rung(descending, MAX_LEVELS + 1);
    && SideAfter(descending, ds) == Ladder(descending, if r < MAX_LEVELS then MAX_LEVELS - r else 0)
    && last in Lost(descending, ds) && last in Deep(ds)
    && Late(descending, ds) == Count(descending, ds, Removed) == r
  }

  lemma FillOver(descending: bool, ds: seq<Delta>)
    requires Filled(descending, ds, MAX_LEVELS)
    ensures Drained(descending, ds + [Delta(Rung(descending, MAX_LEVELS + 1), 1)], 0)
  {
    Appended(descending, ds, Delta(Rung(descending, MAX_LEVELS + 1), 1));
    LadderOffer(descending, MAX_LEVELS + 1);
  }

  lemma DrainStep(descending: bool, ds: seq<Delta>, r: nat)
    requires 1 <= r <= MAX_LEVELS && Drained(descending, ds, r - 1)
    ensures Drained(descending, ds + [Delta(Rung(descending, MAX_LEVELS + 1 - r), 0)], r)
  {
    Appended(descending, ds, Delta(Rung(descending, MAX_LEVELS + 1 - r), 0));
    LadderCancel(descending, MAX_LEVELS + 1 - r);
  }

  lemma OneLevel(descending: bool, p: u64)
    ensures ListDelta(descending, [], p, 1) == ([Level(p, 1)], Inserted)
    ensures ListDelta(descending, [Level(p, 1)], p, 0) == ([], Removed)
  {
    assert InsertedAt([], 0, Level(p, 1)) == [Level(p, 1)];
    assert RemovedAt([Level(p, 1)], 0) == [];
  }

  lemma DrainEmpty(descending: bool, ds: seq<Delta>, r: nat)
    requires r > MAX_LEVELS && Drained(descending, ds, r - 1)
    ensures Drained(descending, ds + [Delta(Rung(descending, 0), 1)] + [Delta(Rung(descending, 0), 0)], r)
  {
    var p := Rung(descending, 0);
    assert Ladder(descending, 0) == [];
    OneLevel(descending, p);
    Appended(descending, ds, Delta(p, 1));
    Appended(descending, ds + [Delta(p, 1)], Delta(p, 0));
  }

  /** Offer 65 levels, then remove r times: the worst tracked level as long as
      there is one, and then a level that was just inserted. */
  lemma {:induction false} Drain(descending: bool, r: nat) returns (ds: seq<Delta>)
    ensures Drained(descending, ds, r)
  {
    if r == 0 {
      ds := Fill(descending, MAX_LEVELS);
      FillOver(descending, ds);
      ds := ds + [Delta(Rung(descending, MAX_LEVELS + 1), 1)];
    } else {
      ds := Drain(descending, r - 1);
      if r <= MAX_LEVELS {
        DrainStep(descending, ds, r);
        ds := ds + [Delta(Rung(descending, MAX_LEVELS + 1 - r), 0)];
      } else {
        DrainEmpty(descending, ds, r);
        ds := ds + [Delta(Rung(descending, 0), 1)] + [Delta(Rung(descending, 0), 0)];
      }
    }
  }

  lemma LastUncovered(descending: bool, ds: seq<Delta>, r: nat)
    requires Drained(descending, ds, r) && r >= 1
    ensures var n := if r < MAX_LEVELS then MAX_LEVELS - r else 0;
      var last := Rung(descending, MAX_LEVELS + 1);
      !Tracks(SideAfter(descending, ds), last) && !Covers(descending, SideAfter(descending, ds), n + 1, last)
  {
  }

  /** On both sides of the book and for every number of late removals from 1 on
      there is a run after which the level right behind the guaranteed ones is
      wrong; all its removals are late. */
  lemma ExactnessIsTight(descending: bool, late: nat) returns (ds: seq<Delta>, ranking: seq<Level>)
    requires late >= 1
    ensures IsRanking(descending, Deep(ds), ranking)
    ensures Late(descending, ds) == Count(descending, ds, Removed) == late
    ensures var n := if late < MAX_LEVELS then MAX_LEVELS - late else 0;
      && AgreeTo(n, SideAfter(descending, ds), ranking)
      && !AgreeTo(n + 1, SideAfter(descending, ds), ranking)
  {
    ds := Drain(descending, late);
    ranking := RankingExists(descending, Deep(ds));
    DrainedDisagrees(descending, ds, late, ranking);
  }

  lemma DrainedDisagrees(descending: bool, ds: seq<Delta>, late: nat, ranking: seq<Level>)
    requires late >= 1 && Drained(descending, ds, late) && IsRanking(descending, Deep(ds), ranking)
    ensures var n := if late < MAX_LEVELS then MAX_LEVELS - late else 0;
      && AgreeTo(n, SideAfter(descending, ds), ranking)
      && !AgreeTo(n + 1, SideAfter(descending, ds), ranking)
  {
    var n := if late < MAX_LEVELS then MAX_LEVELS - late else 0;
    LastUncovered(descending, ds, late);
    TopOfBookExact(descending, ds, ranking);
    TopExactIff(descending, ds, ranking, n + 1);
  }
}
