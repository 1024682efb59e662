/**
 * The version store, the merge rule and the anti-entropy sweep of a node, as
 * functions of the `products` table. The class in node.dfy changes its state
 * only as these functions say.
 */
module Replica {
  import opened Catalog

  /** The order key of a record: (version, last_updated), a missing field read as 0. */
  type Rank = (nat, int)

  function VersionOf(r: Record): nat { r.version.GetOr(0) }

  function StampOf(r: Record): int { r.lastUpdated.GetOr(0) }

  function RankOf(r: Record): Rank { (VersionOf(r), StampOf(r)) }

  function Lookup(p: Products, pid: string): Option<Record> {
    if pid in p then Some(p[pid]) else None
  }

  /** `local_version`: an absent product and a record without a version both read as 0. */
  function LocalVersion(p: Products, pid: string): (v: nat)
    ensures pid !in p || p[pid].version.None? ==> v == 0
    ensures pid in p && p[pid].version.Some? ==> v == p[pid].version.value
  {
    if pid in p then VersionOf(p[pid]) else 0
  }

  /** The local `last_updated` as the merge reads it: 0 when absent or missing. */
  function LocalStamp(p: Products, pid: string): int {
    if pid in p then StampOf(p[pid]) else 0
  }

  /** The rank of the local copy; an absent product ranks (0, 0). */
  function LocalRank(p: Products, pid: string): (r: Rank)
    ensures r == (LocalVersion(p, pid), LocalStamp(p, pid))
  {
    if pid in p then RankOf(p[pid]) else (0, 0)
  }

  /** Strict lexicographic order on ranks. */
  predicate Above(a: Rank, b: Rank) {
    a.0 > b.0 || (a.0 == b.0 && a.1 > b.1)
  }

  /** No product of `p` has a higher rank than it has in `q`. */
  ghost predicate NoLower(p: Products, q: Products) {
    forall k :: !Above(LocalRank(p, k), LocalRank(q, k))
  }

  lemma NoLowerTransitive(p: Products, q: Products, s: Products)
    requires NoLower(p, q) && NoLower(q, s)
    ensures NoLower(p, s)
  {
    forall k ensures !Above(LocalRank(p, k), LocalRank(s, k)) {
      assert !Above(LocalRank(p, k), LocalRank(q, k));
      assert !Above(LocalRank(q, k), LocalRank(s, k));
    }
  }

  /* ---------------------------------------------------------------- merge */

  /**
   * The acceptance test of `merge_product`: a higher version wins; on equal
   * versions a strictly later `last_updated` wins; anything else is rejected.
   */
  predicate Supersedes(p: Products, pid: string, incoming: Record) {
    var incomingV := VersionOf(incoming);
    var localV := LocalVersion(p, pid);
    incomingV > localV || (incomingV == localV && StampOf(incoming) > LocalStamp(p, pid))
  }

  /** The table after `merge_product(pid, incoming)`. */
  function Merged(p: Products, pid: string, incoming: Record): Products {
    if Supersedes(p, pid, incoming) then p[pid := incoming] else p
  }

  /** The merge test is exactly "the incoming rank is above the local rank". */
  lemma SupersedesIsRankOrder(p: Products, pid: string, incoming: Record)
    ensures Supersedes(p, pid, incoming) <==> Above(RankOf(incoming), LocalRank(p, pid))
  {
  }

  /** A merge never lowers the rank of any product, so never a version. */
  lemma MergeNeverLowers(p: Products, pid: string, incoming: Record)
    ensures NoLower(p, Merged(p, pid, incoming))
    ensures forall k :: LocalVersion(Merged(p, pid, incoming), k) >= LocalVersion(p, k)
  {
    var q := Merged(p, pid, incoming);
    forall k ensures !Above(LocalRank(p, k), LocalRank(q, k)) {
      if k != pid || !Supersedes(p, pid, incoming) {
        assert Lookup(q, k) == Lookup(p, k);
      }
    }
  }

  /** `merge_product` returns True exactly when the table changed. */
  lemma MergeChangesIff(p: Products, pid: string, incoming: Record)
    ensures Supersedes(p, pid, incoming) <==> Merged(p, pid, incoming) != p
  {
    if Supersedes(p, pid, incoming) {
      var q := Merged(p, pid, incoming);
      if pid in p {
        assert RankOf(p[pid]) != RankOf(incoming);
        assert q[pid] != p[pid];
      } else {
        assert pid in q;
      }
    }
  }

  /** A merge touches no product other than `pid`. */
  lemma MergeTouchesOnlyKey(p: Products, pid: string, incoming: Record)
    ensures var q := Merged(p, pid, incoming);
            forall k :: k != pid ==> Lookup(q, k) == Lookup(p, k)
    ensures Merged(p, pid, incoming).Keys == p.Keys + (if Supersedes(p, pid, incoming) then {pid} else {})
  {
  }

  /** Merging the same record again is rejected and changes nothing. */
  lemma MergeTwice(p: Products, pid: string, incoming: Record)
    ensures var q := Merged(p, pid, incoming);
            !Supersedes(q, pid, incoming) && Merged(q, pid, incoming) == q
  {
  }

  /** Two records of different rank may be merged in either order with the same outcome. */
  lemma MergeOrderIrrelevant(p: Products, pid: string, a: Record, b: Record)
    requires RankOf(a) != RankOf(b)
    ensures Merged(Merged(p, pid, a), pid, b) == Merged(Merged(p, pid, b), pid, a)
  {
    var pa, pb := Merged(p, pid, a), Merged(p, pid, b);
    if Supersedes(p, pid, a) && Supersedes(p, pid, b) {
      assert LocalRank(pa, pid) == RankOf(a) && LocalRank(pb, pid) == RankOf(b);
      if Above(RankOf(a), RankOf(b)) {
        assert Merged(pa, pid, b) == pa;
        assert Merged(pb, pid, a) == pa;
      } else {
        assert Merged(pa, pid, b) == pb;
        assert Merged(pb, pid, a) == pb;
      }
    }
  }

  /**
   * Two records of equal rank do not commute: the tie test is strict, so
   * whichever is merged first stays. Two such records with different
   * payloads therefore leave different tables in the two orders.
   */
  lemma MergeEqualRankFirstStays(p: Products, pid: string, a: Record, b: Record)
    requires RankOf(a) == RankOf(b) && Supersedes(p, pid, a)
    ensures Merged(Merged(p, pid, a), pid, b) == p[pid := a]
    ensures Merged(Merged(p, pid, b), pid, a) == p[pid := b]
  {
  }

  /**
   * Merging two records of different rank into an empty table, in either
   * order, keeps the higher-ranked one; a record ranked no higher than the
   * empty floor (0, 0) is never stored.
   */
  lemma MergeIntoEmpty(pid: string, a: Record, b: Record)
    requires RankOf(a) != RankOf(b)
    ensures var w := if Above(RankOf(a), RankOf(b)) then a else b;
            var expected: Products := if Above(RankOf(w), (0, 0)) then map[pid := w] else map[];
            Merged(Merged(map[], pid, a), pid, b) == expected
            && Merged(Merged(map[], pid, b), pid, a) == expected
  {
    MergeOrderIrrelevant(map[], pid, a, b);
  }

  /**
   * The local write stores a record one version above the local one; such an
   * overwrite never lowers any product.
   */
  lemma OverwriteNeverLowers(p: Products, pid: string, w: Record)
    requires VersionOf(w) > LocalVersion(p, pid)
    ensures NoLower(p, p[pid := w])
    ensures forall k :: LocalVersion(p[pid := w], k) >= LocalVersion(p, k)
  {
    var q := p[pid := w];
    forall k ensures !Above(LocalRank(p, k), LocalRank(q, k)) {
      if k != pid {
        assert Lookup(q, k) == Lookup(p, k);
      }
    }
  }

  /* ------------------------------------------------------------- snapshot */

  /** The products of `snap` whose merge into `p` is accepted. */
  function Accepted(p: Products, snap: Products): set<string> {
    set k | k in snap && Supersedes(p, k, snap[k])
  }

  /**
   * `p` after merging every entry of one peer snapshot. Each entry touches
   * only its own product, so the order in which the entries are merged does
   * not matter.
   */
  function ApplySnapshot(p: Products, snap: Products): Products {
    p + Restrict(snap, Accepted(p, snap))
  }

  /** Each product ends where merging its own snapshot entry alone would leave it. */
  lemma ApplyIsPerKeyMerge(p: Products, snap: Products, k: string)
    ensures Lookup(ApplySnapshot(p, snap), k) == Lookup(if k in snap then Merged(p, k, snap[k]) else p, k)
  {
  }

  /** The part of `snap` whose keys are in `keys`. */
  function Restrict(snap: Products, keys: set<string>): Products {
    map k | k in snap && k in keys :: snap[k]
  }

  /** One iteration of the snapshot loop: the table and the count after merging entry `pid`. */
  lemma MergeStep(p0: Products, snap: Products, done: set<string>, pid: string,
                  before: Products, after: Products, changed: bool, merged: nat)
    requires pid in snap && pid !in done
    requires before == ApplySnapshot(p0, Restrict(snap, done))
    requires merged == |Accepted(p0, Restrict(snap, done))|
    requires after == Merged(before, pid, snap[pid]) && changed == Supersedes(before, pid, snap[pid])
    ensures after == ApplySnapshot(p0, Restrict(snap, done + {pid}))
    ensures merged + (if changed then 1 else 0) == |Accepted(p0, Restrict(snap, done + {pid}))|
  {
    var accepted := Accepted(p0, Restrict(snap, done));
    ApplyOneMore(p0, snap, done, pid);
    assert pid !in accepted;
    if changed {
      assert |accepted + {pid}| == |accepted| + 1;
    }
  }

  lemma ApplyNothing(p: Products, snap: Products)
    ensures ApplySnapshot(p, Restrict(snap, {})) == p && Accepted(p, Restrict(snap, {})) == {}
  {
    assert Restrict(snap, {}) == map[];
  }

  lemma RestrictAll(snap: Products)
    ensures Restrict(snap, snap.Keys) == snap
  {
  }

  /** Merging one more entry of a snapshot extends the partial application by that entry. */
  lemma ApplyOneMore(p: Products, snap: Products, done: set<string>, k: string)
    requires k in snap && k !in done
    ensures var before := ApplySnapshot(p, Restrict(snap, done));
            Supersedes(before, k, snap[k]) == Supersedes(p, k, snap[k])
            && ApplySnapshot(p, Restrict(snap, done + {k})) == Merged(before, k, snap[k])
            && Accepted(p, Restrict(snap, done + {k}))
               == Accepted(p, Restrict(snap, done)) + (if Supersedes(p, k, snap[k]) then {k} else {})
  {
    var r := Restrict(snap, done);
    RestrictOneMore(snap, done, k);
    var before := ApplySnapshot(p, r);
    assert k !in Accepted(p, r);
    assert LocalRank(before, k) == LocalRank(p, k);
    AcceptedOneMore(p, r, k, snap[k]);
    ApplyOneMoreTable(p, r, k, snap[k]);
  }

  lemma RestrictOneMore(snap: Products, done: set<string>, k: string)
    requires k in snap
    ensures Restrict(snap, done + {k}) == Restrict(snap, done)[k := snap[k]]
  {
  }

  lemma AcceptedOneMore(p: Products, r: Products, k: string, x: Record)
    requires k !in r
    ensures Accepted(p, r[k := x]) == Accepted(p, r) + (if Supersedes(p, k, x) then {k} else {})
  {
  }

  lemma ApplyOneMoreTable(p: Products, r: Products, k: string, x: Record)
    requires k !in r
    ensures ApplySnapshot(p, r[k := x]) == Merged(ApplySnapshot(p, r), k, x)
  {
    var before := ApplySnapshot(p, r);
    assert LocalRank(before, k) == LocalRank(p, k);
    AcceptedOneMore(p, r, k, x);
    var lhs, rhs := ApplySnapshot(p, r[k := x]), Merged(before, k, x);
    forall j ensures Lookup(lhs, j) == Lookup(rhs, j) {
      if j != k {
        assert (j in Accepted(p, r[k := x])) == (j in Accepted(p, r));
      }
    }
    SameLookups(lhs, rhs);
  }

  /** After a snapshot is merged, none of its entries would be accepted again. */
  ghost predicate Settled(p: Products, snap: Products) {
    forall k :: k in snap ==> !Supersedes(p, k, snap[k])
  }

  lemma ApplySettles(p: Products, snap: Products)
    ensures Settled(ApplySnapshot(p, snap), snap)
    ensures NoLower(p, ApplySnapshot(p, snap))
  {
    var q := ApplySnapshot(p, snap);
    forall k ensures !Above(LocalRank(p, k), LocalRank(q, k)) {
      ApplyIsPerKeyMerge(p, snap, k);
    }
  }

  lemma SettledApplyIsNoOp(p: Products, snap: Products)
    requires Settled(p, snap)
    ensures ApplySnapshot(p, snap) == p && Accepted(p, snap) == {}
  {
  }

  lemma SettledStaysSettled(p: Products, q: Products, snap: Products)
    requires Settled(p, snap) && NoLower(p, q)
    ensures Settled(q, snap)
  {
    forall k | k in snap ensures !Supersedes(q, k, snap[k]) {
      assert !Above(LocalRank(p, k), LocalRank(q, k));
    }
  }

  /* ---------------------------------------------------------------- sweep */

  /**
   * `_sync_internal` over one round of peer answers: the new table and
   * `merged_total`, the number of merges that returned True. A failed fetch
   * contributes nothing.
   */
  function Sweep(p: Products, peers: PeerResults): (Products, nat)
    decreases |peers|
  {
    if peers == [] then (p, 0) else PullOne(Sweep(p, peers[..|peers| - 1]), peers[|peers| - 1])
  }

  /** One peer of a sweep: merge its snapshot and add its accepted merges, or skip a failed fetch. */
  function PullOne(acc: (Products, nat), peer: Option<Products>): (Products, nat) {
    match peer
    case None => acc
    case Some(snap) => (ApplySnapshot(acc.0, snap), acc.1 + |Accepted(acc.0, snap)|)
  }

  /** A sweep never lowers the rank, hence the version, of any product. */
  lemma {:induction false} SweepNeverLowers(p: Products, peers: PeerResults)
    ensures NoLower(p, Sweep(p, peers).0)
    ensures forall k :: LocalVersion(Sweep(p, peers).0, k) >= LocalVersion(p, k)
    decreases |peers|
  {
    if peers != [] {
      var init := peers[..|peers| - 1];
      var q := Sweep(p, init).0;
      SweepNeverLowers(p, init);
      if peers[|peers| - 1].Some? {
        var snap := peers[|peers| - 1].value;
        ApplySettles(q, snap);
        NoLowerTransitive(p, q, ApplySnapshot(q, snap));
      }
    }
    var r := Sweep(p, peers).0;
    forall k ensures LocalVersion(r, k) >= LocalVersion(p, k) {
      assert !Above(LocalRank(p, k), LocalRank(r, k));
    }
  }

  /** A failed peer is skipped: the sweep goes on with the remaining peers as if it were absent. */
  lemma {:induction false} SweepSkipsFailedPeer(p: Products, before: PeerResults, after: PeerResults)
    ensures Sweep(p, before + [None] + after) == Sweep(p, before + after)
    decreases |after|
  {
    if after == [] {
      assert before + [None] + after == before + [None] && before + after == before;
      SweepAppend(p, before, None);
    } else {
      var init := after[..|after| - 1];
      var last := after[|after| - 1];
      SweepSkipsFailedPeer(p, before, init);
      assert before + [None] + after == (before + [None] + init) + [last];
      assert before + after == (before + init) + [last];
      SweepAppend(p, before + [None] + init, last);
      SweepAppend(p, before + init, last);
    }
  }

  /** A sweep over one more peer pulls from that peer after the others. */
  lemma SweepAppend(p: Products, peers: PeerResults, peer: Option<Products>)
    ensures Sweep(p, peers + [peer]) == PullOne(Sweep(p, peers), peer)
  {
    assert (peers + [peer])[..|peers|] == peers;
  }

  lemma SweepStep(p: Products, peers: PeerResults)
    requires peers != []
    ensures Sweep(p, peers) == PullOne(Sweep(p, peers[..|peers| - 1]), peers[|peers| - 1])
  {
  }

  lemma {:induction false} SweepSettlesAll(p: Products, peers: PeerResults)
    ensures forall i :: 0 <= i < |peers| && peers[i].Some? ==> Settled(Sweep(p, peers).0, peers[i].value)
    decreases |peers|
  {
    if peers != [] {
      var init := peers[..|peers| - 1];
      var q := Sweep(p, init).0;
      var r := Sweep(p, peers).0;
      SweepSettlesAll(p, init);
      if peers[|peers| - 1].Some? {
        ApplySettles(q, peers[|peers| - 1].value);
      }
      assert NoLower(q, r);
      forall i | 0 <= i < |peers| && peers[i].Some? ensures Settled(r, peers[i].value) {
        if i < |init| {
          assert init[i] == peers[i];
          SettledStaysSettled(q, r, peers[i].value);
        }
      }
    }
  }

  lemma {:induction false} SettledSweepIsNoOp(p: Products, peers: PeerResults)
    requires forall i :: 0 <= i < |peers| && peers[i].Some? ==> Settled(p, peers[i].value)
    ensures Sweep(p, peers) == (p, 0)
    decreases |peers|
  {
    if peers != [] {
      var init := peers[..|peers| - 1];
      forall i | 0 <= i < |init| && init[i].Some? ensures Settled(p, init[i].value) {
        assert init[i] == peers[i];
      }
      SettledSweepIsNoOp(p, init);
      if peers[|peers| - 1].Some? {
        SettledApplyIsNoOp(p, peers[|peers| - 1].value);
      }
    }
  }

  /** Running the same sweep again merges nothing and leaves the table as it is. */
  lemma SweepAgainIsNoOp(p: Products, peers: PeerResults)
    ensures var q := Sweep(p, peers).0;
            Sweep(q, peers) == (q, 0)
  {
    SweepSettlesAll(p, peers);
    SettledSweepIsNoOp(Sweep(p, peers).0, peers);
  }

  /**
   * Two nodes pull from each other in turn. x pulls y's `/api` export, and
   * y's `/api` normalises y's own table in place. Then y pulls x's export,
   * which normalises x's new table in place. Both end with the same table:
   * the higher-ranked copy of each product. This holds when no product is
   * held by both with equal rank but different content, and every record
   * ranks above the empty floor (0, 0).
   */
  lemma MutualPullConverges(x: Products, y: Products)
    requires forall k :: k in x && k in y ==>
               x[k] == WithVersion(y[k]) || RankOf(x[k]) != RankOf(WithVersion(y[k]))
    requires forall k :: k in x ==> Above(RankOf(x[k]), (0, 0))
    requires forall k :: k in y ==> Above(RankOf(y[k]), (0, 0))
    ensures var x' := Normalised(ApplySnapshot(x, Normalised(y)));
            ApplySnapshot(Normalised(y), x') == x'
  {
    var x' := Normalised(ApplySnapshot(x, Normalised(y)));
    forall k ensures Lookup(ApplySnapshot(Normalised(y), x'), k) == Lookup(x', k) {
      MutualPullKey(x, y, k);
    }
    SameLookups(ApplySnapshot(Normalised(y), x'), x');
  }

  /** One product of `MutualPullConverges`, reduced to its lookups. */
  lemma MutualPullKey(x: Products, y: Products, k: string)
    requires k in x && k in y ==> x[k] == WithVersion(y[k]) || RankOf(x[k]) != RankOf(WithVersion(y[k]))
    requires k in x ==> Above(RankOf(x[k]), (0, 0))
    requires k in y ==> Above(RankOf(y[k]), (0, 0))
    ensures var ny := Normalised(y);
            var x' := Normalised(ApplySnapshot(x, ny));
            Lookup(ApplySnapshot(ny, x'), k) == Lookup(x', k)
  {
    var ny := Normalised(y);
    var m := ApplySnapshot(x, ny);
    var x' := Normalised(m);
    assert Lookup(ny, k) == VersionedOpt(Lookup(y, k)) by { NormalisedLookup(y, k); }
    assert Lookup(m, k) == MergeOpt(Lookup(x, k), Lookup(ny, k)) by { ApplyLookup(x, ny, k); }
    assert Lookup(x', k) == VersionedOpt(Lookup(m, k)) by { NormalisedLookup(m, k); }
    assert Lookup(ApplySnapshot(ny, x'), k) == MergeOpt(Lookup(ny, k), Lookup(x', k)) by {
      ApplyLookup(ny, x', k);
    }
    OptPullConverges(Lookup(x, k), Lookup(y, k));
  }

  /** The rank of a copy that may be absent; absence ranks (0, 0). */
  function OptRank(o: Option<Record>): Rank {
    if o.Some? then RankOf(o.value) else (0, 0)
  }

  /** The merge rule on one product's copies: the incoming copy wins when it ranks higher. */
  function MergeOpt(local: Option<Record>, incoming: Option<Record>): Option<Record> {
    if incoming.Some? && Above(RankOf(incoming.value), OptRank(local)) then incoming else local
  }

  /** The `/api` normalisation of one product's copy. */
  function VersionedOpt(o: Option<Record>): Option<Record> {
    if o.Some? then Some(WithVersion(o.value)) else None
  }

  /** A snapshot's effect on one product is the merge rule on that product's copies. */
  lemma ApplyLookup(p: Products, snap: Products, k: string)
    ensures Lookup(ApplySnapshot(p, snap), k) == MergeOpt(Lookup(p, k), Lookup(snap, k))
  {
    ApplyIsPerKeyMerge(p, snap, k);
  }

  /** `MutualPullConverges` for the two copies of one product. */
  lemma OptPullConverges(cx: Option<Record>, cy: Option<Record>)
    requires cx.Some? && cy.Some? ==>
               cx.value == WithVersion(cy.value) || RankOf(cx.value) != RankOf(WithVersion(cy.value))
    requires cx.Some? ==> Above(RankOf(cx.value), (0, 0))
    requires cy.Some? ==> Above(RankOf(cy.value), (0, 0))
    ensures var ny := VersionedOpt(cy);
            var x' := VersionedOpt(MergeOpt(cx, ny));
            MergeOpt(ny, x') == x'
  {
    if cy.Some? {
      WithVersionRaises(cy.value);
      if cx.Some? {
        WithVersionRaises(cx.value);
      }
    } else if cx.Some? {
      WithVersionRaises(cx.value);
    }
  }

  /** Giving a record its default version never lowers its rank, and doing it twice is doing it once. */
  lemma WithVersionRaises(r: Record)
    ensures !Above(RankOf(r), RankOf(WithVersion(r)))
    ensures WithVersion(WithVersion(r)) == WithVersion(r)
  {
  }

  lemma NormalisedLookup(p: Products, k: string)
    ensures Lookup(Normalised(p), k) == VersionedOpt(Lookup(p, k))
  {
  }

  /** Two tables that agree on every lookup are equal. */
  lemma SameLookups(a: Products, b: Products)
    requires forall k :: Lookup(a, k) == Lookup(b, k)
    ensures a == b
  {
    forall k | k in a ensures k in b && a[k] == b[k] {
      assert Lookup(a, k) == Lookup(b, k);
    }
    forall k | k in b ensures k in a {
      assert Lookup(a, k) == Lookup(b, k);
    }
  }

  /* --------------------------------------------------------------- export */

  /** A record as `/api` exports it: a missing version becomes 1. */
  function WithVersion(r: Record): Record {
    if r.version.None? then r.(version := Some(1)) else r
  }

  /** The table after the `/api` normalisation pass. */
  function Normalised(p: Products): (q: Products)
    ensures q.Keys == p.Keys
    ensures forall k :: k in q ==> q[k].version.Some?
    ensures forall k :: k in p && p[k].version.Some? ==> q[k] == p[k]
    ensures forall k :: k in p ==> q[k].attrs == p[k].attrs && q[k].lastUpdated == p[k].lastUpdated
  {
    map k | k in p :: WithVersion(p[k])
  }

  /** Normalising raises only missing versions, to 1, and normalising twice is normalising once. */
  lemma NormalisedRaisesOnlyMissing(p: Products)
    ensures NoLower(p, Normalised(p))
    ensures forall k :: k in p ==> LocalVersion(Normalised(p), k) == if p[k].version.None? then 1 else LocalVersion(p, k)
    ensures Normalised(Normalised(p)) == Normalised(p)
  {
  }
}
