/**
 * The earlier, unversioned design of a node (TP2_simulacion4/nodo_2.py):
 * `sync_all` merges by `last_updated` alone, `write` overwrites a record
 * without any version, and `read` only looks a record up.
 */
module Legacy {
  import opened Catalog
  import Replica

  /** A record that is an empty dict, which Python treats as false in `not existing`. */
  predicate IsEmptyRecord(r: Record) {
    r.attrs == map[] && r.lastUpdated.None? && r.version.None?
  }

  /** No record of the table is an empty dict. */
  ghost predicate Filled(p: Products) {
    forall k :: k in p ==> !IsEmptyRecord(p[k])
  }

  /**
   * The acceptance test of `sync_all`: the product is missing (or its
   * record is empty), or the incoming `last_updated` is strictly later.
   * The version, if any, plays no part.
   */
  predicate Accepts(p: Products, pid: string, incoming: Record) {
    pid !in p || IsEmptyRecord(p[pid]) || Replica.StampOf(incoming) > Replica.StampOf(p[pid])
  }

  /** The table after one entry of a snapshot went through `sync_all`'s test. */
  function Merged(p: Products, pid: string, incoming: Record): Products {
    if Accepts(p, pid, incoming) then p[pid := incoming] else p
  }

  /** A tie, or an earlier stamp, on a non-empty local record keeps the local record. */
  lemma TieKeepsLocal(p: Products, pid: string, incoming: Record)
    requires pid in p && !IsEmptyRecord(p[pid])
    ensures Replica.StampOf(incoming) <= Replica.StampOf(p[pid]) <==> Merged(p, pid, incoming) == p
  {
    if Replica.StampOf(incoming) > Replica.StampOf(p[pid]) {
      assert Merged(p, pid, incoming)[pid] != p[pid];
    }
  }

  /**
   * Unlike the versioned merge, the timestamp-only merge lets a record with
   * a later stamp and a lower version replace the local one, so the local
   * version goes down.
   */
  lemma StampOnlyMergeDropsVersion(p: Products, pid: string, incoming: Record)
    requires pid in p
    requires Replica.StampOf(incoming) > Replica.StampOf(p[pid])
    requires Replica.VersionOf(incoming) < Replica.LocalVersion(p, pid)
    ensures Merged(p, pid, incoming) == p[pid := incoming]
    ensures Replica.LocalVersion(Merged(p, pid, incoming), pid) < Replica.LocalVersion(p, pid)
    ensures Replica.Merged(p, pid, incoming) == p
  {
  }

  /* ------------------------------------------------------------- snapshot */

  /** The entries of `snap` that pass the test against `p`. */
  function Accepted(p: Products, snap: Products): set<string> {
    set k | k in snap && Accepts(p, k, snap[k])
  }

  /** `p` after the entry loop of `sync_all` over one peer's snapshot. */
  function Apply(p: Products, snap: Products): Products {
    p + Replica.Restrict(snap, Accepted(p, snap))
  }

  lemma ApplyNothing(p: Products, snap: Products)
    ensures Apply(p, Replica.Restrict(snap, {})) == p && Accepted(p, Replica.Restrict(snap, {})) == {}
  {
    assert Replica.Restrict(snap, {}) == map[];
  }

  lemma AcceptedOneMore(p: Products, r: Products, k: string, x: Record)
    requires k !in r
    ensures Accepted(p, r[k := x]) == Accepted(p, r) + (if Accepts(p, k, x) then {k} else {})
  {
  }

  lemma ApplyOneMoreTable(p: Products, r: Products, k: string, x: Record)
    requires k !in r
    ensures Apply(p, r[k := x]) == Merged(Apply(p, r), k, x)
  {
    var before := Apply(p, r);
    assert Replica.Lookup(before, k) == Replica.Lookup(p, k);
    AcceptedOneMore(p, r, k, x);
    var lhs, rhs := Apply(p, r[k := x]), Merged(before, k, x);
    forall j ensures Replica.Lookup(lhs, j) == Replica.Lookup(rhs, j) {
      if j != k {
        assert (j in Accepted(p, r[k := x])) == (j in Accepted(p, r));
      }
    }
    Replica.SameLookups(lhs, rhs);
  }

  /** One iteration of the entry loop: the table and `merged` after entry `pid`. */
  lemma MergeStep(p0: Products, snap: Products, done: set<string>, pid: string,
                  before: Products, merged: nat)
    requires pid in snap && pid !in done
    requires before == Apply(p0, Replica.Restrict(snap, done))
    requires merged == |Accepted(p0, Replica.Restrict(snap, done))|
    ensures Merged(before, pid, snap[pid]) == Apply(p0, Replica.Restrict(snap, done + {pid}))
    ensures merged + (if Accepts(before, pid, snap[pid]) then 1 else 0)
            == |Accepted(p0, Replica.Restrict(snap, done + {pid}))|
  {
    var r := Replica.Restrict(snap, done);
    var accepted := Accepted(p0, r);
    Replica.RestrictOneMore(snap, done, pid);
    assert Replica.Lookup(before, pid) == Replica.Lookup(p0, pid);
    AcceptedOneMore(p0, r, pid, snap[pid]);
    ApplyOneMoreTable(p0, r, pid, snap[pid]);
    assert pid !in accepted;
    if Accepts(before, pid, snap[pid]) {
      assert |accepted + {pid}| == |accepted| + 1;
    }
  }

  /**
   * Every product of the snapshot ends up stored, and the stamp of a
   * non-empty local record never goes down. Records stay non-empty when
   * the snapshot has no empty record.
   */
  lemma ApplyKeepsStamps(p: Products, snap: Products)
    ensures var q := Apply(p, snap);
            q.Keys == p.Keys + snap.Keys
            && forall k :: k in p && !IsEmptyRecord(p[k]) ==> Replica.StampOf(q[k]) >= Replica.StampOf(p[k])
    ensures Filled(p) && Filled(snap) ==> Filled(Apply(p, snap))
  {
    var q := Apply(p, snap);
    forall k | k in snap ensures k in q {
      if k !in p {
        assert k in Accepted(p, snap);
      }
    }
  }

  /**
   * Merging the same snapshot again leaves the table as it is. The second
   * pass still counts, as merged, the accepted entries that were empty
   * records: `not existing` holds for them again.
   */
  lemma ApplyTwice(p: Products, snap: Products)
    ensures Apply(Apply(p, snap), snap) == Apply(p, snap)
    ensures Accepted(Apply(p, snap), snap) == set k | k in Accepted(p, snap) && IsEmptyRecord(snap[k])
  {
    var q := Apply(p, snap);
    var again := Accepted(q, snap);
    forall k | k in snap ensures (k in again) == (k in Accepted(p, snap) && IsEmptyRecord(snap[k])) {
      if k !in Accepted(p, snap) {
        assert q[k] == p[k];
      }
    }
    forall k | k in again ensures q[k] == snap[k] {
    }
    Replica.SameLookups(Apply(q, snap), q);
  }

  /* ---------------------------------------------------------------- sweep */

  /**
   * `sync_all` over the peers' answers: the new table and, per peer, the
   * `merged` count it reports, or None for a peer whose fetch failed.
   */
  function Sweep(p: Products, peers: PeerResults): (r: (Products, seq<Option<nat>>))
    ensures |r.1| == |peers|
    decreases |peers|
  {
    if peers == [] then (p, []) else PullOne(Sweep(p, peers[..|peers| - 1]), peers[|peers| - 1])
  }

  function PullOne(acc: (Products, seq<Option<nat>>), peer: Option<Products>): (Products, seq<Option<nat>>) {
    match peer
    case None => (acc.0, acc.1 + [None])
    case Some(snap) => (Apply(acc.0, snap), acc.1 + [Some(|Accepted(acc.0, snap)|)])
  }

  /**
   * `sync_all` reports a failure exactly for a failed fetch, and otherwise
   * that peer's `merged`: the entries accepted against the table left by
   * the peers before it.
   */
  lemma {:induction false} SweepReports(p: Products, peers: PeerResults)
    ensures var r := Sweep(p, peers);
            forall i :: 0 <= i < |peers| ==>
              (r.1[i].None? <==> peers[i].None?)
              && (peers[i].Some? ==> r.1[i] == Some(|Accepted(Sweep(p, peers[..i]).0, peers[i].value)|))
    decreases |peers|
  {
    if peers != [] {
      var n := |peers| - 1;
      var init := peers[..n];
      var r := Sweep(p, peers);
      SweepReports(p, init);
      forall i | 0 <= i < |peers|
        ensures (r.1[i].None? <==> peers[i].None?)
                && (peers[i].Some? ==> r.1[i] == Some(|Accepted(Sweep(p, peers[..i]).0, peers[i].value)|))
      {
        if i < n {
          assert init[i] == peers[i];
          assert init[..i] == peers[..i];
        } else {
          assert peers[..i] == init;
        }
      }
    }
  }

  lemma SweepAppend(p: Products, peers: PeerResults, peer: Option<Products>)
    ensures Sweep(p, peers + [peer]) == PullOne(Sweep(p, peers), peer)
  {
    assert (peers + [peer])[..|peers|] == peers;
  }

  /**
   * A sweep keeps every non-empty local record non-empty and never moves
   * its `last_updated` back, when every reachable peer sends records that
   * are not empty dicts (as the `/api` of a node does), or when no local
   * stamp is negative (as `datetime.now().timestamp()` never is): an empty
   * dict stamps 0 and so never beats such a record.
   */
  lemma {:induction false} SweepKeepsStamps(p: Products, peers: PeerResults)
    requires (forall i :: 0 <= i < |peers| && peers[i].Some? ==> Filled(peers[i].value))
             || (forall k :: k in p ==> Replica.StampOf(p[k]) >= 0)
    ensures var q := Sweep(p, peers).0;
            forall k :: k in p && !IsEmptyRecord(p[k]) ==>
              k in q && !IsEmptyRecord(q[k]) && Replica.StampOf(q[k]) >= Replica.StampOf(p[k])
    decreases |peers|
  {
    if peers != [] {
      var init := peers[..|peers| - 1];
      var last := peers[|peers| - 1];
      if forall i :: 0 <= i < |peers| && peers[i].Some? ==> Filled(peers[i].value) {
        forall i | 0 <= i < |init| && init[i].Some? ensures Filled(init[i].value) {
          assert init[i] == peers[i];
        }
      }
      SweepKeepsStamps(p, init);
      var m := Sweep(p, init).0;
      if last.Some? {
        ApplyKeepsStamps(m, last.value);
        var q := Apply(m, last.value);
        forall k | k in p && !IsEmptyRecord(p[k]) ensures k in q && !IsEmptyRecord(q[k]) {
          assert k in m && !IsEmptyRecord(m[k]) && Replica.StampOf(m[k]) >= Replica.StampOf(p[k]);
          if k in Accepted(m, last.value) {
            assert q[k] == last.value[k];
            if !Filled(last.value) {
              assert Replica.StampOf(last.value[k]) > Replica.StampOf(m[k]) >= 0;
            }
          }
        }
      }
    }
  }

  /** A failed fetch is reported and skipped; the table is as if the peer were absent. */
  lemma {:induction false} SweepSkipsFailedPeer(p: Products, before: PeerResults, after: PeerResults)
    ensures Sweep(p, before + [None] + after).0 == Sweep(p, before + after).0
    decreases |after|
  {
    if after == [] {
      assert before + [None] + after == before + [None] && before + after == before;
      SweepAppend(p, before, None);
    } else {
      var init := after[..|after| - 1];
      var last := after[|after| - 1];
      SweepSkipsFailedPeer(p, before, init);
      assert before + [None] + after == (before + [None] + init) + [last];
      assert before + after == (before + init) + [last];
      SweepAppend(p, before + [None] + init, last);
      SweepAppend(p, before + init, last);
    }
  }

  /* ----------------------------------------------------------------- node */

  class Node {
    var products: Products

    /** A freshly started node: an empty table. */
    constructor ()
      ensures products == map[]
    {
      products := map[];
    }

    /** The entry loop of `sync_all` for one reachable peer; returns `merged`. */
    method MergeSnapshot(snap: Products) returns (merged: nat)
      modifies this`products
      ensures products == Apply(old(products), snap)
      ensures merged == |Accepted(old(products), snap)|
    {
      ghost var p0 := products;
      var pending := snap.Keys;
      ghost var done: set<string> := {};
      merged := 0;
      ApplyNothing(p0, snap);
      while pending != {}
        invariant done == snap.Keys - pending && pending <= snap.Keys
        invariant products == Apply(p0, Replica.Restrict(snap, done))
        invariant merged == |Accepted(p0, Replica.Restrict(snap, done))|
        decreases pending
      {
        var pid :| pid in pending;
        var incoming := snap[pid];
        MergeStep(p0, snap, done, pid, products, merged);
        if pid !in products || IsEmptyRecord(products[pid])
           || Replica.StampOf(incoming) > Replica.StampOf(products[pid]) {
          products := products[pid := incoming];
          merged := merged + 1;
        }
        pending := pending - {pid};
        done := done + {pid};
      }
      assert done == snap.Keys;
      Replica.RestrictAll(snap);
    }

    /**
     * `sync_all`: pull from every peer in order; a failed fetch is reported
     * and skipped. Returns each peer's `merged` count (None: fetch failed).
     */
    method SyncAll(peers: PeerResults) returns (merges: seq<Option<nat>>)
      modifies this`products
      ensures (products, merges) == Sweep(old(products), peers)
    {
      ghost var p0 := products;
      merges := [];
      for i := 0 to |peers|
        invariant (products, merges) == Sweep(p0, peers[..i])
      {
        assert peers[..i + 1] == peers[..i] + [peers[i]];
        SweepAppend(p0, peers[..i], peers[i]);
        match peers[i]
        case None =>
          merges := merges + [None];
        case Some(snap) =>
          var merged := MergeSnapshot(snap);
          merges := merges + [Some(merged)];
      }
      assert peers[..|peers|] == peers;
    }

    /** `write`: overwrite the product with the new payload, stamped `stamp` and without a version. */
    method Write(pid: string, attrs: Attrs, stamp: int) returns (written: Record)
      modifies this`products
      ensures written == Record(attrs, Some(stamp), None)
      ensures products.Keys == old(products).Keys + {pid} && products[pid] == written
      ensures forall k :: k != pid ==> Replica.Lookup(products, k) == Replica.Lookup(old(products), k)
    {
      written := Record(attrs, Some(stamp), None);
      products := products[pid := written];
    }

    /** `read`: look the product up; nothing changes. */
    method Read(pid: string) returns (seen: Option<Record>)
      ensures seen.Some? <==> pid in products
      ensures seen.Some? ==> seen.value == products[pid]
    {
      seen := if pid in products then Some(products[pid]) else None;
    }
  }
}
