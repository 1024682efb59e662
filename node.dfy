/**
 * One node of the versioned design. nodes/nodo_1.py and nodes/nodo_2.py run
 * the same code (only the node name, colour and port differ), so one class
 * models both. The module-level tables `products`, `sessions` and `ops_log`
 * become fields; the network, the clock and the request form become
 * parameters.
 */
module Nodes {
  import opened Catalog
  import opened Replica
  import opened Session

  class Node {
    var products: Products
    var sessions: Sessions
    var opsLog: seq<Op>

    /** Every bound in every session token is met by this node's own table. */
    ghost predicate TokensCovered()
      reads this
    {
      Covered(sessions, products)
    }

    /** A freshly started node: three empty tables. */
    constructor ()
      ensures products == map[] && sessions == map[] && opsLog == []
      ensures TokensCovered()
    {
      products, sessions, opsLog := map[], map[], [];
    }

    /** `ensure_session`: the session's token, created empty on first use. */
    method EnsureSession(sid: string) returns (token: Token)
      modifies this`sessions
      ensures sessions == Ensured(old(sessions), sid) && token == sessions[sid]
      ensures old(TokensCovered()) ==> TokensCovered()
    {
      if sid !in sessions {
        sessions := sessions[sid := map[]];
      }
      token := sessions[sid];
    }

    /** `merge_product`: last-writer-wins by (version, last_updated); True iff it replaced the record. */
    method MergeProduct(pid: string, incoming: Record) returns (changed: bool)
      modifies this`products
      ensures products == Merged(old(products), pid, incoming)
      ensures changed == Supersedes(old(products), pid, incoming)
      ensures changed <==> products != old(products)
      ensures NoLower(old(products), products)
      ensures old(TokensCovered()) ==> TokensCovered()
    {
      MergeChangesIff(products, pid, incoming);
      MergeNeverLowers(products, pid, incoming);
      if Covered(sessions, products) {
        CoveredStaysCovered(sessions, products, Merged(products, pid, incoming));
      }
      var incomingV := VersionOf(incoming);
      var localV := LocalVersion(products, pid);
      if incomingV > localV {
        products := products[pid := incoming];
        return true;
      }
      if incomingV == localV {
        if StampOf(incoming) > LocalStamp(products, pid) {
          products := products[pid := incoming];
          return true;
        }
      }
      return false;
    }

    /**
     * The inner loop of `_sync_internal`: merge every entry of one reachable
     * peer's snapshot, counting the merges that returned True.
     */
    method MergeSnapshot(snap: Products) returns (merged: nat)
      modifies this`products
      ensures products == ApplySnapshot(old(products), snap)
      ensures merged == |Accepted(old(products), snap)|
      ensures NoLower(old(products), products)
      ensures old(TokensCovered()) ==> TokensCovered()
    {
      ghost var p0 := products;
      merged := MergeEntries(snap);
      ApplySettles(p0, snap);
      if Covered(sessions, p0) {
        CoveredStaysCovered(sessions, p0, products);
      }
    }

    /** The loop of `MergeSnapshot`, one `merge_product` call per entry. */
    method MergeEntries(snap: Products) returns (merged: nat)
      modifies this`products
      ensures products == ApplySnapshot(old(products), snap)
      ensures merged == |Accepted(old(products), snap)|
    {
      ghost var p0 := products;
      var pending := snap.Keys;
      ghost var done: set<string> := {};
      merged := 0;
      ApplyNothing(p0, snap);
      while pending != {}
        invariant done == snap.Keys - pending && pending <= snap.Keys
        invariant products == ApplySnapshot(p0, Restrict(snap, done))
        invariant merged == |Accepted(p0, Restrict(snap, done))|
        decreases pending
      {
        var pid :| pid in pending;
        ghost var before := products;
        var changed := MergeProduct(pid, snap[pid]);
        MergeStep(p0, snap, done, pid, before, products, changed, merged);
        if changed {
          merged := merged + 1;
        }
        pending := pending - {pid};
        done := done + {pid};
      }
      assert done == snap.Keys;
      RestrictAll(snap);
    }

    /**
     * `_sync_internal`: pull from every peer in order; a failed fetch is
     * skipped and the sweep goes on. Returns `merged_total`.
     */
    method SyncInternal(peers: PeerResults) returns (mergedTotal: nat)
      modifies this`products
      ensures (products, mergedTotal) == Sweep(old(products), peers)
      ensures NoLower(old(products), products)
      ensures old(TokensCovered()) ==> TokensCovered()
    {
      ghost var p0 := products;
      mergedTotal := 0;
      for i := 0 to |peers|
        invariant (products, mergedTotal) == Sweep(p0, peers[..i])
      {
        SweepStep(p0, peers[..i + 1]);
        assert peers[..i + 1][..i] == peers[..i];
        match peers[i]
        case None =>
          // the fetch failed: this peer is skipped
        case Some(snap) =>
          var merged := MergeSnapshot(snap);
          mergedTotal := mergedTotal + merged;
      }
      assert peers[..|peers|] == peers;
      SweepNeverLowers(p0, peers);
      if Covered(sessions, p0) {
        CoveredStaysCovered(sessions, p0, products);
      }
    }

    /** `record_op`: append one entry to the operation log. */
    method RecordOp(kind: OpKind, key: string, sid: string, value: Option<Record>, timestamp: int)
      modifies this`opsLog
      ensures opsLog == old(opsLog) + [Op(kind, key, value, timestamp, sid)]
    {
      opsLog := opsLog + [Op(kind, key, value, timestamp, sid)];
    }

    /**
     * The retry loop shared by `/read` and `/write`: sweep, at most
     * `MaxTries` times, until the local version of `pid` reaches `needed`.
     * Sweep number i gets the answers `retries[i]`. Returns `tries`.
     */
    method CatchUpLoop(pid: string, needed: nat, retries: seq<PeerResults>) returns (tries: nat)
      requires MaxTries <= |retries|
      modifies this`products
      ensures (products, tries) == CatchUp(old(products), pid, needed, retries, 0)
      ensures NoLower(old(products), products)
      ensures old(TokensCovered()) ==> TokensCovered()
    {
      ghost var p0 := products;
      tries := 0;
      while LocalVersion(products, pid) < needed && tries < MaxTries
        invariant tries <= MaxTries
        invariant CatchUp(products, pid, needed, retries, tries) == CatchUp(p0, pid, needed, retries, 0)
        decreases MaxTries - tries
      {
        var merged := SyncInternal(retries[tries]);
        tries := tries + 1;
      }
      CatchUpNeverLowers(p0, pid, needed, retries, 0);
      if Covered(sessions, p0) {
        CoveredStaysCovered(sessions, p0, products);
      }
    }

    /**
     * The `/read` handler: wait until the local version reaches the
     * session's bound, then raise the bound to the version seen and log the
     * read. Returns the record read and the number of sweeps run.
     */
    method Read(sid: string, pid: string, retries: seq<PeerResults>, logStamp: int)
      returns (seen: Option<Record>, sweeps: nat)
      requires MaxTries <= |retries|
      modifies this
      ensures var token := Ensured(old(sessions), sid)[sid];
              var r := CatchUp(old(products), pid, TokenGet(token, pid), retries, 0);
              products == r.0 && sweeps == r.1
              && sessions == Ensured(old(sessions), sid)[sid := Raised(token, pid, LocalVersion(products, pid))]
      ensures opsLog == old(opsLog) + [Op(ReadOp, pid, None, logStamp, sid)]
      ensures seen == Lookup(products, pid)
      ensures sweeps <= MaxTries && products == Rounds(old(products), retries[..sweeps])
      ensures NoLower(old(products), products)
      ensures TokenGet(sessions[sid], pid) >= LocalVersion(products, pid)
      ensures sid in old(sessions) ==> TokenGet(sessions[sid], pid) >= TokenGet(old(sessions)[sid], pid)
      ensures old(TokensCovered()) ==> TokensCovered() && sweeps == 0 && products == old(products)
    {
      ghost var s0, p0 := sessions, products;
      var token := EnsureSession(sid);
      var needed := TokenGet(token, pid);
      sweeps := CatchUpLoop(pid, needed, retries);
      token := Raised(token, pid, LocalVersion(products, pid));
      sessions := sessions[sid := token];
      RecordOp(ReadOp, pid, sid, None, logStamp);
      seen := Lookup(products, pid);
      CatchUpRunsOnlySweeps(p0, pid, needed, retries);
      if Covered(s0, p0) {
        CoveredReadIsIdle(s0, p0, sid, pid, retries);
        RaiseKeepsCovered(s0, p0, sid, pid, LocalVersion(p0, pid));
      }
    }

    /**
     * The Writes-Follow-Reads loop of `/write`: for each dependency of the
     * token, in the order `deps`, wait until its local version reaches the
     * token's bound. Returns each dependency's number of sweeps.
     */
    method AwaitDependencies(token: Token, deps: seq<string>, retries: seq<seq<PeerResults>>)
      returns (sweeps: seq<nat>)
      requires forall d :: d in deps ==> d in token
      requires Supplied(retries, |deps|)
      modifies this`products
      ensures (products, sweeps) == AwaitDeps(old(products), token, deps, retries)
      ensures NoLower(old(products), products)
      ensures old(TokensCovered()) ==> TokensCovered()
    {
      ghost var p0 := products;
      sweeps := [];
      for i := 0 to |deps|
        invariant (products, sweeps) == AwaitDeps(p0, token, deps[..i], retries[..i])
      {
        var minV := token[deps[i]];
        var tries := CatchUpLoop(deps[i], minV, retries[i]);
        sweeps := sweeps + [tries];
        assert deps[..i + 1][..i] == deps[..i] && retries[..i + 1][..i] == retries[..i];
      }
      assert deps[..|deps|] == deps && retries[..|retries|] == retries;
      AwaitDepsNeverLowers(p0, token, deps, retries);
      if Covered(sessions, p0) {
        CoveredStaysCovered(sessions, p0, products);
      }
    }

    /**
     * The `/write` handler. `deps` is the order in which the session's token
     * yields its entries, and `retries[i]` the sweep answers available while
     * waiting for `deps[i]`. After the Writes-Follow-Reads waits, the record
     * is overwritten with version local+1, the writer's bound is raised to
     * it and the write is logged. Returns the record written and each
     * dependency's number of sweeps.
     */
    method Write(sid: string, pid: string, attrs: Attrs, deps: seq<string>, retries: seq<seq<PeerResults>>,
                 stamp: int, logStamp: int)
      returns (written: Record, sweeps: seq<nat>)
      requires forall d :: d in deps <==> d in Ensured(sessions, sid)[sid]
      requires forall i, j :: 0 <= i < j < |deps| ==> deps[i] != deps[j]
      requires Supplied(retries, |deps|)
      modifies this
      ensures (products, sessions, written, sweeps)
              == WriteEffect(old(products), old(sessions), sid, pid, attrs, stamp, deps, retries)
      ensures opsLog == old(opsLog) + [Op(WriteOp, pid, Some(written), logStamp, sid)]
      ensures old(TokensCovered()) ==> TokensCovered()
    {
      ghost var s0, p0, log0 := sessions, products, opsLog;
      var token := EnsureSession(sid);
      ghost var s1 := sessions;
      sweeps := AwaitDependencies(token, deps, retries);
      ghost var waited := AwaitDeps(p0, token, deps, retries);
      assert token == Ensured(s0, sid)[sid] && s1 == Ensured(s0, sid);
      assert sessions == s1 && opsLog == log0 && products == waited.0 && sweeps == waited.1;
      written := StoreWrite(sid, pid, attrs, stamp, logStamp);
      assert written == Record(attrs, Some(stamp), Some(LocalVersion(waited.0, pid) + 1));
      assert products == waited.0[pid := written];
      assert sessions == s1[sid := Raised(token, pid, VersionOf(written))];
      WriteEffectFrom(p0, s0, sid, pid, attrs, stamp, deps, retries, token, waited, written);
    }

    /**
     * The write step of `/write` once the waits are over: store `attrs` as
     * version local+1 stamped `stamp`, raise the writer's bound to that
     * version and log the write.
     */
    method StoreWrite(sid: string, pid: string, attrs: Attrs, stamp: int, logStamp: int) returns (written: Record)
      requires sid in sessions
      modifies this
      ensures written == Record(attrs, Some(stamp), Some(LocalVersion(old(products), pid) + 1))
      ensures products == old(products)[pid := written]
      ensures sessions == old(sessions)[sid := Raised(old(sessions)[sid], pid, VersionOf(written))]
      ensures opsLog == old(opsLog) + [Op(WriteOp, pid, Some(written), logStamp, sid)]
      ensures NoLower(old(products), products)
      ensures old(TokensCovered()) ==> TokensCovered()
    {
      var newVersion := LocalVersion(products, pid) + 1;
      written := Record(attrs, Some(stamp), Some(newVersion));
      OverwriteNeverLowers(products, pid, written);
      if Covered(sessions, products) {
        WriteKeepsCovered(sessions, products, sid, pid, written);
      }
      products := products[pid := written];
      sessions := sessions[sid := Raised(sessions[sid], pid, newVersion)];
      RecordOp(WriteOp, pid, sid, Some(written), logStamp);
    }

    /**
     * The `/api` export: give every record lacking a version the version 1,
     * in place, and return the table.
     */
    method Api() returns (exported: Products)
      modifies this`products
      ensures products == Normalised(old(products)) && exported == products
      ensures NoLower(old(products), products)
      ensures old(TokensCovered()) ==> TokensCovered()
    {
      ghost var p0 := products;
      var pending := products.Keys;
      while pending != {}
        invariant pending <= p0.Keys && products.Keys == p0.Keys
        invariant forall k :: k in p0 ==> products[k] == if k in pending then p0[k] else WithVersion(p0[k])
        decreases pending
      {
        var pid :| pid in pending;
        if products[pid].version.None? {
          products := products[pid := products[pid].(version := Some(1))];
        }
        pending := pending - {pid};
      }
      exported := products;
      NormalisedRaisesOnlyMissing(p0);
      if Covered(sessions, p0) {
        CoveredStaysCovered(sessions, p0, products);
      }
    }
  }
}
