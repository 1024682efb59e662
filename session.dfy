/**
 * Session tokens and the bounded waits that read and write run before they
 * act, as functions of the tables. A wait runs at most `MaxTries` sweeps and
 * then proceeds whether or not the local copy caught up.
 */
module Session {
  import opened Catalog
  import opened Replica

  /** The sessions table after `ensure_session(sid)`. */
  function Ensured(s: Sessions, sid: string): (s': Sessions)
    ensures s'.Keys == s.Keys + {sid}
    ensures forall x :: x in s ==> s'[x] == s[x]
    ensures sid !in s ==> s'[sid] == map[]
  {
    if sid in s then s else s[sid := map[]]
  }

  /** `ensure_session` creates a token only on first use: a second call changes nothing. */
  lemma EnsureIdempotent(s: Sessions, sid: string)
    ensures Ensured(Ensured(s, sid), sid) == Ensured(s, sid)
  {
  }

  /** `token.get(pid, 0)`. */
  function TokenGet(t: Token, pid: string): nat {
    if pid in t then t[pid] else 0
  }

  /** `token[pid] = max(token.get(pid, 0), v)`: the least bound covering both. */
  function Raised(t: Token, pid: string, v: nat): (t': Token)
    ensures t'.Keys == t.Keys + {pid}
    ensures TokenGet(t', pid) >= TokenGet(t, pid) && TokenGet(t', pid) >= v
    ensures TokenGet(t', pid) == TokenGet(t, pid) || TokenGet(t', pid) == v
    ensures forall k :: k != pid ==> TokenGet(t', k) == TokenGet(t, k)
  {
    t[pid := if TokenGet(t, pid) >= v then TokenGet(t, pid) else v]
  }

  /* ---------------------------------------------------------- bounded wait */

  /** The table after running the given sweeps one after the other. */
  function Rounds(p: Products, rounds: seq<PeerResults>): Products
    decreases |rounds|
  {
    if rounds == [] then p else Sweep(Rounds(p, rounds[..|rounds| - 1]), rounds[|rounds| - 1]).0
  }

  /**
   * The retry loop `while local_version(pid) < needed and tries < 2: sync`,
   * from `tries` onwards; sweep number i gets the answers `retries[i]`. The
   * result is the table and the final `tries`. It stops as soon as the local
   * version reaches `needed`, or after `MaxTries` sweeps.
   */
  function CatchUp(p: Products, pid: string, needed: nat, retries: seq<PeerResults>, tries: nat): (r: (Products, nat))
    requires tries <= MaxTries <= |retries|
    ensures tries <= r.1 <= MaxTries
    ensures LocalVersion(r.0, pid) >= needed || r.1 == MaxTries
    ensures LocalVersion(p, pid) >= needed ==> r == (p, tries)
    decreases MaxTries - tries
  {
    if LocalVersion(p, pid) < needed && tries < MaxTries then
      CatchUp(Sweep(p, retries[tries]).0, pid, needed, retries, tries + 1)
    else
      (p, tries)
  }

  /** Waiting never lowers the rank, hence the version, of any product. */
  lemma {:induction false} CatchUpNeverLowers(p: Products, pid: string, needed: nat, retries: seq<PeerResults>, tries: nat)
    requires tries <= MaxTries <= |retries|
    ensures NoLower(p, CatchUp(p, pid, needed, retries, tries).0)
    decreases MaxTries - tries
  {
    if LocalVersion(p, pid) < needed && tries < MaxTries {
      var q := Sweep(p, retries[tries]).0;
      SweepNeverLowers(p, retries[tries]);
      CatchUpNeverLowers(q, pid, needed, retries, tries + 1);
      NoLowerTransitive(p, q, CatchUp(q, pid, needed, retries, tries + 1).0);
    }
  }

  lemma {:induction false} CatchUpFrom(p0: Products, p: Products, pid: string, needed: nat, retries: seq<PeerResults>, tries: nat)
    requires tries <= MaxTries <= |retries|
    requires p == Rounds(p0, retries[..tries])
    ensures var r := CatchUp(p, pid, needed, retries, tries);
            r.0 == Rounds(p0, retries[..r.1])
    decreases MaxTries - tries
  {
    if LocalVersion(p, pid) < needed && tries < MaxTries {
      assert retries[..tries + 1][..tries] == retries[..tries];
      CatchUpFrom(p0, Sweep(p, retries[tries]).0, pid, needed, retries, tries + 1);
    }
  }

  /** The wait changes the table only through its sweeps: the result is the first `tries` of them. */
  lemma CatchUpRunsOnlySweeps(p: Products, pid: string, needed: nat, retries: seq<PeerResults>)
    requires MaxTries <= |retries|
    ensures var r := CatchUp(p, pid, needed, retries, 0);
            r.0 == Rounds(p, retries[..r.1])
  {
    CatchUpFrom(p, p, pid, needed, retries, 0);
  }

  /* ------------------------------------------------------ write dependencies */

  /** One supply of sweep answers per dependency, each long enough for the bound. */
  predicate Supplied(retries: seq<seq<PeerResults>>, n: nat) {
    |retries| == n && forall i :: 0 <= i < n ==> |retries[i]| >= MaxTries
  }

  /**
   * The Writes-Follow-Reads loop of `write`: for each dependency `d` of the
   * token, in order, wait until `local_version(d)` reaches the token's bound
   * for `d`. The result is the table and each dependency's final `tries`.
   */
  function AwaitDeps(p: Products, t: Token, deps: seq<string>, retries: seq<seq<PeerResults>>): (r: (Products, seq<nat>))
    requires Supplied(retries, |deps|)
    ensures |r.1| == |deps|
    ensures forall i :: 0 <= i < |deps| ==> r.1[i] <= MaxTries
    decreases |deps|
  {
    if deps == [] then (p, [])
    else
      var n := |deps| - 1;
      var (q, tries) := AwaitDeps(p, t, deps[..n], retries[..n]);
      var (q', k) := CatchUp(q, deps[n], TokenGet(t, deps[n]), retries[n], 0);
      (q', tries + [k])
  }

  lemma {:induction false} AwaitDepsNeverLowers(p: Products, t: Token, deps: seq<string>, retries: seq<seq<PeerResults>>)
    requires Supplied(retries, |deps|)
    ensures NoLower(p, AwaitDeps(p, t, deps, retries).0)
    decreases |deps|
  {
    if deps != [] {
      var n := |deps| - 1;
      var q := AwaitDeps(p, t, deps[..n], retries[..n]).0;
      AwaitDepsNeverLowers(p, t, deps[..n], retries[..n]);
      CatchUpNeverLowers(q, deps[n], TokenGet(t, deps[n]), retries[n], 0);
      NoLowerTransitive(p, q, AwaitDeps(p, t, deps, retries).0);
    }
  }

  /**
   * After the loop every dependency is locally at least as fresh as the
   * token demands, unless its wait used up all `MaxTries` sweeps.
   */
  lemma {:induction false} AwaitDepsOutcome(p: Products, t: Token, deps: seq<string>, retries: seq<seq<PeerResults>>)
    requires Supplied(retries, |deps|)
    ensures var r := AwaitDeps(p, t, deps, retries);
            forall i :: 0 <= i < |deps| ==> LocalVersion(r.0, deps[i]) >= TokenGet(t, deps[i]) || r.1[i] == MaxTries
    decreases |deps|
  {
    if deps != [] {
      var n := |deps| - 1;
      var (q, tries) := AwaitDeps(p, t, deps[..n], retries[..n]);
      var r := AwaitDeps(p, t, deps, retries);
      AwaitDepsOutcome(p, t, deps[..n], retries[..n]);
      CatchUpNeverLowers(q, deps[n], TokenGet(t, deps[n]), retries[n], 0);
      forall i | 0 <= i < |deps| ensures LocalVersion(r.0, deps[i]) >= TokenGet(t, deps[i]) || r.1[i] == MaxTries {
        if i < n {
          assert deps[..n][i] == deps[i];
          assert r.1[i] == tries[i];
          assert !Above(LocalRank(q, deps[i]), LocalRank(r.0, deps[i]));
        }
      }
    }
  }

  /**
   * The whole of `write` on the table: the waits, then the overwrite with
   * version local+1. No product is lowered, the new version is above the
   * one held before the write, and every dependency still meets its bound
   * unless its wait gave up.
   */
  lemma WriteAfterWaits(p: Products, t: Token, deps: seq<string>, retries: seq<seq<PeerResults>>,
                        pid: string, w: Record)
    requires Supplied(retries, |deps|)
    requires VersionOf(w) == LocalVersion(AwaitDeps(p, t, deps, retries).0, pid) + 1
    ensures var r := AwaitDeps(p, t, deps, retries);
            var q := r.0[pid := w];
            NoLower(p, q) && VersionOf(w) > LocalVersion(p, pid)
            && forall i :: 0 <= i < |deps| ==> LocalVersion(q, deps[i]) >= TokenGet(t, deps[i]) || r.1[i] == MaxTries
  {
    var r := AwaitDeps(p, t, deps, retries);
    var q := r.0[pid := w];
    AwaitDepsNeverLowers(p, t, deps, retries);
    AwaitDepsOutcome(p, t, deps, retries);
    OverwriteNeverLowers(r.0, pid, w);
    NoLowerTransitive(p, r.0, q);
    assert !Above(LocalRank(p, pid), LocalRank(r.0, pid));
  }

  /**
   * The `write` handler on the tables: the dependency waits, then the record
   * stored with version local+1 and the writer's bound raised to it. The
   * result is the new `products`, the new `sessions`, the record written and
   * each dependency's number of sweeps.
   */
  function WriteEffect(p: Products, s: Sessions, sid: string, pid: string, attrs: Attrs, stamp: int,
                       deps: seq<string>, retries: seq<seq<PeerResults>>): (Products, Sessions, Record, seq<nat>)
    requires Supplied(retries, |deps|)
  {
    var t := Ensured(s, sid)[sid];
    var waited := AwaitDeps(p, t, deps, retries);
    var w := Record(attrs, Some(stamp), Some(LocalVersion(waited.0, pid) + 1));
    (waited.0[pid := w], Ensured(s, sid)[sid := Raised(t, pid, VersionOf(w))], w, waited.1)
  }

  /** `WriteEffect` from the token, the outcome of the waits and the record written. */
  lemma WriteEffectFrom(p: Products, s: Sessions, sid: string, pid: string, attrs: Attrs, stamp: int,
                        deps: seq<string>, retries: seq<seq<PeerResults>>,
                        token: Token, waited: (Products, seq<nat>), written: Record)
    requires Supplied(retries, |deps|)
    requires token == Ensured(s, sid)[sid] && waited == AwaitDeps(p, token, deps, retries)
    requires written == Record(attrs, Some(stamp), Some(LocalVersion(waited.0, pid) + 1))
    ensures WriteEffect(p, s, sid, pid, attrs, stamp, deps, retries)
            == (waited.0[pid := written], Ensured(s, sid)[sid := Raised(token, pid, VersionOf(written))], written, waited.1)
  {
  }

  /**
   * What `write` promises. No product is lowered, and the written record
   * gets a version above the one held before the write. Read-Your-Writes:
   * the writer's bound reaches that version. The writer's other bounds
   * never go down, and other sessions are untouched. Each dependency
   * triggers at most `MaxTries` sweeps. Writes-Follow-Reads: it meets its
   * bound unless its wait gave up. Under the node invariant no wait sweeps,
   * the version is exactly local+1, and the invariant is kept.
   */
  lemma WriteGuarantees(p: Products, s: Sessions, sid: string, pid: string, attrs: Attrs, stamp: int,
                        deps: seq<string>, retries: seq<seq<PeerResults>>)
    requires Supplied(retries, |deps|)
    ensures var r := WriteEffect(p, s, sid, pid, attrs, stamp, deps, retries);
            NoLower(p, r.0) && pid in r.0 && r.0[pid] == r.2 && VersionOf(r.2) > LocalVersion(p, pid)
    ensures var r := WriteEffect(p, s, sid, pid, attrs, stamp, deps, retries);
            sid in r.1 && TokenGet(r.1[sid], pid) >= VersionOf(r.2)
            && (sid in s ==> forall k :: TokenGet(r.1[sid], k) >= TokenGet(s[sid], k))
            && forall x :: x in s && x != sid ==> x in r.1 && r.1[x] == s[x]
    ensures var r := WriteEffect(p, s, sid, pid, attrs, stamp, deps, retries);
            |r.3| == |deps| && forall i :: 0 <= i < |deps| ==> r.3[i] <= MaxTries
    ensures var r := WriteEffect(p, s, sid, pid, attrs, stamp, deps, retries);
            forall i :: 0 <= i < |deps| ==>
              LocalVersion(r.0, deps[i]) >= TokenGet(Ensured(s, sid)[sid], deps[i]) || r.3[i] == MaxTries
    ensures var r := WriteEffect(p, s, sid, pid, attrs, stamp, deps, retries);
            Covered(s, p) ==>
              Covered(r.1, r.0) && r.0 == p[pid := r.2] && VersionOf(r.2) == LocalVersion(p, pid) + 1
              && forall i :: 0 <= i < |deps| ==> r.3[i] == 0
  {
    var t := Ensured(s, sid)[sid];
    var waited := AwaitDeps(p, t, deps, retries);
    var w := Record(attrs, Some(stamp), Some(LocalVersion(waited.0, pid) + 1));
    var s' := Ensured(s, sid)[sid := Raised(t, pid, VersionOf(w))];
    assert WriteEffect(p, s, sid, pid, attrs, stamp, deps, retries) == (waited.0[pid := w], s', w, waited.1);
    WriteAfterWaits(p, t, deps, retries, pid, w);
    if Covered(s, p) {
      CoveredDepsAreIdle(s, p, sid, deps, retries);
      assert waited.0 == p;
      WriteKeepsCovered(s, p, sid, pid, w);
      assert Covered(s', p[pid := w]);
    }
  }

  /** When the table already meets every bound, the loop runs no sweep and changes nothing. */
  lemma {:induction false} AwaitDepsIdle(p: Products, t: Token, deps: seq<string>, retries: seq<seq<PeerResults>>)
    requires Supplied(retries, |deps|)
    requires forall i :: 0 <= i < |deps| ==> TokenGet(t, deps[i]) <= LocalVersion(p, deps[i])
    ensures var r := AwaitDeps(p, t, deps, retries);
            r.0 == p && forall i :: 0 <= i < |deps| ==> r.1[i] == 0
    decreases |deps|
  {
    if deps != [] {
      var n := |deps| - 1;
      forall i | 0 <= i < n ensures TokenGet(t, deps[..n][i]) <= LocalVersion(p, deps[..n][i]) {
        assert deps[..n][i] == deps[i];
      }
      AwaitDepsIdle(p, t, deps[..n], retries[..n]);
    }
  }

  /* ------------------------------------------------------- node invariant */

  /**
   * Every bound in every token is met by the local table. Tokens never leave
   * the node that issued them, and every bound a node issues is a version its
   * own table already holds.
   */
  ghost predicate Covered(s: Sessions, p: Products) {
    forall sid, k :: sid in s && k in s[sid] ==> s[sid][k] <= LocalVersion(p, k)
  }

  lemma CoveredStaysCovered(s: Sessions, p: Products, q: Products)
    requires Covered(s, p) && NoLower(p, q)
    ensures Covered(s, q)
  {
    forall sid, k | sid in s && k in s[sid] ensures s[sid][k] <= LocalVersion(q, k) {
      assert !Above(LocalRank(p, k), LocalRank(q, k));
    }
  }

  /** Creating a session, and recording in its token a version the table holds, keep the invariant. */
  lemma RaiseKeepsCovered(s: Sessions, p: Products, sid: string, pid: string, v: nat)
    requires Covered(s, p) && v <= LocalVersion(p, pid)
    ensures var s' := Ensured(s, sid);
            Covered(s', p) && Covered(s'[sid := Raised(s'[sid], pid, v)], p)
  {
  }

  /**
   * A local write of version local+1, with the writer's token raised to it,
   * keeps the invariant: no other token can be above the old local version.
   */
  lemma WriteKeepsCovered(s: Sessions, p: Products, sid: string, pid: string, w: Record)
    requires Covered(s, p) && VersionOf(w) == LocalVersion(p, pid) + 1
    ensures var s' := Ensured(s, sid);
            Covered(s'[sid := Raised(s'[sid], pid, VersionOf(w))], p[pid := w])
  {
    var s' := Ensured(s, sid);
    var s'' := s'[sid := Raised(s'[sid], pid, VersionOf(w))];
    var q := p[pid := w];
    forall x, k | x in s'' && k in s''[x] ensures s''[x][k] <= LocalVersion(q, k) {
      if k != pid {
        assert LocalVersion(q, k) == LocalVersion(p, k);
        if x == sid {
          assert TokenGet(s''[x], k) == TokenGet(s'[x], k);
        }
      }
    }
  }

  /** Under the invariant the read's wait for a session's token never sweeps. */
  lemma CoveredReadIsIdle(s: Sessions, p: Products, sid: string, pid: string, retries: seq<PeerResults>)
    requires Covered(s, p) && MaxTries <= |retries|
    ensures CatchUp(p, pid, TokenGet(Ensured(s, sid)[sid], pid), retries, 0) == (p, 0)
  {
  }

  /** Under the invariant the write's dependency waits never sweep. */
  lemma CoveredDepsAreIdle(s: Sessions, p: Products, sid: string, deps: seq<string>, retries: seq<seq<PeerResults>>)
    requires Covered(s, p) && Supplied(retries, |deps|)
    ensures var r := AwaitDeps(p, Ensured(s, sid)[sid], deps, retries);
            r.0 == p && forall i :: 0 <= i < |deps| ==> r.1[i] == 0
  {
    var t := Ensured(s, sid)[sid];
    forall i | 0 <= i < |deps| ensures TokenGet(t, deps[i]) <= LocalVersion(p, deps[i]) {
    }
    AwaitDepsIdle(p, t, deps, retries);
  }
}
