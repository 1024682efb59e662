/**
 * Shared vocabulary of the replicated product catalogue: the records a node
 * stores, the session tokens it keeps, the entries of its operation log, and
 * the shape in which the network's answers reach the replication core.
 */
module Catalog {

  datatype Option<+T> = None | Some(value: T) {
    /** The value, or `default` when there is none (Python's `dict.get(k, default)`). */
    function GetOr(default: T): T {
      match this
      case Some(v) => v
      case None => default
    }
  }

  /** A product attribute (name, stock, price, location); opaque to replication. */
  datatype Value = Text(text: string) | Whole(whole: int) | Decimal(decimal: real)

  type Attrs = map<string, Value>

  /**
   * A product record: its payload attributes plus the replication envelope.
   * A record received from elsewhere may lack either envelope field, so both
   * are optional; the code reads a missing one as 0.
   */
  datatype Record = Record(attrs: Attrs, lastUpdated: Option<int>, version: Option<nat>)

  /** The `products` table: product id to record. Also the shape of a peer snapshot. */
  type Products = map<string, Record>

  /** A session token: product id to the least version the session has been shown. */
  type Token = map<string, nat>

  /** The `sessions` table: session id to token. */
  type Sessions = map<string, Token>

  datatype OpKind = ReadOp | WriteOp

  /** An `ops_log` entry; `value` is the written record, or None for a read. */
  datatype Op = Op(kind: OpKind, key: string, value: Option<Record>, timestamp: int, sessionId: string)

  /**
   * What one anti-entropy sweep gets back from the network: one entry per
   * peer, in peer-list order; None is a fetch that failed.
   */
  type PeerResults = seq<Option<Products>>

  /** How many sweeps a read or a write dependency may trigger before giving up. */
  const MaxTries: nat := 2
}
