/** The `files` table of RDFS_DB: one row per ingested file, in insertion (rowid) order. */
module Catalog {
  import opened Types

  /** A row `(name, sha256, last_modified, updated, deleted)`. */
  datatype Record = Record(name: Path, sha256: Digest, lastModified: int, updated: int, deleted: int)

  /** Some row carries digest `h`. */
  predicate Known(rows: seq<Record>, h: Digest)
  {
    exists i | 0 <= i < |rows| :: rows[i].sha256 == h
  }

  /** Row `i` is the earliest row carrying digest `h`. */
  predicate IsFirst(rows: seq<Record>, h: Digest, i: int)
  {
    && 0 <= i < |rows|
    && rows[i].sha256 == h
    && forall j | 0 <= j < i :: rows[j].sha256 != h
  }

  /**
   * `SELECT ... FROM files WHERE sha256 = :sha256`: the positions of the matching rows,
   * each exactly once and in row order. The query has no ORDER BY; the model takes the
   * rows in rowid (insertion) order.
   */
  function Matches(rows: seq<Record>, h: Digest): (r: seq<nat>)
    ensures forall k | 0 <= k < |r| :: r[k] < |rows| && rows[r[k]].sha256 == h
    ensures forall i | 0 <= i < |rows| && rows[i].sha256 == h :: i in r
    ensures forall k, l | 0 <= k < l < |r| :: r[k] < r[l]
  {
    if rows == [] then []
    else
      var n := |rows| - 1;
      var earlier := Matches(rows[..n], h);
      assert forall k | 0 <= k < |earlier| :: rows[earlier[k]] == rows[..n][earlier[k]];
      earlier + (if rows[n].sha256 == h then [n] else [])
  }

  /** The query returns rows exactly when some row carries the digest. */
  lemma MatchesNonEmpty(rows: seq<Record>, h: Digest)
    ensures |Matches(rows, h)| > 0 <==> Known(rows, h)
  {
  }

  /** `row[0]` of the query is the earliest matching row. */
  lemma FirstMatch(rows: seq<Record>, h: Digest)
    requires Known(rows, h)
    ensures |Matches(rows, h)| > 0 && IsFirst(rows, h, Matches(rows, h)[0])
  {
  }
}
