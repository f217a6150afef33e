/** The `nodes` table of RDFS_DB: the IP addresses of the registered peers, one row each. */
module Registry {

  /** No address occurs in two rows. */
  ghost predicate Unique(rows: seq<string>)
  {
    forall i, j | 0 <= i < j < |rows| :: rows[i] != rows[j]
  }

  /** The number of rows holding `ip`. */
  function Count(rows: seq<string>, ip: string): (n: nat)
    ensures n > 0 <==> ip in rows
    ensures n <= |rows|
  {
    if rows == [] then 0
    else (if rows[0] == ip then 1 else 0) + Count(rows[1..], ip)
  }

  /** `INSERT INTO nodes (ip) VALUES (:ip)` adds one row for `ip` and none for any other. */
  lemma {:induction false} CountAppend(rows: seq<string>, ip: string, x: string)
    ensures Count(rows + [ip], x) == Count(rows, x) + (if x == ip then 1 else 0)
  {
    if rows != [] {
      assert (rows + [ip])[1..] == rows[1..] + [ip];
      CountAppend(rows[1..], ip, x);
    }
  }

  /** In a duplicate-free table a registered address has exactly one row. */
  lemma {:induction false} UniqueCount(rows: seq<string>, ip: string)
    requires Unique(rows)
    ensures Count(rows, ip) == if ip in rows then 1 else 0
  {
    if rows != [] {
      assert Unique(rows[1..]) by {
        forall i, j | 0 <= i < j < |rows| - 1
          ensures rows[1..][i] != rows[1..][j]
        {
          assert rows[1..][i] == rows[i + 1] && rows[1..][j] == rows[j + 1];
        }
      }
      UniqueCount(rows[1..], ip);
      if rows[0] == ip {
        assert ip !in rows[1..] by {
          forall k | 0 <= k < |rows| - 1
            ensures rows[1..][k] != ip
          {
            assert rows[1..][k] == rows[k + 1];
          }
        }
      }
    }
  }

  /**
   * `DELETE FROM nodes WHERE ip = :ip`: every row holding `ip` goes, every other address keeps
   * its rows, and a duplicate-free table stays duplicate-free.
   */
  function Remove(rows: seq<string>, ip: string): (r: seq<string>)
    ensures ip !in r
    ensures forall x | x != ip :: Count(r, x) == Count(rows, x)
    ensures forall x :: x in r <==> x in rows && x != ip
    ensures Unique(rows) ==> Unique(r)
  {
    if rows == [] then []
    else
      var rest := Remove(rows[1..], ip);
      if rows[0] == ip then rest
      else
        assert Unique(rows) ==> Unique(rows[1..]) by {
          if Unique(rows) {
            forall i, j | 0 <= i < j < |rows| - 1
              ensures rows[1..][i] != rows[1..][j]
            {
              assert rows[1..][i] == rows[i + 1] && rows[1..][j] == rows[j + 1];
            }
          }
        }
        assert Unique(rows) ==> rows[0] !in rest;
        var r := [rows[0]] + rest;
        assert r[1..] == rest;
        r
  }

  /** Deleting an address that has no row leaves the table as it is. */
  lemma {:induction false} RemoveAbsent(rows: seq<string>, ip: string)
    requires ip !in rows
    ensures Remove(rows, ip) == rows
  {
    if rows != [] {
      assert ip !in rows[1..];
      RemoveAbsent(rows[1..], ip);
    }
  }
}
