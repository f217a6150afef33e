/** File names under the storage root, taken literally (no normalisation). */
module Paths {

  /** `d` is a proper ancestor directory of `p`: `p` continues `d` after a '/'. */
  predicate Within(p: string, d: string)
  {
    0 < |d| < |p| && p[|d|] == '/' && p[..|d|] == d
  }

  /**
   * The proper ancestor directories of `p`: every non-empty prefix that ends just before
   * a '/'. These are the directories `FileUtils.mkdir_p(File.dirname(p))` creates.
   */
  function Ancestors(p: string): (r: set<string>)
    ensures forall d :: d in r <==> Within(p, d)
  {
    var r := set i | 0 < i < |p| && p[i] == '/' :: p[..i];
    assert forall d | Within(p, d) :: p[..|d|] in r;
    r
  }

  /** A name without any '/' has no ancestor directory. */
  lemma NoSlashNoAncestors(p: string)
    requires '/' !in p
    ensures Ancestors(p) == {}
  {
  }

  /** No name is its own ancestor. */
  lemma NotOwnAncestor(p: string)
    ensures p !in Ancestors(p)
  {
  }

  /** The ancestors of an ancestor are ancestors: `mkdir_p` creates a prefix-closed set. */
  lemma {:induction false} AncestorOfAncestor(p: string, a: string)
    requires a in Ancestors(p)
    ensures Ancestors(a) <= Ancestors(p)
  {
    forall b | b in Ancestors(a)
      ensures b in Ancestors(p)
    {
      assert p[..|b|] == a[..|b|];
    }
  }

  /** `File.basename`: the whole part of `p` after its last '/'. */
  function Basename(p: string): (r: string)
    ensures '/' !in r
    ensures |r| <= |p| && p[|p| - |r|..] == r
    ensures |r| == |p| || p[|p| - |r| - 1] == '/'
  {
    if |p| == 0 || p[|p| - 1] == '/' then ""
    else
      var init := p[..|p| - 1];
      var rest := Basename(init);
      assert p == init + [p[|p| - 1]];
      SuffixOfSnoc(init, p[|p| - 1], |rest|);
      rest + [p[|p| - 1]]
  }

  /** A suffix of `init + [last]` is a suffix of `init` followed by `last`. */
  lemma SuffixOfSnoc(init: string, last: char, n: nat)
    requires n <= |init|
    ensures (init + [last])[|init| - n..] == init[|init| - n..] + [last]
  {
  }

  /** A name without '/' is its own basename. */
  lemma BasenameOfPlainName(name: string)
    requires '/' !in name
    ensures Basename(name) == name
  {
  }

  /**
   * `File.join(dir, name)` relative to the storage root: the result lies directly inside
   * `dir` (or is `name` itself at the root), and its basename is `name`.
   */
  function Join(dir: string, name: string): (r: string)
    ensures dir != "" && name != "" ==> Within(r, dir)
    ensures dir == "" ==> r == name
    ensures '/' !in name ==> Basename(r) == name
    ensures dir != "" && '/' !in name ==> Ancestors(r) == Ancestors(dir) + {dir}
  {
    var r := if dir == "" then name else dir + "/" + name;
    assert '/' !in name ==> Basename(r) == name by {
      if '/' !in name {
        if dir == "" {
          BasenameOfPlainName(name);
        } else {
          JoinedBasename(dir, name);
        }
      }
    }
    assert dir != "" && '/' !in name ==> Ancestors(r) == Ancestors(dir) + {dir} by {
      if dir != "" && '/' !in name {
        JoinedAncestors(dir, name);
      }
    }
    r
  }

  /** `dir/name` with no '/' in `name` sits directly inside `dir`: its ancestors are `dir`'s and `dir`. */
  lemma JoinedAncestors(dir: string, name: string)
    requires dir != "" && '/' !in name
    ensures Ancestors(dir + "/" + name) == Ancestors(dir) + {dir}
  {
    var p := dir + "/" + name;
    forall d | d in Ancestors(p)
      ensures d in Ancestors(dir) + {dir}
    {
      if |d| < |dir| {
        assert p[..|d|] == dir[..|d|];
        assert p[|d|] == dir[|d|];
      } else if |d| == |dir| {
        assert p[..|d|] == dir;
      }
    }
    forall d | d in Ancestors(dir) + {dir}
      ensures d in Ancestors(p)
    {
      if d == dir {
        assert p[..|dir|] == dir;
      } else {
        assert p[..|d|] == dir[..|d|];
        assert p[|d|] == dir[|d|];
      }
    }
  }

  /** `dir/name` with no '/' in `name` has `name` as its basename. */
  lemma JoinedBasename(dir: string, name: string)
    requires dir != "" && '/' !in name
    ensures Basename(dir + "/" + name) == name
  {
    var p := dir + "/" + name;
    var b := Basename(p);
    assert p[|dir|] == '/';
    assert p[|p| - |name|..] == name;
  }
}
