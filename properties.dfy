/** Properties of sequences of requests, stated on the pure model of the handlers. */
module Properties {
  import opened Types
  import opened Paths
  import opened ContentStore
  import opened Catalog
  import opened Registry
  import opened Api

  /** Registering the same caller twice: the second call reports it, and one row remains. */
  lemma AddNodeTwice(s: State, ip: string)
    requires Unique(s.nodes)
    ensures var first := AddNode(s, ip);
            var second := AddNode(first.next, ip);
            && second.out == Done(AlreadyRegistered(ip))
            && second.next == first.next
            && Count(second.next.nodes, ip) == 1
  {
    var first := AddNode(s, ip);
    UniqueCount(first.next.nodes, ip);
  }

  /** Unregistering is idempotent: a repeated call changes nothing and answers the same. */
  lemma DeleteNodeTwice(s: State, ip: string)
    ensures var first := DeleteNode(s, ip);
            DeleteNode(first.next, ip) == first
  {
    RemoveAbsent(Remove(s.nodes, ip), ip);
  }

  /**
   * After a successful `add`, the digest of the bytes now stored at the name is the one
   * recorded in the new last catalog row, and `add_query` on it answers EXISTS.
   */
  lemma IngestThenQuery(s: State, env: Env, name: Path, content: string, now: int)
    requires Ingestible(s.fs, name)
    ensures var added := Add(s, env, Some(name), Some(content), now);
            var h := env.sha256(added.next.fs.store[name]);
            && added.out == Done("OK")
            && added.next.catalog[|s.catalog|] == Record(name, h, now, 0, 0)
            && h == env.sha256(env.decode64(content))
            && AddQuery(added.next, Some(h)).out == Done("EXISTS")
  {
  }

  /** `add` does not look for an existing row: ingesting a name twice leaves two rows for it. */
  lemma ReingestAppends(s: State, env: Env, name: Path, c1: string, c2: string, t1: int, t2: int)
    requires Ingestible(s.fs, name)
    ensures var first := Add(s, env, Some(name), Some(c1), t1);
            var second := Add(first.next, env, Some(name), Some(c2), t2);
            && second.out == Done("OK")
            && |second.next.catalog| == |s.catalog| + 2
            && second.next.catalog[|s.catalog|].name == name
            && second.next.catalog[|s.catalog| + 1].name == name
            && second.next.fs.store[name] == env.decode64(c2)
  {
  }

  /** `delete` never touches the catalog, so no later `add_query` can tell a file went. */
  lemma DeleteKeepsQueryAnswers(s: State, filename: Option<string>, h: Option<Digest>)
    ensures AddQuery(Delete(s, filename).next, h).out == AddQuery(s, h).out
  {
  }

  /** The one ancestor of "dir/name" when neither part holds a '/'. */
  lemma SingleParent(dir: string, name: string)
    requires dir != "" && '/' !in dir && '/' !in name
    ensures Ancestors(dir + "/" + name) == {dir}
  {
    JoinedAncestors(dir, name);
    NoSlashNoAncestors(dir);
  }

  /** A tree holding directory "a" and the given files, each directly inside "a". */
  function NodeWithDirA(files: map<Path, Bytes>, catalog: seq<Record>): State
  {
    State(Fs(files, {"a"}), catalog, [])
  }

  lemma ScenarioIngest(env: Env, content: string, now: int)
    ensures var bytes := env.decode64(content);
            Add(State(Fs(map[], {}), [], []), env, Some("a/b.txt"), Some(content), now)
            == Step(NodeWithDirA(map["a/b.txt" := bytes], [Record("a/b.txt", env.sha256(bytes), now, 0, 0)]),
                    Done("OK"))
  {
    assert "a/b.txt" == "a" + "/" + "b.txt";
    SingleParent("a", "b.txt");
  }

  lemma ScenarioClone(bytes: Bytes, row: Record)
    requires row.name == "a/b.txt"
    ensures AddDup(NodeWithDirA(map["a/b.txt" := bytes], [row]), Some("a/c.txt"), Some(row.sha256))
            == Step(NodeWithDirA(map["a/b.txt" := bytes, "a/c.txt" := bytes], [row]), Done("OK"))
  {
    assert "a/c.txt" == "a" + "/" + "c.txt";
    SingleParent("a", "c.txt");
    assert IsFirst([row], row.sha256, 0);
  }

  lemma ScenarioDeletes(bytes: Bytes, row: Record)
    ensures var s2 := NodeWithDirA(map["a/b.txt" := bytes, "a/c.txt" := bytes], [row]);
            var gone1 := Delete(s2, Some("a/b.txt"));
            && gone1 == Step(NodeWithDirA(map["a/c.txt" := bytes], [row]), Done("OK"))
            && Delete(gone1.next, Some("a/c.txt")) == Step(NodeWithDirA(map[], [row]), Done("OK"))
  {
  }

  lemma ScenarioStale(row: Record)
    requires row.name == "a/b.txt"
    ensures AddQuery(NodeWithDirA(map[], [row]), Some(row.sha256)).out == Done("EXISTS")
    ensures AddDup(NodeWithDirA(map[], [row]), Some("a/d.txt"), Some(row.sha256)).out == Raised(NoSuchFile)
  {
  }

  /**
   * A node starting empty ingests "a/b.txt", clones it as "a/c.txt" by digest, and then
   * deletes both files. As the code is written, the catalog still holds the row of
   * "a/b.txt": `add_query` keeps answering EXISTS, and a later `add_dup` with the same
   * digest copies from the deleted file and raises ENOENT.
   */
  lemma StaleCatalogAfterDeletes(env: Env, content: string, now: int)
    ensures var h := env.sha256(env.decode64(content));
            var s0 := State(Fs(map[], {}), [], []);
            var added := Add(s0, env, Some("a/b.txt"), Some(content), now);
            var cloned := AddDup(added.next, Some("a/c.txt"), Some(h));
            var gone1 := Delete(cloned.next, Some("a/b.txt"));
            var gone2 := Delete(gone1.next, Some("a/c.txt"));
            && added.out == Done("OK")
            && AddQuery(added.next, Some(h)).out == Done("EXISTS")
            && cloned.out == Done("OK")
            && cloned.next.fs.store["a/c.txt"] == env.decode64(content)
            && gone1.out == Done("OK") && gone2.out == Done("OK")
            && gone2.next.fs.store == map[]
            && gone2.next.catalog == added.next.catalog
            && AddQuery(gone2.next, Some(h)).out == Done("EXISTS")
            && AddDup(gone2.next, Some("a/d.txt"), Some(h)).out == Raised(NoSuchFile)
  {
    var bytes := env.decode64(content);
    var row := Record("a/b.txt", env.sha256(bytes), now, 0, 0);
    ScenarioIngest(env, content, now);
    ScenarioClone(bytes, row);
    ScenarioDeletes(bytes, row);
    ScenarioStale(row);
    assert IsFirst([row], row.sha256, 0);
  }
}
