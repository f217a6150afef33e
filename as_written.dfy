/**
 * `add_dup` (lib/server.rb:75-91) read literally, beside the intended `Api.AddDup`. Each
 * function takes literally one of the two lines that, as written, keep the clone from happening.
 */
module AsWritten {
  import opened Types
  import opened Catalog
  import opened Api
  import opened Properties

  /**
   * `add_dup` when the constant `DB` of lib/server.rb:80 is defined nowhere the program is
   * loaded: `DB.prepare` raises NameError before the lookup, whatever the request holds.
   */
  function AddDupWithDb(s: State, filename: Option<string>, sha256sum: Option<Digest>): (r: Step<string>)
    ensures r.next == s && r.out.Raised?
  {
    Step(s, Raised(UndefinedConstant))
  }

  /**
   * `add_dup` with the lookup on RDFS_DB but `row[0]` of lib/server.rb:84 taken literally
   * on a result set that has no `[]`: whenever a row matches, building `old_name` raises
   * NoMethodError before any copy; otherwise the answer is NOT_FOUND.
   */
  function AddDupWithRowIndex(s: State, filename: Option<string>, sha256sum: Option<Digest>): (r: Step<string>)
    ensures r.next == s
    ensures r.out.Raised? <==> sha256sum.Some? && Known(s.catalog, sha256sum.value)
    ensures !r.out.Raised? ==> r.out == Done("NOT_FOUND")
  {
    var rows := if sha256sum.Some? then Matches(s.catalog, sha256sum.value) else [];
    assert |rows| > 0 <==> sha256sum.Some? && Known(s.catalog, sha256sum.value) by {
      if sha256sum.Some? { MatchesNonEmpty(s.catalog, sha256sum.value); }
    }
    if |rows| > 0 then Step(s, Raised(UndefinedMethod)) else Step(s, Done("NOT_FOUND"))
  }

  /**
   * With `DB` undefined, every `add_dup` fails, and it changes nothing; the intended
   * handler differs from it on every request it answers.
   */
  lemma DbLookupNeverAnswers(s: State, filename: Option<string>, sha256sum: Option<Digest>)
    ensures var written := AddDupWithDb(s, filename, sha256sum);
            var intended := AddDup(s, filename, sha256sum);
            && written.next == s
            && (intended.out.Done? ==> written.out != intended.out)
  {
  }

  /**
   * The literal `row[0]` agrees with the intended handler exactly on the NOT_FOUND answers;
   * on every request where the intended handler finds a row, it raises instead.
   */
  lemma RowIndexOnlyAnswersNotFound(s: State, filename: Option<string>, sha256sum: Option<Digest>)
    ensures var written := AddDupWithRowIndex(s, filename, sha256sum);
            var intended := AddDup(s, filename, sha256sum);
            && (intended.out == Done("NOT_FOUND") ==> written == intended)
            && (intended.out != Done("NOT_FOUND") ==> written.out == Raised(UndefinedMethod))
  {
  }

  /**
   * The clone of "a/b.txt" as "a/c.txt" by its digest, which the intended handler performs,
   * raises under both literal readings and leaves "a/c.txt" absent.
   */
  lemma CloneFailsAsWritten(bytes: Bytes, row: Record)
    requires row.name == "a/b.txt"
    ensures var s := NodeWithDirA(map["a/b.txt" := bytes], [row]);
            var name := Some("a/c.txt");
            && AddDup(s, name, Some(row.sha256)).out == Done("OK")
            && AddDup(s, name, Some(row.sha256)).next.fs.store["a/c.txt"] == bytes
            && AddDupWithDb(s, name, Some(row.sha256)).out == Raised(UndefinedConstant)
            && AddDupWithRowIndex(s, name, Some(row.sha256)).out == Raised(UndefinedMethod)
            && "a/c.txt" !in AddDupWithRowIndex(s, name, Some(row.sha256)).next.fs.store
  {
    ScenarioClone(bytes, row);
    assert IsFirst([row], row.sha256, 0);
  }
}
