/**
 * The two `api_handler`s of lib/server.rb as pure functions on the node's whole state:
 * one function per `api_call`, and the two dispatchers. Each returns the new state with
 * the response text, or the exception the Ruby code raises.
 */
module Api {
  import opened Types
  import opened Paths
  import opened ContentStore
  import opened Catalog
  import opened Registry

  /** Everything a request can read or change: the files on disk and the two tables. */
  datatype State = State(fs: Fs, catalog: seq<Record>, nodes: seq<string>)

  /** The foreign library calls: `Base64.decode64` and `Digest::SHA256...hexdigest`. */
  datatype Env = Env(decode64: string -> Bytes, sha256: Bytes -> Digest)

  /** The state after a request, with what the handler returned or raised. */
  datatype Step<T> = Step(next: State, out: Outcome<T>)

  /** The invariant every request keeps. */
  ghost predicate Valid(s: State)
  {
    WellFormed(s.fs) && Unique(s.nodes)
  }

  /** `add` succeeds on this name: it is no directory and no ancestor of it is a regular file. */
  predicate Ingestible(fs: Fs, name: Path)
  {
    !IsDir(fs, name) && Ancestors(name) !! fs.store.Keys
  }

  /** `add` (lib/server.rb:49-73): store the decoded content, then catalog its digest. */
  function Add(s: State, env: Env, filename: Option<string>, content: Option<string>, now: int)
    : (r: Step<string>)
    ensures r.next.nodes == s.nodes
    ensures filename.None? ==> r == Step(s, Raised(MissingParameter))
    ensures r.out.Done? <==> filename.Some? && content.Some? && Ingestible(s.fs, filename.value)
    ensures r.out.Done? ==> r.out.value == "OK"
    ensures r.out.Done? ==>
              var name := filename.value;
              && r.next.fs.store == s.fs.store[name := env.decode64(content.value)]
              && r.next.fs.dirs == s.fs.dirs + Ancestors(name)
              && r.next.catalog
                 == s.catalog + [Record(name, env.sha256(r.next.fs.store[name]), now, 0, 0)]
    ensures r.out.Raised? ==>
              && r.next.fs.store == s.fs.store
              && r.next.catalog == s.catalog
              && (r.next.fs.dirs == s.fs.dirs || r.next.fs.dirs == s.fs.dirs + Ancestors(filename.value))
    ensures r.out.Raised? && content.Some? && WellFormed(s.fs) ==> r.next == s
    ensures Valid(s) ==> Valid(r.next)
  {
    if filename.None? then Step(s, Raised(MissingParameter))
    else
      var name := filename.value;
      assert '/' !in name ==> Ancestors(name) == {} by {
        if '/' !in name { NoSlashNoAncestors(name); }
      }
      NotOwnAncestor(name);
      var made := if '/' in name then MakeParents(s.fs, name) else Done(s.fs);
      if made.Raised? then Step(s, Raised(made.fault))
      else
        var s1 := s.(fs := made.value);
        assert WellFormed(s.fs) && name in s.fs.dirs ==> s1 == s;
        if content.None? then Step(s1, Raised(MissingParameter))
        else
          match Write(s1.fs, name, env.decode64(content.value))
          case Raised(f) => Step(s1, Raised(f))
          case Done(fs2) =>
            var sha256sum := env.sha256(fs2.store[name]);
            Step(State(fs2, s1.catalog + [Record(name, sha256sum, now, 0, 0)], s1.nodes), Done("OK"))
  }

  /**
   * `add_dup` (lib/server.rb:75-91): copy the file of the earliest catalog row with the
   * digest to the new name. No row is added to the catalog.
   */
  function AddDup(s: State, filename: Option<string>, sha256sum: Option<Digest>): (r: Step<string>)
    ensures r.next.catalog == s.catalog && r.next.nodes == s.nodes && r.next.fs.dirs == s.fs.dirs
    ensures r.out == Done("NOT_FOUND") <==> sha256sum.None? || !Known(s.catalog, sha256sum.value)
    ensures r.out.Done? ==> r.out.value == "OK" || r.out.value == "NOT_FOUND"
    ensures r.out != Done("OK") ==> r.next == s
    ensures sha256sum.Some? && Known(s.catalog, sha256sum.value) && filename.None? ==>
              r.out == Raised(MissingParameter)
    ensures sha256sum.Some? && filename.Some? ==>
              forall i | IsFirst(s.catalog, sha256sum.value, i) ::
                var src := s.catalog[i].name;
                && (r.out == Done("OK") <==> Copy(s.fs, src, filename.value).Done?)
                && (r.out == Done("OK") ==>
                      && r.next.fs == Copy(s.fs, src, filename.value).value
                      && r.next.fs.store[Destination(s.fs, src, filename.value)] == s.fs.store[src])
                && (r.out.Raised? ==> r.out.fault == Copy(s.fs, src, filename.value).fault)
    ensures Valid(s) ==> Valid(r.next)
  {
    var rows := if sha256sum.Some? then Matches(s.catalog, sha256sum.value) else [];
    assert |rows| > 0 <==> sha256sum.Some? && Known(s.catalog, sha256sum.value) by {
      if sha256sum.Some? { MatchesNonEmpty(s.catalog, sha256sum.value); }
    }
    if |rows| > 0 then
      FirstMatch(s.catalog, sha256sum.value);
      if filename.None? then Step(s, Raised(MissingParameter))
      else
        match Copy(s.fs, s.catalog[rows[0]].name, filename.value)
        case Raised(f) => Step(s, Raised(f))
        case Done(fs) => Step(s.(fs := fs), Done("OK"))
    else
      Step(s, Done("NOT_FOUND"))
  }

  /**
   * `delete` (lib/server.rb:93-108): remove the file, or the directory when it is empty.
   * The catalog keeps the file's row.
   */
  function Delete(s: State, filename: Option<string>): (r: Step<string>)
    ensures r.next.catalog == s.catalog && r.next.nodes == s.nodes
    ensures filename.None? ==> r == Step(s, Raised(MissingParameter))
    ensures filename.Some? ==> r.out.Done? && (r.out.value == "OK" || r.out.value == "NOT_FOUND")
    ensures filename.Some? ==> (r.out == Done("NOT_FOUND") <==> !Exists(s.fs, filename.value))
    ensures r.out != Done("OK") ==> r.next == s
    ensures r.out == Done("OK") && !IsDir(s.fs, filename.value) ==>
              r.next.fs.store == s.fs.store - {filename.value} && r.next.fs.dirs == s.fs.dirs
    ensures r.out == Done("OK") && IsDir(s.fs, filename.value) ==>
              var name := filename.value;
              && r.next.fs.store == s.fs.store
              && (name in r.next.fs.dirs <==> name in s.fs.dirs && !EmptyDir(s.fs, name))
              && r.next.fs.dirs - {name} == s.fs.dirs - {name}
    ensures Valid(s) ==> Valid(r.next)
  {
    if filename.None? then Step(s, Raised(MissingParameter))
    else
      var name := filename.value;
      if !Exists(s.fs, name) then Step(s, Done("NOT_FOUND"))
      else if IsDir(s.fs, name) then Step(s.(fs := Rmdir(s.fs, name)), Done("OK"))
      else Step(s.(fs := RmF(s.fs, name)), Done("OK"))
  }

  /** `add_query` (lib/server.rb:110-120): is some catalog row carrying this digest? */
  function AddQuery(s: State, sha256sum: Option<Digest>): (r: Step<string>)
    ensures r.next == s
    ensures r.out == Done("EXISTS") <==> sha256sum.Some? && Known(s.catalog, sha256sum.value)
    ensures r.out == Done("EXISTS") || r.out == Done("NOT_FOUND")
  {
    var rows := if sha256sum.Some? then Matches(s.catalog, sha256sum.value) else [];
    assert |rows| > 0 <==> sha256sum.Some? && Known(s.catalog, sha256sum.value) by {
      if sha256sum.Some? { MatchesNonEmpty(s.catalog, sha256sum.value); }
    }
    if |rows| > 0 then Step(s, Done("EXISTS")) else Step(s, Done("NOT_FOUND"))
  }

  /** The prefix every membership message starts with, before the caller's address. */
  const NodePrefix := "Node with IP "

  /** The text of a new registration: it names the caller and differs from the other messages. */
  function Added(ip: string): (r: string)
    ensures |NodePrefix| + |ip| < |r| && r[|NodePrefix|..|NodePrefix| + |ip|] == ip
    ensures r[..|NodePrefix|] == NodePrefix
    ensures r != AlreadyRegistered(ip) && r != Removed(ip)
  {
    var r := NodePrefix + ip + " added.\n";
    assert |r| != |AlreadyRegistered(ip)| && |r| != |Removed(ip)|;
    r
  }

  /** The text of a repeated registration: it names the caller and differs from removal. */
  function AlreadyRegistered(ip: string): (r: string)
    ensures |NodePrefix| + |ip| < |r| && r[|NodePrefix|..|NodePrefix| + |ip|] == ip
    ensures r[..|NodePrefix|] == NodePrefix
    ensures r != Removed(ip)
  {
    var r := NodePrefix + ip + " was already registered.\n";
    assert |r| != |Removed(ip)|;
    r
  }

  /** The text of an unregistration: it names the caller. */
  function Removed(ip: string): (r: string)
    ensures |NodePrefix| + |ip| < |r| && r[|NodePrefix|..|NodePrefix| + |ip|] == ip
    ensures r[..|NodePrefix|] == NodePrefix
  {
    NodePrefix + ip + " removed.\n"
  }

  /** `add_node` (lib/server.rb:152-163): register the caller's address unless it already is. */
  function AddNode(s: State, ip: string): (r: Step<string>)
    ensures r.next.fs == s.fs && r.next.catalog == s.catalog
    ensures ip in r.next.nodes
    ensures r.out == Done(Added(ip)) <==> ip !in s.nodes
    ensures r.out == Done(AlreadyRegistered(ip)) <==> ip in s.nodes
    ensures ip in s.nodes ==> r.next == s
    ensures Count(r.next.nodes, ip) == if ip in s.nodes then Count(s.nodes, ip) else 1
    ensures forall x | x != ip :: Count(r.next.nodes, x) == Count(s.nodes, x)
    ensures Valid(s) ==> Valid(r.next)
  {
    if ip in s.nodes then Step(s, Done(AlreadyRegistered(ip)))
    else
      var rows := s.nodes + [ip];
      assert forall x :: Count(rows, x) == Count(s.nodes, x) + (if x == ip then 1 else 0) by {
        forall x { CountAppend(s.nodes, ip, x); }
      }
      Step(s.(nodes := rows), Done(Added(ip)))
  }

  /** `delete_node` (lib/server.rb:165-169): unregister the caller's address, whether or not it was. */
  function DeleteNode(s: State, ip: string): (r: Step<string>)
    ensures r.next.fs == s.fs && r.next.catalog == s.catalog
    ensures r.out == Done(Removed(ip))
    ensures ip !in r.next.nodes
    ensures forall x | x != ip :: Count(r.next.nodes, x) == Count(s.nodes, x)
    ensures Valid(s) ==> Valid(r.next)
  {
    Step(s.(nodes := Remove(s.nodes, ip)), Done(Removed(ip)))
  }

  /** `return 200, "text/plain", response_text`; an exception propagates instead. */
  function Respond(step: Step<string>): Step<Reply>
  {
    match step.out
    case Done(text) => Step(step.next, Done(Reply(200, "text/plain", text)))
    case Raised(f) => Step(step.next, Raised(f))
  }

  predicate IsFilesCall(call: Option<string>)
  {
    call == Some("add") || call == Some("add_dup") || call == Some("delete") || call == Some("add_query")
  }

  /** `Files#api_handler` (lib/server.rb:40-124): dispatch on `api_call`. */
  function FilesApi(s: State, env: Env, request: Request, now: int): (r: Step<Reply>)
    ensures r.next.nodes == s.nodes
    ensures r.out.Done? ==>
              && r.out.value.status == 200
              && r.out.value.contentType == "text/plain"
              && r.out.value.body in {"OK", "EXISTS", "NOT_FOUND"}
    ensures !IsFilesCall(Param(request.query, "api_call")) ==>
              r == Step(s, Done(Reply(200, "text/plain", "OK")))
    ensures Valid(s) ==> Valid(r.next)
  {
    var q := request.query;
    var call := Param(q, "api_call");
    if call == Some("add") then
      Respond(Add(s, env, Param(q, "filename"), Param(q, "content"), now))
    else if call == Some("add_dup") then
      Respond(AddDup(s, Param(q, "filename"), Param(q, "sha256sum")))
    else if call == Some("delete") then
      Respond(Delete(s, Param(q, "filename")))
    else if call == Some("add_query") then
      Respond(AddQuery(s, Param(q, "sha256sum")))
    else
      Respond(Step(s, Done("OK")))
  }

  predicate IsNodesCall(call: Option<string>)
  {
    call == Some("add_node") || call == Some("delete_node")
  }

  /** `Nodes#api_handler` (lib/server.rb:142-173): the address is the caller's `remote_ip`. */
  function NodesApi(s: State, request: Request): (r: Step<Reply>)
    ensures r.next.fs == s.fs && r.next.catalog == s.catalog
    ensures r.out.Done?
    ensures r.out.value.status == 200 && r.out.value.contentType == "text/plain"
    ensures !IsNodesCall(Param(request.query, "api_call")) ==>
              r == Step(s, Done(Reply(200, "text/plain", "OK")))
    ensures Valid(s) ==> Valid(r.next)
  {
    var call := Param(request.query, "api_call");
    if call == Some("add_node") then Respond(AddNode(s, request.remoteIp))
    else if call == Some("delete_node") then Respond(DeleteNode(s, request.remoteIp))
    else Respond(Step(s, Done("OK")))
  }
}
