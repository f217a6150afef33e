/**
 * One rdfs node as the Ruby process holds it: the files under RDFS_PATH and the two
 * tables of RDFS_DB are fields that the request handlers update in place.
 */
module Server {
  import opened Types
  import opened ContentStore
  import opened Catalog
  import opened Registry
  import Api

  class RdfsNode {
    /** Regular files under RDFS_PATH, by relative name. */
    var store: map<Path, Bytes>
    /** Directories under RDFS_PATH other than the root itself. */
    var dirs: set<Path>
    /** The rows of table `files`, in insertion order. */
    var catalog: seq<Record>
    /** The rows of table `nodes`. */
    var nodes: seq<string>
    /** Base64 decoding and SHA-256, the library calls the handlers make. */
    const env: Api.Env

    function State(): Api.State
      reads this
    {
      Api.State(Fs(store, dirs), catalog, nodes)
    }

    ghost predicate Valid()
      reads this
    {
      Api.Valid(State())
    }

    /** An empty storage root and empty tables. */
    constructor (env: Api.Env)
      ensures State() == Api.State(Fs(map[], {}), [], [])
      ensures this.env == env
      ensures Valid()
    {
      this.env := env;
      store, dirs := map[], {};
      catalog, nodes := [], [];
    }

    /** `api_call=add` */
    method Add(filename: Option<string>, content: Option<string>, now: int)
      returns (responseText: Outcome<string>)
      modifies this
      ensures Api.Step(State(), responseText) == Api.Add(old(State()), env, filename, content, now)
      ensures old(Valid()) ==> Valid()
    {
      responseText := Done("OK");
      if filename.None? {
        return Raised(MissingParameter);
      }
      var name := filename.value;
      if '/' in name {
        var made := MakeParents(Fs(store, dirs), name);
        if made.Raised? {
          return Raised(made.fault);
        }
        dirs := made.value.dirs;
      }
      if content.None? {
        return Raised(MissingParameter);
      }
      var written := Write(Fs(store, dirs), name, env.decode64(content.value));
      if written.Raised? {
        return Raised(written.fault);
      }
      store := written.value.store;
      var sha256sum := env.sha256(store[name]);
      catalog := catalog + [Record(name, sha256sum, now, 0, 0)];
    }

    /** `api_call=add_dup` */
    method AddDup(filename: Option<string>, sha256sum: Option<Digest>)
      returns (responseText: Outcome<string>)
      modifies this
      ensures Api.Step(State(), responseText) == Api.AddDup(old(State()), filename, sha256sum)
      ensures old(Valid()) ==> Valid()
    {
      responseText := Done("OK");
      var rows := if sha256sum.Some? then Matches(catalog, sha256sum.value) else [];
      if |rows| > 0 {
        if filename.None? {
          return Raised(MissingParameter);
        }
        var copied := Copy(Fs(store, dirs), catalog[rows[0]].name, filename.value);
        if copied.Raised? {
          return Raised(copied.fault);
        }
        store := copied.value.store;
      } else {
        responseText := Done("NOT_FOUND");
      }
    }

    /** `api_call=delete` */
    method Delete(filename: Option<string>) returns (responseText: Outcome<string>)
      modifies this
      ensures Api.Step(State(), responseText) == Api.Delete(old(State()), filename)
      ensures old(Valid()) ==> Valid()
    {
      responseText := Done("OK");
      if filename.None? {
        return Raised(MissingParameter);
      }
      var name := filename.value;
      if Exists(Fs(store, dirs), name) {
        if IsDir(Fs(store, dirs), name) {
          dirs := Rmdir(Fs(store, dirs), name).dirs;
        } else {
          store := RmF(Fs(store, dirs), name).store;
        }
      } else {
        responseText := Done("NOT_FOUND");
      }
    }

    /** `api_call=add_query`: it only reads, so it modifies nothing. */
    method AddQuery(sha256sum: Option<Digest>) returns (responseText: Outcome<string>)
      ensures responseText == Done("EXISTS") <==> sha256sum.Some? && Known(catalog, sha256sum.value)
      ensures responseText == Done("EXISTS") || responseText == Done("NOT_FOUND")
    {
      var rows := if sha256sum.Some? then Matches(catalog, sha256sum.value) else [];
      if sha256sum.Some? {
        MatchesNonEmpty(catalog, sha256sum.value);
      }
      if |rows| > 0 {
        responseText := Done("EXISTS");
      } else {
        responseText := Done("NOT_FOUND");
      }
    }

    /** `api_call=add_node` from the caller at `ip`. */
    method AddNode(ip: string) returns (responseText: Outcome<string>)
      modifies this
      ensures Api.Step(State(), responseText) == Api.AddNode(old(State()), ip)
      ensures old(Valid()) ==> Valid()
    {
      if Count(nodes, ip) == 0 {
        nodes := nodes + [ip];
        responseText := Done(Api.Added(ip));
      } else {
        responseText := Done(Api.AlreadyRegistered(ip));
      }
    }

    /** `api_call=delete_node` from the caller at `ip`. */
    method DeleteNode(ip: string) returns (responseText: Outcome<string>)
      modifies this
      ensures Api.Step(State(), responseText) == Api.DeleteNode(old(State()), ip)
      ensures old(Valid()) ==> Valid()
    {
      nodes := Remove(nodes, ip);
      responseText := Done(Api.Removed(ip));
    }

    /** `Files#api_handler`: `now` stands for `Time.now.to_i`. */
    method FilesApiHandler(request: Request, now: int) returns (reply: Outcome<Reply>)
      modifies this
      ensures Api.Step(State(), reply) == Api.FilesApi(old(State()), env, request, now)
      ensures old(Valid()) ==> Valid()
    {
      var responseText: Outcome<string> := Done("OK");
      var query := request.query;
      var call := Param(query, "api_call");
      if call == Some("add") {
        responseText := Add(Param(query, "filename"), Param(query, "content"), now);
      } else if call == Some("add_dup") {
        responseText := AddDup(Param(query, "filename"), Param(query, "sha256sum"));
      } else if call == Some("delete") {
        responseText := Delete(Param(query, "filename"));
      } else if call == Some("add_query") {
        responseText := AddQuery(Param(query, "sha256sum"));
      }
      reply := match responseText
        case Done(text) => Done(Reply(200, "text/plain", text))
        case Raised(f) => Raised(f);
    }

    /** `Nodes#api_handler`: the address is the caller's `remote_ip`. */
    method NodesApiHandler(request: Request) returns (reply: Outcome<Reply>)
      modifies this
      ensures Api.Step(State(), reply) == Api.NodesApi(old(State()), request)
      ensures old(Valid()) ==> Valid()
    {
      var responseText: Outcome<string> := Done("OK");
      var call := Param(request.query, "api_call");
      var ip := request.remoteIp;
      if call == Some("add_node") {
        responseText := AddNode(ip);
      } else if call == Some("delete_node") {
        responseText := DeleteNode(ip);
      }
      reply := match responseText
        case Done(text) => Done(Reply(200, "text/plain", text))
        case Raised(f) => Raised(f);
    }
  }
}
