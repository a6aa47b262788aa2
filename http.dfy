module Options {
  /** Python's `None` or a value. */
  datatype Option<+T> = None | Some(value: T)
}

// The GitHub REST surface the setup talks to, seen from the client: the
// requests it can issue, the replies it can get, and a remote whose replies
// are an oracle and whose issued requests are recorded in a ghost log.
module Http {

  /** The JSON values the setup puts into request bodies. */
  datatype Json = Null | Bool(b: bool) | Str(s: string)

  /** The API resources the setup addresses; `Url` strings are not modelled,
      each resource stands for the URL the source formats for it. */
  datatype Resource =
    | User                                                // /user
    | UserRepos                                           // /user/repos
    | Repo(owner: string, name: string)                   // /repos/{owner}/{name}
    | Contents(owner: string, name: string, path: string) // /repos/{owner}/{name}/contents/{path}
    | SecretsKey(owner: string, name: string)             // /repos/{owner}/{name}/actions/secrets/public-key
    | Secret(owner: string, name: string, secret: string) // /repos/{owner}/{name}/actions/secrets/{secret}

  /** One HTTP call; `auth` is the value of the Authorization header. */
  datatype Request =
    | Get(resource: Resource, auth: string)
    | Post(resource: Resource, auth: string, json: map<string, Json>)
    | Put(resource: Resource, auth: string, json: map<string, Json>)
  {
    /** POST and PUT change the remote; GET does not. */
    predicate Mutating() { Post? || Put? }
  }

  /** What a call gives back: a status code with the string fields of its JSON
      body (a field that is absent, or a body that is not JSON, makes `.json()[f]`
      raise), or `Fault` when `requests` itself raised (DNS, TLS, timeout). */
  datatype Reply = Reply(status: int, fields: map<string, string>) | Fault

  datatype Exchange = Exchange(request: Request, reply: Reply)

  /** The remote API as the client sees it. Replies come from an oracle fixed for
      the run; every call is appended to a ghost log, so the order and number of
      calls can be stated. */
  class Remote {
    const respond: Request -> Reply
    ghost var log: seq<Exchange>

    constructor (respond: Request -> Reply)
      ensures this.respond == respond && log == []
    {
      this.respond := respond;
      log := [];
    }

    /** One round trip, never retried. */
    method Send(request: Request) returns (reply: Reply)
      modifies this
      ensures reply == respond(request)
      ensures log == old(log) + [Exchange(request, reply)]
    {
      reply := respond(request);
      log := log + [Exchange(request, reply)];
    }
  }
}
