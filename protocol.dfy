// What each step of `GitHubAutoSetup` does, as functions of the object's
// settings, the local disk, the foreign libraries and the remote's replies.
// Each step yields the value it returns (or that it raised) and the calls it
// issued, in order.
module Protocol {
  import opened Options
  import opened Http
  import opened PyText

  const SetupFile := "setup_github.txt"
  const StreamerFile := "streamer.py"
  const RequirementsFile := "requirements.txt"
  const WorkflowTemplate := ".github/workflows/youtube-live.yml"
  const RepoDescription := "24/7 YouTube Auto Streamer"
  const Branch := "main"

  /** The files `check_files` requires and `upload_all_files` uploads, in this order. */
  function RequiredFiles(): seq<string> {
    [StreamerFile, RequirementsFile, WorkflowTemplate]
  }

  /** The local files: the content of every path that exists, and the result of
      `readlines()` on the setup file (`None` when opening or reading it raises). */
  datatype Disk = Disk(files: map<string, string>, setupLines: Option<seq<string>>)

  /** The library calls the model does not interpret.
      base64(t)      is base64.b64encode(t.encode()).decode();
      naclInstalled  says whether `from nacl import public` succeeds;
      keyDecodes(k)  says whether PublicKey(base64.b64decode(k)) succeeds;
      seal(k, v)     is the base64 text of SealedBox(PublicKey(...k)).encrypt(v.encode()),
                     one draw of a randomized encryption. */
  datatype Libraries = Libraries(
    base64: string -> string,
    naclInstalled: bool,
    keyDecodes: string -> bool,
    seal: (string, string) -> string)

  /** How a Python call ends: it returns a value or raises. */
  datatype Outcome<+T> = Returned(value: T) | Threw

  /** A step's outcome and the calls it issued, oldest first. */
  datatype Trace<+T> = Trace(out: Outcome<T>, sent: seq<Exchange>)

  /** The object's fields `stream_key` ... `repo_name`, `username`. */
  datatype Settings = Settings(
    streamKey: Option<string>, videoUrl: Option<string>, quality: Option<string>,
    aspectRatio: Option<string>, githubToken: Option<string>, repoName: Option<string>,
    username: Option<string>)

  /** The six values of the setup file, in file order. */
  datatype Config = Config(
    streamKey: string, videoUrl: string, quality: string,
    aspectRatio: string, githubToken: string, repoName: string)

  /** An f-string interpolation of an optional value. */
  function Show(o: Option<string>): string {
    match o
    case None => "None"
    case Some(v) => v
  }

  function ToJson(o: Option<string>): Json {
    match o
    case None => Null
    case Some(v) => Str(v)
  }

  /** The Authorization header every call carries. */
  function Auth(s: Settings): string {
    "token " + Show(s.githubToken)
  }

  /** Every exchange of `sent` carries the oracle's reply to its request. */
  ghost predicate Answered(sent: seq<Exchange>, respond: Request -> Reply) {
    forall k :: 0 <= k < |sent| ==> sent[k].reply == respond(sent[k].request)
  }

  /** Concatenation is associative; stated once so that proofs about traces
      need not rediscover it element by element. */
  lemma AppendAssoc<T>(a: seq<T>, b: seq<T>, c: seq<T>)
    ensures a + (b + c) == (a + b) + c
  {
  }

  lemma AnsweredAppend(a: seq<Exchange>, b: seq<Exchange>, respond: Request -> Reply)
    requires Answered(a, respond) && Answered(b, respond)
    ensures Answered(a + b, respond)
  {
    forall k | 0 <= k < |a + b| ensures (a + b)[k].reply == respond((a + b)[k].request) {
      if k < |a| { assert (a + b)[k] == a[k]; } else { assert (a + b)[k] == b[k - |a|]; }
    }
  }

  // ---------------------------------------------------------------- check_files

  /** The files of `files` that are not in `present`, in list order. */
  function Absent(files: seq<string>, present: set<string>): (missing: seq<string>)
    ensures |missing| <= |files|
  {
    if files == [] then []
    else (if files[0] in present then [] else [files[0]]) + Absent(files[1..], present)
  }

  /** A file is reported missing iff it is required and not present, so
      nothing is reported iff every required file is present. */
  lemma {:induction false} AbsentMembers(files: seq<string>, present: set<string>)
    ensures forall f :: f in Absent(files, present) <==> f in files && f !in present
    ensures Absent(files, present) == [] <==> forall f :: f in files ==> f in present
    decreases |files|
  {
    if files != [] {
      AbsentMembers(files[1..], present);
      assert forall f :: f in files <==> f == files[0] || f in files[1..];
    }
    var missing := Absent(files, present);
    if missing != [] {
      assert missing[0] in missing;
    }
  }

  /** Order is kept: the absent files of a concatenation are those of its parts. */
  lemma {:induction false} AbsentAppend(a: seq<string>, b: seq<string>, present: set<string>)
    ensures Absent(a + b, present) == Absent(a, present) + Absent(b, present)
    decreases |a|
  {
    if a == [] {
      assert a + b == b;
    } else {
      assert (a + b)[0] == a[0];
      assert (a + b)[1..] == a[1..] + b;
      AbsentAppend(a[1..], b, present);
    }
  }

  // ---------------------------------------------------------- read_setup_config

  /** The configuration `read_setup_config` loads: the first six non-blank
      stripped lines, or nothing when the file cannot be read or has fewer. */
  function ParseConfig(setup: Option<seq<string>>): (c: Option<Config>)
    ensures c.Some? <==> setup.Some? && |ConfigLines(setup.value)| >= 6
    ensures c.Some? ==> && c.value.streamKey != "" && Stripped(c.value.streamKey)
                        && c.value.videoUrl != "" && Stripped(c.value.videoUrl)
                        && c.value.quality != "" && Stripped(c.value.quality)
                        && c.value.aspectRatio != "" && Stripped(c.value.aspectRatio)
                        && c.value.githubToken != "" && Stripped(c.value.githubToken)
                        && c.value.repoName != "" && Stripped(c.value.repoName)
  {
    if setup.None? then None
    else
      var lines := ConfigLines(setup.value);
      ConfigLinesAreClean(setup.value);
      if |lines| < 6 then None
      else Some(Config(lines[0], lines[1], lines[2], lines[3], lines[4], lines[5]))
  }

  /** Lines after the sixth non-blank one are ignored. */
  lemma ParseConfigIgnoresExtraLines(raw: seq<string>, extra: seq<string>)
    requires |ConfigLines(raw)| >= 6
    ensures ParseConfig(Some(raw + extra)) == ParseConfig(Some(raw))
  {
    ConfigLinesAppend(raw, extra);
  }

  /** Blank (whitespace-only) lines are dropped before counting, wherever they are. */
  lemma ParseConfigIgnoresBlankLines(a: seq<string>, blank: string, b: seq<string>)
    requires AllSpace(blank)
    ensures ParseConfig(Some(a + [blank] + b)) == ParseConfig(Some(a + b))
  {
    var withBlank := a + [blank] + b;
    assert ConfigLines(withBlank) == ConfigLines(a + b) by {
      ConfigLinesAppend(a + [blank], b);
      ConfigLinesAppend(a, [blank]);
      ConfigLinesOfOne(blank);
      ConfigLinesAppend(a, b);
    }
  }

  /** The settings once `c` is loaded and `username` is what it is. */
  function Loaded(c: Config, username: Option<string>): Settings {
    Settings(Some(c.streamKey), Some(c.videoUrl), Some(c.quality), Some(c.aspectRatio),
             Some(c.githubToken), Some(c.repoName), username)
  }

  // -------------------------------------------------------- verify_github_token

  function UserRequest(s: Settings): Request {
    Get(User, Auth(s))
  }

  /** The login of an accepted token: the reply is 200 and carries `login`;
      anything else, an exception included, means the token was rejected. */
  function TokenLogin(reply: Reply): (login: Option<string>)
    ensures login.Some? <==> reply.Reply? && reply.status == 200 && "login" in reply.fields
    ensures login.Some? ==> login.value == reply.fields["login"]
  {
    if reply.Reply? && reply.status == 200 && "login" in reply.fields
    then Some(reply.fields["login"]) else None
  }

  // --------------------------------------------------------- create_github_repo

  function RepoOf(s: Settings): Resource {
    Repo(Show(s.username), Show(s.repoName))
  }

  /** The body of the creation POST: a public, auto-initialised repository. */
  function NewRepoBody(name: Option<string>): map<string, Json> {
    map["name" := ToJson(name), "private" := Bool(false),
        "description" := Str(RepoDescription), "auto_init" := Bool(true)]
  }

  /** Create-or-reuse: probe the repository; a 200 reuses it, any other status
      creates it with one POST whose 201 is the only success. */
  function CreateRepo(s: Settings, respond: Request -> Reply): (t: Trace<bool>)
    ensures 1 <= |t.sent| <= 2 && t.sent[0].request == Get(RepoOf(s), Auth(s))
    ensures t.sent[0].reply == respond(t.sent[0].request)
    ensures |t.sent| == 2 ==> t.sent[1].reply == respond(t.sent[1].request)
    ensures t.sent[0].reply.Fault? ==> t.out == Threw && |t.sent| == 1
    ensures t.sent[0].reply.Reply? && t.sent[0].reply.status == 200 ==>
              t.out == Returned(true) && |t.sent| == 1
    ensures t.sent[0].reply.Reply? && t.sent[0].reply.status != 200 ==>
              |t.sent| == 2 && t.sent[1].request == Post(UserRepos, Auth(s), NewRepoBody(s.repoName)) &&
              (t.out.Threw? <==> t.sent[1].reply.Fault?) &&
              (t.out == Returned(true) <==> t.sent[1].reply.Reply? && t.sent[1].reply.status == 201)
  {
    var probe := Get(RepoOf(s), Auth(s));
    var found := respond(probe);
    if found.Fault? then Trace(Threw, [Exchange(probe, found)])
    else if found.status == 200 then Trace(Returned(true), [Exchange(probe, found)])
    else
      var create := Post(UserRepos, Auth(s), NewRepoBody(s.repoName));
      var made := respond(create);
      Trace(if made.Fault? then Threw else Returned(made.status == 201),
            [Exchange(probe, found), Exchange(create, made)])
  }

  // ---------------------------------------------------------------- upload_file

  function ContentsOf(s: Settings, path: string): Resource {
    Contents(Show(s.username), Show(s.repoName), path)
  }

  /** A probe raises when the call raises, or when it is 200 without a `sha`. */
  predicate ProbeRaises(probe: Reply) {
    probe.Fault? || (probe.status == 200 && "sha" !in probe.fields)
  }

  /** The revision marker a probe found: the `sha` of a 200 reply. */
  function ProbedSha(probe: Reply): Option<string>
    requires !ProbeRaises(probe)
  {
    if probe.status == 200 then Some(probe.fields["sha"]) else None
  }

  /** The body of a content write. It always names the file in the commit
      message, carries the encoded content and targets `main`; it carries the
      revision marker exactly when one was found and is non-empty (truthy). */
  function WriteBody(path: string, encoded: string, sha: Option<string>): (body: map<string, Json>)
    ensures body.Keys == {"message", "content", "branch"} + (if sha.Some? && sha.value != "" then {"sha"} else {})
    ensures body["message"] == Str("Upload " + path)
    ensures body["content"] == Str(encoded)
    ensures body["branch"] == Str(Branch)
    ensures "sha" in body ==> body["sha"] == Str(sha.value)
  {
    var data := map["message" := Str("Upload " + path), "content" := Str(encoded), "branch" := Str(Branch)];
    if sha.Some? && sha.value != "" then data["sha" := Str(sha.value)] else data
  }

  /** Conditional write: probe the path, then PUT the body with the marker the
      probe found; success is a 200 or 201. */
  function UploadFile(s: Settings, lib: Libraries, path: string, content: string,
                      respond: Request -> Reply): (t: Trace<bool>)
    ensures 1 <= |t.sent| <= 2 && t.sent[0].request == Get(ContentsOf(s, path), Auth(s))
    ensures t.sent[0].reply == respond(t.sent[0].request)
    ensures |t.sent| == 2 ==> t.sent[1].reply == respond(t.sent[1].request)
    ensures ProbeRaises(t.sent[0].reply) ==> t.out == Threw && |t.sent| == 1
    ensures !ProbeRaises(t.sent[0].reply) ==>
              |t.sent| == 2 &&
              t.sent[1].request == Put(ContentsOf(s, path), Auth(s),
                                       WriteBody(path, lib.base64(content), ProbedSha(t.sent[0].reply))) &&
              (t.out.Threw? <==> t.sent[1].reply.Fault?) &&
              (t.out == Returned(true) <==>
                 t.sent[1].reply.Reply? && t.sent[1].reply.status in {200, 201})
  {
    var at := ContentsOf(s, path);
    var probe := Get(at, Auth(s));
    var found := respond(probe);
    if ProbeRaises(found) then Trace(Threw, [Exchange(probe, found)])
    else
      var put := Put(at, Auth(s), WriteBody(path, lib.base64(content), ProbedSha(found)));
      var written := respond(put);
      Trace(if written.Fault? then Threw else Returned(written.status in {200, 201}),
            [Exchange(probe, found), Exchange(put, written)])
  }

  /** The `sha` key is present exactly when the probe answered 200 with a
      truthy `sha`, and then it is that `sha`. */
  lemma UploadSendsMarkerIffFound(s: Settings, lib: Libraries, path: string, content: string,
                                  respond: Request -> Reply)
    requires |UploadFile(s, lib, path, content, respond).sent| == 2
    ensures var t := UploadFile(s, lib, path, content, respond);
            var probe := t.sent[0].reply;
            var body := t.sent[1].request.json;
            && t.sent[1].request.Put?
            && ("sha" in body <==> probe.status == 200 && probe.fields["sha"] != "")
            && ("sha" in body ==> body["sha"] == Str(probe.fields["sha"]))
  {
  }

  // ----------------------------------------------------------- upload_all_files

  /** One `with open(path) as f: self.upload_file(path, f.read())` block:
      opening a file that does not exist raises before any call. */
  function OpenAndUpload(s: Settings, disk: Disk, lib: Libraries, path: string,
                         respond: Request -> Reply): (t: Trace<bool>)
    ensures t.sent == [] <==> path !in disk.files
    ensures |t.sent| <= 2
    ensures t.out.Returned? ==> |t.sent| == 2
  {
    if path !in disk.files then Trace(Threw, [])
    else UploadFile(s, lib, path, disk.files[path], respond)
  }

  /** `upload_all_files` over `paths`: each file is opened (raising when it does
      not exist) and uploaded; the upload's result is ignored. */
  function UploadEach(s: Settings, disk: Disk, lib: Libraries, paths: seq<string>,
                      respond: Request -> Reply): (t: Trace<()>)
    ensures |t.sent| <= 2 * |paths|
    ensures t.out.Returned? ==> |t.sent| == 2 * |paths|
    decreases |paths|
  {
    if paths == [] then Trace(Returned(()), [])
    else
      var one := OpenAndUpload(s, disk, lib, paths[0], respond);
      if one.out.Threw? then Trace(Threw, one.sent)
      else
        var rest := UploadEach(s, disk, lib, paths[1..], respond);
        Trace(rest.out, one.sent + rest.sent)
  }

  /** Each call of an upload carries the oracle's reply, addresses the
      contents of the file being uploaded, and is a GET probe or a PUT write. */
  lemma OpenAndUploadCalls(s: Settings, disk: Disk, lib: Libraries, path: string, respond: Request -> Reply)
    ensures var t := OpenAndUpload(s, disk, lib, path, respond);
            && Answered(t.sent, respond)
            && forall e :: e in t.sent ==>
                 e.request.resource == ContentsOf(s, path) && (e.request == Get(e.request.resource, Auth(s)) || e.request.Put?)
  {
  }

  /** The calls of `upload_all_files` over `paths` carry the oracle's replies,
      address only the contents of files of `paths`, and are GET probes or PUT
      writes. */
  lemma {:induction false} UploadEachCalls(s: Settings, disk: Disk, lib: Libraries, paths: seq<string>,
                                           respond: Request -> Reply)
    ensures var t := UploadEach(s, disk, lib, paths, respond);
            && Answered(t.sent, respond)
            && forall e :: e in t.sent ==>
                 && e.request.resource.Contents? && e.request.resource.path in paths
                 && (e.request == Get(e.request.resource, Auth(s)) || e.request.Put?)
    decreases |paths|
  {
    if paths != [] {
      var one := OpenAndUpload(s, disk, lib, paths[0], respond);
      OpenAndUploadCalls(s, disk, lib, paths[0], respond);
      if one.out.Returned? {
        var rest := UploadEach(s, disk, lib, paths[1..], respond);
        UploadEachCalls(s, disk, lib, paths[1..], respond);
        AnsweredAppend(one.sent, rest.sent, respond);
        assert forall p :: p in paths[1..] ==> p in paths;
      }
    }
  }

  /** One unfolding of `UploadEach`: the first file, then the others. */
  lemma UploadEachStep(s: Settings, disk: Disk, lib: Libraries, paths: seq<string>, respond: Request -> Reply)
    requires paths != []
    ensures var one := OpenAndUpload(s, disk, lib, paths[0], respond);
            var rest := UploadEach(s, disk, lib, paths[1..], respond);
            UploadEach(s, disk, lib, paths, respond)
              == if one.out.Threw? then Trace(Threw, one.sent) else Trace(rest.out, one.sent + rest.sent)
  {
  }

  /** A failed upload does not stop `upload_all_files`: it raises only when a
      file cannot be opened or an upload raises, whatever the statuses. */
  lemma {:induction false} UploadEachIgnoresResults(s: Settings, disk: Disk, lib: Libraries, paths: seq<string>,
                                                    respond: Request -> Reply)
    ensures UploadEach(s, disk, lib, paths, respond).out.Returned? <==>
              forall k :: 0 <= k < |paths| ==>
                OpenAndUpload(s, disk, lib, paths[k], respond).out.Returned?
    decreases |paths|
  {
    if paths != [] {
      UploadEachIgnoresResults(s, disk, lib, paths[1..], respond);
      assert forall k :: 1 <= k < |paths| ==> paths[k] == paths[1..][k - 1];
    }
  }

  // ---------------------------------------------------------------- set_secrets

  /** The secrets dictionary, in insertion order. */
  function SecretsOf(s: Settings): (secrets: seq<(string, Option<string>)>)
    ensures |secrets| == 4
    ensures forall a, b :: 0 <= a < b < |secrets| ==> secrets[a].0 != secrets[b].0
  {
    [("YOUTUBE_STREAM_KEY", s.streamKey), ("VIDEO_URL", s.videoUrl),
     ("VIDEO_QUALITY", s.quality), ("ASPECT_RATIO", s.aspectRatio)]
  }

  function KeyRequest(s: Settings): Request {
    Get(SecretsKey(Show(s.username), Show(s.repoName)), Auth(s))
  }

  /** The nested `encrypt` helper; `None` when it raises (an undecodable key, or
      a value that is `None` and has no `encode`). */
  function Encrypt(lib: Libraries, publicKey: string, value: Option<string>): (sealed: Option<string>)
    ensures sealed.Some? <==> lib.keyDecodes(publicKey) && value.Some?
    ensures sealed.Some? ==> sealed.value == lib.seal(publicKey, value.value)
  {
    if !lib.keyDecodes(publicKey) || value.None? then None
    else Some(lib.seal(publicKey, value.value))
  }

  /** A secret write carries only the sealed value and the key id. */
  function SealedBody(sealed: string, keyId: string): map<string, Json> {
    map["encrypted_value" := Str(sealed), "key_id" := Str(keyId)]
  }

  function SecretPut(s: Settings, name: string, sealed: string, keyId: string): Request {
    Put(Secret(Show(s.username), Show(s.repoName), name), Auth(s), SealedBody(sealed, keyId))
  }

  /** The secret-writing loop: one sealed PUT per entry, in order. A reply of any
      status moves on to the next entry; only an exception stops the loop. */
  function SecretWrites(s: Settings, lib: Libraries, publicKey: string, keyId: string,
                        secrets: seq<(string, Option<string>)>, respond: Request -> Reply): (t: Trace<()>)
    ensures |t.sent| <= |secrets|
    ensures t.out.Returned? ==> |t.sent| == |secrets|
    decreases |secrets|
  {
    if secrets == [] then Trace(Returned(()), [])
    else
      match Encrypt(lib, publicKey, secrets[0].1)
      case None => Trace(Threw, [])
      case Some(sealed) =>
        var put := SecretPut(s, secrets[0].0, sealed, keyId);
        var reply := respond(put);
        if reply.Fault? then Trace(Threw, [Exchange(put, reply)])
        else
          var rest := SecretWrites(s, lib, publicKey, keyId, secrets[1..], respond);
          Trace(rest.out, [Exchange(put, reply)] + rest.sent)
  }

  /** The writes follow the secrets in order: write k is the PUT of secret k
      sealed under `publicKey` with `keyId`, and carries the remote's reply. */
  lemma {:induction false} SecretWritesCalls(s: Settings, lib: Libraries, publicKey: string, keyId: string,
                                             secrets: seq<(string, Option<string>)>, respond: Request -> Reply)
    ensures var t := SecretWrites(s, lib, publicKey, keyId, secrets, respond);
            && Answered(t.sent, respond)
            && forall k :: 0 <= k < |t.sent| ==>
                 secrets[k].1.Some? && lib.keyDecodes(publicKey) &&
                 t.sent[k].request == SecretPut(s, secrets[k].0, lib.seal(publicKey, secrets[k].1.value), keyId)
    decreases |secrets|
  {
    if secrets != [] && Encrypt(lib, publicKey, secrets[0].1).Some? {
      var put := SecretPut(s, secrets[0].0, Encrypt(lib, publicKey, secrets[0].1).value, keyId);
      if respond(put).Reply? {
        var t := SecretWrites(s, lib, publicKey, keyId, secrets, respond);
        var rest := SecretWrites(s, lib, publicKey, keyId, secrets[1..], respond);
        SecretWritesCalls(s, lib, publicKey, keyId, secrets[1..], respond);
        AnsweredAppend([Exchange(put, respond(put))], rest.sent, respond);
        assert forall k :: 1 <= k < |t.sent| ==> t.sent[k] == rest.sent[k - 1] && secrets[k] == secrets[1..][k - 1];
      }
    }
  }

  /** A rejected status never stops the writes: only the last reply can be an
      exception, and the loop ends early only when a value cannot be sealed or
      a write raises. */
  lemma {:induction false} SecretWritesStops(s: Settings, lib: Libraries, publicKey: string, keyId: string,
                                             secrets: seq<(string, Option<string>)>, respond: Request -> Reply)
    ensures var t := SecretWrites(s, lib, publicKey, keyId, secrets, respond);
            && (forall k :: 0 <= k < |t.sent| - 1 ==> t.sent[k].reply.Reply?)
            && (|t.sent| < |secrets| && (t.sent == [] || t.sent[|t.sent| - 1].reply.Reply?) ==>
                  Encrypt(lib, publicKey, secrets[|t.sent|].1).None?)
            && (t.out.Threw? <==> |t.sent| < |secrets| || (t.sent != [] && t.sent[|t.sent| - 1].reply.Fault?))
    decreases |secrets|
  {
    if secrets != [] && Encrypt(lib, publicKey, secrets[0].1).Some? {
      var put := SecretPut(s, secrets[0].0, Encrypt(lib, publicKey, secrets[0].1).value, keyId);
      if respond(put).Reply? {
        var t := SecretWrites(s, lib, publicKey, keyId, secrets, respond);
        var rest := SecretWrites(s, lib, publicKey, keyId, secrets[1..], respond);
        SecretWritesStops(s, lib, publicKey, keyId, secrets[1..], respond);
        assert t.sent == [Exchange(put, respond(put))] + rest.sent;
        assert forall k :: 1 <= k < |t.sent| ==> t.sent[k] == rest.sent[k - 1];
        if |t.sent| < |secrets| {
          assert secrets[|t.sent|] == secrets[1..][|rest.sent|];
        }
      }
    }
  }

  /** One unfolding of `SecretWrites`: the first secret, then the others. */
  lemma SecretWritesStep(s: Settings, lib: Libraries, publicKey: string, keyId: string,
                         secrets: seq<(string, Option<string>)>, respond: Request -> Reply)
    requires secrets != []
    ensures var t := SecretWrites(s, lib, publicKey, keyId, secrets, respond);
            var sealed := Encrypt(lib, publicKey, secrets[0].1);
            var rest := SecretWrites(s, lib, publicKey, keyId, secrets[1..], respond);
            t == if sealed.None? then Trace(Threw, [])
                 else
                   var put := SecretPut(s, secrets[0].0, sealed.value, keyId);
                   if respond(put).Fault? then Trace(Threw, [Exchange(put, respond(put))])
                   else Trace(rest.out, [Exchange(put, respond(put))] + rest.sent)
  {
  }

  /** `set_secrets`: fetch the public key once; without a 200 nothing is written
      and the result is False; otherwise write every secret and return True
      whatever the statuses of the writes. */
  function SetSecrets(s: Settings, lib: Libraries, respond: Request -> Reply): (t: Trace<bool>)
    ensures |t.sent| >= 1 && t.sent[0].request == KeyRequest(s)
    ensures t.sent[0].reply == respond(KeyRequest(s))
    ensures t.out == Returned(true) ==> |t.sent| == 1 + |SecretsOf(s)|
    ensures t.sent[0].reply.Fault? ==> t.out == Threw && |t.sent| == 1
    ensures t.sent[0].reply.Reply? && t.sent[0].reply.status != 200 ==> t.out == Returned(false) && |t.sent| == 1
    ensures (t.out == Returned(false)) <==> (t.sent[0].reply.Reply? && t.sent[0].reply.status != 200)
  {
    var keyReq := KeyRequest(s);
    var key := respond(keyReq);
    var fetched := [Exchange(keyReq, key)];
    if key.Fault? then Trace(Threw, fetched)
    else if key.status != 200 then Trace(Returned(false), fetched)
    else if "key" !in key.fields || "key_id" !in key.fields || !lib.naclInstalled then Trace(Threw, fetched)
    else
      var w := SecretWrites(s, lib, key.fields["key"], key.fields["key_id"], SecretsOf(s), respond);
      Trace(if w.out.Threw? then Threw else Returned(true), fetched + w.sent)
  }

  /** Every call of `set_secrets` carries the oracle's reply, and every call
      after the key fetch is a secret write. */
  lemma SetSecretsCalls(s: Settings, lib: Libraries, respond: Request -> Reply)
    ensures var t := SetSecrets(s, lib, respond);
            && Answered(t.sent, respond)
            && forall k :: 1 <= k < |t.sent| ==> t.sent[k].request.Put? && t.sent[k].request.resource.Secret?
  {
    var t := SetSecrets(s, lib, respond);
    var key := respond(KeyRequest(s));
    if key.Reply? && key.status == 200 && "key" in key.fields && "key_id" in key.fields && lib.naclInstalled {
      var w := SecretWrites(s, lib, key.fields["key"], key.fields["key_id"], SecretsOf(s), respond);
      SecretWritesCalls(s, lib, key.fields["key"], key.fields["key_id"], SecretsOf(s), respond);
      AnsweredAppend([Exchange(KeyRequest(s), key)], w.sent, respond);
      assert forall k :: 1 <= k < |t.sent| ==> t.sent[k] == w.sent[k - 1];
    }
  }

  /** `set_secrets` returns True whatever statuses the writes get: it does so
      whenever the key reply is a 200 with `key` and `key_id`, NaCl is
      installed, the key decodes, all four values are set and no secret PUT
      raises. */
  lemma SetSecretsTrueUnlessRaised(s: Settings, lib: Libraries, respond: Request -> Reply)
    requires respond(KeyRequest(s)).Reply? && respond(KeyRequest(s)).status == 200
    requires "key" in respond(KeyRequest(s)).fields && "key_id" in respond(KeyRequest(s)).fields
    requires lib.naclInstalled && lib.keyDecodes(respond(KeyRequest(s)).fields["key"])
    requires forall k :: 0 <= k < |SecretsOf(s)| ==> SecretsOf(s)[k].1.Some?
    requires forall k :: 0 <= k < |SecretsOf(s)| ==>
               respond(SecretPut(s, SecretsOf(s)[k].0,
                                 lib.seal(respond(KeyRequest(s)).fields["key"], SecretsOf(s)[k].1.value),
                                 respond(KeyRequest(s)).fields["key_id"])).Reply?
    ensures SetSecrets(s, lib, respond).out == Returned(true)
  {
    var key := respond(KeyRequest(s));
    var w := SecretWrites(s, lib, key.fields["key"], key.fields["key_id"], SecretsOf(s), respond);
    SecretWritesCalls(s, lib, key.fields["key"], key.fields["key_id"], SecretsOf(s), respond);
    SecretWritesStops(s, lib, key.fields["key"], key.fields["key_id"], SecretsOf(s), respond);
    if w.sent != [] {
      var last := |w.sent| - 1;
      assert w.sent[last].reply == respond(w.sent[last].request);
      assert w.sent[last].reply.Reply?;
    }
  }

  /** When the key fetch succeeds and nothing raises, every one of the four
      secrets is written exactly once, in dictionary order, each body holding
      the value sealed under the fetched key and the same key id; and the
      result is True whatever statuses those writes got. */
  lemma SecretsWrittenOncePerName(s: Settings, lib: Libraries, respond: Request -> Reply)
    requires SetSecrets(s, lib, respond).out == Returned(true)
    ensures var t := SetSecrets(s, lib, respond);
            var key := t.sent[0].reply;
            && key.Reply? && key.status == 200 && "key" in key.fields && "key_id" in key.fields
            && |t.sent| == 1 + |SecretsOf(s)|
            && forall k :: 0 <= k < |SecretsOf(s)| ==>
                 SecretsOf(s)[k].1.Some? &&
                 t.sent[k + 1].request ==
                   SecretPut(s, SecretsOf(s)[k].0, lib.seal(key.fields["key"], SecretsOf(s)[k].1.value),
                             key.fields["key_id"])
  {
    var t := SetSecrets(s, lib, respond);
    var key := respond(KeyRequest(s));
    var w := SecretWrites(s, lib, key.fields["key"], key.fields["key_id"], SecretsOf(s), respond);
    SecretWritesCalls(s, lib, key.fields["key"], key.fields["key_id"], SecretsOf(s), respond);
    assert t.sent == [Exchange(KeyRequest(s), key)] + w.sent;
    forall k | 0 <= k < |SecretsOf(s)|
      ensures t.sent[k + 1] == w.sent[k]
    {
    }
  }

  // ------------------------------------------------------------- secret slots

  /** A secret write the remote accepted: 201 (created) or 204 (updated). */
  predicate Stored(reply: Reply) {
    reply.Reply? && reply.status in {201, 204}
  }

  predicate IsSecretWrite(e: Exchange) {
    e.request.Put? && e.request.resource.Secret?
  }

  /** The secret slots as the remote holds them after the calls of `log`: the
      body of the last accepted write to each slot. */
  ghost function SecretSlots(log: seq<Exchange>): map<Resource, map<string, Json>>
    decreases |log|
  {
    if log == [] then map[]
    else
      var e := log[|log| - 1];
      var before := SecretSlots(log[..|log| - 1]);
      if IsSecretWrite(e) && Stored(e.reply) then before[e.request.resource := e.request.json] else before
  }

  /** Calls that write no secret to `slot` leave that slot as it was. */
  lemma {:induction false} SlotUntouched(log: seq<Exchange>, later: seq<Exchange>, slot: Resource)
    requires forall e :: e in later ==> !(IsSecretWrite(e) && e.request.resource == slot)
    ensures slot in SecretSlots(log + later) <==> slot in SecretSlots(log)
    ensures slot in SecretSlots(log) ==> SecretSlots(log + later)[slot] == SecretSlots(log)[slot]
    decreases |later|
  {
    if later == [] {
      assert log + later == log;
    } else {
      var n := |later| - 1;
      assert (log + later)[..|log + later| - 1] == log + later[..n];
      assert (log + later)[|log + later| - 1] == later[n];
      SlotUntouched(log, later[..n], slot);
    }
  }

  /** An accepted secret write that no later call overwrites is what its slot holds. */
  lemma {:induction false} LastAcceptedWriteIsStored(log: seq<Exchange>, sent: seq<Exchange>, j: nat)
    requires j < |sent| && IsSecretWrite(sent[j]) && Stored(sent[j].reply)
    requires forall i :: j < i < |sent| ==> !(IsSecretWrite(sent[i]) && sent[i].request.resource == sent[j].request.resource)
    ensures sent[j].request.resource in SecretSlots(log + sent)
    ensures SecretSlots(log + sent)[sent[j].request.resource] == sent[j].request.json
  {
    var slot := sent[j].request.resource;
    var upto := log + sent[..j + 1];
    var later := sent[j + 1..];
    assert log + sent == upto + later;
    assert upto[..|upto| - 1] == log + sent[..j];
    assert upto[|upto| - 1] == sent[j];
    forall e | e in later ensures !(IsSecretWrite(e) && e.request.resource == slot) {
      var i :| 0 <= i < |later| && later[i] == e;
      assert e == sent[j + 1 + i];
    }
    SlotUntouched(upto, later, slot);
  }

  /** Partial-failure isolation: after a `set_secrets` that returned True, each
      secret whose write was accepted holds its sealed value, whatever happened
      to the writes of the other secrets. */
  lemma AcceptedSecretsAreStored(s: Settings, lib: Libraries, respond: Request -> Reply,
                                 log: seq<Exchange>, k: nat)
    requires SetSecrets(s, lib, respond).out == Returned(true)
    requires k < |SecretsOf(s)| && Stored(SetSecrets(s, lib, respond).sent[k + 1].reply)
    ensures var t := SetSecrets(s, lib, respond);
            var slot := Secret(Show(s.username), Show(s.repoName), SecretsOf(s)[k].0);
            && slot in SecretSlots(log + t.sent)
            && t.sent[k + 1].request.Put?
            && SecretSlots(log + t.sent)[slot] == t.sent[k + 1].request.json
  {
    var t := SetSecrets(s, lib, respond);
    SecretsWrittenOncePerName(s, lib, respond);
    SetSecretsCalls(s, lib, respond);
    var names := SecretsOf(s);
    forall i | k + 1 < i < |t.sent|
      ensures !(IsSecretWrite(t.sent[i]) && t.sent[i].request.resource == t.sent[k + 1].request.resource)
    {
      assert t.sent[i].request.resource == Secret(Show(s.username), Show(s.repoName), names[i - 1].0);
      assert names[k].0 != names[i - 1].0;
    }
    LastAcceptedWriteIsStored(log, t.sent, k + 1);
  }
}
