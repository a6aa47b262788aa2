// The orchestrator `run`: the guards in order, stopping at the first that
// fails, then the upload and secret phases, whose results do not change the
// completion path.
module Orchestrator {
  import opened Options
  import opened Http
  import opened Protocol

  datatype Step = FilesStep | ConfigStep | TokenStep | RepoStep | UploadStep | SecretsStep

  /** How `run` ends: a guard returned False (it returns early), a step raised
      (the exception leaves `run`), or it reached "SETUP COMPLETE". */
  datatype RunResult = Stopped(at: Step) | Crashed(at: Step) | Finished

  datatype RunTrace = RunTrace(result: RunResult, sent: seq<Exchange>)

  /** Number of public-key fetches among `sent`. */
  function KeyFetches(sent: seq<Exchange>): (n: nat)
    ensures n <= |sent|
  {
    if sent == [] then 0
    else (if sent[0].request.resource.SecretsKey? then 1 else 0) + KeyFetches(sent[1..])
  }

  lemma {:induction false} KeyFetchesAppend(a: seq<Exchange>, b: seq<Exchange>)
    ensures KeyFetches(a + b) == KeyFetches(a) + KeyFetches(b)
    decreases |a|
  {
    if a == [] {
      assert a + b == b;
    } else {
      assert (a + b)[0] == a[0];
      assert (a + b)[1..] == a[1..] + b;
      KeyFetchesAppend(a[1..], b);
    }
  }

  lemma {:induction false} NoKeyFetches(sent: seq<Exchange>)
    requires forall e :: e in sent ==> !e.request.resource.SecretsKey?
    ensures KeyFetches(sent) == 0
    decreases |sent|
  {
    if sent != [] {
      assert sent[0] in sent;
      assert forall e :: e in sent[1..] ==> e in sent;
      NoKeyFetches(sent[1..]);
    }
  }

  predicate FetchesKey(e: Exchange) {
    e.request.resource.SecretsKey?
  }

  predicate TouchesFile(e: Exchange) {
    e.request.resource.Contents?
  }

  /** Every file call comes before every key fetch. */
  ghost predicate FilesBeforeKey(sent: seq<Exchange>) {
    forall i, j :: 0 <= i < j < |sent| && TouchesFile(sent[j]) ==> !FetchesKey(sent[i])
  }

  lemma FilesBeforeKeyAppend(a: seq<Exchange>, b: seq<Exchange>)
    requires FilesBeforeKey(a) && FilesBeforeKey(b)
    requires (forall e :: e in a ==> !FetchesKey(e)) || (forall e :: e in b ==> !TouchesFile(e))
    ensures FilesBeforeKey(a + b)
  {
    var ab := a + b;
    forall i, j | 0 <= i < j < |ab| && TouchesFile(ab[j]) ensures !FetchesKey(ab[i]) {
      if j < |a| {
        assert ab[i] == a[i] && ab[j] == a[j];
      } else if i >= |a| {
        assert ab[i] == b[i - |a|] && ab[j] == b[j - |a|];
      } else {
        assert ab[i] == a[i] && a[i] in a;
        assert ab[j] == b[j - |a|] && b[j - |a|] in b;
      }
    }
  }

  /** The upload and secret phases, run once the repository is in place. */
  function Publish(s: Settings, disk: Disk, lib: Libraries, respond: Request -> Reply): (r: RunTrace)
    ensures r.result == Finished || r.result == Crashed(UploadStep) || r.result == Crashed(SecretsStep)
  {
    var up := UploadEach(s, disk, lib, RequiredFiles(), respond);
    if up.out.Threw? then RunTrace(Crashed(UploadStep), up.sent)
    else
      var sec := SetSecrets(s, lib, respond);
      RunTrace(if sec.out.Threw? then Crashed(SecretsStep) else Finished, up.sent + sec.sent)
  }

  /** The steps after the token check: create or reuse, then publish. */
  function Provision(s: Settings, disk: Disk, lib: Libraries, respond: Request -> Reply): (r: RunTrace)
    ensures r.sent != [] && r.sent[0].request == Get(RepoOf(s), Auth(s))
    ensures r.result != Stopped(FilesStep) && r.result != Stopped(ConfigStep) && r.result != Stopped(TokenStep)
    ensures r.result != Crashed(FilesStep) && r.result != Crashed(ConfigStep) && r.result != Crashed(TokenStep)
    ensures r.result != Stopped(UploadStep) && r.result != Stopped(SecretsStep)
  {
    var repo := CreateRepo(s, respond);
    if repo.out.Threw? then RunTrace(Crashed(RepoStep), repo.sent)
    else if !repo.out.value then RunTrace(Stopped(RepoStep), repo.sent)
    else
      var rest := Publish(s, disk, lib, respond);
      RunTrace(rest.result, repo.sent + rest.sent)
  }

  /** The calls `run` makes and how it ends, for a given disk, libraries and
      remote. The fields of the object before the run do not matter: the guards
      set every field a later step reads. */
  function RunSetup(disk: Disk, lib: Libraries, respond: Request -> Reply): (r: RunTrace)
    ensures r.result == Stopped(FilesStep) <==> Absent(RequiredFiles(), disk.files.Keys) != []
    ensures r.result == Stopped(ConfigStep) <==>
              Absent(RequiredFiles(), disk.files.Keys) == [] && ParseConfig(disk.setupLines).None?
    ensures r.sent == [] <==> r.result == Stopped(FilesStep) || r.result == Stopped(ConfigStep)
    ensures r.sent != [] ==>
              r.sent[0].request == Get(User, "token " + ParseConfig(disk.setupLines).value.githubToken)
    ensures r.result == Stopped(TokenStep) <==> r.sent != [] && TokenLogin(r.sent[0].reply).None?
    ensures r.result == Stopped(TokenStep) ==> |r.sent| == 1
    ensures r.result != Crashed(FilesStep) && r.result != Crashed(ConfigStep) && r.result != Crashed(TokenStep)
    ensures r.result != Stopped(UploadStep) && r.result != Stopped(SecretsStep)
  {
    if Absent(RequiredFiles(), disk.files.Keys) != [] then RunTrace(Stopped(FilesStep), [])
    else match ParseConfig(disk.setupLines)
      case None => RunTrace(Stopped(ConfigStep), [])
      case Some(c) =>
        var check := UserRequest(Loaded(c, None));
        var token := Exchange(check, respond(check));
        match TokenLogin(token.reply)
        case None => RunTrace(Stopped(TokenStep), [token])
        case Some(login) =>
          var rest := Provision(Loaded(c, Some(login)), disk, lib, respond);
          RunTrace(rest.result, [token] + rest.sent)
  }

  /** `Publish` crashes at the upload step iff an upload raised, and at the
      secret step iff the uploads completed and `set_secrets` raised; it
      finishes in every other case, whatever those steps returned. Its calls
      are the upload calls, then the secret calls once the uploads completed. */
  lemma PublishSteps(s: Settings, disk: Disk, lib: Libraries, respond: Request -> Reply)
    ensures var up := UploadEach(s, disk, lib, RequiredFiles(), respond);
            var sec := SetSecrets(s, lib, respond);
            var r := Publish(s, disk, lib, respond);
            && (r.result == Crashed(UploadStep) <==> up.out.Threw?)
            && (r.result == Crashed(SecretsStep) <==> up.out.Returned? && sec.out.Threw?)
            && (r.result == Finished <==> up.out.Returned? && sec.out.Returned?)
            && r.sent == if up.out.Threw? then up.sent else up.sent + sec.sent
  {
  }

  /** The repository guard: the steps after the token check stop at the
      repository step iff `create_github_repo` returned False, crash there iff
      it raised, and in both cases make no call after it; when it returned True
      they go on with `Publish`. */
  lemma ProvisionRepoGuard(s: Settings, disk: Disk, lib: Libraries, respond: Request -> Reply)
    ensures var repo := CreateRepo(s, respond);
            var r := Provision(s, disk, lib, respond);
            && (r.result == Crashed(RepoStep) <==> repo.out.Threw?)
            && (r.result == Stopped(RepoStep) <==> repo.out == Returned(false))
            && (repo.out != Returned(true) ==> r.sent == repo.sent)
            && (repo.out == Returned(true) ==>
                  r == RunTrace(Publish(s, disk, lib, respond).result, repo.sent + Publish(s, disk, lib, respond).sent))
  {
  }

  /** The fourth guard of `run`: a run whose token was accepted stops at the
      repository step iff `create_github_repo` returned False, crashes there
      iff it raised, and then has made only the token check and the repository
      calls; otherwise it goes on with the uploads and the secrets. */
  lemma RunRepoGuard(disk: Disk, lib: Libraries, respond: Request -> Reply)
    requires Absent(RequiredFiles(), disk.files.Keys) == [] && ParseConfig(disk.setupLines).Some?
    requires TokenLogin(respond(UserRequest(Loaded(ParseConfig(disk.setupLines).value, None)))).Some?
    ensures var s := RunSettings(disk, respond);
            var repo := CreateRepo(s, respond);
            var pub := Publish(s, disk, lib, respond);
            var r := RunSetup(disk, lib, respond);
            && (r.result == Crashed(RepoStep) <==> repo.out.Threw?)
            && (r.result == Stopped(RepoStep) <==> repo.out == Returned(false))
            && (repo.out != Returned(true) ==> r.sent == [r.sent[0]] + repo.sent)
            && (repo.out == Returned(true) ==> r.result == pub.result && r.sent == [r.sent[0]] + (repo.sent + pub.sent))
  {
    RunSetupStep(disk, lib, respond);
    ProvisionRepoGuard(RunSettings(disk, respond), disk, lib, respond);
  }

  /** Every exchange a run records carries the remote's reply to its request. */
  lemma PublishAnswered(s: Settings, disk: Disk, lib: Libraries, respond: Request -> Reply)
    ensures Answered(Publish(s, disk, lib, respond).sent, respond)
  {
    var up := UploadEach(s, disk, lib, RequiredFiles(), respond);
    UploadEachCalls(s, disk, lib, RequiredFiles(), respond);
    if up.out.Returned? {
      SetSecretsCalls(s, lib, respond);
      AnsweredAppend(up.sent, SetSecrets(s, lib, respond).sent, respond);
    }
  }

  lemma ProvisionAnswered(s: Settings, disk: Disk, lib: Libraries, respond: Request -> Reply)
    ensures Answered(Provision(s, disk, lib, respond).sent, respond)
  {
    var repo := CreateRepo(s, respond);
    if repo.out == Returned(true) {
      PublishAnswered(s, disk, lib, respond);
      AnsweredAppend(repo.sent, Publish(s, disk, lib, respond).sent, respond);
    }
  }

  lemma RunAnswered(disk: Disk, lib: Libraries, respond: Request -> Reply)
    ensures Answered(RunSetup(disk, lib, respond).sent, respond)
  {
    var r := RunSetup(disk, lib, respond);
    if r.sent != [] && TokenLogin(r.sent[0].reply).Some? {
      var s := RunSettings(disk, respond);
      ProvisionAnswered(s, disk, lib, respond);
      AnsweredAppend([r.sent[0]], Provision(s, disk, lib, respond).sent, respond);
    }
  }

  /** The settings of a run that passed the configuration guard. */
  function RunSettings(disk: Disk, respond: Request -> Reply): Settings
    requires ParseConfig(disk.setupLines).Some?
  {
    var c := ParseConfig(disk.setupLines).value;
    Loaded(c, TokenLogin(respond(UserRequest(Loaded(c, None)))))
  }

  /** A run that passes the three guards is the token check followed by the
      steps of `Provision` under the settings the guards loaded. */
  lemma RunSetupStep(disk: Disk, lib: Libraries, respond: Request -> Reply)
    requires Absent(RequiredFiles(), disk.files.Keys) == [] && ParseConfig(disk.setupLines).Some?
    requires TokenLogin(respond(UserRequest(Loaded(ParseConfig(disk.setupLines).value, None)))).Some?
    ensures var s := RunSettings(disk, respond);
            var p := Provision(s, disk, lib, respond);
            RunSetup(disk, lib, respond) == RunTrace(p.result, [Exchange(UserRequest(s), respond(UserRequest(s)))] + p.sent)
  {
  }

  /** Nothing is created or written before the token is accepted: every POST or
      PUT of a run comes after a GET /user that answered 200 with a login. */
  lemma RunMutatesOnlyAfterAuth(disk: Disk, lib: Libraries, respond: Request -> Reply)
    ensures var r := RunSetup(disk, lib, respond);
            forall k :: 0 <= k < |r.sent| && r.sent[k].request.Mutating() ==>
              r.sent[0].request.resource == User && TokenLogin(r.sent[0].reply).Some?
  {
    var r := RunSetup(disk, lib, respond);
    if r.sent != [] && TokenLogin(r.sent[0].reply).None? {
      assert |r.sent| == 1;
    }
  }

  lemma PublishFetchesKeyOnce(s: Settings, disk: Disk, lib: Libraries, respond: Request -> Reply)
    ensures var r := Publish(s, disk, lib, respond);
            && KeyFetches(r.sent) == (if r.result == Crashed(UploadStep) then 0 else 1)
            && FilesBeforeKey(r.sent)
  {
    var up := UploadEach(s, disk, lib, RequiredFiles(), respond);
    UploadEachCalls(s, disk, lib, RequiredFiles(), respond);
    assert forall e :: e in up.sent ==> !FetchesKey(e);
    NoKeyFetches(up.sent);
    assert FilesBeforeKey(up.sent);
    if up.out.Returned? {
      var sec := SetSecrets(s, lib, respond);
      SetSecretsCalls(s, lib, respond);
      var tail := sec.sent[1..];
      assert sec.sent == [sec.sent[0]] + tail;
      assert forall e :: e in tail ==> !FetchesKey(e) && !TouchesFile(e);
      NoKeyFetches(tail);
      KeyFetchesAppend([sec.sent[0]], tail);
      KeyFetchesAppend(up.sent, sec.sent);
      assert forall e :: e in sec.sent ==> !TouchesFile(e);
      FilesBeforeKeyAppend(up.sent, sec.sent);
    }
  }

  lemma ProvisionFetchesKeyOnce(s: Settings, disk: Disk, lib: Libraries, respond: Request -> Reply)
    ensures var r := Provision(s, disk, lib, respond);
            && KeyFetches(r.sent) == (if r.result == Finished || r.result == Crashed(SecretsStep) then 1 else 0)
            && FilesBeforeKey(r.sent)
  {
    var repo := CreateRepo(s, respond);
    assert forall e :: e in repo.sent ==> !FetchesKey(e) && !TouchesFile(e);
    NoKeyFetches(repo.sent);
    if repo.out == Returned(true) {
      var rest := Publish(s, disk, lib, respond);
      PublishFetchesKeyOnce(s, disk, lib, respond);
      KeyFetchesAppend(repo.sent, rest.sent);
      FilesBeforeKeyAppend(repo.sent, rest.sent);
    }
  }

  /** The public key is fetched at most once per run, exactly when the secret
      phase is reached, and after every file call of the run. */
  lemma RunFetchesKeyAtMostOnce(disk: Disk, lib: Libraries, respond: Request -> Reply)
    ensures var r := RunSetup(disk, lib, respond);
            && KeyFetches(r.sent) <= 1
            && (KeyFetches(r.sent) == 1 <==> r.result == Finished || r.result == Crashed(SecretsStep))
            && FilesBeforeKey(r.sent)
  {
    var r := RunSetup(disk, lib, respond);
    if r.sent != [] && TokenLogin(r.sent[0].reply).Some? {
      var c := ParseConfig(disk.setupLines).value;
      var s := Loaded(c, TokenLogin(r.sent[0].reply));
      var rest := Provision(s, disk, lib, respond);
      ProvisionFetchesKeyOnce(s, disk, lib, respond);
      assert r.sent == [r.sent[0]] + rest.sent;
      KeyFetchesAppend([r.sent[0]], rest.sent);
      FilesBeforeKeyAppend([r.sent[0]], rest.sent);
    }
  }

  /** Once the repository step succeeds, the upload and secret phases always run
      and their results do not decide how `run` ends: a rejected key fetch still
      ends in "SETUP COMPLETE", with no secret written. */
  lemma RunCompletesDespiteRejectedKey(disk: Disk, lib: Libraries, respond: Request -> Reply)
    requires Absent(RequiredFiles(), disk.files.Keys) == [] && ParseConfig(disk.setupLines).Some?
    requires TokenLogin(respond(UserRequest(RunSettings(disk, respond)))).Some?
    requires CreateRepo(RunSettings(disk, respond), respond).out == Returned(true)
    requires UploadEach(RunSettings(disk, respond), disk, lib, RequiredFiles(), respond).out.Returned?
    requires var key := respond(KeyRequest(RunSettings(disk, respond))); key.Reply? && key.status != 200
    ensures var r := RunSetup(disk, lib, respond);
            && r.result == Finished
            && (forall e :: e in r.sent ==> !IsSecretWrite(e))
  {
    var s := RunSettings(disk, respond);
    var c := ParseConfig(disk.setupLines).value;
    assert UserRequest(s) == UserRequest(Loaded(c, None));
    var r := RunSetup(disk, lib, respond);
    var repo := CreateRepo(s, respond);
    var up := UploadEach(s, disk, lib, RequiredFiles(), respond);
    UploadEachCalls(s, disk, lib, RequiredFiles(), respond);
    var sec := SetSecrets(s, lib, respond);
    SetSecretsCalls(s, lib, respond);
    var pub := Publish(s, disk, lib, respond);
    assert pub.sent == up.sent + sec.sent && pub.result == Finished;
    var token := Exchange(UserRequest(s), respond(UserRequest(s)));
    assert r.sent == [token] + (repo.sent + pub.sent);
    forall e | e in r.sent ensures !IsSecretWrite(e) {
      if e in up.sent {
      } else if e in sec.sent {
      } else {
        assert e == token || e in repo.sent;
      }
    }
  }
}
