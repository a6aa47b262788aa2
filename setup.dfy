// The `GitHubAutoSetup` object: its fields, one method for each modelled method
// of the source, and two helper methods (`OpenAndUpload`, the `with open` block
// of `upload_all_files`, and `WriteSecrets`, the loop of `set_secrets`); each is
// proved against the step it performs in modules Protocol and Orchestrator.
module Setup {
  import opened Options
  import opened Http
  import opened PyText
  import opened Protocol
  import opened Orchestrator

  class GitHubAutoSetup {
    var streamKey: Option<string>
    var videoUrl: Option<string>
    var quality: Option<string>
    var aspectRatio: Option<string>
    var githubToken: Option<string>
    var repoName: Option<string>
    var username: Option<string>

    /** The fields as one value. */
    function Current(): Settings
      reads this
    {
      Settings(streamKey, videoUrl, quality, aspectRatio, githubToken, repoName, username)
    }

    /** Every field starts as `None`. */
    constructor ()
      ensures Current() == Settings(None, None, None, None, None, None, None)
    {
      streamKey, videoUrl, quality, aspectRatio := None, None, None, None;
      githubToken, repoName, username := None, None, None;
    }

    /** `check_files`: look at every required file, collect the missing ones in
        list order, and succeed only when none is missing. */
    method CheckFiles(disk: Disk) returns (ok: bool, missing: seq<string>)
      ensures missing == Absent(RequiredFiles(), disk.files.Keys)
      ensures ok <==> missing == []
      ensures ok <==> forall f :: f in RequiredFiles() ==> f in disk.files
    {
      var mustFiles := RequiredFiles();
      missing := [];
      var i := 0;
      while i < |mustFiles|
        invariant 0 <= i <= |mustFiles|
        invariant missing == Absent(mustFiles[..i], disk.files.Keys)
      {
        var f := mustFiles[i];
        if f !in disk.files {
          missing := missing + [f];
        }
        AbsentAppend(mustFiles[..i], [f], disk.files.Keys);
        assert mustFiles[..i + 1] == mustFiles[..i] + [f];
        i := i + 1;
      }
      assert mustFiles[..i] == mustFiles;
      ok := missing == [];
      AbsentMembers(mustFiles, disk.files.Keys);
    }

    /** `read_setup_config`: the first six non-blank stripped lines go to the six
        fields in order; an unreadable file or fewer lines change nothing. */
    method ReadSetupConfig(disk: Disk) returns (ok: bool)
      modifies this
      ensures ok <==> disk.setupLines.Some? && |ConfigLines(disk.setupLines.value)| >= 6
      ensures ok ==> var lines := ConfigLines(disk.setupLines.value);
                     && streamKey == Some(lines[0]) && videoUrl == Some(lines[1])
                     && quality == Some(lines[2]) && aspectRatio == Some(lines[3])
                     && githubToken == Some(lines[4]) && repoName == Some(lines[5])
      ensures ok ==> Current() == Loaded(ParseConfig(disk.setupLines).value, old(username))
      ensures !ok ==> Current() == old(Current())
    {
      if disk.setupLines.None? {
        return false;
      }
      var lines := ConfigLines(disk.setupLines.value);
      if |lines| < 6 {
        return false;
      }
      streamKey := Some(lines[0]);
      videoUrl := Some(lines[1]);
      quality := Some(lines[2]);
      aspectRatio := Some(lines[3]);
      githubToken := Some(lines[4]);
      repoName := Some(lines[5]);
      ok := true;
    }

    /** `verify_github_token`: one GET /user; a 200 carrying `login` accepts the
        token and records the login; anything else, an exception included,
        rejects it and leaves `username` as it was. */
    method VerifyGithubToken(remote: Remote) returns (ok: bool)
      modifies this, remote
      ensures var check := UserRequest(old(Current()));
              && remote.log == old(remote.log) + [Exchange(check, remote.respond(check))]
              && (ok <==> TokenLogin(remote.respond(check)).Some?)
              && Current() == old(Current()).(username := if ok then TokenLogin(remote.respond(check)) else old(username))
    {
      var reply := remote.Send(UserRequest(Current()));
      if reply.Reply? && reply.status == 200 {
        if "login" !in reply.fields {
          return false;
        }
        username := Some(reply.fields["login"]);
        return true;
      }
      ok := false;
    }

    /** `create_github_repo`: reuse on a 200 probe, otherwise create. */
    method CreateGithubRepo(remote: Remote) returns (out: Outcome<bool>)
      modifies remote
      ensures var t := CreateRepo(Current(), remote.respond);
              out == t.out && remote.log == old(remote.log) + t.sent
    {
      var found := remote.Send(Get(RepoOf(Current()), Auth(Current())));
      if found.Fault? {
        return Threw;
      }
      if found.status == 200 {
        return Returned(true);
      }
      var data := map["name" := ToJson(repoName), "private" := Bool(false),
                      "description" := Str(RepoDescription), "auto_init" := Bool(true)];
      var made := remote.Send(Post(UserRepos, Auth(Current()), data));
      if made.Fault? {
        return Threw;
      }
      out := Returned(made.status == 201);
    }

    /** `upload_file`: probe the path, add the found `sha` to the body, PUT it. */
    method UploadFile(remote: Remote, lib: Libraries, path: string, content: string) returns (out: Outcome<bool>)
      modifies remote
      ensures var t := Protocol.UploadFile(Current(), lib, path, content, remote.respond);
              out == t.out && remote.log == old(remote.log) + t.sent
    {
      var at := ContentsOf(Current(), path);
      var contentB64 := lib.base64(content);
      var found := remote.Send(Get(at, Auth(Current())));
      if found.Fault? {
        return Threw;
      }
      var sha: Option<string> := None;
      if found.status == 200 {
        if "sha" !in found.fields {
          return Threw;
        }
        sha := Some(found.fields["sha"]);
      }
      var data := map["message" := Str("Upload " + path), "content" := Str(contentB64), "branch" := Str(Branch)];
      if sha.Some? && sha.value != "" {
        data := data["sha" := Str(sha.value)];
      }
      var written := remote.Send(Put(at, Auth(Current()), data));
      if written.Fault? {
        return Threw;
      }
      out := Returned(written.status in {200, 201});
    }

    /** One `with open(path)` block of `upload_all_files`: open the file, which
        raises when it does not exist, and upload its content. */
    method OpenAndUpload(remote: Remote, disk: Disk, lib: Libraries, path: string) returns (out: Outcome<bool>)
      modifies remote
      ensures var t := Protocol.OpenAndUpload(Current(), disk, lib, path, remote.respond);
              out == t.out && remote.log == old(remote.log) + t.sent
    {
      if path !in disk.files {
        return Threw;
      }
      out := UploadFile(remote, lib, path, disk.files[path]);
    }

    /** `upload_all_files`: open and upload the three files in order, ignoring
        each upload's result. */
    method UploadAllFiles(remote: Remote, disk: Disk, lib: Libraries) returns (out: Outcome<()>)
      modifies remote
      ensures var t := UploadEach(Current(), disk, lib, RequiredFiles(), remote.respond);
              out == t.out && remote.log == old(remote.log) + t.sent
    {
      ghost var s, respond, start := Current(), remote.respond, remote.log;
      ghost var paths := RequiredFiles();
      ghost var all := UploadEach(s, disk, lib, paths, respond);
      UploadEachStep(s, disk, lib, paths, respond);
      ghost var one := Protocol.OpenAndUpload(s, disk, lib, paths[0], respond);
      ghost var rest := UploadEach(s, disk, lib, paths[1..], respond);
      var first := OpenAndUpload(remote, disk, lib, StreamerFile);
      if first.Threw? {
        return Threw;
      }
      AppendAssoc(start, one.sent, rest.sent);
      UploadEachStep(s, disk, lib, paths[1..], respond);
      assert paths[1..][1..] == paths[2..];
      ghost var two := Protocol.OpenAndUpload(s, disk, lib, paths[1], respond);
      ghost var last := UploadEach(s, disk, lib, paths[2..], respond);
      ghost var mid := remote.log;
      var second := OpenAndUpload(remote, disk, lib, RequirementsFile);
      if second.Threw? {
        return Threw;
      }
      AppendAssoc(mid, two.sent, last.sent);
      UploadEachStep(s, disk, lib, paths[2..], respond);
      assert paths[2..][1..] == [];
      var third := OpenAndUpload(remote, disk, lib, WorkflowTemplate);
      if third.Threw? {
        return Threw;
      }
      out := Returned(());
    }

    /** The loop of `set_secrets`: seal each value under the fetched key and PUT
        it, raising when a value cannot be sealed or a write raises. */
    method WriteSecrets(remote: Remote, lib: Libraries, publicKey: string, keyId: string,
                        secrets: seq<(string, Option<string>)>) returns (out: Outcome<()>)
      modifies remote
      ensures var t := SecretWrites(Current(), lib, publicKey, keyId, secrets, remote.respond);
              out == t.out && remote.log == old(remote.log) + t.sent
    {
      ghost var s, respond := Current(), remote.respond;
      ghost var all := SecretWrites(s, lib, publicKey, keyId, secrets, respond);
      ghost var start := remote.log;
      var i := 0;
      while i < |secrets|
        invariant 0 <= i <= |secrets|
        invariant var rest := SecretWrites(s, lib, publicKey, keyId, secrets[i..], respond);
                  remote.log + rest.sent == start + all.sent && rest.out == all.out
      {
        var (name, value) := secrets[i];
        var sealed := Encrypt(lib, publicKey, value);
        assert secrets[i..][0] == (name, value) && secrets[i..][1..] == secrets[i + 1..];
        SecretWritesStep(s, lib, publicKey, keyId, secrets[i..], respond);
        if sealed.None? {
          return Threw;
        }
        var reply := remote.Send(Put(Secret(Show(username), Show(repoName), name), Auth(Current()),
                                     map["encrypted_value" := Str(sealed.value), "key_id" := Str(keyId)]));
        if reply.Fault? {
          return Threw;
        }
        i := i + 1;
      }
      assert secrets[i..] == [];
      out := Returned(());
    }

    /** `set_secrets`: one key fetch, then one sealed PUT per secret; a write's
        status only chooses the message printed. */
    method SetSecrets(remote: Remote, lib: Libraries) returns (out: Outcome<bool>)
      modifies remote
      ensures var t := Protocol.SetSecrets(Current(), lib, remote.respond);
              out == t.out && remote.log == old(remote.log) + t.sent
    {
      var secrets := SecretsOf(Current());
      var key := remote.Send(KeyRequest(Current()));
      if key.Fault? {
        return Threw;
      }
      if key.status != 200 {
        return Returned(false);
      }
      if "key" !in key.fields || "key_id" !in key.fields {
        return Threw;
      }
      var publicKey := key.fields["key"];
      var keyId := key.fields["key_id"];
      if !lib.naclInstalled {
        return Threw;
      }
      var written := WriteSecrets(remote, lib, publicKey, keyId, secrets);
      if written.Threw? {
        return Threw;
      }
      out := Returned(true);
    }

    /** `run`: the four guards in order, returning at the first that fails;
        then upload and set secrets, and report completion whatever they returned. */
    method Run(remote: Remote, disk: Disk, lib: Libraries) returns (result: RunResult)
      modifies this, remote
      ensures var r := RunSetup(disk, lib, remote.respond);
              result == r.result && remote.log == old(remote.log) + r.sent
      ensures Absent(RequiredFiles(), disk.files.Keys) != [] || ParseConfig(disk.setupLines).None? ==>
                Current() == old(Current())
      ensures Absent(RequiredFiles(), disk.files.Keys) == [] && ParseConfig(disk.setupLines).Some? ==>
                var c := ParseConfig(disk.setupLines).value;
                var login := TokenLogin(remote.respond(UserRequest(Loaded(c, None))));
                Current() == Loaded(c, if login.Some? then login else old(username))
    {
      ghost var respond, start := remote.respond, remote.log;
      ghost var all := RunSetup(disk, lib, respond);
      var ok, _ := CheckFiles(disk);
      if !ok {
        return Stopped(FilesStep);
      }
      ok := ReadSetupConfig(disk);
      if !ok {
        return Stopped(ConfigStep);
      }
      ghost var c := ParseConfig(disk.setupLines).value;
      assert UserRequest(Current()) == UserRequest(Loaded(c, None));
      ok := VerifyGithubToken(remote);
      if !ok {
        return Stopped(TokenStep);
      }
      ghost var s := Current();
      assert s == RunSettings(disk, respond);
      RunSetupStep(disk, lib, respond);
      ghost var prov := Provision(s, disk, lib, respond);
      AppendAssoc(start, [Exchange(UserRequest(s), respond(UserRequest(s)))], prov.sent);
      assert remote.log + prov.sent == start + all.sent && prov.result == all.result;
      ghost var repo, atRepo := CreateRepo(s, respond), remote.log;
      var created := CreateGithubRepo(remote);
      if created.Threw? {
        return Crashed(RepoStep);
      }
      if !created.value {
        return Stopped(RepoStep);
      }
      ghost var pub := Publish(s, disk, lib, respond);
      assert prov == RunTrace(pub.result, repo.sent + pub.sent);
      AppendAssoc(atRepo, repo.sent, pub.sent);
      assert remote.log + pub.sent == start + all.sent;
      ghost var up, atUpload := UploadEach(s, disk, lib, RequiredFiles(), respond), remote.log;
      var uploaded := UploadAllFiles(remote, disk, lib);
      if uploaded.Threw? {
        return Crashed(UploadStep);
      }
      ghost var sec := Protocol.SetSecrets(s, lib, respond);
      assert pub == RunTrace(if sec.out.Threw? then Crashed(SecretsStep) else Finished, up.sent + sec.sent);
      AppendAssoc(atUpload, up.sent, sec.sent);
      assert remote.log + sec.sent == start + all.sent;
      var provisioned := SetSecrets(remote, lib);
      if provisioned.Threw? {
        return Crashed(SecretsStep);
      }
      result := Finished;
    }
  }
}
