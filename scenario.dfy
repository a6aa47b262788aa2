// A first run against an account that has no repository of that name yet:
// the token is accepted, the repository and every file are new, a public key
// is served and every write is accepted.
module Scenario {
  import opened Options
  import opened Http
  import opened Protocol
  import opened Orchestrator

  /** The remote of a first run: it knows the token, has neither the
      repository nor any of its files, serves a public key, and accepts every
      POST and PUT. */
  function FreshRemote(request: Request): Reply {
    match request
    case Get(User, _) => Reply(200, map["login" := "octo"])
    case Get(SecretsKey(_, _), _) => Reply(200, map["key" := "pk", "key_id" := "kid"])
    case Get(_, _) => Reply(404, map[])
    case Post(_, _, _) => Reply(201, map[])
    case Put(_, _, _) => Reply(201, map[])
  }

  lemma FreshRepoCreated(s: Settings)
    ensures var t := CreateRepo(s, FreshRemote);
            && t.out == Returned(true) && |t.sent| == 2
            && t.sent[1].request == Post(UserRepos, Auth(s), NewRepoBody(s.repoName))
  {
  }

  lemma FreshFileUploaded(s: Settings, disk: Disk, lib: Libraries, path: string)
    requires path in disk.files
    ensures var t := OpenAndUpload(s, disk, lib, path, FreshRemote);
            && t.out == Returned(true) && |t.sent| == 2
            && t.sent[1].request.Put? && "sha" !in t.sent[1].request.json
  {
    var t := UploadFile(s, lib, path, disk.files[path], FreshRemote);
    assert t.sent[0].reply == Reply(404, map[]);
  }

  lemma FreshFilesUploaded(s: Settings, disk: Disk, lib: Libraries)
    requires forall f :: f in RequiredFiles() ==> f in disk.files
    ensures var t := UploadEach(s, disk, lib, RequiredFiles(), FreshRemote);
            && t.out == Returned(()) && |t.sent| == 6
            && forall k :: 0 <= k < 6 && t.sent[k].request.Put? ==> "sha" !in t.sent[k].request.json
  {
    var paths := RequiredFiles();
    var one := OpenAndUpload(s, disk, lib, paths[0], FreshRemote);
    var two := OpenAndUpload(s, disk, lib, paths[1], FreshRemote);
    var three := OpenAndUpload(s, disk, lib, paths[2], FreshRemote);
    FreshFileUploaded(s, disk, lib, paths[0]);
    FreshFileUploaded(s, disk, lib, paths[1]);
    FreshFileUploaded(s, disk, lib, paths[2]);
    UploadEachStep(s, disk, lib, paths, FreshRemote);
    UploadEachStep(s, disk, lib, paths[1..], FreshRemote);
    assert paths[1..][1..] == paths[2..];
    UploadEachStep(s, disk, lib, paths[2..], FreshRemote);
    assert paths[2..][1..] == [];
    var t := UploadEach(s, disk, lib, paths, FreshRemote);
    assert t.sent == one.sent + (two.sent + (three.sent + []));
    forall k | 0 <= k < 6 && t.sent[k].request.Put? ensures "sha" !in t.sent[k].request.json {
      if k < 2 {
        assert t.sent[k] == one.sent[k];
        assert k == 1;
      } else if k < 4 {
        assert t.sent[k] == two.sent[k - 2];
        assert k == 3;
      } else {
        assert t.sent[k] == three.sent[k - 4];
        assert k == 5;
      }
    }
  }

  lemma FreshSecretsWritten(s: Settings, lib: Libraries)
    requires lib.naclInstalled && lib.keyDecodes("pk")
    requires s.streamKey.Some? && s.videoUrl.Some? && s.quality.Some? && s.aspectRatio.Some?
    ensures var t := SetSecrets(s, lib, FreshRemote);
            t.out == Returned(true) && |t.sent| == 5
  {
    var secrets := SecretsOf(s);
    var w := SecretWrites(s, lib, "pk", "kid", secrets, FreshRemote);
    SecretWritesCalls(s, lib, "pk", "kid", secrets, FreshRemote);
    SecretWritesStops(s, lib, "pk", "kid", secrets, FreshRemote);
    assert forall k :: 0 <= k < |w.sent| ==> w.sent[k].reply == Reply(201, map[]);
    assert forall k :: 0 <= k < |secrets| ==> secrets[k].1.Some?;
    assert !w.out.Threw?;
  }

  /** A first run creates the repository, uploads the three files without a
      revision marker, fetches the key once, writes the four secrets and
      reaches "SETUP COMPLETE": 1 + 2 + 3 * 2 + 1 + 4 calls. */
  lemma FreshRunCompletes(disk: Disk, lib: Libraries)
    requires forall f :: f in RequiredFiles() ==> f in disk.files
    requires ParseConfig(disk.setupLines).Some?
    requires lib.naclInstalled && lib.keyDecodes("pk")
    ensures var r := RunSetup(disk, lib, FreshRemote);
            && r.result == Finished
            && |r.sent| == 14
            && KeyFetches(r.sent) == 1
            && r.sent[2].request.Post?
            && forall k :: 3 <= k < 9 && r.sent[k].request.Put? ==> "sha" !in r.sent[k].request.json
  {
    AbsentMembers(RequiredFiles(), disk.files.Keys);
    var c := ParseConfig(disk.setupLines).value;
    var s := RunSettings(disk, FreshRemote);
    assert UserRequest(Loaded(c, None)).resource == User;
    RunSetupStep(disk, lib, FreshRemote);
    var repo := CreateRepo(s, FreshRemote);
    FreshRepoCreated(s);
    var up := UploadEach(s, disk, lib, RequiredFiles(), FreshRemote);
    FreshFilesUploaded(s, disk, lib);
    var sec := SetSecrets(s, lib, FreshRemote);
    FreshSecretsWritten(s, lib);
    RunFetchesKeyAtMostOnce(disk, lib, FreshRemote);
    var r := RunSetup(disk, lib, FreshRemote);
    assert r.sent == [r.sent[0]] + (repo.sent + (up.sent + sec.sent));
    assert forall k :: 3 <= k < 9 ==> r.sent[k] == up.sent[k - 3];
  }
}
