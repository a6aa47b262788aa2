# GitHub 24/7 YouTube auto-streamer setup, modelled in Dafny

`streamer.py` is a one-shot provisioning script. Its class `GitHubAutoSetup`
does six things in order:

1. checks that the three files it will publish exist locally;
2. reads six settings from `setup_github.txt`;
3. checks the GitHub token against `GET /user`;
4. reuses or creates the repository;
5. uploads the three files through the contents API;
6. stores four repository secrets, sealed under the repository's public key.

This project models that class and proves what each step does and how `run`
chains the steps.

## How the model is built

- **Values** (`protocol.dfy`, `run.dfy`). Every step is a pure function of:
  - the object's settings;
  - the local disk: the files that exist with their content, and the lines
    of the setup file;
  - the foreign libraries;
  - the remote's replies.

  A step yields its `Trace`: the value it returned (or `Threw` when it
  raised) and the HTTP calls it issued, in order.
- **The class** (`setup.dfy`). `Setup.GitHubAutoSetup` holds the seven
  mutable fields. It has one method for each modelled method of the source,
  plus two helper methods: `OpenAndUpload` (the `with open` block inside
  `upload_all_files`) and `WriteSecrets` (the loop inside `set_secrets`).
  `print_banner` has no counterpart. The methods are written the way the
  source works:
  - `check_files` is a loop that appends to `missing`;
  - the `data` dict gets its `sha` key added in place;
  - the secret loop issues one PUT per secret;
  - `run` returns early at each guard.

  Each method is proved equal to its step function. It ends with the same
  outcome, the remote's log grows by exactly that step's calls, and the
  fields change as the source changes them.
- **The remote** (`http.dfy`). `Http.Remote` is fixed by an oracle from
  request to reply and keeps a ghost log of every exchange. A reply is a
  status with the string fields of its JSON body. `Fault` stands for an
  exception raised by `requests`.
- **The libraries.** base64, the NaCl import, public-key decoding and
  sealed-box encryption are uninterpreted functions in `Protocol.Libraries`.
- **The secrets on the remote.** The ghost function
  `Protocol.SecretSlots` gives the secret slots the remote holds after a
  sequence of calls.
- **Python strings** (`text.dfy`). The module covers `str.strip()` (the
  characters of `str.isspace()`) and the comprehension that filters the lines
  of the setup file.
- **A first run** (`scenario.dfy`). A remote with neither the repository nor
  its files shows a complete run: 14 calls that end in "SETUP COMPLETE".

Behaviour that follows the code as written:

- **Repository creation.** Any probe status other than 200 leads to a POST,
  not only 404 (streamer.py:127-138).
- **Setup file.** The file needs at least six non-blank lines, and lines after
  the sixth are ignored.
- **Token check.** A token reply of 200 without `login` raises `KeyError`
  inside the `try`, so the token is rejected.
- **File upload.** A probe reply of 200 without `sha` raises out of
  `upload_file`. That exception reaches `run`, which ends with an exception.
  The same holds for a missing file in `upload_all_files` and for any
  exception raised by `requests` outside `verify_github_token`.
- **Secret writes.** A rejected secret write does not stop the loop, and
  `set_secrets` still returns True.
- **Public key.** A key fetch that is not 200 makes `set_secrets` return
  False. `run` ignores that result and still prints "SETUP COMPLETE".
- **NaCl import.** `set_secrets` imports NaCl after the key fetch. When NaCl
  is missing, the fetch has already been made when `set_secrets` raises.

## Model

| member | source | states |
|---|---|---|
| PyText.Strip | streamer.py:74 | the result has no whitespace at either end, is empty exactly when the line is all whitespace, and is no longer than the line |
| PyText.StripRemovesOnlyOuterSpace | streamer.py:74 | for whitespace `p`, `q` and a stripped `t`, `(p + t + q).strip()` is `t`: strip removes the outer whitespace and nothing else |
| PyText.StripOfStripped | streamer.py:74 | a line with no whitespace at either end is left unchanged |
| PyText.StripIdempotent | streamer.py:74 | stripping a stripped line changes nothing |
| PyText.ConfigLines | streamer.py:74 | the filtered list is no longer than the file |
| PyText.ConfigLinesAreClean | streamer.py:74 | every kept line is non-empty and has no whitespace left at either end |
| PyText.ConfigLinesAppend | streamer.py:74 | the filter keeps order: the lines of `a + b` are the lines of `a` followed by those of `b` |
| PyText.ConfigLinesOfOne | streamer.py:74 | a whitespace-only line contributes nothing; any other line contributes exactly its stripped form |
| PyText.ConfigLinesOfClean | streamer.py:74 | lines that are already stripped and non-blank pass through the filter unchanged |
| Protocol.Absent | streamer.py:48-62 | `missing` is at most as long as the list of required files |
| Protocol.AbsentMembers | streamer.py:55-62 | a file is in `missing` iff it is required and does not exist, so `missing` is empty iff every required file exists |
| Protocol.AbsentAppend | streamer.py:55-58 | the missing files of a concatenation are those of each part in list order, so the loop examines every file without an early exit |
| Protocol.ParseConfig | streamer.py:72-88 | a configuration is loaded iff the file can be read and has at least six non-blank lines; each of the six loaded values is then non-empty and has no outer whitespace |
| Protocol.ParseConfigIgnoresExtraLines | streamer.py:76-85 | lines after the sixth non-blank one do not change what is loaded |
| Protocol.ParseConfigIgnoresBlankLines | streamer.py:74-76 | a whitespace-only line anywhere in the file does not change what is loaded or the count |
| Protocol.TokenLogin | streamer.py:103-114 | a token is accepted iff the reply is 200 and carries `login`, and the accepted login is that field; an exception or any other status rejects it |
| Protocol.CreateRepo | streamer.py:116-145 | one GET probe of the repository; a 200 reuses it with no POST; any other status issues exactly one POST with the name, `private` False, the description and `auto_init` True, and succeeds iff it answers 201; an exception from either call propagates |
| Protocol.WriteBody | streamer.py:163-170 | the body always has message "Upload <path>", the encoded content and branch `main`; it has `sha` iff a non-empty marker was found, and then `sha` is that marker |
| Protocol.UploadFile | streamer.py:147-173 | one GET probe of the path, then (unless the probe raised) one PUT of the write body built from the probe; the result is True iff the PUT answers 200 or 201 |
| Protocol.UploadSendsMarkerIffFound | streamer.py:158-170 | the PUT carries `sha` iff the probe answered 200 with a truthy `sha`, and then carries exactly that value |
| Protocol.OpenAndUpload | streamer.py:179-188 | a `with open` block makes no call iff the file cannot be opened, at most two calls, and exactly two (the probe and the write) when it does not raise |
| Protocol.UploadEach | streamer.py:175-190 | the upload phase makes at most two calls per file, and exactly two per file when it completes |
| Protocol.OpenAndUploadCalls | streamer.py:179-188 | each `with open` block calls only the contents endpoint of its own path, each call carrying the remote's reply, as a GET probe or a PUT write |
| Protocol.UploadEachCalls | streamer.py:175-190 | the upload phase calls only the contents endpoints of the required files, as GET probes or PUT writes, each carrying the remote's reply |
| Protocol.UploadEachIgnoresResults | streamer.py:175-190 | the upload phase completes iff no file is missing and no upload raises; the True/False result of each upload is ignored |
| Protocol.SecretsOf | streamer.py:195-200 | four secrets under four distinct names |
| Protocol.Encrypt | streamer.py:221-225 | sealing succeeds iff the public key decodes and the value is not None, and then yields the sealed value |
| Protocol.SecretWrites | streamer.py:228-240 | no more writes than secrets, and one write per secret when the loop ends normally |
| Protocol.SecretWritesCalls | streamer.py:228-235 | write k is the PUT of secret k with its value sealed under the fetched key and the fetched `key_id`, and carries the remote's reply |
| Protocol.SecretWritesStops | streamer.py:228-240 | only the last reply can be an exception; the loop stops early only when a value cannot be sealed or a write raises, so a rejected status never stops it |
| Protocol.SetSecrets | streamer.py:192-242 | the key is fetched first and once; an exception there propagates; a non-200 returns False after that one call and writes nothing; returning False happens exactly then; a True result means one call per secret after the fetch |
| Protocol.SetSecretsTrueUnlessRaised | streamer.py:207-242 | `set_secrets` returns True whenever the key reply is a 200 with `key` and `key_id`, NaCl is installed, the key decodes, all four values are set and no secret PUT raises, whatever statuses the writes get |
| Protocol.SetSecretsCalls | streamer.py:207-240 | every call after the key fetch is a secret PUT, and each call carries the remote's reply |
| Protocol.SecretsWrittenOncePerName | streamer.py:195-242 | when `set_secrets` returns True, the four secrets are written once each in dictionary order from the four settings, each body holding the sealed value and the same `key_id`, whatever the statuses of the writes |
| Protocol.SlotUntouched | streamer.py:232-235 | calls that write no secret to a slot leave that slot as it was |
| Protocol.LastAcceptedWriteIsStored | streamer.py:232-240 | an accepted secret write that no later call overwrites is what its slot holds |
| Protocol.AcceptedSecretsAreStored | streamer.py:228-242 | after a `set_secrets` that returned True, each secret whose write answered 201 or 204 holds its sealed value, whatever happened to the other writes |
| Orchestrator.Publish | streamer.py:249-250 | after the repository step, the run either finishes or raises in the upload or the secret step; no result of those steps stops it |
| Orchestrator.Provision | streamer.py:248-250 | the steps after the token check begin with the repository probe and can end only at the repository, upload or secret step |
| Orchestrator.RunSetup | streamer.py:244-253 | `run` stops at the file check iff a file is missing, and at the configuration iff the files are there and the setup file cannot be loaded; no call is made iff it stops at one of these two; the first call is GET /user with the loaded token; it stops at the token check iff that reply is rejected, and then after that one call; only the repository step can stop it after that |
| Orchestrator.PublishSteps | streamer.py:249-252 | after the repository step the run crashes at the upload step iff an upload raised, crashes at the secret step iff the uploads completed and `set_secrets` raised, and finishes otherwise, whatever the steps returned; its calls are the upload calls followed by the secret calls |
| Orchestrator.ProvisionRepoGuard | streamer.py:248-250 | the steps after the token check stop at the repository step iff `create_github_repo` returned False and crash there iff it raised, with no later call in either case; on True they continue with `Publish` |
| Orchestrator.RunRepoGuard | streamer.py:244-250 | a run whose token was accepted stops at the repository step iff `create_github_repo` returned False and crashes there iff it raised, having made only the token call and the repository calls; on True it ends as `Publish` ends, after the upload and secret calls |
| Orchestrator.RunAnswered | streamer.py:244-253 | every exchange of a run carries the remote's reply to its request |
| Orchestrator.RunMutatesOnlyAfterAuth | streamer.py:244-250 | every POST or PUT of a run comes after a GET /user that accepted the token |
| Orchestrator.PublishFetchesKeyOnce | streamer.py:249-250 | the upload and secret phases fetch the key exactly once unless an upload raised, and after every file call |
| Orchestrator.ProvisionFetchesKeyOnce | streamer.py:248-250 | after the token check, the key is fetched exactly once when the run finishes or raises in the secret step, never otherwise, and after every file call |
| Orchestrator.RunFetchesKeyAtMostOnce | streamer.py:244-253 | a run fetches the public key at most once, exactly when it reaches the secret step, and after every file call |
| Orchestrator.RunCompletesDespiteRejectedKey | streamer.py:211-213 | when the key fetch is rejected, `set_secrets` returns False, but `run` still reaches "SETUP COMPLETE" and no secret is written |
| Scenario.FreshRepoCreated | streamer.py:124-142 | against a remote without the repository, the repository step issues the creating POST and succeeds |
| Scenario.FreshFileUploaded | streamer.py:158-173 | uploading a new file makes one probe and one PUT without `sha` |
| Scenario.FreshFilesUploaded | streamer.py:175-190 | uploading three new files makes six calls, none of whose PUTs carries `sha` |
| Scenario.FreshSecretsWritten | streamer.py:207-242 | with a served key and NaCl available, the secret step makes five calls and returns True |
| Scenario.FreshRunCompletes | streamer.py:244-253 | a first run finishes after 14 calls: token, probe, POST, six file calls, one key fetch and four secret writes, and no file write carries `sha` |
| Setup.GitHubAutoSetup.constructor | streamer.py:30-36 | every setting starts as None |
| Setup.GitHubAutoSetup.CheckFiles | streamer.py:44-67 | the loop collects exactly `Absent` of the required files, in list order; the result is True iff none is missing, iff every required file exists |
| Setup.GitHubAutoSetup.ReadSetupConfig | streamer.py:69-92 | on success the first six non-blank stripped lines go to the six fields in order; an unreadable file or fewer lines return False and change no field |
| Setup.GitHubAutoSetup.VerifyGithubToken | streamer.py:94-114 | one GET /user with the token; True iff `TokenLogin` accepts the reply, and then `username` is the login; otherwise nothing else changes |
| Setup.GitHubAutoSetup.CreateGithubRepo | streamer.py:116-145 | same outcome and the same calls as `Protocol.CreateRepo` |
| Setup.GitHubAutoSetup.UploadFile | streamer.py:147-173 | same outcome and the same calls as `Protocol.UploadFile`; the body gets `sha` added in place |
| Setup.GitHubAutoSetup.OpenAndUpload | streamer.py:179-180 | opening a missing file raises before any call; otherwise it is `upload_file` on the content |
| Setup.GitHubAutoSetup.UploadAllFiles | streamer.py:175-190 | the three blocks in order, with the same outcome and calls as `Protocol.UploadEach` |
| Setup.GitHubAutoSetup.WriteSecrets | streamer.py:228-240 | the loop issues the same calls and ends the same way as `Protocol.SecretWrites` |
| Setup.GitHubAutoSetup.SetSecrets | streamer.py:192-242 | same outcome and the same calls as `Protocol.SetSecrets` |
| Setup.GitHubAutoSetup.Run | streamer.py:244-253 | same end and the same calls as `Orchestrator.RunSetup`; a run stopped by the first two guards changes no field; past them the six settings are the loaded ones and `username` is the accepted login, or its old value when the token was rejected |

## Left out

- HTTP transport: URLs are structured `Http.Resource` values, and their string formatting is not modelled. Headers other than `Authorization` are not modelled, nor is the `Accept` header. `.json()` is reduced to a map of the string fields the code reads. Response bodies that are not objects are not modelled, for example the list the contents API returns for a directory.
- Exceptions are collapsed into `Threw`. Their types and messages are not kept.
- NaCl sealed-box encryption and base64 are uninterpreted functions. The randomness of sealing is one fixed draw per value.
- Protocol.SecretsWrittenOncePerName: the source's promise that the plaintext never leaves the machine is stated as "each body holds only the output of `seal` and the `key_id`". Because `seal` is uninterpreted, the model cannot exclude a `seal` that returns its input.
- The state of the remote is an oracle fixed for the run. The GitHub server's own behaviour, and therefore what a second run against the state left by the first would do, is not modelled. Secret slots are the only remote state the model derives, from the accepted writes.
- `time.sleep(2)`, `print_banner`, every progress message, `base_dir` (which nothing reads), the module-level `NACL_AVAILABLE` flag (which nothing reads) and `main` have no effect on what is modelled. They are left out.
- File reading is reduced to a map from path to content plus the `readlines()` result of the setup file. Encodings, and files that exist but cannot be decoded, are not modelled.
- File existence and readability are one notion: `Disk.files` holds the paths that both exist and can be opened. A required path that passes `check_files` but cannot be opened in `upload_all_files` is not modelled. Examples are a directory, a file without read permission, or a file removed between the two steps. From `Orchestrator.RunSetup`, the raising branch of `Protocol.OpenAndUpload` is therefore never reached.
