/**
  The invocation of the external `restic` program: where the repository is,
  how the base command is set up, and the argument lists of the four
  operations. Spawning the process is not modelled; its outcome is an input.
 */
module Restic {
  import opened Wrappers

  const ResticCommand := "restic"
  const ResticPasswordEnv := "RESTIC_PASSWORD"
  const ResticRepoFlag := "-r"

  /** The credentials-free part of a Backblaze B2 repository location. */
  datatype B2Config = B2Config(bucketName: string, repoPath: string)

  /** Where the repository lives. */
  datatype ResticStorageConfig = Local(path: string) | B2(b2: B2Config)

  /** `B2Config::create_path_string`: "b2:", the bucket, ":", the path inside it. */
  function B2PathString(c: B2Config): (r: string)
    ensures |r| == 4 + |c.bucketName| + |c.repoPath|
    ensures r[..3] == "b2:" && r[3 + |c.bucketName|] == ':'
    ensures r[3..3 + |c.bucketName|] == c.bucketName && r[4 + |c.bucketName|..] == c.repoPath
  {
    "b2:" + c.bucketName + ":" + c.repoPath
  }

  /** `ResticStorageConfig::create_path_string`: the repository locator handed to `-r`. */
  function CreatePathString(c: ResticStorageConfig): (r: string)
    ensures c.Local? ==> r == c.path
    ensures c.B2? ==> r == B2PathString(c.b2)
  {
    match c
    case Local(path) => path
    case B2(b2) => B2PathString(b2)
  }

  /** Index of the first ':' in `s`, or |s| when there is none. */
  function FirstColon(s: string): (n: nat)
    ensures n <= |s|
    ensures forall i | 0 <= i < n :: s[i] != ':'
    ensures n < |s| ==> s[n] == ':'
  {
    if s == [] || s[0] == ':' then 0 else 1 + FirstColon(s[1..])
  }

  /**
    A B2 locator determines its configuration when the bucket name has no colon:
    the bucket is what lies between "b2:" and the next ':'.
   */
  lemma {:induction false} B2LocatorDeterminesConfig(a: B2Config, b: B2Config)
    requires ':' !in a.bucketName && ':' !in b.bucketName
    requires B2PathString(a) == B2PathString(b)
    ensures a == b
  {
    var s := B2PathString(a);
    var rest := s[3..];
    ColonAfterBucket(a);
    ColonAfterBucket(b);
    assert |a.bucketName| == FirstColon(rest) == |b.bucketName|;
  }

  lemma ColonAfterBucket(c: B2Config)
    requires ':' !in c.bucketName
    ensures FirstColon(B2PathString(c)[3..]) == |c.bucketName|
  {
    var rest := B2PathString(c)[3..];
    assert rest[..|c.bucketName|] == c.bucketName;
    assert rest[|c.bucketName|] == ':';
  }

  /** The process builder (`std::process::Command`): program, environment overrides, arguments. */
  class Command {
    const program: string
    var envs: map<string, string>
    var args: seq<string>

    constructor (program: string)
      ensures this.program == program && envs == map[] && args == []
    {
      this.program := program;
      envs := map[];
      args := [];
    }

    /** `Command::arg`: append one argument. */
    method Arg(arg: string)
      modifies this
      ensures args == old(args) + [arg] && envs == old(envs)
    {
      args := args + [arg];
    }

    /** `Command::env`: set one environment variable for the child. */
    method Env(key: string, val: string)
      modifies this
      ensures envs == old(envs)[key := val] && args == old(args)
    {
      envs := envs[key := val];
    }
  }

  /** How running the built command went: it could not be spawned, or it exited. */
  datatype ProcessOutcome = SpawnFailed | Exited(success: bool)

  /** The crate's errors: a message chained onto a spawn failure, or the repository-not-found kind. */
  datatype Error = Chained(msg: string) | ResticRepoNotFound

  /** The target `restic_backup` reads: folder paths and exclusion texts, no tags. */
  datatype BackupTarget = BackupTarget(folders: seq<string>, exclusions: seq<string>)

  /** `--exclude e` for each exclusion `e`, in order. */
  function ExcludeFlags(exclusions: seq<string>): seq<string> {
    if exclusions == [] then []
    else ExcludeFlags(exclusions[..|exclusions| - 1]) + ["--exclude", exclusions[|exclusions| - 1]]
  }

  /** Every exclusion takes two arguments: the flag, then the exclusion itself. */
  lemma {:induction false} ExcludeFlagsAt(exclusions: seq<string>)
    ensures |ExcludeFlags(exclusions)| == 2 * |exclusions|
    ensures forall j | 0 <= j < |exclusions| ::
      ExcludeFlags(exclusions)[2 * j] == "--exclude" && ExcludeFlags(exclusions)[2 * j + 1] == exclusions[j]
  {
    if exclusions != [] {
      var init := exclusions[..|exclusions| - 1];
      ExcludeFlagsAt(init);
      forall j | 0 <= j < |init| ensures exclusions[j] == init[j] {}
    }
  }

  datatype ResticConfig = ResticConfig(repoPassword: string, repoPath: ResticStorageConfig) {

    /** The arguments every invocation starts with: the repository flag and locator. */
    function BaseArgs(): seq<string> {
      [ResticRepoFlag, CreatePathString(repoPath)]
    }

    /** The full argument list of `restic_backup`. */
    function BackupArgs(target: BackupTarget): seq<string> {
      BaseArgs() + ["--json", "backup"] + target.folders + ExcludeFlags(target.exclusions)
    }

    /**
      Where everything sits in the backup arguments: four leading arguments, one
      per folder in order, then two per exclusion in order.
     */
    lemma BackupArgsLayout(target: BackupTarget)
      ensures |BackupArgs(target)| == 4 + |target.folders| + 2 * |target.exclusions|
      ensures BackupArgs(target)[..4] == [ResticRepoFlag, CreatePathString(repoPath), "--json", "backup"]
      ensures forall i | 0 <= i < |target.folders| :: BackupArgs(target)[4 + i] == target.folders[i]
      ensures forall j | 0 <= j < |target.exclusions| ::
        && BackupArgs(target)[4 + |target.folders| + 2 * j] == "--exclude"
        && BackupArgs(target)[4 + |target.folders| + 2 * j + 1] == target.exclusions[j]
    {
      ExcludeFlagsAt(target.exclusions);
      var args := BackupArgs(target);
      var nf := |target.folders|;
      forall j | 0 <= j < |target.exclusions|
        ensures args[4 + nf + 2 * j] == "--exclude" && args[4 + nf + 2 * j + 1] == target.exclusions[j]
      {
        assert args[4 + nf + 2 * j] == ExcludeFlags(target.exclusions)[2 * j];
        assert args[4 + nf + 2 * j + 1] == ExcludeFlags(target.exclusions)[2 * j + 1];
      }
    }

    /** `cmd_setup`: run `restic` with the password in its environment and `-r locator`. */
    method CmdSetup() returns (cmd: Command)
      ensures fresh(cmd) && cmd.program == ResticCommand
      ensures cmd.envs == map[ResticPasswordEnv := repoPassword]
      ensures cmd.args == [ResticRepoFlag, CreatePathString(repoPath)]
    {
      cmd := new Command(ResticCommand);
      cmd.Env(ResticPasswordEnv, repoPassword);
      cmd.Arg(ResticRepoFlag);
      cmd.Arg(CreatePathString(repoPath));
    }

    /** `check_restic_repo`: `check` after the base; reports whether restic exited successfully. */
    method CheckResticRepo(outcome: ProcessOutcome) returns (cmd: Command, r: Result<bool, Error>)
      ensures fresh(cmd) && cmd.program == ResticCommand && cmd.envs == map[ResticPasswordEnv := repoPassword]
      ensures cmd.args == BaseArgs() + ["check"]
      ensures outcome.SpawnFailed? ==> r == Err(Chained("Unable to spawn restic"))
      ensures outcome.Exited? ==> r == Ok(outcome.success)
    {
      cmd := CmdSetup();
      cmd.Arg("check");
      match outcome
      case SpawnFailed => r := Err(Chained("Unable to spawn restic"));
      case Exited(success) => r := Ok(success);
    }

    /** `create_restic_repo`: `init` after the base; succeeds exactly when restic exits successfully. */
    method CreateResticRepo(outcome: ProcessOutcome) returns (cmd: Command, r: Result<(), Error>)
      ensures fresh(cmd) && cmd.program == ResticCommand && cmd.envs == map[ResticPasswordEnv := repoPassword]
      ensures cmd.args == BaseArgs() + ["init"]
      ensures r.Ok? <==> outcome == Exited(true)
      ensures outcome == Exited(false) ==> r == Err(ResticRepoNotFound)
      ensures outcome.SpawnFailed? ==> r == Err(Chained("Unable to spawn restic"))
    {
      cmd := CmdSetup();
      cmd.Arg("init");
      match outcome
      case SpawnFailed => r := Err(Chained("Unable to spawn restic"));
      case Exited(success) =>
        if success {
          r := Ok(());
        } else {
          r := Err(ResticRepoNotFound);
        }
    }

    /** `get_restic_snapshots`: `--json snapshots` after the base; the output is dropped. */
    method GetResticSnapshots(outcome: ProcessOutcome) returns (cmd: Command, r: Result<seq<string>, Error>)
      ensures fresh(cmd) && cmd.program == ResticCommand && cmd.envs == map[ResticPasswordEnv := repoPassword]
      ensures cmd.args == BaseArgs() + ["--json", "snapshots"]
      ensures outcome.SpawnFailed? ==> r == Err(Chained("Failed to list snapshots"))
      ensures outcome.Exited? ==> r == Ok([])
    {
      cmd := CmdSetup();
      cmd.Arg("--json");
      cmd.Arg("snapshots");
      if outcome.SpawnFailed? {
        r := Err(Chained("Failed to list snapshots"));
      } else {
        r := Ok([]);
      }
    }

    /**
      `restic_backup`: `--json backup`, every folder, then `--exclude e` per
      exclusion; the output is dropped.
     */
    method ResticBackup(target: BackupTarget, outcome: ProcessOutcome) returns (cmd: Command, r: Result<(), Error>)
      ensures fresh(cmd) && cmd.program == ResticCommand && cmd.envs == map[ResticPasswordEnv := repoPassword]
      ensures cmd.args == BackupArgs(target)
      ensures r.Ok? <==> outcome.Exited?
      ensures r.Err? ==> r.error == Chained("Failed to backup")
    {
      cmd := CmdSetup();
      cmd.Arg("--json");
      cmd.Arg("backup");
      var head := cmd.args;
      for i := 0 to |target.folders|
        invariant cmd.args == head + target.folders[..i]
        invariant cmd.program == ResticCommand && cmd.envs == map[ResticPasswordEnv := repoPassword]
      {
        cmd.Arg(target.folders[i]);
      }
      assert target.folders[..|target.folders|] == target.folders;
      var withFolders := cmd.args;
      for j := 0 to |target.exclusions|
        invariant cmd.args == withFolders + ExcludeFlags(target.exclusions[..j])
        invariant cmd.program == ResticCommand && cmd.envs == map[ResticPasswordEnv := repoPassword]
      {
        cmd.Arg("--exclude");
        cmd.Arg(target.exclusions[j]);
        assert target.exclusions[..j + 1][..j] == target.exclusions[..j];
      }
      assert target.exclusions[..|target.exclusions|] == target.exclusions;
      if outcome.SpawnFailed? {
        r := Err(Chained("Failed to backup"));
      } else {
        r := Ok(());
      }
    }
  }
}
