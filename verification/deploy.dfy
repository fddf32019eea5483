/** The `docker-compose` invocation that brings an application up with the
    new version as `TAG`. */
module Deploy {
  import opened GoText
  import opened Environment

  const ComposeProgram: GoString := "docker-compose"
  const TagVariable: GoString := "TAG"

  /** The command run for the compose file at `manifest` and version `v`.
      `cmd.Env` starts out nil and only the tag is appended, so the
      subprocess sees exactly one environment variable. */
  function DeployCommand(manifest: GoString, v: GoString): (c: Command)
    ensures c.program == ComposeProgram
    ensures |c.env| == 1
    ensures Getenv(c.env, TagVariable) == Some(v)
    ensures FileFlag(c.args) == Some(manifest)
    ensures Detached(c.args)
  {
    Command(ComposeProgram, ["-f", manifest, "up", "-d"], [TagVariable + "=" + v])
  }

  datatype Option<T> = None | Some(value: T)

  /** How a process reads variable `key` from its environment: the value of
      the first entry written `key=value`. */
  function Getenv(env: seq<GoString>, key: GoString): Option<GoString> {
    if |env| == 0 then None
    else if |key| + 1 <= |env[0]| && env[0][..|key| + 1] == key + "=" then
      Some(env[0][|key| + 1..])
    else Getenv(env[1..], key)
  }

  /** How docker-compose reads its compose file: the argument after the
      leading `-f`. */
  function FileFlag(args: seq<GoString>): Option<GoString> {
    if |args| >= 2 && args[0] == "-f" then Some(args[1]) else None
  }

  /** The arguments ask for `up` in detached mode, after the `-f` option. */
  predicate Detached(args: seq<GoString>) {
    |args| == 4 && args[2] == "up" && args[3] == "-d"
  }

  /** Two deploy commands are equal exactly when they name the same compose
      file and the same version: the command carries both unambiguously. */
  lemma DeployCommandInjective(m1: GoString, v1: GoString, m2: GoString, v2: GoString)
    ensures DeployCommand(m1, v1) == DeployCommand(m2, v2) <==> m1 == m2 && v1 == v2
  {
    if DeployCommand(m1, v1) == DeployCommand(m2, v2) {
      assert FileFlag(DeployCommand(m1, v1).args) == Some(m1);
      assert Getenv(DeployCommand(m1, v1).env, TagVariable) == Some(v1);
    }
  }
}
