/** Where an application's files live and the check that its compose file
    is there. */
module Manifest {
  import opened GoText
  import opened GoErrors
  import opened Environment

  /** The fixed name of the compose file inside the repository. */
  const ComposeFileName: GoString := "docker-compose.yml"

  /** The error returned when the compose file is missing. */
  const NoDockerComposeError: GoError :=
    GoError("repo does not contain a docker compose file")

  /** `fmt.Sprintf("tmp/%s", applicationName)` */
  function GitDirectory(name: GoString): (dir: GoString)
    ensures |dir| == |name| + 4
    ensures dir[..4] == "tmp/"
    ensures dir[4..] == name
  {
    "tmp/" + name
  }

  /** `fmt.Sprintf("%s/docker-compose.yml", gitDirectory)` */
  function ManifestPath(dir: GoString): (path: GoString)
    ensures |path| == |dir| + 1 + |ComposeFileName|
    ensures path[..|dir|] == dir
    ensures path[|dir|..] == "/" + ComposeFileName
  {
    dir + "/" + ComposeFileName
  }

  /** Distinct applications get distinct local directories. */
  lemma GitDirectoryInjective(a: GoString, b: GoString)
    requires GitDirectory(a) == GitDirectory(b)
    ensures a == b
  {
    assert a == GitDirectory(a)[4..];
  }

  /** Only a stat result of "does not exist" reports the file missing, and
      then always as `NoDockerComposeError`; any other stat outcome passes. */
  function DoesDockerComposeFileExist(path: GoString, w: World): (e: ErrorValue)
    ensures e == Nil <==> !w.statNotExist(path)
    ensures e != Nil ==> e == NonNil(NoDockerComposeError)
  {
    if w.statNotExist(path) then NonNil(NoDockerComposeError) else Nil
  }
}
