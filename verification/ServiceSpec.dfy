/** The contents of the Windows services ConfigMap. */
module ServiceSpec {
  /** Marks the description of every service that the operator manages. */
  const MANAGED_TAG := "OpenShift managed"

  type uint64 = x: int | 0 <= x < 0x1_0000_0000_0000_0000

  datatype NodeCmdArg = NodeCmdArg(name: string, nodeObjectJsonPath: string)

  datatype PowershellPreScript =
    PowershellPreScript(variableName: string, path: string, nodeArgs: seq<NodeCmdArg>)

  datatype Service = Service(
    name: string,
    command: string,
    nodeVariablesInCommand: seq<NodeCmdArg>,
    powershellPreScripts: seq<PowershellPreScript>,
    dependencies: seq<string>,
    bootstrap: bool,
    priority: uint64)

  /** The names of the listed services. */
  function Names(services: seq<Service>): (names: set<string>)
    ensures forall n :: n in names <==> exists s :: s in services && s.name == n
  {
    set s | s in services :: s.name
  }

  ghost predicate DistinctNames(services: seq<Service>) {
    forall i, j :: 0 <= i < j < |services| ==> services[i].name != services[j].name
  }
}
