/** The entities of pkg/module/module.go. */
module GoMod {

  /** One `require` directive. */
  datatype Require = Require(path: string, version: string, indirect: bool)

  /** One side of a `replace` directive; the version may be empty. */
  datatype ReplaceItem = ReplaceItem(path: string, version: string)

  /** One `replace` directive: the module replaced and its replacement. */
  datatype Replace = Replace(original: ReplaceItem, replacement: ReplaceItem)

  /** One `exclude` directive. */
  datatype Exclude = Exclude(path: string, version: string)

  /** One `retract` directive: either a single version or a range
      [versionLow, versionHigh], with an optional rationale. */
  datatype Retract = Retract(version: string, versionLow: string, versionHigh: string, rationale: string)

  /** The contents of a Module at one moment. */
  datatype ModuleData = ModuleData(
    name: string,
    goVersion: string,
    requirements: seq<Require>,
    replacements: seq<Replace>,
    exclusions: seq<Exclude>,
    retractions: seq<Retract>)

  /** The module ParseFromReader starts from: empty name, version and lists. */
  const EmptyModule := ModuleData("", "", [], [], [], [])

  /** The parsed go.mod file, which the handlers fill in place. */
  class Module {
    var name: string
    var goVersion: string
    var requirements: seq<Require>
    var replacements: seq<Replace>
    var exclusions: seq<Exclude>
    var retractions: seq<Retract>

    function Data(): ModuleData
      reads this
    {
      ModuleData(name, goVersion, requirements, replacements, exclusions, retractions)
    }

    constructor ()
      ensures Data() == EmptyModule
    {
      name, goVersion := "", "";
      requirements, replacements, exclusions, retractions := [], [], [], [];
    }
  }
}
