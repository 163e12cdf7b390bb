/**
 * The plugins' configuration: the `Settings/setting[@name=...]/value` nodes
 * of the unsecure configuration, already parsed into a map from setting name
 * to value text.
 */
module Settings {

  type Configuration = map<string, string>

  /** `GetConfigDataString`: the value of a setting, or the empty string when there is no such setting. */
  function Setting(configuration: Configuration, key: string): (r: string)
    ensures key in configuration ==> r == configuration[key]
    ensures key !in configuration ==> r == ""
    ensures r != "" ==> key in configuration
  {
    if key in configuration then configuration[key] else ""
  }

  /** The attribute the plugins write: the `output` setting, or the `input` one when `output` is empty or missing. */
  function OutputAttribute(configuration: Configuration): (r: string)
    ensures Setting(configuration, "output") == "" ==> r == Setting(configuration, "input")
    ensures Setting(configuration, "output") != "" ==> r == configuration["output"]
    ensures Setting(configuration, "input") != "" ==> r != ""
    ensures r != "" ==> "output" in configuration || "input" in configuration
  {
    var output := Setting(configuration, "output");
    if output == "" then Setting(configuration, "input") else output
  }
}
