/**
 * The single-record plugin, run after a record is retrieved: it interpolates
 * the configured attribute of that record with the engine's logic written out
 * inline, without the engine's presence check on the input attribute.
 */
module Retrieve {
  import opened Text
  import opened Lookup
  import opened Interpolation
  import opened Settings

  /** How `Execute` ends: it returns, or reading the input attribute throws because the record lacks it. */
  datatype Outcome = Returned | KeyNotFound(attribute: string)

  class EntityRetrieve {
    const configuration: Configuration

    constructor (configuration: Configuration)
      ensures this.configuration == configuration
    {
      this.configuration := configuration;
    }

    /**
     * Interpolates the retrieved `entity` against `store`, as configured by the
     * `input`, `output` and `prefix` settings.
     */
    method Execute(entity: Entity, store: Store) returns (outcome: Outcome)
      modifies entity
      ensures Setting(configuration, "input") == "" ==>
        outcome == Returned && entity.attributes == old(entity.attributes)
      ensures var input := Setting(configuration, "input");
        input != "" && input !in old(entity.attributes) ==>
          outcome == KeyNotFound(input) && entity.attributes == old(entity.attributes)
      ensures var input := Setting(configuration, "input");
        input != "" && input in old(entity.attributes) ==>
          outcome == Returned &&
          entity.attributes == Interpolated(old(entity.attributes), input, OutputAttribute(configuration),
                                            Setting(configuration, "prefix"), store)
    {
      var inputAttribute := Setting(configuration, "input");
      var outputAttribute := Setting(configuration, "output");
      var prefix := Setting(configuration, "prefix");
      if inputAttribute == "" {
        return Returned;
      }
      if outputAttribute == "" {
        outputAttribute := inputAttribute;
      }
      if inputAttribute !in entity.attributes {
        return KeyNotFound(inputAttribute);
      }
      var input := entity.attributes[inputAttribute];
      if !StartsWith(input, "$") {
        return Returned;
      }
      input := input[1..];
      input := SubstituteMatches(input, prefix, store);
      entity.attributes := entity.attributes[outputAttribute := input];
      return Returned;
    }
  }
}
