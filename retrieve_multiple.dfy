/**
 * The multi-record plugin, run after a set of records is retrieved: it hands
 * each record of the collection to the engine in turn, except the last one,
 * because its loop stops one index short of the end.
 */
module RetrieveMultiple {
  import opened Lookup
  import opened Interpolation
  import opened Settings

  class EntityRetrieveMultiple {
    const configuration: Configuration

    constructor (configuration: Configuration)
      ensures this.configuration == configuration
    {
      this.configuration := configuration;
    }

    /**
     * Interpolates the records of `entities` against `store`, as configured by
     * the `input`, `output` and `prefix` settings. The collection keeps its
     * records and their order; every record but the last is interpolated on
     * its own, with nothing carried from one record to the next.
     */
    method Execute(entities: array<Entity>, store: Store)
      requires forall i, j :: 0 <= i < j < entities.Length ==> entities[i] != entities[j]
      modifies entities, set i | 0 <= i < entities.Length :: entities[i]
      ensures entities[..] == old(entities[..])
      ensures Setting(configuration, "input") == "" ==>
        forall k :: 0 <= k < entities.Length ==> entities[k].attributes == old(entities[k].attributes)
      ensures Setting(configuration, "input") != "" ==>
        forall k :: 0 <= k < entities.Length - 1 ==>
          entities[k].attributes == Interpolated(old(entities[k].attributes), Setting(configuration, "input"),
                                                 OutputAttribute(configuration), Setting(configuration, "prefix"), store)
      ensures entities.Length > 0 ==>
        entities[entities.Length - 1].attributes == old(entities[entities.Length - 1].attributes)
    {
      var inputAttribute := Setting(configuration, "input");
      var outputAttribute := Setting(configuration, "output");
      var prefix := Setting(configuration, "prefix");
      if inputAttribute == "" {
        return;
      }
      if outputAttribute == "" {
        outputAttribute := inputAttribute;
      }
      var interpolation := new EntityInterpolation(store);
      var i := 0;
      while i < entities.Length - 1
        invariant 0 <= i <= entities.Length
        invariant entities.Length > 0 ==> i <= entities.Length - 1
        invariant entities[..] == old(entities[..])
        invariant forall k :: 0 <= k < i ==>
          entities[k].attributes == Interpolated(old(entities[k].attributes), inputAttribute, outputAttribute, prefix, store)
        invariant forall k :: i <= k < entities.Length ==> entities[k].attributes == old(entities[k].attributes)
      {
        var entity := interpolation.Interpolate(entities[i], inputAttribute, outputAttribute, prefix);
        entities[i] := entity;
        i := i + 1;
      }
    }
  }
}
