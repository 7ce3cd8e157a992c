/**
 * The shapes of src/types.ts that the exporter reads and produces.
 */
module Types {
  import opened Wrappers

  /**
   * One element of a hymn's array. In a MongoDB export it is an extended-JSON
   * wrapper object (MongoDatum) with an optional `$numberInt` and an optional
   * `$numberDouble`, both strings; in the raw Hymnal Browser export it is a
   * plain number (only integers are modelled).
   */
  datatype Datum =
    | Obj(numberInt: Option<string>, numberDouble: Option<string>)
    | Num(value: int)

  /** HymnData: the normalised record, four string fields. */
  datatype HymnData = HymnData(id: string, queries: string, launches: string, lastAccessed: string)

  /**
   * One property of the input object (MongoHymnData or HymnDataRaw): the hymn
   * id and its array. The whole object is a sequence of these in the order
   * Object.keys enumerates them.
   */
  type Entry = (string, seq<Datum>)
}
