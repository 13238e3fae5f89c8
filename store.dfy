/**
  The key store the hash handlers resolve keys through (`PSTORE`).

  Only what the hash handlers observe is modelled: a map from key to a typed
  object, where an object either is a hash (a field -> value map) or holds
  some other type. Expiration, persistence and the other object types are
  not part of this model.
*/
module Store {

  datatype PObject = Hash(fields: map<string, string>) | OtherType

  class PStore {
    var db: map<string, PObject>

    constructor ()
      ensures db == map[]
    {
      db := map[];
    }
  }
}
