/**
  The in-memory database: a map from keys to values that each operation reads
  or changes in one atomic step.  The clock arrives as an argument.
 */
module InMemory {
  import opened Wrappers
  import opened Codec

  datatype Value = Value(key: string, data: Bytes, modified: int)

  type Db = map<string, Value>

  /** `order` is one way of walking over the keys of `db` that start with `prefix`. */
  ghost predicate Enumerates(order: seq<string>, db: Db, prefix: string) {
    && Distinct(order)
    && (forall k :: k in order <==> k in db && prefix <= k)
  }

  function ValuesAt(db: Db, order: seq<string>): seq<Value>
    requires forall k :: k in order ==> k in db
  {
    seq(|order|, i requires 0 <= i < |order| => db[order[i]])
  }

  datatype DbError = AlreadyPresent | Absent

  class InMemoryDb {
    var db: Db

    constructor ()
      ensures db == map[]
    {
      db := map[];
    }

    /** The values whose keys start with `prefix`, in the order in which the map was walked. */
    method List(prefix: string) returns (res: seq<Value>, ghost order: seq<string>)
      ensures forall v :: v in res <==> exists k :: k in db && prefix <= k && db[k] == v
      ensures Enumerates(order, db, prefix)
      ensures res == ValuesAt(db, order)
    {
      res, order := [], [];
      var left := db.Keys;
      while left != {}
        invariant left <= db.Keys
        invariant Distinct(order)
        invariant forall k :: k in order <==> k in db && k !in left && prefix <= k
        invariant res == ValuesAt(db, order)
        decreases |left|
      {
        var k :| k in left;
        left := left - {k};
        if prefix <= k {
          res, order := res + [db[k]], order + [k];
        }
      }
      assert forall i :: 0 <= i < |order| ==> res[i] == db[order[i]] && order[i] in order && res[i] in res;
    }

    method Get(key: string) returns (res: Option<Value>)
      ensures res == if key in db then Some(db[key]) else None
    {
      if key in db {
        res := Some(db[key]);
      } else {
        res := None;
      }
    }

    method Put(key: string, data: Bytes, now: int)
      modifies this
      ensures db == old(db)[key := Value(key, data, now)]
    {
      db := db[key := Value(key, data, now)];
    }

    /** Creates an absent entry; a present one is left as it was. */
    method Create(key: string, data: Bytes, now: int) returns (err: Option<DbError>)
      modifies this
      ensures err == if key in old(db) then Some(AlreadyPresent) else None
      ensures db == if key in old(db) then old(db) else old(db)[key := Value(key, data, now)]
    {
      if key in db {
        return Some(AlreadyPresent);
      }
      db := db[key := Value(key, data, now)];
      err := None;
    }

    /** Overwrites a present entry, whatever the revision is; an absent one stays absent. */
    method Update(key: string, revision: int, data: Bytes, now: int) returns (err: Option<DbError>)
      modifies this
      ensures err == if key in old(db) then None else Some(Absent)
      ensures db == if key in old(db) then old(db)[key := Value(key, data, now)] else old(db)
    {
      if key !in db {
        return Some(Absent);
      }
      db := db[key := Value(key, data, now)];
      err := None;
    }

    /** Removes a present entry, whatever the revision is. */
    method Delete(key: string, revision: int) returns (err: Option<DbError>)
      modifies this
      ensures err == if key in old(db) then None else Some(Absent)
      ensures db == old(db) - {key}
    {
      if key !in db {
        return Some(Absent);
      }
      db := db - {key};
      err := None;
    }
  }
}
