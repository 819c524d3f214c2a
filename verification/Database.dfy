/** The embedded store as an object: rows updated in place and iterators in key order. */
module Database {
  import opened Octets
  import opened Store

  /** Where a forward iterator stands after a seek, or after a step beyond `from`. */
  predicate Beyond(from: Bytes, strict: bool, key: Bytes) {
    if strict then Less(from, key) else AtMost(from, key)
  }

  ghost predicate FirstBeyond(rows: Rows, now: nat, from: Bytes, strict: bool, found: Option<Bytes>) {
    match found
    case None => forall k :: Sees(rows, now, k) ==> !Beyond(from, strict, k)
    case Some(key) =>
      && Sees(rows, now, key) && Beyond(from, strict, key)
      && forall k :: Sees(rows, now, k) && Beyond(from, strict, k) ==> AtMost(key, k)
  }

  /** Where a reverse iterator stands after a seek. */
  ghost predicate LastUpTo(rows: Rows, now: nat, from: Bytes, found: Option<Bytes>) {
    match found
    case None => forall k :: Sees(rows, now, k) ==> !AtMost(k, from)
    case Some(key) =>
      && Sees(rows, now, key) && AtMost(key, from)
      && forall k :: Sees(rows, now, k) && AtMost(k, from) ==> AtMost(k, key)
  }

  lemma AtMostTransitive(a: Bytes, b: Bytes, c: Bytes)
    requires AtMost(a, b) && AtMost(b, c)
    ensures AtMost(a, c)
  {
    if a != b && b != c { LessTransitive(a, b, c); }
  }

  class Database {
    var rows: Rows

    constructor ()
      ensures rows == map[]
    {
      rows := map[];
    }

    method SetEntry(key: Bytes, row: Row)
      modifies this
      ensures rows == old(rows)[key := row]
    {
      rows := rows[key := row];
    }

    method Delete(key: Bytes)
      modifies this
      ensures rows == old(rows) - {key}
    {
      rows := rows - {key};
    }

    method Seek(now: nat, from: Bytes, strict: bool) returns (found: Option<Bytes>)
      ensures FirstBeyond(rows, now, from, strict, found)
    {
      found := None;
      var rest := rows.Keys;
      ghost var seen: set<Bytes> := {};
      while rest != {}
        invariant rest + seen == rows.Keys
        invariant found.None? ==> forall k :: k in seen && Sees(rows, now, k) ==> !Beyond(from, strict, k)
        invariant found.Some? ==>
          && Sees(rows, now, found.value) && Beyond(from, strict, found.value)
          && forall k :: k in seen && Sees(rows, now, k) && Beyond(from, strict, k) ==> AtMost(found.value, k)
        decreases rest
      {
        var key :| key in rest;
        if Sees(rows, now, key) && Beyond(from, strict, key) {
          if found.None? {
            found := Some(key);
          } else {
            LessTotal(found.value, key);
            if Less(key, found.value) {
              forall k | k in seen && Sees(rows, now, k) && Beyond(from, strict, k) ensures AtMost(key, k) {
                AtMostTransitive(key, found.value, k);
              }
              found := Some(key);
            }
          }
        }
        rest, seen := rest - {key}, seen + {key};
      }
    }

    method SeekReverse(now: nat, from: Bytes) returns (found: Option<Bytes>)
      ensures LastUpTo(rows, now, from, found)
    {
      found := None;
      var rest := rows.Keys;
      ghost var seen: set<Bytes> := {};
      while rest != {}
        invariant rest + seen == rows.Keys
        invariant found.None? ==> forall k :: k in seen && Sees(rows, now, k) ==> !AtMost(k, from)
        invariant found.Some? ==>
          && Sees(rows, now, found.value) && AtMost(found.value, from)
          && forall k :: k in seen && Sees(rows, now, k) && AtMost(k, from) ==> AtMost(k, found.value)
        decreases rest
      {
        var key :| key in rest;
        if Sees(rows, now, key) && AtMost(key, from) {
          if found.None? {
            found := Some(key);
          } else {
            LessTotal(found.value, key);
            if Less(found.value, key) {
              forall k | k in seen && Sees(rows, now, k) && AtMost(k, from) ensures AtMost(k, key) {
                AtMostTransitive(k, found.value, key);
              }
              found := Some(key);
            }
          }
        }
        rest, seen := rest - {key}, seen + {key};
      }
    }
  }
}
