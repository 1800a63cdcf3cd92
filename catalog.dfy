/**
 * The `tobaccos` table (tobacco.py:28-38) as a map from the UNIQUE `name`
 * column to the row.  The bot only reads it by exact name (tobacco.py:101-103),
 * lists its names (tobacco.py:82-83) and deletes by name (tobacco.py:116-117);
 * rows are created outside this program.
 */
module Catalog {
  import opened Optional

  /** One row; the FLOAT columns are nullable and carried as opaque values. */
  datatype Record = Record(
    id: nat,
    name: string,
    taste: Option<real>,
    molasses: Option<real>,
    smokeTime: Option<real>,
    heatResistance: Option<real>,
    comment: Option<string>)

  type Table = map<string, Record>

  /** Each row is stored under its own name, and `id` (the SERIAL primary key) is unique. */
  ghost predicate WellFormed(t: Table) {
    && (forall n :: n in t ==> t[n].name == n)
    && (forall a, b :: a in t && b in t && a != b ==> t[a].id != t[b].id)
  }

  /** `SELECT * FROM tobaccos WHERE name = %s` followed by `fetchone()`. */
  function Find(t: Table, name: string): (r: Option<Record>)
    requires WellFormed(t)
    ensures r.Some? <==> exists n :: n in t && t[n].name == name
    ensures r.Some? ==> r.value.name == name && r.value in t.Values
  {
    if name in t then Some(t[name]) else None
  }

  /** `DELETE FROM tobaccos WHERE name = %s`: removes the row with that name, if there is one. */
  function Remove(t: Table, name: string): (r: Table)
    ensures r.Keys == t.Keys - {name}
    ensures forall n :: n in r ==> r[n] == t[n]
  {
    t - {name}
  }

  /** Since `name` is unique, at most one row answers an exact-name query. */
  lemma AtMostOneMatch(t: Table, name: string, a: string, b: string)
    requires WellFormed(t)
    requires a in t && b in t && t[a].name == name && t[b].name == name
    ensures a == b && t[a] == t[b]
  {
  }

  lemma RemovePreservesWellFormed(t: Table, name: string)
    requires WellFormed(t)
    ensures WellFormed(Remove(t, name))
  {
  }

  /** After deleting a name, looking it up finds nothing, and every other lookup is unaffected. */
  lemma FindAfterRemove(t: Table, name: string, other: string)
    requires WellFormed(t)
    ensures WellFormed(Remove(t, name))
    ensures Find(Remove(t, name), name) == None
    ensures other != name ==> Find(Remove(t, name), other) == Find(t, other)
  {
  }

  /** Deleting an absent name changes nothing; so deleting twice is the same as deleting once. */
  lemma RemoveAbsentIsIdentity(t: Table, name: string)
    ensures name !in t ==> Remove(t, name) == t
    ensures Remove(Remove(t, name), name) == Remove(t, name)
  {
    assert name !in Remove(t, name);
  }

  /** The table as the bot's database connection sees it. */
  class Store {
    var rows: Table

    ghost predicate Valid()
      reads this
    {
      WellFormed(rows)
    }

    constructor (initial: Table)
      requires WellFormed(initial)
      ensures Valid() && rows == initial
    {
      rows := initial;
    }

    /** `SELECT name FROM tobaccos`: every stored name; the order does not matter to the model. */
    function Names(): (names: set<string>)
      reads this
      requires Valid()
      ensures forall n :: n in names <==> Find(rows, n).Some?
    {
      rows.Keys
    }

    /** The exact lookup of `show_tobacco`; reading leaves the table as it is. */
    method Lookup(name: string) returns (r: Option<Record>)
      requires Valid()
      ensures r.Some? <==> name in Names()
      ensures r.Some? ==> r.value.name == name && r.value == rows[name]
    {
      if name in rows {
        r := Some(rows[name]);
      } else {
        r := None;
      }
    }

    /** The delete of `delete_tobacco`, committed at once. */
    method Delete(name: string)
      requires Valid()
      modifies this
      ensures Valid()
      ensures rows == Remove(old(rows), name)
      ensures name !in rows
      ensures forall n :: n != name ==> (n in rows <==> n in old(rows))
      ensures forall n :: n in rows ==> rows[n] == old(rows)[n]
    {
      rows := rows - {name};
    }
  }
}
