/**
 * The module service CtrlModule calls (IServModule). Its implementation is
 * not part of this model; it is modelled as one table of records keyed by id,
 * with SQL-like affected-row counts, and an optional fault that stands for a
 * store that throws on every call.
 */
module ServModule {
  import opened Wrappers
  import opened JavaLong
  import opened ModuleModel

  type Table = map<Id, ModelModule>

  /** A store call either returns a value or throws an exception with a message. */
  datatype Reply<+T> = Ok(value: T) | Fault(message: string)

  /** Every stored record carries the id it is stored under. */
  ghost predicate Keyed(t: Table) {
    forall k :: k in t ==> t[k].id == Some(k)
  }

  /** The ids of the records whose parent is `p`. */
  ghost function ChildIds(t: Table, p: Long): (ids: set<Id>) {
    set k | k in t && t[k].parentId == Some(p)
  }

  /**
   * `s` lists exactly the children of `p` in `t`, each once, in some order.
   */
  ghost predicate ChildListing(t: Table, p: Long, s: seq<ModelModule>) {
    && (forall i :: 0 <= i < |s| ==>
          s[i].id.Some? && s[i].id.value in ChildIds(t, p) && t[s[i].id.value] == s[i])
    && (forall i, j :: 0 <= i < j < |s| ==> s[i].id != s[j].id)
    && (forall k :: k in ChildIds(t, p) ==> t[k] in s)
  }

  /** The set of ids a listing mentions. */
  ghost function IdsOf(s: seq<ModelModule>): (ids: set<Id>) {
    set i | 0 <= i < |s| && s[i].id.Some? :: s[i].id.value
  }

  lemma {:induction false} IdsOfDistinct(s: seq<ModelModule>)
    requires forall i :: 0 <= i < |s| ==> s[i].id.Some?
    requires forall i, j :: 0 <= i < j < |s| ==> s[i].id != s[j].id
    ensures |IdsOf(s)| == |s|
  {
    if s != [] {
      var init := s[..|s| - 1];
      IdsOfDistinct(init);
      assert IdsOf(s) == IdsOf(init) + {s[|s| - 1].id.value};
      assert s[|s| - 1].id.value !in IdsOf(init);
    }
  }

  /** A child listing has one entry per child of `p` in the table. */
  lemma ChildListingCount(t: Table, p: Long, s: seq<ModelModule>)
    requires Keyed(t) && ChildListing(t, p, s)
    ensures |s| == |ChildIds(t, p)|
  {
    IdsOfDistinct(s);
    forall k | k in ChildIds(t, p) ensures k in IdsOf(s) {
      var i :| 0 <= i < |s| && s[i] == t[k];
      assert s[i].id == Some(k);
    }
    assert IdsOf(s) == ChildIds(t, p);
  }

  class ModuleService {
    /** The visible records, by id. */
    var records: Table
    /** When set, the store is unreachable and every call throws this message. */
    var fault: Option<string>

    ghost predicate Valid()
      reads this
    {
      Keyed(records)
    }

    constructor ()
      ensures Valid() && records == map[] && fault == None
    {
      records := map[];
      fault := None;
    }

    /** `find(id)`: the record stored under `id`, or null. */
    method Find(id: Id) returns (r: Reply<Option<ModelModule>>)
      requires Valid()
      ensures fault.Some? ==> r == Fault(fault.value)
      ensures fault.None? && id in records ==> r == Ok(Some(records[id]))
      ensures fault.None? && id !in records ==> r == Ok(None)
      ensures r.Ok? && r.value.Some? ==> r.value.value.id == Some(id)
    {
      if fault.Some? {
        return Fault(fault.value);
      }
      if id in records {
        r := Ok(Some(records[id]));
      } else {
        r := Ok(None);
      }
    }

    /** `findByParentId(p)`: every record whose parent is `p`, each once. */
    method FindByParentId(p: Long) returns (r: Reply<seq<ModelModule>>)
      requires Valid()
      ensures fault.Some? ==> r == Fault(fault.value)
      ensures fault.None? ==> r.Ok? && ChildListing(records, p, r.value)
    {
      if fault.Some? {
        return Fault(fault.value);
      }
      var found: seq<ModelModule> := [];
      var remaining := records.Keys;
      while remaining != {}
        invariant remaining <= records.Keys
        invariant forall i :: 0 <= i < |found| ==>
                    found[i].id.Some? && found[i].id.value in ChildIds(records, p) &&
                    found[i].id.value !in remaining && records[found[i].id.value] == found[i]
        invariant forall i, j :: 0 <= i < j < |found| ==> found[i].id != found[j].id
        invariant forall k :: k in ChildIds(records, p) && k !in remaining ==> records[k] in found
        decreases remaining
      {
        var k :| k in remaining;
        if records[k].parentId == Some(p) {
          found := found + [records[k]];
        }
        remaining := remaining - {k};
      }
      r := Ok(found);
    }

    /**
     * `add(m)`: stores nothing and reports 0 rows when `m` has no id or its
     * id is already stored. For a new id the service decides: either it
     * inserts `m` and reports one affected row, or it declines and reports
     * 0 rows with nothing stored.
     */
    method Add(m: ModelModule) returns (r: Reply<int>)
      requires Valid()
      modifies this
      ensures Valid() && fault == old(fault)
      ensures old(fault).Some? ==> r == Fault(old(fault).value) && records == old(records)
      ensures old(fault).None? ==> r.Ok? && 0 <= r.value <= 1
      ensures r.Ok? && r.value > 0 ==>
                m.id.Some? && m.id.value !in old(records) &&
                records == old(records)[m.id.value := m]
      ensures r.Ok? && r.value <= 0 ==> records == old(records)
    {
      if fault.Some? {
        return Fault(fault.value);
      }
      var accepted :| accepted in {false, true};
      if m.id.Some? && m.id.value !in records && accepted {
        records := records[m.id.value := m];
        r := Ok(1);
      } else {
        r := Ok(0);
      }
    }

    /**
     * `update(m)`: replaces the record stored under `m`'s id; 0 rows when
     * there is none (an UPDATE whose WHERE matches nothing).
     */
    method Update(m: ModelModule) returns (r: Reply<int>)
      requires Valid()
      modifies this
      ensures Valid() && fault == old(fault)
      ensures old(fault).Some? ==> r == Fault(old(fault).value) && records == old(records)
      ensures old(fault).None? && m.id.Some? && m.id.value in old(records) ==>
                r == Ok(1) && records == old(records)[m.id.value := m]
      ensures old(fault).None? && !(m.id.Some? && m.id.value in old(records)) ==>
                r == Ok(0) && records == old(records)
    {
      if fault.Some? {
        return Fault(fault.value);
      }
      if m.id.Some? && m.id.value in records {
        records := records[m.id.value := m];
        r := Ok(1);
      } else {
        r := Ok(0);
      }
    }

    /** `delete(m)`: removes the record stored under `m`'s id; 0 rows when there is none. */
    method Delete(m: ModelModule) returns (r: Reply<int>)
      requires Valid()
      modifies this
      ensures Valid() && fault == old(fault)
      ensures old(fault).Some? ==> r == Fault(old(fault).value) && records == old(records)
      ensures old(fault).None? && m.id.Some? && m.id.value in old(records) ==>
                r == Ok(1) && records == old(records) - {m.id.value}
      ensures old(fault).None? && !(m.id.Some? && m.id.value in old(records)) ==>
                r == Ok(0) && records == old(records)
    {
      if fault.Some? {
        return Fault(fault.value);
      }
      if m.id.Some? && m.id.value in records {
        records := records - {m.id.value};
        r := Ok(1);
      } else {
        r := Ok(0);
      }
    }
  }
}
