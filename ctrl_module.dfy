/**
 * The request handlers of the tree-module admin controller. Each handler
 * decides, from the request and the store's replies, between SUCCESS, FAILURE
 * and ERROR; a store exception is caught and reported as ERROR.
 */
module Controller {
  import opened Wrappers
  import opened JavaLong
  import opened ModuleModel
  import opened ServModule

  class CtrlModule {
    const servModule: ModuleService

    constructor (serv: ModuleService)
      ensures servModule == serv
    {
      servModule := serv;
    }

    /**
     * get-children: the children of the node `node` names, with `total` the
     * number of records listed; a token that does not parse, or a store
     * fault, gives an ERROR message and no records.
     */
    method Get(node: Option<string>) returns (resp: Response)
      requires servModule.Valid()
      ensures NodeParent(node).None? ==>
                resp == Single(Message(ERROR, Some(NumberFormat(node)), None))
      ensures NodeParent(node).Some? && servModule.fault.Some? ==>
                resp == Single(Message(ERROR, Some(Thrown(servModule.fault.value)), None))
      ensures NodeParent(node).Some? && servModule.fault.None? ==>
                && resp.JsonStore?
                && ChildListing(servModule.records, NodeParent(node).value, resp.records)
                && resp.total == |resp.records|
                && resp.total == |ChildIds(servModule.records, NodeParent(node).value)|
    {
      var parentId: Long;
      if node == Some("root") {
        parentId := 0;
      } else {
        var parsed := if node.Some? then ParseLong(node.value) else None;
        if parsed.None? {
          return Single(Message(ERROR, Some(NumberFormat(node)), None));
        }
        parentId := parsed.value;
      }
      var found := servModule.FindByParentId(parentId);
      if found.Fault? {
        return Single(Message(ERROR, Some(Thrown(found.message)), None));
      }
      var records := found.value;
      ChildListingCount(servModule.records, parentId, records);
      resp := JsonStore(records, |records|);
    }

    /**
     * getById: SUCCESS with the record as data when it exists, FAILURE with
     * no data when it does not, ERROR with the fixed lookup message on a fault.
     */
    method GetById(id: Id) returns (m: Message)
      requires servModule.Valid()
      ensures servModule.fault.Some? ==> m == Message(ERROR, Some(Said(LookupError)), None)
      ensures servModule.fault.None? ==>
                (m.status == SUCCESS <==> id in servModule.records) &&
                (m.status == FAILURE <==> id !in servModule.records)
      ensures servModule.fault.None? && id in servModule.records ==>
                m == Message(SUCCESS, None, Some(servModule.records[id]))
      ensures servModule.fault.None? && id !in servModule.records ==>
                m == Message(FAILURE, None, None)
    {
      m := Message(FAILURE, None, None);
      var r := servModule.Find(id);
      if r.Fault? {
        m := m.(status := ERROR, msg := Some(Said(LookupError)));
        return;
      }
      m := m.(data := r.value, status := SUCCESS);
      if r.value.None? {
        m := m.(status := FAILURE);
      }
    }

    /**
     * add: an invalid module is answered with `valid`'s FAILURE and nothing
     * is stored; a valid one is checked for an existing id, then inserted,
     * and the affected rows decide SUCCESS (the module is stored) or
     * FAILURE (nothing is stored).
     */
    method Add(m: ModelModule) returns (r: Message)
      requires servModule.Valid()
      modifies servModule
      ensures servModule.Valid() && servModule.fault == old(servModule.fault)
      ensures !ValidFields(m) ==>
                r == Validate(m) && servModule.records == old(servModule.records)
      ensures ValidFields(m) && old(servModule.fault).Some? ==>
                r == Message(ERROR, Some(Thrown(old(servModule.fault).value)), None) &&
                servModule.records == old(servModule.records)
      ensures ValidFields(m) && old(servModule.fault).None? &&
              m.id.value in old(servModule.records) ==>
                r == Message(FAILURE, Some(Said(IdExists)), None) &&
                servModule.records == old(servModule.records)
      ensures ValidFields(m) && old(servModule.fault).None? &&
              m.id.value !in old(servModule.records) ==>
                (r.status == SUCCESS <==> servModule.records != old(servModule.records)) &&
                (r.status == SUCCESS ==>
                   r == Message(SUCCESS, Some(Said(Added)), None) &&
                   servModule.records == old(servModule.records)[m.id.value := m]) &&
                (r.status != SUCCESS ==>
                   r == Message(FAILURE, Some(Said(AddFailed)), None) &&
                   servModule.records == old(servModule.records))
    {
      r := Validate(m);
      if r.status == SUCCESS {
        var existing := servModule.Find(m.id.value);
        if existing.Fault? {
          return Message(ERROR, Some(Thrown(existing.message)), None);
        }
        if existing.value.Some? {
          r := r.(msg := Some(Said(IdExists)), status := FAILURE);
        } else {
          var row := servModule.Add(m);
          match row {
            case Fault(e) =>
              return Message(ERROR, Some(Thrown(e)), None);
            case Ok(n) =>
              if n > 0 {
                r := r.(msg := Some(Said(Added)));
              } else {
                r := r.(msg := Some(Said(AddFailed)), status := FAILURE);
              }
          }
        }
      }
    }

    /**
     * update: the same validation as add, no existence check; the affected
     * rows decide SUCCESS or FAILURE.
     */
    method Update(m: ModelModule) returns (r: Message)
      requires servModule.Valid()
      modifies servModule
      ensures servModule.Valid() && servModule.fault == old(servModule.fault)
      ensures !ValidFields(m) ==>
                r == Validate(m) && servModule.records == old(servModule.records)
      ensures ValidFields(m) && old(servModule.fault).Some? ==>
                r == Message(ERROR, Some(Thrown(old(servModule.fault).value)), None) &&
                servModule.records == old(servModule.records)
      ensures ValidFields(m) && old(servModule.fault).None? &&
              m.id.value in old(servModule.records) ==>
                r == Message(SUCCESS, Some(Said(Updated)), None) &&
                servModule.records == old(servModule.records)[m.id.value := m]
      ensures ValidFields(m) && old(servModule.fault).None? &&
              m.id.value !in old(servModule.records) ==>
                r == Message(FAILURE, Some(Said(UpdateFailed)), None) &&
                servModule.records == old(servModule.records)
    {
      r := Validate(m);
      if r.status == SUCCESS {
        var row := servModule.Update(m);
        if row.Fault? {
          return Message(ERROR, Some(Thrown(row.message)), None);
        }
        if row.value > 0 {
          r := r.(msg := Some(Said(Updated)));
        } else {
          r := r.(msg := Some(Said(UpdateFailed)), status := FAILURE);
        }
      }
    }

    /** delete: no validation; the affected rows decide SUCCESS or FAILURE. */
    method Delete(m: ModelModule) returns (r: Message)
      requires servModule.Valid()
      modifies servModule
      ensures servModule.Valid() && servModule.fault == old(servModule.fault)
      ensures old(servModule.fault).Some? ==>
                r == Message(ERROR, Some(Thrown(old(servModule.fault).value)), None) &&
                servModule.records == old(servModule.records)
      ensures old(servModule.fault).None? && m.id.Some? &&
              m.id.value in old(servModule.records) ==>
                r == Message(SUCCESS, Some(Said(Deleted)), None) &&
                servModule.records == old(servModule.records) - {m.id.value}
      ensures old(servModule.fault).None? &&
              !(m.id.Some? && m.id.value in old(servModule.records)) ==>
                r == Message(FAILURE, Some(Said(DeleteFailed)), None) &&
                servModule.records == old(servModule.records)
    {
      var row := servModule.Delete(m);
      if row.Fault? {
        return Message(ERROR, Some(Thrown(row.message)), None);
      }
      if row.value > 0 {
        r := Message(SUCCESS, Some(Said(Deleted)), None);
      } else {
        r := Message(FAILURE, Some(Said(DeleteFailed)), None);
      }
    }
  }

  /**
   * A client of the handler contracts: create a top-level module, create it
   * again, rename it, list the root, delete it and look it up. Which of the
   * two outcomes the first create has is the service's choice.
   */
  method Session() {
    var serv := new ModuleService();
    var ctrl := new CtrlModule(serv);
    var users := ModelModule(Some("5"), Some("Users"), Some(1), Some(0), None);
    assert Utf16Length("Users") == 5;
    var r := ctrl.Add(users);
    if r.status != SUCCESS {
      // The service declined the insert: nothing was stored.
      assert r == Message(FAILURE, Some(Said(AddFailed)), None) && serv.records == map[];
      return;
    }
    r := ctrl.Add(users);
    assert r == Message(FAILURE, Some(Said(IdExists)), None);
    var renamed := users.(name := Some("Users2"));
    assert Utf16Length("Users2") == 6;
    r := ctrl.Update(renamed);
    assert r.status == SUCCESS;
    r := ctrl.GetById("5");
    assert r == Message(SUCCESS, None, Some(renamed));
    var listing := ctrl.Get(Some("root"));
    assert listing.JsonStore? && listing.records == [renamed] && listing.total == 1 by {
      assert ChildIds(serv.records, 0) == {"5"};
    }
    r := ctrl.Delete(ModelModule(Some("5"), None, None, None, None));
    assert r.status == SUCCESS;
    r := ctrl.GetById("5");
    assert r == Message(FAILURE, None, None);
  }
}
