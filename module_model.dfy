/**
 * The values CtrlModule works with: the tree-module record, the response
 * envelopes it writes, and the pure decisions it makes before touching the
 * store (field validation, the node-token mapping, the level-1 query template).
 */
module ModuleModel {
  import opened Wrappers
  import opened JavaLong

  /** Record identifiers are caller-supplied and opaque. */
  type Id = string

  /** A tree-module record; every field may be null in a bound request. */
  datatype ModelModule = ModelModule(
    id: Option<Id>,
    name: Option<string>,
    orderNo: Option<int>,
    parentId: Option<Long>,
    level: Option<int>)

  datatype Status = SUCCESS | FAILURE | ERROR

  /** The fixed human-readable messages of the controller, one per literal. */
  datatype Reason =
    | IdRequired        // id must not be null
    | NameLength        // name must be 1-100 characters long
    | OrderNoRequired   // orderNo must not be null
    | ParentIdRequired  // parentId must not be null
    | IdExists          // a record with this id already exists
    | Added | AddFailed
    | Updated | UpdateFailed
    | Deleted | DeleteFailed
    | LookupError       // the fixed text getById reports on a fault

  /** The text in a message's `msg` field. */
  datatype Text =
    | Said(reason: Reason)
    /** The message of the NumberFormatException that parsing `token` raises. */
    | NumberFormat(token: Option<string>)
    /** The message of an exception thrown by the store. */
    | Thrown(detail: string)

  /** The single-object envelope `{status, msg, data}` (Message and FormMessage). */
  datatype Message = Message(status: Status, msg: Option<Text>, data: Option<ModelModule>)

  /** What a handler writes: one envelope, or the list envelope `{records, total}`. */
  datatype Response =
    | Single(message: Message)
    | JsonStore(records: seq<ModelModule>, total: int)

  /** A listing condition; only its entity template is part of this model. */
  datatype Condition = Condition(t: Option<ModelModule>)

  /**
   * `String.length()`: Java counts UTF-16 code units, so a character beyond
   * the Basic Multilingual Plane counts twice.
   */
  function Utf16Length(s: string): (n: nat)
    ensures |s| <= n <= 2 * |s|
    ensures (forall i :: 0 <= i < |s| ==> s[i] as int < 0x1_0000) ==> n == |s|
  {
    if s == [] then 0
    else (if s[0] as int < 0x1_0000 then 1 else 2) + Utf16Length(s[1..])
  }

  /** `CheckUtils.validLength(min, max, s)`: non-null and min <= length <= max. */
  predicate ValidLength(min: nat, max: nat, s: Option<string>) {
    s.Some? && min <= Utf16Length(s.value) <= max
  }

  /** The four field rules, in the order the controller applies them. */
  predicate ValidFields(m: ModelModule) {
    m.id.Some? && ValidLength(1, 100, m.name) && m.orderNo.Some? && m.parentId.Some?
  }

  /**
   * `valid(module)`: the first rule that fails decides the FAILURE reason;
   * when none fails the status is SUCCESS and the message is null.
   */
  function Validate(m: ModelModule): (r: Message)
    ensures r.status != ERROR && r.data == None
    ensures r.status == SUCCESS <==> ValidFields(m)
    ensures r.status == SUCCESS <==> r.msg == None
    ensures m.id.None? ==> r.msg == Some(Said(IdRequired))
    ensures m.id.Some? && !ValidLength(1, 100, m.name) ==> r.msg == Some(Said(NameLength))
    ensures m.id.Some? && ValidLength(1, 100, m.name) && m.orderNo.None? ==>
              r.msg == Some(Said(OrderNoRequired))
    ensures m.id.Some? && ValidLength(1, 100, m.name) && m.orderNo.Some? && m.parentId.None? ==>
              r.msg == Some(Said(ParentIdRequired))
  {
    if m.id.None? then Message(FAILURE, Some(Said(IdRequired)), None)
    else if !ValidLength(1, 100, m.name) then Message(FAILURE, Some(Said(NameLength)), None)
    else if m.orderNo.None? then Message(FAILURE, Some(Said(OrderNoRequired)), None)
    else if m.parentId.None? then Message(FAILURE, Some(Said(ParentIdRequired)), None)
    else Message(SUCCESS, None, None)
  }

  /**
   * The parent id a get-children token selects: "root" is the top level 0;
   * any other token (a missing one included) goes through `Long.valueOf`,
   * and `None` means it threw.
   */
  function NodeParent(node: Option<string>): (p: Option<Long>)
    ensures node == Some("root") ==> p == Some(0)
    ensures node.None? ==> p.None?
    ensures node.Some? && node.value != "root" ==> p == ParseLong(node.value)
  {
    if node == Some("root") then Some(0)
    else if node.None? then None
    else ParseLong(node.value)
  }

  /** Every `long`, written in decimal, is a token that selects that parent id. */
  lemma NodeParentOfNumeral(v: Long)
    ensures NodeParent(Some(FormatLong(v))) == Some(v)
  {
    ParseFormatLong(v);
    var s := FormatLong(v);
    if v >= 0 {
      NatDigitsValue(v);
      assert IsDigit(s[0]);
    }
    assert s[0] != 'r';
  }

  /**
   * `getModule`: the request's module becomes the listing template with its
   * level forced to 1; everything else in it is kept.
   */
  function PinnedCondition(m: ModelModule, condition: Condition): (c: Condition)
    ensures c.t.Some? && c.t.value.level == Some(1)
    ensures c.t.value.id == m.id && c.t.value.name == m.name
    ensures c.t.value.orderNo == m.orderNo && c.t.value.parentId == m.parentId
    ensures Validate(c.t.value) == Validate(m)
  {
    condition.(t := Some(m.(level := Some(1))))
  }
}
