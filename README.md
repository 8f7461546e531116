# Tree-module admin controller, modelled in Dafny

This project models the request-decision layer of `CtrlModule`, the admin
controller for the tree-structured "module" records of the system-manage
permissions/menu subsystem. It covers:

- the field validator `valid`;
- the node-token mapping of the get-children endpoint, where `"root"` is parent id 0 and any other token goes through `Long.valueOf`;
- the level-1 query template built by `getModule`;
- the handlers `getById`, `add`, `update` and `delete`, each deciding between SUCCESS, FAILURE and ERROR over one record table.

Files and modules:

- `wrappers.dfy` (`Wrappers`): `Option`, standing for Java's nullable values.
- `java_long.dfy` (`JavaLong`): the 64-bit `long` range, `Long.valueOf` in radix 10 (`ParseLong`), and `Long.toString` (`FormatLong`). Parsing `Long.toString(v)` gives `v` back. The converse does not hold: `ParseLong` also accepts forms that `FormatLong` never produces, such as "+5", "07" and "-0".
- `module_model.dfy` (`ModuleModel`):
  - the record `ModelModule`, whose five fields are all nullable;
  - `Status`, and the `Message` envelope `{status, msg, data}`;
  - the list envelope `{records, total}`;
  - `Validate`, `NodeParent` and `PinnedCondition`.
- `serv_module.dfy` (`ServModule`): the module service the controller calls. It is a class over `map<Id, ModelModule>`. `Find` returns the record stored under an id, or null. `FindByParentId` returns a listing of children. The mutators `Add`, `Update` and `Delete` report affected-row counts.
- `ctrl_module.dfy` (`Controller`): the class `CtrlModule` with the handlers. It also has a client method `Session` that walks the create / duplicate create / rename / list root / delete / look up sequence, using only the handlers' contracts.

Modelling decisions:

- The message literals in the source survive only as runs of `?`. Each literal is the enum value `Reason` that its position gives it. For example, the id-check message is `IdRequired`, and add's success message is `Added`.
- An ERROR message can carry three kinds of text, modelled as follows:
  - an exception's text becomes `Thrown(detail)`;
  - a failed token parse becomes `NumberFormat(token)`;
  - the fixed text that `getById` writes on a fault is `Said(LookupError)`.
- The service interface `IServModule` is not part of this model. Its behaviour here is an assumption:
  - `find` is a map lookup.
  - `findByParentId(p)` lists every record whose parentId is `p`, each record once, in unspecified order.
  - `add` reports 0 rows and stores nothing when the record has no id or its id is already stored. For a new id, the service either inserts the record and reports 1 row, or declines the insert, reporting 0 rows and storing nothing. The model does not fix which, so both of add's row-count outcomes can occur.
  - `update` replaces the record stored under the same id and reports 1 row. When no record has that id, it reports 0 rows.
  - `delete` removes the record stored under the same id and reports 1 row. When no record has that id, it reports 0 rows.
  - The field `fault` stands for an unreachable store. When it is set, every call throws that message and changes nothing.
- `CheckUtils.validLength(1, 100, name)` is not part of this model either. It is taken to mean "non-null, and 1 <= `name.length()` <= 100". Java's `length()` counts UTF-16 code units, so `Utf16Length` counts a character outside the Basic Multilingual Plane as two.
- `getModule` changes its arguments in place. It is modelled as the condition those changes produce, because that condition is all that reaches the listing call.
- The handlers build their response in a local object and then write it. Each handler returns the value that would be written.

## Model

| member | source | states |
|---|---|---|
| ModuleModel.Validate | server/back-framework/huhuo-system-manage/src/main/java/com/eray/systemmanage/security/module/CtrlModule.java:172-188 | SUCCESS exactly when id is non-null, name has length 1-100, orderNo is non-null and parentId is non-null; the message is null exactly on SUCCESS. Otherwise the status is FAILURE, and the first failing rule in the order id, name, orderNo, parentId gives the reason. Never ERROR; no data |
| ModuleModel.Utf16Length | server/back-framework/huhuo-system-manage/src/main/java/com/eray/systemmanage/security/module/CtrlModule.java:177 | the length `validLength` measures lies between the character count and twice it. It equals the character count when no character lies beyond U+FFFF |
| ModuleModel.NodeParent | server/back-framework/huhuo-system-manage/src/main/java/com/eray/systemmanage/security/module/CtrlModule.java:53-58 | token `"root"` gives parent id 0; a missing token fails; any other token gives exactly what `Long.valueOf` gives |
| ModuleModel.NodeParentOfNumeral | server/back-framework/huhuo-system-manage/src/main/java/com/eray/systemmanage/security/module/CtrlModule.java:53-58 | every `long` written in decimal is a token that selects that parent id; such a token is never mistaken for `"root"` |
| JavaLong.ParseLong | server/back-framework/huhuo-system-manage/src/main/java/com/eray/systemmanage/security/module/CtrlModule.java:57 | a parsed value fits in a `long`; only a string that starts with a sign or a digit parses; a leading '-' gives a value <= 0, anything else a value >= 0 |
| JavaLong.ParseFormatLong | server/back-framework/huhuo-system-manage/src/main/java/com/eray/systemmanage/security/module/CtrlModule.java:57 | parsing the decimal form of any `long` gives it back (round trip with `FormatLong`) |
| ModuleModel.PinnedCondition | server/back-framework/huhuo-system-manage/src/main/java/com/eray/systemmanage/security/module/CtrlModule.java:72-73 | the listing template is the request's module with level forced to 1, and id, name, orderNo and parentId kept. The template passes validation exactly as the request's module does |
| ServModule.ModuleService.Find | server/back-framework/huhuo-system-manage/src/main/java/com/eray/systemmanage/security/module/CtrlModule.java:86 | on a working store, the record stored under the id, or null when there is none; a found record carries that id. A fault reply carries the store's error message |
| ServModule.ModuleService.FindByParentId | server/back-framework/huhuo-system-manage/src/main/java/com/eray/systemmanage/security/module/CtrlModule.java:59 | on a working store, lists exactly the records whose parent is `p`, each once; a fault reply carries the store's error message |
| ServModule.ModuleService.Add | server/back-framework/huhuo-system-manage/src/main/java/com/eray/systemmanage/security/module/CtrlModule.java:116 | reports 0 or 1 rows on a working store. One row means the module, which has a new id, is now stored under that id. 0 rows means nothing changed, which is always the case for a missing or already stored id. A fault changes nothing |
| ServModule.ModuleService.Update | server/back-framework/huhuo-system-manage/src/main/java/com/eray/systemmanage/security/module/CtrlModule.java:138 | replaces the record and reports one row exactly when its id is stored; otherwise changes nothing and reports 0 rows |
| ServModule.ModuleService.Delete | server/back-framework/huhuo-system-manage/src/main/java/com/eray/systemmanage/security/module/CtrlModule.java:158 | removes the record and reports one row exactly when its id is stored; otherwise changes nothing and reports 0 rows |
| ServModule.ChildListingCount | server/back-framework/huhuo-system-manage/src/main/java/com/eray/systemmanage/security/module/CtrlModule.java:59-61 | a child listing has exactly as many entries as the node has children in the table |
| Controller.CtrlModule.Get | server/back-framework/huhuo-system-manage/src/main/java/com/eray/systemmanage/security/module/CtrlModule.java:49-66 | a token that does not parse, or a store fault, gives an ERROR message and no records. Otherwise the response lists exactly the children of the selected parent, with `total` equal both to the number of records returned and to the number of children in the table |
| Controller.CtrlModule.GetById | server/back-framework/huhuo-system-manage/src/main/java/com/eray/systemmanage/security/module/CtrlModule.java:81-98 | SUCCESS with the stored record as data exactly when the id is stored; FAILURE with no data exactly when it is not; ERROR with the fixed lookup message on a fault |
| Controller.CtrlModule.Add | server/back-framework/huhuo-system-manage/src/main/java/com/eray/systemmanage/security/module/CtrlModule.java:106-130 | an invalid module gets the validator's FAILURE unchanged and leaves the store untouched. For a valid module: a fault gives ERROR with the exception's text; an id already stored gives FAILURE "id exists" with the store unchanged. Otherwise the insert's affected rows decide: SUCCESS exactly when the module was stored under its id, and FAILURE with the add-failed message, store unchanged, otherwise |
| Controller.CtrlModule.Update | server/back-framework/huhuo-system-manage/src/main/java/com/eray/systemmanage/security/module/CtrlModule.java:132-151 | an invalid module gets the validator's FAILURE unchanged, with the store untouched. With no existence pre-check, the update's affected rows decide the outcome: SUCCESS and the record replaced when its id is stored, FAILURE and nothing changed otherwise. A fault gives ERROR |
| Controller.CtrlModule.Delete | server/back-framework/huhuo-system-manage/src/main/java/com/eray/systemmanage/security/module/CtrlModule.java:154-169 | no validation. SUCCESS and the record removed exactly when its id is stored; FAILURE and nothing changed otherwise, which includes a null id. A fault gives ERROR |

## Left out

- The view-name handlers `index`, `platform`, `module` and `menu` are left out. They only join a base path and a page name for routing.
- The condition listing `get(Condition, OutputStream)` is left out. It forwards to `findByCondition` and `countByCondition`, which are not part of this model. Only the template that `getModule` hands to it is modelled.
- All of `BaseCtrl` is left out. That covers request and response stream loops, JSON serialisation with a date format, gzip compression and the byte "encryption". These are I/O and foreign library calls.
- `IBaseDao` is left out. It is an SQL interface with no logic.
- Logging is left out, and so are Spring routing and injection.
- The check-then-insert race between concurrent `add` calls is left out. Each handler is one sequential step, so two calls cannot interleave.
- Store exceptions are modelled only as the store-wide `fault`. It is fixed for the whole call, so a fault cannot start between two store calls of one handler.
- Controller.CtrlModule.Add: the branch that reports ERROR when the insert throws after a successful `find` is kept as written, but the model cannot reach it. The fixed `fault` would already have made the `find` throw.
- ServModule.ModuleService.Add: a duplicate or null key is reported as 0 rows, not as a constraint-violation exception. Why a real insert of a new id would report 0 rows is not modelled. The real service is not part of this model.
- ServModule.ModuleService.Delete: deletion is modelled as removal from the visible table. Whether the real service soft-deletes records and goes on returning them is not part of this model.
- ServModule.ModuleService.Update: update replaces the whole record. An update that writes only the non-null fields is not part of this model.
- JavaLong.ParseLong: only ASCII digits are accepted. Java's `Character.digit` also accepts other Unicode decimal digits.
- Controller.CtrlModule.Get: the exact wording of the NumberFormatException message is left out, because it differs between JDK versions. The message is modelled as the token that failed.
- Exceptions other than store faults and the token parse are left out, for example an I/O error while writing the response.
