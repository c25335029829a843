# Inventory management: role permissions, stores and pages in Dafny

This project models the core of an inventory-management web application. The
system has an Express/MongoDB server and a React client. It models the
following parts.

- **The role-permission matrix.** There are seven categories (warehouse, role,
  user, product, checkIn, checkOut and activityLog) with 19 action flags in
  total.
- **The sanitiser.** It turns any partial JSON input into a complete matrix.
- **The permission store.** It has one record per role, with upsert, lookup
  and the current user's records.
- **The authentication middleware and its gates.** `isAdmin` and
  `hasPermission` are the gates.
- **The login and current-user decision chains.**
- **Four keyed stores (users, products, roles, warehouses)** and the rules
  their handlers follow.
- **The client pages built on all of these:**
  - the permission editor;
  - the users, warehouses and roles list pages, with pagination and gated
    controls;
  - the dashboard counters;
  - the product list, with search, selection, bulk check-out and delete;
  - the product form, with two parallel image lists;
  - the user form, with password confirmation.

The modules follow the repository's files:

- `wrappers`, `json` and `text` hold `Option`/`Result`, JSON values with
  JavaScript truthiness and optional chaining, and the string functions
  (`split`, `trim`, `toLowerCase`, `includes`).
- `query` holds Mongo's `findOne` (the first match) and `find` (a filter).
- `crypto` holds idealised bcrypt and JWT.
- Each server controller and client page has a module of its own.

Where the server changes a database in place, the model is a class over a
`seq` of records, with `modifies` clauses. Its methods' postconditions state
the whole new state.

- **`Valid()`** holds the invariants the handlers keep:
  - unique ids;
  - complete permission matrices;
  - the schema's required fields;
  - trimmed warehouse fields.
- **Outcome datatypes** model the error answers of each handler: 400, 404,
  500, and the request that never gets an answer.

The client's handlers are pure state transformers, written as functions. There
are two exceptions, written as methods with loops, because those handlers
loop:

- the "select all" loop of the permission page;
- the upload loop of the product form.

Behaviours of the code that the model states outright:

- **`hasPermission(key)`** looks up `Permission.findOne({ role })` with the
  caller's role *name*, while the schema's `role` path is an ObjectId.
  - A name that is neither 12 characters nor 24 hex digits fails the cast.
    The gate then answers 500 from its catch. This covers every non-Admin role
    name the user form offers ("Manager", "Testing", …).
  - For a castable role string, the gate tests the truthiness of the
    *category* entry `permissions[key]`, never an action flag. A category then
    passes even when all its flags are false.
  - `viewPermissions`, the only key a route uses, names no category. It
    therefore passes for Admin alone: a 403 for a castable role string, a 500
    for any other name.
- **`assignPermissions`** builds the ObjectId outside its `try`. A role id that
  is neither 12 characters nor 24 hex digits therefore throws before any
  response: the outcome `Unhandled`.
- **`loginUser`'s "Permissions not found"** answer cannot happen.
  `getCurrentUserPermissions` either throws (a 500) or returns an array, and
  an array is truthy.
- **`updateUser`** destroys the old Cloudinary asset before it saves. A save
  that then fails validation has still destroyed the asset.
- **`createProduct`** runs the schema's enum validators. The product form's
  untouched selects hold `""`, which the enums refuse. Updates use
  `findOneAndUpdate` without validators and are not checked.
- **The permission page's client sessions carry no `_id`.** So no non-Admin
  can select a role. Its `res.status === 404` branch is unreachable: the
  server answers 200 with `permissions: null`, and axios rejects non-2xx
  answers.
- **The dashboard's users counter** is `undefined` when `GET /users` answers
  with its "No users found." message object.

## Model

| member | source | states |
|---|---|---|
| Json.Member | server/controllers/permissionController.js:18 | `v?.[k]` is defined exactly for an object holding key k, and is that property |
| Text.Split | server/middleware/authMiddleware.js:7 | `split` always yields at least one piece |
| Text.JoinSplit | server/middleware/authMiddleware.js:7 | joining the pieces with the separator gives back the string |
| Text.SplitPiecesFree | server/middleware/authMiddleware.js:7 | no piece contains the separator |
| Text.SplitTwoWords | server/middleware/authMiddleware.js:7 | `"w" + sep + "t"` with separator-free w and t splits into exactly [w, t] |
| Text.SplitNoSep | server/middleware/authMiddleware.js:7 | without a separator the whole string is the single piece |
| Text.ToLower | client/src/pages/AllProducts.jsx:41 | lower-casing keeps the length and maps each character (ASCII letters) |
| Text.IncludesAt | client/src/pages/AllProducts.jsx:48 | a string includes a query exactly when the query occurs at some position |
| Text.IncludesEmpty | client/src/pages/AllProducts.jsx:48 | every string includes the empty query |
| Text.TrimStart | server/models/warehouse.js:8 | the result is a suffix starting with a non-space, and only spaces were dropped |
| Text.TrimEnd | server/models/warehouse.js:8 | the result is a prefix ending with a non-space, and only spaces were dropped |
| Text.TrimEnds | server/models/warehouse.js:8 | a trimmed string neither starts nor ends with whitespace |
| Text.TrimIdempotent | server/models/warehouse.js:8 | trimming twice is trimming once |
| Text.TrimEmpty | server/models/warehouse.js:8 | the trimmed string is empty exactly when every character is whitespace |
| Query.FirstMatch | server/controllers/ProductController.js:44 | `findOne`: the index of the first match, or None exactly when nothing matches |
| Query.FindOne | server/controllers/ProductController.js:44 | the scan returns the first match |
| Query.FirstMatchUnique | server/controllers/ProductController.js:44 | a match with no match before it is the one found |
| Query.Filter | server/controllers/permissionController.js:115 | `find` keeps only matching elements of the collection |
| Query.FilterKeeps | server/controllers/permissionController.js:115 | every matching element is kept |
| Query.FilterAll | client/src/pages/AllProducts.jsx:45-50 | a filter that matches everything keeps the sequence |
| Query.FilterSubsequence | client/src/pages/AllProducts.jsx:45-50 | a filter keeps the order: the result is a subsequence |
| Query.FilterEmptyIffNoMatch | server/controllers/permissionController.js:115 | the result is empty exactly when nothing matches |
| Query.RemoveAt | server/controllers/ProductController.js:81 | removing index i shifts every later element down by one |
| PermissionSchema.ActionsOnlyInCategories | server/models/permissions.js:5-39 | every action belongs to one of the seven categories |
| PermissionSchema.NineteenFlags | server/models/permissions.js:6-38 | the matrix has 19 flags: four actions for four categories, one each for the other three |
| PermissionSchema.Defaults | server/models/permissions.js:7-37 | the default matrix is complete and every flag is false |
| PermissionSchema.Uniform | server/models/permissions.js:5-39 | a complete matrix with every flag set to b |
| PermissionSchema.CompleteExtensional | server/models/permissions.js:5-39 | complete matrices with the same flags are equal |
| PermissionController.Sanitize | server/controllers/permissionController.js:16-50 | the result is complete and each flag is the truthiness of `input?.c?.a` |
| PermissionController.SanitizeDependsOnFlagsOnly | server/controllers/permissionController.js:16-50 | inputs agreeing on the 19 flags sanitise alike |
| PermissionController.SanitizeDropsUnknownCategory | server/controllers/permissionController.js:16-50 | a key outside the seven categories has no effect |
| PermissionController.SanitizeAbsent | server/controllers/permissionController.js:16-50 | a missing or null input gives the all-false defaults |
| PermissionController.SanitizeRoundTrip | server/controllers/permissionController.js:16-50 | a complete matrix sent as JSON sanitises back to itself |
| PermissionController.InputFlagOfJson | server/controllers/permissionController.js:18-48 | reading a flag from a matrix's JSON gives that flag |
| PermissionController.SanitizeIdempotent | server/controllers/permissionController.js:16-50 | sanitising a sanitised matrix changes nothing |
| PermissionController.SanitizeProductCreateOnly | server/controllers/permissionController.js:35-40 | `{product: {create: true}}` grants exactly that one flag |
| PermissionController.Lookup | server/controllers/permissionController.js:86 | the stored matrix of a role, None exactly when it has no record |
| PermissionController.UpsertReplaces | server/controllers/permissionController.js:54-67 | after an upsert the role's matrix is the new one, nothing of the old survives |
| PermissionController.UpsertKeepsOthers | server/controllers/permissionController.js:54-67 | other roles' records are untouched |
| PermissionController.UpsertSize | server/controllers/permissionController.js:54-67 | a record is added exactly when the role had none |
| PermissionController.UpsertKeepsUnique | server/controllers/permissionController.js:54-67 | at most one record per role afterwards |
| PermissionController.UpsertKeepsValid | server/controllers/permissionController.js:54-67 | uniqueness and complete matrices are preserved |
| PermissionController.UpsertIdempotent | server/controllers/permissionController.js:56-67 | assigning the same matrix twice is assigning it once |
| PermissionController.PermissionStore.AssignPermissions | server/controllers/permissionController.js:5-74 | no role id: 400 and no change; a malformed id: no answer and no change; otherwise the records are upserted with `Sanitize(permissions)` |
| PermissionController.PermissionStore.GetRolePermissions | server/controllers/permissionController.js:77-99 | invalid id gives 400; no record gives `permissions: null`; otherwise the stored complete matrix |
| PermissionController.CurrentUserPermissions | server/controllers/permissionController.js:101-121 | fails with "Role '…' not found in DB" exactly when no role has the name; otherwise it returns records of the stored set |
| PermissionController.CurrentUserPermissionsAtMostOne | server/controllers/permissionController.js:110-116 | with one record per role, the result is that role's record or nothing |
| PermissionController.FilterOfUnique | server/controllers/permissionController.js:115 | filtering unique records by role gives at most the looked-up record |
| AuthMiddleware.BearerToken | server/middleware/authMiddleware.js:7 | no header gives no token, and a token never contains a space |
| AuthMiddleware.BearerTokenOfHeader | server/middleware/authMiddleware.js:7 | `"Bearer " + token` yields the token |
| AuthMiddleware.NoSpaceNoToken | server/middleware/authMiddleware.js:7-11 | a header without a space yields no token |
| AuthMiddleware.Authenticate | server/middleware/authMiddleware.js:6-31 | no token gives 401, an unverifiable token 401, an unknown id 404; otherwise the user without password |
| AuthMiddleware.IsAdmin | server/middleware/authMiddleware.js:33-41 | proceeds exactly for role "Admin", 403 otherwise |
| AuthMiddleware.HasPermission | server/middleware/authMiddleware.js:43-70 | Admin always proceeds; a role name that fails the ObjectId cast is 500; otherwise no record is 403, and a record passes exactly when `permissions[key]` is truthy |
| AuthMiddleware.FormRolesFailCast | server/middleware/authMiddleware.js:55 | every non-Admin role name the user form offers fails the cast, so every gate answers 500 for it |
| AuthMiddleware.AdminIgnoresRecord | server/middleware/authMiddleware.js:50-52 | for Admin the records are never consulted |
| AuthMiddleware.GateOnCompleteMatrix | server/middleware/authMiddleware.js:55-59 | for a castable role string with a stored matrix, the gate passes exactly for category keys and inherited names |
| AuthMiddleware.GateIgnoresFlags | server/middleware/authMiddleware.js:55-59 | stores of complete matrices with records for the same roles decide alike: the action flags never matter |
| AuthMiddleware.AllFalseCategoryPasses | server/middleware/authMiddleware.js:55-59 | for a castable role string, a category whose every flag is false still passes |
| AuthMiddleware.UnknownKeyDenied | server/middleware/authMiddleware.js:55-67 | a non-Admin is refused any key outside the categories: 403 for a castable role string, 500 otherwise |
| AuthMiddleware.ViewPermissionsIsAdminOnly | server/middleware/authMiddleware.js:55-67 | `viewPermissions` passes exactly for Admin; a role name failing the cast gets 500 |
| AuthController.Login | server/controllers/authController.js:7-48 | unknown username is 400; a body without a password is the 500 of bcrypt's rejection; then a wrong password is 400 and a missing role 500, in that order; "Permissions not found" never happens; success carries a 1h token for the id and the role's records |
| AuthController.LoginWithRightPassword | server/controllers/authController.js:12-42 | the first user with that name, whose role exists, logs in with the right password |
| AuthController.LoginTokenAuthenticates | server/controllers/authController.js:31 | the issued token, sent as a bearer header, authenticates the same user |
| AuthController.GetCurrentUser | server/controllers/authController.js:51-80 | 401 exactly without `req.user`, 404 exactly for an unknown id, 500 exactly when the found user's role name is missing; the 400 never happens; a success carries the stored user's id, username, role and that role's records |
| AuthController.CurrentUserWithExistingRole | server/controllers/authController.js:57-74 | a found user whose role exists gets the 200 with that role's records |
| AuthController.AuthenticatedUserIsFound | server/controllers/authController.js:57-60 | a user the middleware authenticated is never the 401 or 404 case |
| UserController.NewUser | server/controllers/userController.js:14-31 | the stored password is a hash that matches exactly the given password |
| UserController.Edited | server/controllers/userController.js:88-101 | exactly the eight profile fields are overwritten, and the password is kept unless a non-empty one is given |
| UserController.EditedLogin | server/controllers/userController.js:98-101 | after an edit, logins use the new password if one was given, else the old one |
| UserController.EditedIdempotent | server/controllers/userController.js:88-101 | re-sending an edit without a new password changes nothing more |
| UserController.EditedForgetsProfile | server/controllers/userController.js:84-95 | the saved profile depends only on the body; an unchanged `cloudinaryId` destroys nothing |
| UserController.UsersResponseJson | server/controllers/userController.js:45-49 | an empty store answers `{message: "No users found."}`; otherwise an array with one item per user, in order, carrying its `_id`, username and role |
| UserController.UserStore.AddUser | server/controllers/userController.js:14-38 | a user is added exactly when a password is given and the required fields are set; otherwise 400 and no change |
| UserController.UserStore.GetUsers | server/controllers/userController.js:41-53 | the message exactly when there are no users |
| UserController.UserStore.GetUserById | server/controllers/userController.js:56-68 | the user with that id, or 404 exactly when there is none |
| UserController.UserStore.UpdateUser | server/controllers/userController.js:75-109 | unknown id: 404 and no change; otherwise the old asset is destroyed exactly under the rule, before the save; a save failing validation changes no user |
| UserController.UserStore.DeleteUser | server/controllers/userController.js:114-133 | unknown id: 404, nothing destroyed; otherwise one destroy if `cloudinaryId` is set, then exactly that user is removed |
| UserController.ReplaceKeepsValid | server/controllers/userController.js:103 | saving a valid user in place keeps ids unique and users valid |
| UserController.RemoveKeepsValid | server/controllers/userController.js:128 | removing a user keeps the store valid and removes exactly that id |
| ProductController.Kept | server/models/product.js:3-52 | only the schema's paths of a body are stored, with their values |
| ProductController.EmptySelectRejected | server/models/product.js:38-49 | an empty `findMyMac`, `mdm` or `appleCare` fails the enum validation |
| ProductController.Patched | server/controllers/ProductController.js:18 | the body's schema fields are set and every other field kept |
| ProductController.StatusPatched | server/controllers/ProductController.js:59-65 | only `status` changes; an undefined status changes nothing |
| ProductController.PatchedIdempotent | server/controllers/ProductController.js:18 | the same update twice is the update once |
| ProductController.StatusPatchIsPatch | server/controllers/ProductController.js:61-65 | a status update is the update with body `{status}` |
| ProductController.StatusPatchedTwice | server/controllers/ProductController.js:61-65 | the last status written wins |
| ProductController.ProductStore.CreateProduct | server/controllers/ProductController.js:4-12 | a valid body's schema fields, stamped with the day, are appended; an invalid one is 500 and no change |
| ProductController.ProductStore.GetProducts | server/controllers/ProductController.js:31-38 | the stored products |
| ProductController.ProductStore.GetProductById | server/controllers/ProductController.js:41-54 | a product with that serial, or 404 exactly when none has it |
| ProductController.ProductStore.UpdateProduct | server/controllers/ProductController.js:15-28 | a miss is 404 with no change; a hit patches the first match in place |
| ProductController.ProductStore.UpdateProductStatus | server/controllers/ProductController.js:56-75 | a miss is 404 with no change; a hit sets only the status of the first match |
| ProductController.ProductStore.DeleteProduct | server/controllers/ProductController.js:78-91 | a miss is 404 with no change; a hit removes the first match |
| ProductController.DeleteRemovesOne | server/controllers/ProductController.js:81 | a delete removes exactly one document: the multiset loses only it |
| RoleController.OrElse | server/controllers/roleControllers.js:47-48 | `v \|\| fallback`: an absent or empty value gives the fallback |
| RoleController.Updated | server/controllers/roleControllers.js:47-48 | name and status replaced only by truthy values; the id kept |
| RoleController.UpdateWithNothing | server/controllers/roleControllers.js:47-48 | an update with no or empty fields leaves the role as it was |
| RoleController.UpdateIdempotent | server/controllers/roleControllers.js:47-49 | the same update twice is the update once |
| RoleController.FirstIdIsOnly | server/controllers/roleControllers.js:59 | with unique ids the found role is the only one with that id |
| RoleController.RoleStore.CreateRole | server/controllers/roleControllers.js:4-13 | name and status stored, status defaulting to "Active"; no name is 500 and no change |
| RoleController.RoleStore.GetRoleById | server/controllers/roleControllers.js:26-36 | the role with that id, or 404 exactly when there is none |
| RoleController.RoleStore.UpdateRole | server/controllers/roleControllers.js:39-54 | a miss is 404 with no change; a hit replaces just that role by `Updated` |
| RoleController.RoleStore.DeleteRole | server/controllers/roleControllers.js:57-69 | a miss is 404 with no change; a hit removes exactly that role and no other record |
| WarehouseController.AcceptedIsStored | server/models/warehouse.js:5-14 | what survives the checks is stored trimmed and non-empty |
| WarehouseController.Assigned | server/controllers/warehouseController.js:48-52 | an undefined field keeps its value, a given one is stored trimmed |
| WarehouseController.AssignedKeepsStored | server/controllers/warehouseController.js:48-52 | a validated update keeps the fields trimmed and non-empty, and is idempotent |
| WarehouseController.WarehouseStore.AddWarehouse | server/controllers/warehouseController.js:4-19 | a missing field is 400, a blank one 500, both with no change; otherwise one trimmed warehouse is added |
| WarehouseController.WarehouseStore.GetWarehouses | server/controllers/warehouseController.js:22-29 | the stored warehouses |
| WarehouseController.WarehouseStore.GetWarehouseById | server/controllers/warehouseController.js:32-42 | the warehouse with that id, or 404 exactly when there is none |
| WarehouseController.WarehouseStore.UpdateWarehouse | server/controllers/warehouseController.js:45-62 | a blank field is 500, then a miss is 404, both with no change; otherwise only name and address of that id change |
| WarehouseController.WarehouseStore.DeleteWarehouse | server/controllers/warehouseController.js:65-76 | deleted exactly when the id exists, and exactly that warehouse goes |
| WarehouseController.AppendKeepsValid | server/controllers/warehouseController.js:12-13 | adding a fresh trimmed warehouse keeps the store valid |
| WarehouseController.ReplaceKeepsValid | server/controllers/warehouseController.js:48-52 | an in-place update keeps the store valid |
| WarehouseController.RemoveKeepsValid | server/controllers/warehouseController.js:67 | a delete keeps the store valid and removes exactly that id |
| ClientGate.At | client/src/pages/Users.jsx:16 | `v?.[i]` is defined exactly inside an array |
| ClientGate.LoginSessionGate | client/src/pages/Users.jsx:16 | after login a control shows exactly when the first record grants the flag; the Admin test is the role |
| ClientGate.CurrentSessionGate | client/src/pages/Users.jsx:16 | the same for the session rebuilt from the current user |
| ClientGate.LoginSessionHasNoUnderscoreId | client/src/pages/Permission.jsx:158 | the login session carries no `_id` |
| ClientGate.CurrentSessionHasNoUnderscoreId | client/src/pages/Permission.jsx:158 | the current-user session carries no `_id` |
| ClientGate.NoSessionNoControls | client/src/pages/Users.jsx:16 | without a session every control is hidden |
| PermissionPage.Toggled | client/src/pages/Permission.jsx:62-75 | flips exactly the one flag, a missing one counting as false |
| PermissionPage.ToggleTwice | client/src/pages/Permission.jsx:71 | toggling twice restores every flag |
| PermissionPage.ToggleTwiceExact | client/src/pages/Permission.jsx:62-75 | on a present flag toggling twice restores the matrix exactly |
| PermissionPage.ToggleKeepsComplete | client/src/pages/Permission.jsx:62-75 | toggling a schema flag keeps the matrix complete |
| PermissionPage.SetAll | client/src/pages/Permission.jsx:84-110 | "select all" adds the seven categories and keeps other keys |
| PermissionPage.SetAllFlag | client/src/pages/Permission.jsx:87-107 | every one of the 19 flags becomes b, every other entry is kept |
| PermissionPage.SetAllOfComplete | client/src/pages/Permission.jsx:87-107 | on a complete matrix the result is the uniform matrix |
| PermissionPage.SetAllOfEmpty | client/src/pages/Permission.jsx:87-107 | on the empty page state the result is the uniform matrix |
| PermissionPage.SelectAllThenSave | client/src/pages/Permission.jsx:87-126 | saving after "select all" stores the uniform matrix whatever else was on the page |
| PermissionPage.OnlyAdminSelects | client/src/pages/Permission.jsx:157-160 | after login a role can be selected exactly by Admin |
| PermissionPage.PermissionsPage.HandleCheckboxChange | client/src/pages/Permission.jsx:59-76 | a non-Admin changes nothing; a null state throws; otherwise the toggled matrix |
| PermissionPage.PermissionsPage.HandleAllCheckboxChange | client/src/pages/Permission.jsx:79-111 | a non-Admin changes nothing; otherwise "select all" is set and the flags filled |
| PermissionPage.PermissionsPage.HandleSubmit | client/src/pages/Permission.jsx:114-127 | a non-Admin sends nothing; otherwise exactly `{roleId, permissions}` |
| PermissionPage.PermissionsPage.SelectRole | client/src/pages/Permission.jsx:157-160 | the role is selected only when the guard allows it |
| PermissionPage.PermissionsPage.ReceivePermissions | client/src/pages/Permission.jsx:43-55 | `null` becomes `{}`, a stored matrix is shown, a failed request changes nothing |
| PermissionPage.FillAll | client/src/pages/Permission.jsx:87-107 | the two `forEach` loops compute `SetAll` |
| PermissionPage.SubmitStoresPageMatrix | client/src/pages/Permission.jsx:120-126 | a complete page matrix sent by submit is stored unchanged |
| ListPage.Slice | client/src/pages/Users.jsx:60 | JavaScript `slice` with clamped bounds |
| ListPage.WindowOfPage | client/src/pages/Users.jsx:58-60 | page p shows `items[(p-1)*10 .. min(p*10, len)]`, at most 10 rows |
| ListPage.ItemOnItsPage | client/src/pages/Users.jsx:98 | each item is shown on its page with row number index + 1 |
| ListPage.NextIffMoreRows | client/src/pages/Users.jsx:134-138 | Next is enabled exactly when the next page has rows; Prev exactly off page 1 |
| ListPage.AfterDelete | client/src/pages/Users.jsx:45-56 | only a 200 answer changes the list, and only by removing |
| ListPage.DeleteRemovesExactly | client/src/pages/Warehouse.jsx:48-49 | a successful delete removes exactly that `_id`, keeping the order |
| ListPage.Fetched | client/src/pages/Roles.jsx:24-25 | an array answer replaces the list, anything else keeps it |
| ListPage.ControlsOf | client/src/pages/Roles.jsx:18 | Add, Edit and Delete show exactly with the category's create, edit and delete |
| ListPage.UsersControlsAfterLogin | client/src/pages/Users.jsx:16 | after login the user controls follow the first record's user flags |
| ListPage.WarehouseControlsAfterLogin | client/src/pages/Warehouse.jsx:16 | after login the warehouse controls follow the first record's warehouse flags |
| ListPage.RoleControlsAfterLogin | client/src/pages/Roles.jsx:18 | after login the role controls follow the first record's role flags |
| ListPage.NoRecordNoControls | client/src/pages/Roles.jsx:18 | a role without a record shows no control |
| Dashboard.Length | client/src/pages/Dashboard.jsx:23-24 | `.length` of an array is its size, undefined on an object |
| Dashboard.FetchData | client/src/pages/Dashboard.jsx:14-31 | counts users, products and the two statuses; an answer without `filter` leaves the counters |
| Dashboard.CountsBounded | client/src/pages/Dashboard.jsx:19-26 | check-ins plus check-outs never exceed the products |
| Dashboard.DisjointFilters | client/src/pages/Dashboard.jsx:19-20 | two filters that never both match count at most the length |
| Dashboard.NoUsersCounterUndefined | client/src/pages/Dashboard.jsx:23 | the "No users found." object gives an undefined users counter |
| Dashboard.UsersCounter | client/src/pages/Dashboard.jsx:23 | the users array gives the number of users |
| AllProducts.Search | client/src/pages/AllProducts.jsx:40-52 | throws exactly when some product has no string serial |
| AllProducts.SearchExact | client/src/pages/AllProducts.jsx:45-50 | listed exactly when within the dates and the serial matches, order kept |
| AllProducts.EmptySearchKeepsAll | client/src/pages/AllProducts.jsx:45-51 | an empty query without dates lists everything |
| AllProducts.SearchIgnoresQueryCase | client/src/pages/AllProducts.jsx:41 | the query's letter case does not matter |
| AllProducts.ToggleSelection | client/src/pages/AllProducts.jsx:54-64 | toggles the serial in the selection and no other |
| AllProducts.ToggleKeepsDistinct | client/src/pages/AllProducts.jsx:56-61 | no serial is selected twice |
| AllProducts.ToggleTwice | client/src/pages/AllProducts.jsx:54-64 | selecting a new serial and unselecting it restores the selection |
| AllProducts.Without | client/src/pages/AllProducts.jsx:57 | unselecting keeps exactly the other serials |
| AllProducts.WithoutKeepsDistinct | client/src/pages/AllProducts.jsx:57 | unselecting keeps the selection free of duplicates |
| AllProducts.CheckedOutKeepsSerial | client/src/pages/AllProducts.jsx:72-77 | checking out keeps the serial, and checking out twice is checking out once |
| AllProducts.MarkStep | client/src/pages/AllProducts.jsx:70-78 | one more request marks one more selected serial |
| AllProducts.MarkCheckedOut | client/src/pages/AllProducts.jsx:72-77 | exactly the selected products get status 'checkedout', the rest are unchanged |
| AllProducts.MarkEach | client/src/pages/AllProducts.jsx:70-78 | the requests, one per selected serial, mark exactly the selected products |
| AllProducts.MarkEachOrderFree | client/src/pages/AllProducts.jsx:70-78 | the updaters give the same list in whatever order the answers arrive |
| AllProducts.CheckOutStatus | client/src/pages/AllProducts.jsx:72-77 | each product keeps its serial; a selected one reads 'checkedout', another is unchanged |
| AllProducts.DeleteExact | client/src/pages/AllProducts.jsx:89-90 | deleting removes exactly the products with that serial, order kept |
| AllProducts.Received | client/src/pages/AllProducts.jsx:20-34 | a non-array answer gives empty lists |
| AllProducts.Searched | client/src/pages/AllProducts.jsx:40-52 | only the listing changes, to the matching subsequence |
| AllProducts.Toggled | client/src/pages/AllProducts.jsx:54-64 | only the selection changes |
| AllProducts.CheckedOutPage | client/src/pages/AllProducts.jsx:66-84 | both lists marked for the selection, which is cleared |
| AllProducts.Deleted | client/src/pages/AllProducts.jsx:86-100 | the serial leaves both lists and the selection; a failure changes nothing |
| AllProducts.ButtonsShown | client/src/pages/AllProducts.jsx:115-127 | Check-Out shown with `checkOut.checkout` and disabled on an empty selection; Create, Edit and Delete follow the product flags |
| CreateProduct.InitialForm | client/src/pages/CreateProduct.jsx:19-59 | the initial form starts with both image lists empty |
| CreateProduct.InitialFormShape | client/src/pages/CreateProduct.jsx:19-59 | every field empty, `createdBy` set, checkboxes off, selects empty |
| CreateProduct.ToggleSection | client/src/pages/CreateProduct.jsx:122-132 | flips the section's membership and no other |
| CreateProduct.ToggleSectionTwice | client/src/pages/CreateProduct.jsx:122-132 | toggling twice restores the set |
| CreateProduct.Changed | client/src/pages/CreateProduct.jsx:134-148 | a `technicalCheck` key sets only that nested entry (checked for checkboxes), any other name only that field |
| CreateProduct.ChangeIdempotent | client/src/pages/CreateProduct.jsx:134-148 | the same input event twice is the event once |
| CreateProduct.ImageUpload | client/src/pages/CreateProduct.jsx:150-188 | both lists and the previews grow by the successful uploads, in file order |
| CreateProduct.Successes | client/src/pages/CreateProduct.jsx:156-179 | only successful uploads are collected |
| CreateProduct.SuccessesKept | client/src/pages/CreateProduct.jsx:156-179 | no successful upload is lost |
| CreateProduct.UploadKeepsPairs | client/src/pages/CreateProduct.jsx:181-185 | the lists stay paired, each new URL next to its id |
| CreateProduct.RemoveImage | client/src/pages/CreateProduct.jsx:190-197 | the same index leaves both lists and the previews |
| CreateProduct.RemoveKeepsPairs | client/src/pages/CreateProduct.jsx:190-197 | after a removal every URL still sits next to its own id |
| CreateProduct.SubmitRequest | client/src/pages/CreateProduct.jsx:204-214 | PUT with the serial when one is in the route, else POST, sending the form |
| CreateProduct.Submitted | client/src/pages/CreateProduct.jsx:216-262 | success resets the form and previews; failure keeps them |
| CreateProduct.UntouchedFormRejected | client/src/pages/CreateProduct.jsx:45-49 | submitting the untouched form fails the server's enum validation |
| CreateProduct.SubmitShownAfterLogin | client/src/pages/CreateProduct.jsx:61 | the submit button shows exactly with the first record's check-in flag |
| AddUser.EmptyForm | client/src/components/Add-User.jsx:8-19 | every input starts empty |
| AddUser.OrEmpty | client/src/components/Add-User.jsx:33-40 | `data.k \|\| ""` for a string field |
| AddUser.EditDefaults | client/src/components/Add-User.jsx:32-43 | both password fields reset to "" |
| AddUser.LoadedProfile | client/src/components/Add-User.jsx:32-43 | the edit form shows the fetched user's eight fields |
| AddUser.Changed | client/src/components/Add-User.jsx:49-52 | only the named input changes |
| AddUser.Uploaded | client/src/components/Add-User.jsx:73-77 | `image` and `cloudinaryId` are set together; nothing else changes |
| AddUser.SubmitRequest | client/src/components/Add-User.jsx:90-116 | nothing sent exactly when the passwords differ; PUT `/users/edit/:id` in edit mode, else POST `/users/add` |
| AddUser.BodyOf | client/src/components/Add-User.jsx:104 | the server reads the form's fields and password |
| AddUser.EditRoundTrip | client/src/components/Add-User.jsx:25-116 | opening a user and saving unchanged leaves the stored user exactly as it was |
| AddUser.NewPasswordLogsIn | client/src/components/Add-User.jsx:94-102 | a confirmed new password is the one that logs in after the save |

## Left out

- MongoDB itself is out of scope: networking, concurrency between requests and the generation of fresh ids. Ids are method parameters, required to be fresh.
- `updatedAt` and the other automatic timestamps except `createdAt` are not modelled. `createdAt` is a day number, and the client's `Date`/`setHours` local-time arithmetic becomes whole days. An epoch-day bound of 0 would be falsy in JavaScript; the model treats every given bound as set.
- Mongoose casting is out of scope:
  - the Boolean cast of sanitised flags: the model stores every truthy input as `true`. Mongoose would store `false` for the strings "false", "no" and "0", and would fail the save with a 500 for other non-Boolean values;
  - CastErrors for ids that are not ObjectIds in the stores' lookups by id (ids are plain strings there; the permission gate and `assignPermissions` do model the cast);
  - the conversion of a castable string to its canonical ObjectId (lower-case hex, or the hex of 12 bytes): the permission records are matched by the string as given;
  - casts of product fields;
  - the cast of the enum selects (non-string select values count as valid).
- Unique indexes (username, employeeId) are the database's job and are not modelled.
- The model assumes Mongoose 6 or later and a bson version whose ObjectId accepts any 12-character string. So undefined keys are dropped from an update (`WarehouseController.Assigned`, `ProductController.StatusPatched`), where Mongoose 5's default would write null. And `PermissionController.IsValidObjectId` accepts 12-character strings.
- `role.remove` is taken to delete the role. Its version-specific behaviour is not modelled: Mongoose versions without `Document.remove` throw into the 500.
- UserController.UserStore.UpdateUser: for a stored user without an asset, the destroy log gets the empty id, which stands for `destroy(undefined)`, and the save goes ahead. A Cloudinary rejection of that call would answer 500 without saving, which is not modelled.
- bcrypt and JWT are idealised: a hash matches exactly its own plaintext, and a verifier maps each valid token to its id. Expiry is the constant 3600 seconds, and signing keys are not modelled.
- Cloudinary uploads and destroys are remote I/O. Destroys are an appended log; an upload's answer is a parameter.
- The users JSON the server sends also holds the password hash. `UserController.UserJson` leaves it out.
- Strings are ASCII for case folding. `trim` covers the ASCII whitespace characters only.
- Network failures and the interleaving of `Promise.all` in the check-out are not modelled. `AllProducts.MarkEach` sends the requests one after another and all of them succeed; a partial failure is not modelled.
- React rendering, hooks, navigation, alerts and the loading flags are not modelled.
- Devices, the route files, `getAllPermissions` and `getRoles` are not modelled: thin listings without logic.
- `updateProduct` without a `serialNumber` query parameter matches on `{serialNumber: undefined}`. The model always takes a serial.
- AuthMiddleware.HasPermission: a role string that passes the cast is matched against the records as given; the canonical ObjectId conversion is not modelled. `permissions.permissions` is a Mongoose nested object, which also inherits Document members; only `Object.prototype` names are modelled as inherited.
- GateOnCompleteMatrix: it describes callers whose role name is a castable string (12 characters or 24 hex digits). No role name the user form offers is one; for those names `FormRolesFailCast` gives the 500.
- AllFalseCategoryPasses: the pass it proves happens only for a castable role string. No role name the user form offers is one.
- `AllProducts.Search` treats a product whose `createdAt` is missing or not a number as outside any date bound, as NaN compares false.
- `AddUser.OrEmpty` turns a truthy non-string field into "". The API sends only strings for these fields.
- `CreateProduct.FormDoc` sends `createdBy` and the text fields as strings, as the inputs produce them.
- The product form's edit-mode fetch, and its device and warehouse list fetches, only copy server data into state. They are not modelled.
