/** The user registry of server/controllers/userController.js over the
    `users` collection (fields from server/models/user.js), with the
    Cloudinary assets it destroys recorded in a log. */
module UserController {
  import opened Wrappers
  import Crypto
  import Query
  import Json

  /** A request body. A text field the client leaves out is "" here: the
      controller only ever tests these for truthiness, and an absent and an
      empty required field fail validation alike. The password is the one
      field whose absence differs from "" (bcrypt refuses to hash undefined). */
  datatype UserBody = UserBody(
    firstName: string, lastName: string, image: string, cloudinaryId: string,
    role: string, username: string, contact: string, employeeId: string,
    password: Option<string>)

  /** A stored user: the password is held only as its hash. */
  datatype User = User(
    id: string, firstName: string, lastName: string, image: string, cloudinaryId: string,
    role: string, username: string, contact: string, employeeId: string,
    password: Crypto.PasswordHash)

  /** A user as `.select("-password")` returns it. */
  datatype Profile = Profile(
    id: string, firstName: string, lastName: string, image: string, cloudinaryId: string,
    role: string, username: string, contact: string, employeeId: string)

  function ProfileOf(u: User): Profile {
    Profile(u.id, u.firstName, u.lastName, u.image, u.cloudinaryId, u.role, u.username, u.contact, u.employeeId)
  }

  /** Filter `{ _id: id }`. */
  function HasId(id: string): User -> bool {
    (u: User) => u.id == id
  }

  /** Filter `{ username }`. */
  function HasUsername(name: string): User -> bool {
    (u: User) => u.username == name
  }

  ghost predicate UniqueIds(us: seq<User>) {
    forall i, j :: 0 <= i < j < |us| ==> us[i].id != us[j].id
  }

  /** The schema's `required: true` text fields are all non-empty, the check
      `save()` runs before writing. image and cloudinaryId are optional. */
  predicate Saveable(u: User) {
    u.firstName != "" && u.lastName != "" && u.role != "" && u.username != ""
    && u.contact != "" && u.employeeId != ""
  }

  /** The user `addUser` builds: every field from the body, the password
      replaced by its bcrypt hash. */
  function NewUser(id: string, b: UserBody, password: string, salt: nat): (u: User)
    ensures u.id == id && u.username == b.username && u.role == b.role
    ensures forall p :: Crypto.Compare(p, u.password) <==> p == password
  {
    User(id, b.firstName, b.lastName, b.image, b.cloudinaryId, b.role, b.username, b.contact, b.employeeId,
         Crypto.Hash(password, salt))
  }

  /** The old asset goes when the request brings an image and a public id,
      and the id differs from the stored one. */
  predicate DestroysOldAsset(stored: User, b: UserBody) {
    b.image != "" && b.cloudinaryId != "" && stored.cloudinaryId != b.cloudinaryId
  }

  /** The user `updateUser` saves: the eight profile fields overwritten from
      the request and the password re-hashed only when one is supplied. */
  function Edited(u: User, b: UserBody, salt: nat): (v: User)
    ensures v.id == u.id
    ensures v.firstName == b.firstName && v.lastName == b.lastName && v.image == b.image
    ensures v.cloudinaryId == b.cloudinaryId && v.role == b.role && v.username == b.username
    ensures v.contact == b.contact && v.employeeId == b.employeeId
    ensures b.password.None? || b.password.value == "" ==> v.password == u.password
  {
    User(u.id, b.firstName, b.lastName, b.image, b.cloudinaryId, b.role, b.username, b.contact, b.employeeId,
         if b.password.Some? && b.password.value != "" then Crypto.Hash(b.password.value, salt) else u.password)
  }

  /** After an edit, the passwords that log in are the new one when one was
      supplied, and exactly the old ones otherwise. */
  lemma EditedLogin(u: User, b: UserBody, salt: nat, p: string)
    ensures Crypto.Compare(p, Edited(u, b, salt).password) <==>
      if b.password.Some? && b.password.value != "" then p == b.password.value
      else Crypto.Compare(p, u.password)
  {
  }

  /** Re-sending the same edit changes nothing more. */
  lemma EditedIdempotent(u: User, b: UserBody, salt: nat)
    ensures Edited(Edited(u, b, salt), b, salt) == Edited(u, b, salt)
  {
  }

  /** An edit that resends the stored public id never destroys an asset, and
      the profile the edit saves does not depend on what was stored before. */
  lemma EditedForgetsProfile(u: User, w: User, b: UserBody, salt: nat)
    requires u.id == w.id
    ensures ProfileOf(Edited(u, b, salt)) == ProfileOf(Edited(w, b, salt))
    ensures b.cloudinaryId == u.cloudinaryId ==> !DestroysOldAsset(u, b)
  {
  }

  /** The response of `addUser`. */
  datatype AddOutcome = Created(user: User) /* 201 */ | Rejected /* 400 */

  /** The response of `getUsers`: a message object, not an array, when the
      collection is empty. */
  datatype UsersResponse = NoUsersFound /* { message: "No users found." } */ | AllUsers(users: seq<User>)

  /** The response of `updateUser`. */
  datatype UpdateOutcome = UserNotFound /* 404 */ | SaveFailed /* 500 */ | Saved(user: User) /* 200 */

  /** A stored user as the API serialises it (the hash it also sends is not
      part of this model). */
  function UserJson(u: User): Json.Json {
    Json.JObj(map["_id" := Json.JStr(u.id), "firstName" := Json.JStr(u.firstName),
                  "lastName" := Json.JStr(u.lastName), "image" := Json.JStr(u.image),
                  "cloudinaryId" := Json.JStr(u.cloudinaryId), "role" := Json.JStr(u.role),
                  "username" := Json.JStr(u.username), "contact" := Json.JStr(u.contact),
                  "employeeId" := Json.JStr(u.employeeId)])
  }

  /** The body of the `getUsers` answer. */
  function UsersResponseJson(r: UsersResponse): (j: Json.Json)
    ensures r.AllUsers? ==> j.JArr? && |j.items| == |r.users|
    ensures r.AllUsers? ==> forall i :: 0 <= i < |r.users| ==>
      Json.Member(Some(j.items[i]), "_id") == Some(Json.JStr(r.users[i].id))
      && Json.Member(Some(j.items[i]), "username") == Some(Json.JStr(r.users[i].username))
      && Json.Member(Some(j.items[i]), "role") == Some(Json.JStr(r.users[i].role))
    ensures r.NoUsersFound? ==> j.JObj?
    ensures r.NoUsersFound? ==> Json.Member(Some(j), "message") == Some(Json.JStr("No users found."))
  {
    match r
    case NoUsersFound => Json.JObj(map["message" := Json.JStr("No users found.")])
    case AllUsers(us) => Json.JArr(seq(|us|, i requires 0 <= i < |us| => UserJson(us[i])))
  }

  class UserStore {
    var users: seq<User>
    /** The public ids passed to `cloudinary.uploader.destroy`, in call order. */
    var destroyed: seq<string>

    ghost predicate Valid()
      reads this
    {
      && UniqueIds(users)
      && forall i :: 0 <= i < |users| ==> Saveable(users[i])
    }

    function Ids(): set<string>
      reads this
    {
      set i | 0 <= i < |users| :: users[i].id
    }

    constructor ()
      ensures Valid() && users == [] && destroyed == []
    {
      users := [];
      destroyed := [];
    }

    /** `addUser`: hash, then save. A missing password makes bcrypt throw and
        a missing required field makes validation throw: 400 either way.
        `newId` is the ObjectId the driver assigns. */
    method AddUser(newId: string, b: UserBody, salt: nat) returns (out: AddOutcome)
      requires Valid() && newId !in Ids()
      modifies this
      ensures Valid() && destroyed == old(destroyed)
      ensures out.Created? <==> b.password.Some? && Saveable(NewUser(newId, b, b.password.value, salt))
      ensures out.Created? ==> out.user == NewUser(newId, b, b.password.value, salt) && users == old(users) + [out.user]
      ensures out.Rejected? ==> users == old(users)
    {
      if b.password.None? {
        return Rejected;
      }
      var u := NewUser(newId, b, b.password.value, salt);
      if !Saveable(u) {
        return Rejected;
      }
      assert forall i :: 0 <= i < |users| ==> users[i].id in Ids();
      users := users + [u];
      out := Created(u);
    }

    /** `getUsers`. */
    method GetUsers() returns (out: UsersResponse)
      ensures out == NoUsersFound <==> users == []
      ensures out.AllUsers? ==> out.users == users
    {
      if |users| == 0 {
        return NoUsersFound;
      }
      out := AllUsers(users);
    }

    /** `getUserById`: None is the 404. */
    method GetUserById(id: string) returns (r: Option<User>)
      requires Valid()
      ensures r.None? <==> id !in Ids()
      ensures r.Some? ==> r.value in users && r.value.id == id
    {
      var i := Query.FindOne(users, HasId(id));
      if i.None? {
        return None;
      }
      r := Some(users[i.value]);
    }

    /** `updateUser`: the old asset is destroyed before the save, so a save
        that fails validation still loses it. */
    method UpdateUser(id: string, b: UserBody, salt: nat) returns (out: UpdateOutcome)
      requires Valid()
      modifies this
      ensures Valid()
      ensures out == UserNotFound <==> id !in old(Ids())
      ensures out == UserNotFound ==> users == old(users) && destroyed == old(destroyed)
      ensures match Query.FirstMatch(old(users), HasId(id))
        case None => out == UserNotFound && users == old(users) && destroyed == old(destroyed)
        case Some(i) =>
          var stored := old(users)[i];
          && destroyed == old(destroyed) + (if DestroysOldAsset(stored, b) then [stored.cloudinaryId] else [])
          && (out == SaveFailed <==> !Saveable(Edited(stored, b, salt)))
          && (out == SaveFailed ==> users == old(users))
          && (out.Saved? ==> out.user == Edited(stored, b, salt) && users == old(users)[i := out.user])
    {
      var found := Query.FindOne(users, HasId(id));
      if found.None? {
        return UserNotFound;
      }
      var i := found.value;
      var stored := users[i];
      if DestroysOldAsset(stored, b) {
        destroyed := destroyed + [stored.cloudinaryId];
      }
      var v := Edited(stored, b, salt);
      if !Saveable(v) {
        return SaveFailed;
      }
      ReplaceKeepsValid(users, i, v);
      users := users[i := v];
      out := Saved(v);
    }

    /** `deleteUser`: destroy the asset when there is one, then remove the
        user. */
    method DeleteUser(id: string) returns (deleted: bool)
      requires Valid()
      modifies this
      ensures Valid()
      ensures deleted <==> id in old(Ids())
      ensures match Query.FirstMatch(old(users), HasId(id))
        case None => users == old(users) && destroyed == old(destroyed)
        case Some(i) =>
          var stored := old(users)[i];
          && users == Query.RemoveAt(old(users), i)
          && destroyed == old(destroyed) + (if stored.cloudinaryId != "" then [stored.cloudinaryId] else [])
      ensures forall u :: u in users <==> u in old(users) && u.id != id
    {
      var found := Query.FindOne(users, HasId(id));
      if found.None? {
        return false;
      }
      var i := found.value;
      var stored := users[i];
      if stored.cloudinaryId != "" {
        destroyed := destroyed + [stored.cloudinaryId];
      }
      RemoveKeepsValid(users, i, id);
      users := Query.RemoveAt(users, i);
      deleted := true;
    }
  }

  lemma ReplaceKeepsValid(us: seq<User>, i: nat, v: User)
    requires UniqueIds(us) && forall j :: 0 <= j < |us| ==> Saveable(us[j])
    requires i < |us| && us[i].id == v.id && Saveable(v)
    ensures var w := us[i := v]; UniqueIds(w) && forall j :: 0 <= j < |w| ==> Saveable(w[j])
  {
  }

  lemma RemoveKeepsValid(us: seq<User>, i: nat, id: string)
    requires UniqueIds(us) && forall j :: 0 <= j < |us| ==> Saveable(us[j])
    requires i < |us| && us[i].id == id
    ensures UniqueIds(Query.RemoveAt(us, i))
    ensures forall j :: 0 <= j < |Query.RemoveAt(us, i)| ==> Saveable(Query.RemoveAt(us, i)[j])
    ensures forall u :: u in Query.RemoveAt(us, i) <==> u in us && u.id != id
  {
    var r := Query.RemoveAt(us, i);
    forall u | u in us && u.id != id
      ensures u in r
    {
      var k :| 0 <= k < |us| && us[k] == u;
      if k < i { assert r[k] == u; } else { assert r[k - 1] == u; }
    }
  }
}
