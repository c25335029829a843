/** client/src/components/Add-User.jsx: the form that creates a user or
    edits one, with the password confirmation that must match before
    anything is sent. */
module AddUser {
  import opened Wrappers
  import opened Json
  import Crypto
  import UserController

  /** The form's inputs, by their `name`. */
  datatype Field =
    | FirstName | LastName | Image | CloudinaryId | Role | Username | Contact | EmployeeId
    | Password | ConfirmPassword

  /** `formData`. */
  datatype UserForm = UserForm(
    firstName: string, lastName: string, image: string, cloudinaryId: string, role: string,
    username: string, contact: string, employeeId: string, password: string, confirmPassword: string)

  /** `formData[name]`. */
  function ValueOf(f: UserForm, name: Field): string {
    match name
    case FirstName => f.firstName
    case LastName => f.lastName
    case Image => f.image
    case CloudinaryId => f.cloudinaryId
    case Role => f.role
    case Username => f.username
    case Contact => f.contact
    case EmployeeId => f.employeeId
    case Password => f.password
    case ConfirmPassword => f.confirmPassword
  }

  /** The form at mount: every input empty. */
  function EmptyForm(): (f: UserForm)
    ensures forall name :: ValueOf(f, name) == ""
  {
    UserForm("", "", "", "", "", "", "", "", "", "")
  }

  /** `data.k || ""` for a field the API sends as a string. */
  function OrEmpty(v: Option<Json>): (s: string)
    ensures v.Some? && v.value.JStr? ==> s == v.value.s
    ensures !(v.Some? && v.value.JStr?) ==> s == ""
  {
    if v.Some? && v.value.JStr? && v.value.s != "" then v.value.s else ""
  }

  /** In edit mode the fetched user fills the form: a missing field gives
      "", and both password fields are reset to "". */
  function EditDefaults(data: Json): (f: UserForm)
    ensures f.password == "" && f.confirmPassword == ""
  {
    var at := (k: string) => OrEmpty(Member(Some(data), k));
    UserForm(at("firstName"), at("lastName"), at("image"), at("cloudinaryId"), at("role"),
             at("username"), at("contact"), at("employeeId"), "", "")
  }

  /** `handleChange`: only the named input changes. Only the text, select
      and password inputs reach it; the image input is a file input wired to
      the upload, so `Image` and `CloudinaryId` change through `Uploaded`. */
  function Changed(f: UserForm, name: Field, value: string): (r: UserForm)
    ensures ValueOf(r, name) == value
    ensures forall other :: other != name ==> ValueOf(r, other) == ValueOf(f, other)
  {
    match name
    case FirstName => f.(firstName := value)
    case LastName => f.(lastName := value)
    case Image => f.(image := value)
    case CloudinaryId => f.(cloudinaryId := value)
    case Role => f.(role := value)
    case Username => f.(username := value)
    case Contact => f.(contact := value)
    case EmployeeId => f.(employeeId := value)
    case Password => f.(password := value)
    case ConfirmPassword => f.(confirmPassword := value)
  }

  /** A successful upload of the first chosen file sets `image` and
      `cloudinaryId` together; a failed one, or no file, changes nothing. */
  function Uploaded(f: UserForm, upload: Option<(string, string)>): (r: UserForm)
    ensures upload.None? ==> r == f
    ensures upload.Some? ==>
      && r.image == upload.value.0 && r.cloudinaryId == upload.value.1
      && (forall name :: name != Image && name != CloudinaryId ==> ValueOf(r, name) == ValueOf(f, name))
  {
    if upload.None? then f else f.(image := upload.value.0, cloudinaryId := upload.value.1)
  }

  datatype Method = Put | Post
  datatype Request = Request(verb: Method, path: string, body: UserForm)

  /** `handleSubmit`: nothing is sent when the passwords differ; otherwise
      PUT `/users/edit/:id` in edit mode (an id in the route), else POST
      `/users/add`, carrying the whole form. */
  function SubmitRequest(idParam: Option<string>, f: UserForm): (r: Option<Request>)
    ensures r.None? <==> f.password != f.confirmPassword
    ensures r.Some? ==> r.value.body == f
    ensures r.Some? ==> (r.value.verb == Put <==> idParam.Some? && idParam.value != "")
    ensures r.Some? && r.value.verb == Put ==> r.value.path == "/users/edit/" + idParam.value
    ensures r.Some? && r.value.verb == Post ==> r.value.path == "/users/add"
  {
    if f.password != f.confirmPassword then None
    else if idParam.Some? && idParam.value != "" then Some(Request(Put, "/users/edit/" + idParam.value, f))
    else Some(Request(Post, "/users/add", f))
  }

  /** The body the server reads from the form; it ignores
      `confirmPassword`. */
  function BodyOf(f: UserForm): (b: UserController.UserBody)
    ensures b.password == Some(f.password)
    ensures b.firstName == f.firstName && b.lastName == f.lastName && b.image == f.image
    ensures b.cloudinaryId == f.cloudinaryId && b.role == f.role && b.username == f.username
    ensures b.contact == f.contact && b.employeeId == f.employeeId
  {
    UserController.UserBody(f.firstName, f.lastName, f.image, f.cloudinaryId, f.role,
                            f.username, f.contact, f.employeeId, Some(f.password))
  }

  /** Opening a user for editing and saving without changes sends the edit
      and leaves the stored user exactly as it was, password included. */
  lemma EditRoundTrip(u: UserController.User, id: string, salt: nat)
    requires id != ""
    ensures var f := EditDefaults(UserController.UserJson(u));
      && SubmitRequest(Some(id), f) == Some(Request(Put, "/users/edit/" + id, f))
      && UserController.Edited(u, BodyOf(f), salt) == u
  {
    LoadedProfile(u);
  }

  /** The edit form shows the fetched user's profile as it is stored. */
  lemma LoadedProfile(u: UserController.User)
    ensures var f := EditDefaults(UserController.UserJson(u));
      && f.firstName == u.firstName && f.lastName == u.lastName && f.image == u.image
      && f.cloudinaryId == u.cloudinaryId && f.role == u.role && f.username == u.username
      && f.contact == u.contact && f.employeeId == u.employeeId
  {
    var j := UserController.UserJson(u);
    assert && j.fields["firstName"] == JStr(u.firstName) && j.fields["lastName"] == JStr(u.lastName)
           && j.fields["image"] == JStr(u.image) && j.fields["cloudinaryId"] == JStr(u.cloudinaryId)
           && j.fields["role"] == JStr(u.role) && j.fields["username"] == JStr(u.username)
           && j.fields["contact"] == JStr(u.contact) && j.fields["employeeId"] == JStr(u.employeeId);
  }

  /** A new, confirmed password typed into the edit form is the one that
      logs in after the save. */
  lemma NewPasswordLogsIn(u: UserController.User, f: UserForm, id: string, salt: nat, p: string)
    requires f.password == f.confirmPassword != ""
    ensures SubmitRequest(Some(id), f).Some?
    ensures Crypto.Compare(p, UserController.Edited(u, BodyOf(f), salt).password) <==> p == f.password
  {
    UserController.EditedLogin(u, BodyOf(f), salt, p);
  }
}
