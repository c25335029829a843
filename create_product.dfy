/** client/src/pages/CreateProduct.jsx: the product form. It keeps the
    product's image URLs and their Cloudinary ids in two parallel lists,
    which every handler extends or shrinks together. */
module CreateProduct {
  import opened Wrappers
  import opened Json
  import Query
  import ClientGate
  import AuthController
  import PermissionSchema
  import ProductController

  /** A `technicalCheck` entry: the checkboxes hold booleans, the three
      select inputs strings. */
  datatype CheckValue = CheckText(s: string) | CheckBox(b: bool)

  /** `formData`: the top-level text fields, the two image lists and the
      nested `technicalCheck` object. */
  datatype Form = Form(fields: map<string, string>, imageUrl: seq<string>, cloudinaryId: seq<string>,
                       technicalCheck: map<string, CheckValue>)

  /** The lists side by side: the i-th URL belongs to the i-th id. */
  predicate Paired(f: Form) {
    |f.imageUrl| == |f.cloudinaryId|
  }

  const TextFields: seq<string> :=
    ["serialNumber", "year", "deviceSize", "deviceType", "emcNumber", "cpu", "gpu", "modelNumber",
     "identifier", "memory", "storageType", "batteryCapacity", "batteryCycles", "storageSize", "source",
     "warehouse", "marketplace", "status", "fullUnitGrade", "topCaseGrade", "lcdGrade", "notes",
     "technicalNotes"]
  const CheckBoxes: seq<string> :=
    ["trackPad", "keyboard", "lcdGhostPeel", "soundHeadphoneJack", "microphone", "usbPorts",
     "bluetoothWifi", "cameraFaceTime"]
  const CheckTexts: seq<string> := ["findMyMac", "mdm", "appleCare"]

  /** The empty form, both at mount and after a successful submit;
      `createdBy` is the signed-in user's name, or "" without one. */
  function InitialForm(createdBy: string): (f: Form)
    ensures Paired(f) && f.imageUrl == []
  {
    var texts := map k | k in TextFields :: "";
    var boxes := map k | k in CheckBoxes :: CheckBox(false);
    var selects := map k | k in CheckTexts :: CheckText("");
    Form(texts["createdBy" := createdBy], [], [], boxes + selects)
  }

  /** Every text field starts empty, `createdBy` holds the user, every
      checkbox is unchecked and every select empty. */
  lemma InitialFormShape(createdBy: string, k: string)
    ensures var f := InitialForm(createdBy);
      && (k in f.fields <==> k in TextFields || k == "createdBy")
      && (k in TextFields ==> f.fields[k] == "")
      && f.fields["createdBy"] == createdBy
      && (k in f.technicalCheck <==> k in CheckBoxes || k in CheckTexts)
      && (k in CheckBoxes ==> f.technicalCheck[k] == CheckBox(false))
      && (k in CheckTexts ==> f.technicalCheck[k] == CheckText(""))
  {
    assert "createdBy" !in TextFields;
    assert forall j :: 0 <= j < |CheckBoxes| ==> CheckBoxes[j] !in CheckTexts;
  }

  // ------------------------------------------------------- toggleSection

  /** `toggleSection(section)`. */
  function ToggleSection(open: set<string>, section: string): (r: set<string>)
    ensures section in r <==> section !in open
    ensures forall s :: s != section ==> (s in r <==> s in open)
  {
    if section in open then open - {section} else open + {section}
  }

  /** Opening and closing a section (or the reverse) leaves the set as it was. */
  lemma ToggleSectionTwice(open: set<string>, section: string)
    ensures ToggleSection(ToggleSection(open, section), section) == open
  {
    var r := ToggleSection(ToggleSection(open, section), section);
    assert forall s :: s in r <==> s in open;
  }

  // -------------------------------------------------------- handleChange

  /** The changed input's `name`, `value`, `type` and `checked`. */
  datatype Input = Input(name: string, value: string, isCheckbox: bool, checked: bool)

  /** `handleChange(e)`: a `technicalCheck` key updates that nested entry
      (its `checked` state for a checkbox), any other name the top-level
      field. */
  function Changed(f: Form, e: Input): (r: Form)
    ensures r.imageUrl == f.imageUrl && r.cloudinaryId == f.cloudinaryId
    ensures e.name in f.technicalCheck ==>
      && r.fields == f.fields
      && r.technicalCheck.Keys == f.technicalCheck.Keys
      && r.technicalCheck[e.name] == (if e.isCheckbox then CheckBox(e.checked) else CheckText(e.value))
      && (forall k :: k in f.technicalCheck && k != e.name ==> r.technicalCheck[k] == f.technicalCheck[k])
    ensures e.name !in f.technicalCheck ==>
      && r.technicalCheck == f.technicalCheck
      && r.fields.Keys == f.fields.Keys + {e.name}
      && r.fields[e.name] == e.value
      && (forall k :: k in f.fields && k != e.name ==> r.fields[k] == f.fields[k])
  {
    if e.name in f.technicalCheck then
      f.(technicalCheck := f.technicalCheck[e.name := if e.isCheckbox then CheckBox(e.checked) else CheckText(e.value)])
    else
      f.(fields := f.fields[e.name := e.value])
  }

  /** The same change made twice is the change made once. */
  lemma ChangeIdempotent(f: Form, e: Input)
    ensures Changed(Changed(f, e), e) == Changed(f, e)
  {
  }

  // --------------------------------------------------------- imageUpload

  /** What Cloudinary answered for one file: its `secure_url` and
      `public_id`, or an error (a failed request, a non-ok answer). */
  datatype Upload = Uploaded(url: string, publicId: string) | UploadFailed

  /** The successful uploads, in file order. */
  function Successes(files: seq<Upload>): (r: seq<Upload>)
    ensures |r| <= |files|
    ensures forall k :: 0 <= k < |r| ==> r[k].Uploaded? && r[k] in files
    decreases |files|
  {
    if files == [] then []
    else if files[0].Uploaded? then [files[0]] + Successes(files[1..])
    else Successes(files[1..])
  }

  /** No file's upload is lost: every success is among the results. */
  lemma {:induction false} SuccessesKept(files: seq<Upload>, u: Upload)
    requires u in files && u.Uploaded?
    ensures u in Successes(files)
    decreases |files|
  {
    if files[0] != u {
      SuccessesKept(files[1..], u);
    }
  }

  lemma {:induction false} SuccessesAppend(files: seq<Upload>, u: Upload)
    ensures Successes(files + [u]) == Successes(files) + (if u.Uploaded? then [u] else [])
    decreases |files|
  {
    if files == [] {
      assert [u][1..] == [];
    } else {
      assert (files + [u])[1..] == files[1..] + [u];
      SuccessesAppend(files[1..], u);
    }
  }

  function Urls(us: seq<Upload>): (r: seq<string>)
    requires forall k :: 0 <= k < |us| ==> us[k].Uploaded?
    ensures |r| == |us|
    ensures forall k :: 0 <= k < |us| ==> r[k] == us[k].url
  {
    seq(|us|, k requires 0 <= k < |us| => us[k].url)
  }

  function Ids(us: seq<Upload>): (r: seq<string>)
    requires forall k :: 0 <= k < |us| ==> us[k].Uploaded?
    ensures |r| == |us|
    ensures forall k :: 0 <= k < |us| ==> r[k] == us[k].publicId
  {
    seq(|us|, k requires 0 <= k < |us| => us[k].publicId)
  }

  /** `imageUpload`: the files are uploaded one at a time and the successes
      collected in `uploadedImages` and `uploadedPreviews`; then both form
      lists and the previews grow by them, in file order. */
  method ImageUpload(f: Form, previews: seq<string>, files: seq<Upload>) returns (g: Form, shown: seq<string>)
    ensures g.fields == f.fields && g.technicalCheck == f.technicalCheck
    ensures g.imageUrl == f.imageUrl + Urls(Successes(files))
    ensures g.cloudinaryId == f.cloudinaryId + Ids(Successes(files))
    ensures shown == previews + Urls(Successes(files))
  {
    var uploadedImages: seq<Upload> := [];
    var uploadedPreviews: seq<string> := [];
    var i := 0;
    while i < |files|
      invariant 0 <= i <= |files|
      invariant uploadedImages == Successes(files[..i])
      invariant uploadedPreviews == Urls(uploadedImages)
    {
      assert files[..i + 1] == files[..i] + [files[i]];
      SuccessesAppend(files[..i], files[i]);
      if files[i].Uploaded? {
        uploadedImages := uploadedImages + [files[i]];
        uploadedPreviews := uploadedPreviews + [files[i].url];
      }
      i := i + 1;
    }
    assert files[..i] == files;
    g := f.(imageUrl := f.imageUrl + Urls(uploadedImages), cloudinaryId := f.cloudinaryId + Ids(uploadedImages));
    shown := previews + uploadedPreviews;
  }

  /** An upload keeps the two lists paired, and the k-th new entry of both
      is the k-th successful file. */
  lemma UploadKeepsPairs(f: Form, files: seq<Upload>, k: nat)
    requires Paired(f)
    requires k < |Successes(files)|
    ensures var us := Successes(files);
      var g := f.(imageUrl := f.imageUrl + Urls(us), cloudinaryId := f.cloudinaryId + Ids(us));
      && Paired(g)
      && g.imageUrl[|f.imageUrl| + k] == us[k].url
      && g.cloudinaryId[|f.cloudinaryId| + k] == us[k].publicId
  {
  }

  // --------------------------------------------------------- removeImage

  /** `list.filter((_, i) => i !== index)`: the entry at index goes, the rest
      keep their order; any other index removes nothing. */
  function WithoutIndex<T>(s: seq<T>, index: int): (r: seq<T>)
    ensures 0 <= index < |s| ==> |r| == |s| - 1
    ensures !(0 <= index < |s|) ==> r == s
  {
    if 0 <= index < |s| then Query.RemoveAt(s, index) else s
  }

  /** `removeImage(index)` on the form and on the previews. */
  function RemoveImage(f: Form, previews: seq<string>, index: int): (r: (Form, seq<string>))
    ensures r.0.fields == f.fields && r.0.technicalCheck == f.technicalCheck
    ensures r.0.imageUrl == WithoutIndex(f.imageUrl, index)
    ensures r.0.cloudinaryId == WithoutIndex(f.cloudinaryId, index)
    ensures r.1 == WithoutIndex(previews, index)
  {
    (f.(imageUrl := WithoutIndex(f.imageUrl, index), cloudinaryId := WithoutIndex(f.cloudinaryId, index)),
     WithoutIndex(previews, index))
  }

  /** Removing an image keeps the lists paired: every remaining URL keeps
      its own id. */
  lemma RemoveKeepsPairs(f: Form, previews: seq<string>, index: int)
    requires Paired(f)
    ensures var g := RemoveImage(f, previews, index).0;
      && Paired(g)
      && (forall j :: 0 <= j < |g.imageUrl| ==>
            var src := if 0 <= index <= j then j + 1 else j;
            g.imageUrl[j] == f.imageUrl[src] && g.cloudinaryId[j] == f.cloudinaryId[src])
  {
  }

  // -------------------------------------------------------- handleSubmit

  /** The request the form sends. */
  datatype Request = Put(path: string, body: Form) | Post(path: string, body: Form)

  /** With a serial in the route the product is updated by PUT
      `/products?serialNumber=...`, otherwise created by POST `/products`. */
  function SubmitRequest(serialParam: Option<string>, f: Form): (r: Request)
    ensures r.body == f
    ensures r.Put? <==> serialParam.Some? && serialParam.value != ""
    ensures r.Put? ==> r.path == "/products?serialNumber=" + serialParam.value
    ensures r.Post? ==> r.path == "/products"
  {
    if serialParam.Some? && serialParam.value != "" then Put("/products?serialNumber=" + serialParam.value, f)
    else Post("/products", f)
  }

  /** The JSON body axios sends for the form. */
  function FormDoc(f: Form): Doc {
    var texts := map k | k in f.fields :: JStr(f.fields[k]);
    var checks := map k | k in f.technicalCheck ::
      match f.technicalCheck[k] case CheckText(s) => JStr(s) case CheckBox(b) => JBool(b);
    texts["imageUrl" := JArr(seq(|f.imageUrl|, i requires 0 <= i < |f.imageUrl| => JStr(f.imageUrl[i])))]
         ["cloudinaryId" := JArr(seq(|f.cloudinaryId|, i requires 0 <= i < |f.cloudinaryId| => JStr(f.cloudinaryId[i])))]
         ["technicalCheck" := JObj(checks)]
  }

  /** Adding a product from the untouched form fails on the server: its
      selects hold "", which the schema's enums refuse. */
  lemma UntouchedFormRejected(createdBy: string)
    ensures !ProductController.EnumsValid(FormDoc(InitialForm(createdBy)))
  {
    InitialFormShape(createdBy, "findMyMac");
    var d := FormDoc(InitialForm(createdBy));
    assert d["technicalCheck"].fields["findMyMac"] == JStr("");
    ProductController.EmptySelectRejected(d, "findMyMac");
  }

  /** After the request: on success the form is reset (with the same
      `createdBy`) and the previews cleared; on failure nothing changes. */
  function Submitted(f: Form, previews: seq<string>, succeeded: bool, createdBy: string): (r: (Form, seq<string>))
    ensures succeeded ==> r.0 == InitialForm(createdBy) && r.1 == []
    ensures !succeeded ==> r == (f, previews)
  {
    if succeeded then (InitialForm(createdBy), []) else (f, previews)
  }

  /** The submit button is rendered only with `checkIn.checkin` in the
      first permission record. */
  predicate SubmitShown(session: Option<Json>) {
    ClientGate.CanDo(session, "checkIn", "checkin")
  }

  /** After a login, the button shows exactly when the role's first
      permission record grants check-in. */
  lemma SubmitShownAfterLogin(o: AuthController.LoginOutcome)
    requires o.LoggedIn?
    ensures SubmitShown(Some(ClientGate.LoginSession(o))) <==>
      |o.permissions| > 0 && PermissionSchema.Flag(o.permissions[0].permissions, "checkIn", "checkin")
  {
    ClientGate.LoginSessionGate(o, "checkIn", "checkin");
  }
}
