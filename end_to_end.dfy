/**
 * The two sides together: how a page's multipart payload arrives at the
 * controller as request input, what the controller makes of the payloads the
 * pages send, and an example run of the API.
 */
module EndToEnd {
  import opened Wrappers
  import opened Strings
  import opened PostModel
  import opened Multipart
  import opened PostController
  import Home
  import Edit

  // ----- receiving a multipart body -----------------------------------------

  /**
   * One part as the framework receives it: a text part becomes the input
   * field of its name (a later part of the same name replaces an earlier
   * one), a file part named "image" becomes the uploaded file, and other file
   * parts are not looked at by the controller.
   */
  function Receive(r: Request, e: Entry): Request
  {
    match e.value
    case TextPart(s) => r.(fields := r.fields[e.name := Text(s)])
    case FilePart(u) => if e.name == "image" then r.(file := Some(u)) else r
  }

  function ReceiveAll(r: Request, entries: seq<Entry>): Request
    decreases |entries|
  {
    if entries == [] then r else ReceiveAll(Receive(r, entries[0]), entries[1..])
  }

  /** The request input the controller sees for a multipart body. */
  function RequestOf(entries: seq<Entry>): Request
  {
    ReceiveAll(Request(map[], None), entries)
  }

  lemma {:induction false} ReceiveAllAppend(r: Request, a: seq<Entry>, b: seq<Entry>)
    ensures ReceiveAll(r, a + b) == ReceiveAll(ReceiveAll(r, a), b)
    decreases |a|
  {
    if a != [] {
      assert (a + b)[0] == a[0];
      assert (a + b)[1..] == a[1..] + b;
      ReceiveAllAppend(Receive(r, a[0]), a[1..], b);
    } else {
      assert a + b == b;
    }
  }

  /** The input fields the five text parts produce. */
  function TextInputs(fields: Fields): map<string, Input>
  {
    map["title" := Text(fields.title), "author" := Text(fields.author), "category" := Text(fields.category),
        "status" := Text(fields.status), "content" := Text(fields.content)]
  }

  lemma {:induction false} ReceiveFieldParts(fields: Fields)
    ensures RequestOf(FieldParts(fields)) == Request(TextInputs(fields), None)
  {
    var p := FieldParts(fields);
    var r0 := Request(map[], None);
    assert p == [p[0]] + [p[1]] + [p[2]] + [p[3]] + [p[4]];
    ReceiveAllAppend(r0, [p[0]] + [p[1]] + [p[2]] + [p[3]], [p[4]]);
    ReceiveAllAppend(r0, [p[0]] + [p[1]] + [p[2]], [p[3]]);
    ReceiveAllAppend(r0, [p[0]] + [p[1]], [p[2]]);
    ReceiveAllAppend(r0, [p[0]], [p[1]]);
  }

  lemma ReceiveImagePart(r: Request, image: Option<Upload>)
    ensures ReceiveAll(r, ImagePart(image)) == if image.Some? then r.(file := image) else r
  {
  }

  /** The create payload arrives as the five texts and the chosen file. */
  lemma {:induction false} RequestOfCreatePayload(form: Home.CreateForm)
    ensures RequestOf(Home.CreatePayload(form)) == Request(TextInputs(form.fields), form.image)
  {
    ReceiveAllAppend(Request(map[], None), FieldParts(form.fields), ImagePart(form.image));
    ReceiveFieldParts(form.fields);
    ReceiveImagePart(Request(TextInputs(form.fields), None), form.image);
  }

  /** The update payload arrives as the five texts, `_method`, and the newly chosen file. */
  lemma {:induction false} RequestOfUpdatePayload(form: Edit.EditForm)
    ensures RequestOf(Edit.UpdatePayload(form)) ==
            Request(TextInputs(form.fields)["_method" := Text("PUT")], form.image)
  {
    var r0 := Request(map[], None);
    var texts := FieldParts(form.fields);
    var spoof := [Entry("_method", TextPart("PUT"))];
    ReceiveAllAppend(r0, texts + spoof, ImagePart(form.image));
    ReceiveAllAppend(r0, texts, spoof);
    ReceiveFieldParts(form.fields);
    ReceiveImagePart(Request(TextInputs(form.fields)["_method" := Text("PUT")], None), form.image);
  }

  // ----- what the controller makes of the pages' payloads -------------------

  lemma TextInputsPass(fields: Fields, f: Field)
    ensures Name(f) in TextInputs(fields) && TextInputs(fields)[Name(f)] == Text(fields.Get(f))
  {
  }

  /**
   * The create form is accepted exactly when each of its texts, once
   * trimmed, is non-empty and within its bound; the validated texts are then
   * the trimmed form texts, and a well-formed form is taken as it is.
   */
  lemma {:induction false} CreateFormAcceptedIffFilled(form: Home.CreateForm)
    ensures ValidateCreate(RequestOf(Home.CreatePayload(form))).Success? <==>
            forall f :: 0 < |Trim(form.fields.Get(f))| <= MaxLength(f)
    ensures ValidateCreate(RequestOf(Home.CreatePayload(form))).Success? ==>
            forall f :: ValidateCreate(RequestOf(Home.CreatePayload(form))).value[f] == Trim(form.fields.Get(f))
    ensures WellFormed(form.fields) ==>
            && ValidateCreate(RequestOf(Home.CreatePayload(form))).Success?
            && forall f :: ValidateCreate(RequestOf(Home.CreatePayload(form))).value[f] == form.fields.Get(f)
  {
    RequestOfCreatePayload(form);
    var req := RequestOf(Home.CreatePayload(form));
    var v := ValidateCreate(req);
    assert forall f :: PassesRequired(req, f) <==> 0 < |Trim(form.fields.Get(f))| <= MaxLength(f) by {
      forall f ensures PassesRequired(req, f) <==> 0 < |Trim(form.fields.Get(f))| <= MaxLength(f) {
        TextInputsPass(form.fields, f);
      }
    }
    assert v.Success? ==> forall f :: v.value[f] == Trim(form.fields.Get(f)) by {
      if v.Success? {
        forall f ensures v.value[f] == Trim(form.fields.Get(f)) {
          TextInputsPass(form.fields, f);
        }
      }
    }
    if WellFormed(form.fields) {
      forall f ensures Trim(form.fields.Get(f)) == form.fields.Get(f) {
        TrimKeepsTrimmed(form.fields.Get(f));
      }
    }
  }

  /** The form as reset after a create cannot be sent again unchanged: all but the status are missing. */
  lemma {:induction false} EmptyFormRejected()
    ensures var v := ValidateCreate(RequestOf(Home.CreatePayload(Home.EmptyForm)));
            v.Failure? && v.error == {"title", "author", "category", "content"}
  {
    RequestOfCreatePayload(Home.EmptyForm);
    var req := RequestOf(Home.CreatePayload(Home.EmptyForm));
    forall f ensures PassesRequired(req, f) <==> f == Status {
      TextInputsPass(Home.EmptyForm.fields, f);
      TrimKeepsTrimmed("Active");
    }
    var v := ValidateCreate(req);
    assert v.Failure? && forall f :: Name(f) in v.error <==> f != Status;
    forall n | n in v.error ensures n in {"title", "author", "category", "content"} {
      var f :| n == Name(f);
    }
    assert Name(Title) in v.error && Name(Author) in v.error && Name(Category) in v.error && Name(Content) in v.error;
  }

  /**
   * Loading a well-formed post into the edit form and submitting it without
   * changes passes the update rules and leaves the post exactly as it was.
   */
  lemma {:induction false} UnchangedEditKeepsPost(p: Post)
    requires WellFormed(p.fields)
    ensures ValidateUpdate(RequestOf(Edit.UpdatePayload(Edit.FormFromPost(p)))).Success?
    ensures Fill(p, Attributes(ValidateUpdate(RequestOf(Edit.UpdatePayload(Edit.FormFromPost(p)))).value, None)) == p
  {
    var form := Edit.FormFromPost(p);
    RequestOfUpdatePayload(form);
    var req := RequestOf(Edit.UpdatePayload(form));
    forall f
      ensures Name(f) in req.fields && req.fields[Name(f)] == Text(p.fields.Get(f))
      ensures Trim(p.fields.Get(f)) == p.fields.Get(f)
    {
      TextInputsPass(p.fields, f);
      TrimKeepsTrimmed(p.fields.Get(f));
    }
    assert ValidateUpdate(req).Success? by {
      assert PassesImageRule(req);
      assert forall f :: PassesSometimes(req, f);
    }
    UpdatedFields(req, p, None);
    var q := Fill(p, Attributes(ValidateUpdate(req).value, None));
    forall f ensures q.fields.Get(f) == p.fields.Get(f) {
      assert req.fields[Name(f)].s == p.fields.Get(f);
    }
    FieldsExtensional(q.fields, p.fields);
  }

  /**
   * Only an update checks the image: a request whose texts pass and whose
   * file is not an acceptable image is created, yet refused as an update
   * with "image" as the only failing attribute.
   */
  lemma OnlyUpdateChecksImage(req: Request)
    requires forall f :: PassesRequired(req, f)
    requires req.file.Some? && !PassesImageRule(req)
    ensures ValidateCreate(req).Success?
    ensures ValidateUpdate(req).Failure?
    ensures "image" in ValidateUpdate(req).error && forall f :: Name(f) !in ValidateUpdate(req).error
  {
  }

  // ----- runs of the system -------------------------------------------------

  /**
   * Opening the edit page for any id and submitting it untouched never
   * changes the table: an unknown id fails with 404, a known one is written
   * back as it was.
   */
  method UntouchedEditChangesNothing(store: PostStore, page: Edit.EditPage, now: nat)
      returns (r: Response)
    requires store.Valid()
    modifies store, page
    ensures store.Valid()
    ensures store.table == old(store.table) && store.nextId == old(store.nextId)
    ensures r.status == (if page.postId in old(store.table) then 200 else 404)
  {
    var got := store.GetPost(page.postId);
    page.FetchPost(if got.status == 200 then Some(got.payload.post) else None);
    var target, data := page.HandleSubmit();
    r := store.UpdatePost(target, RequestOf(data), now);
    if page.postId in old(store.table) {
      var p := old(store.table)[page.postId];
      assert page.formData == Edit.FormFromPost(p);
      UnchangedEditKeepsPost(p);
      RequestOfUpdatePayload(page.formData);
      assert store.UploadedImageUrl(RequestOf(data), now) == None;
      assert store.table[page.postId] == p;
      assert store.table == old(store.table)[page.postId := p];
    }
  }

  /** Adding a key, overwriting it and removing it again leaves a map as it was. */
  lemma RemovingNewKeyRestores<K, V>(m: map<K, V>, k: K, v: V, w: V)
    requires k !in m
    ensures m[k := v][k := w] - {k} == m
  {
    assert m[k := v][k := w] == m[k := w];
  }

  /** The request that creates the example post, and the one that changes only its status. */
  const ExampleCreate := Request(map["title" := Text("A"), "author" := Text("B"), "category" := Text("C"),
                                     "status" := Text("Active"), "content" := Text("hi")], None)
  const ExampleChange := Request(map["status" := Text("Inactive")], None)

  lemma ExampleRequestsPass()
    ensures forall f :: PassesRequired(ExampleCreate, f)
    ensures (forall f :: PassesSometimes(ExampleChange, f)) && PassesImageRule(ExampleChange)
  {
    forall f ensures PassesRequired(ExampleCreate, f) {
      match f
      case Title => TrimKeepsTrimmed("A");
      case Author => TrimKeepsTrimmed("B");
      case Category => TrimKeepsTrimmed("C");
      case Status => TrimKeepsTrimmed("Active");
      case Content => TrimKeepsTrimmed("hi");
    }
    forall f ensures PassesSometimes(ExampleChange, f) {
      match f
      case Title =>
      case Author =>
      case Category =>
      case Status => TrimKeepsTrimmed("Inactive");
      case Content =>
    }
  }

  /**
   * The example run: create a post, read it back, change only its status,
   * delete it, and read it again.
   */
  method ExampleRun(store: PostStore, now: nat) returns (statuses: seq<nat>)
    requires store.Valid()
    modifies store
    ensures store.Valid()
    ensures statuses == [201, 200, 200, 200, 404]
    ensures store.table == old(store.table)
    ensures store.nextId == old(store.nextId) + 1
  {
    ExampleRequestsPass();
    var id := store.nextId;
    var created := store.CreateNewPost(ExampleCreate, now, true);
    ghost var inserted := store.table[id];
    var got := store.GetPost(id);
    var updated := store.UpdatePost(id, ExampleChange, now);
    ghost var changed := store.table[id];
    var deleted := store.DeletePost(id);
    var gone := store.GetPost(id);
    RemovingNewKeyRestores(old(store.table), id, inserted, changed);
    statuses := [created.status, got.status, updated.status, deleted.status, gone.status];
  }
}
