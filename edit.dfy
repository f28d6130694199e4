/**
 * The edit page for one post: it loads the post into its form, lets the user
 * change the texts and pick a new image, and sends the whole form back as an
 * update. The outcomes of its HTTP requests are parameters.
 */
module Edit {
  import opened Wrappers
  import opened PostModel
  import opened Multipart

  /** The edit form: the texts, a newly chosen file, and the URL of the image the post already has. */
  datatype EditForm = EditForm(fields: Fields, image: Option<Upload>, existingImage: Option<string>)

  /** The form before the post has arrived. */
  const InitialForm := EditForm(Fields("", "", "", "Active", ""), None, None)

  /** The form filled from a fetched post: each of its texts, its image as the existing one, no new file. */
  function FormFromPost(p: Post): (r: EditForm)
    ensures forall f :: r.fields.Get(f) == p.fields.Get(f)
    ensures r.image == None && r.existingImage == p.image
  {
    EditForm(p.fields, None, p.image)
  }

  /** The multipart body `handleSubmit` sends: the five texts, `_method=PUT`, then the new image if one was chosen. */
  function UpdatePayload(form: EditForm): seq<Entry>
  {
    FieldParts(form.fields) + [Entry("_method", TextPart("PUT"))] + ImagePart(form.image)
  }

  /** The parts of the update payload in order: five texts, `_method=PUT`, then the image if one was chosen. */
  lemma {:induction false} UpdatePayloadOrder(form: EditForm)
    ensures |UpdatePayload(form)| == if form.image.Some? then 7 else 6
    ensures Names(UpdatePayload(form))[..6] == ["title", "author", "category", "status", "content", "_method"]
    ensures UpdatePayload(form)[5] == Entry("_method", TextPart("PUT"))
    ensures form.image.Some? ==> UpdatePayload(form)[6] == Entry("image", FilePart(form.image.value))
  {
    var data := UpdatePayload(form);
    var names := Names(data);
    assert names[..6] == [names[0], names[1], names[2], names[3], names[4], names[5]];
  }

  /** Every one of the five texts is in the update payload, whichever were edited. */
  lemma {:induction false} UpdatePayloadCarriesAllFields(form: EditForm)
    ensures forall f :: Entry(Name(f), TextPart(form.fields.Get(f))) in UpdatePayload(form)
  {
    var data := UpdatePayload(form);
    forall f ensures Entry(Name(f), TextPart(form.fields.Get(f))) in data {
      match f
      case Title => assert data[0] == Entry(Name(f), TextPart(form.fields.Get(f)));
      case Author => assert data[1] == Entry(Name(f), TextPart(form.fields.Get(f)));
      case Category => assert data[2] == Entry(Name(f), TextPart(form.fields.Get(f)));
      case Status => assert data[3] == Entry(Name(f), TextPart(form.fields.Get(f)));
      case Content => assert data[4] == Entry(Name(f), TextPart(form.fields.Get(f)));
    }
  }

  /** An "image" part is sent exactly when a new file was chosen. */
  lemma {:induction false} UpdatePayloadImage(form: EditForm)
    ensures (exists i :: 0 <= i < |UpdatePayload(form)| && UpdatePayload(form)[i].name == "image") <==> form.image.Some?
  {
    var data := UpdatePayload(form);
    UpdatePayloadOrder(form);
    if form.image.Some? {
      assert data[6].name == "image";
    } else {
      forall i | 0 <= i < |data| ensures data[i].name != "image" {
        assert Names(data)[i] == Names(data)[..6][i];
      }
    }
  }

  /**
   * The update payload always carries all five texts, in order, and then
   * `_method=PUT`, whichever fields were edited; it carries the image only
   * when a new file was chosen, and never the existing image.
   */
  lemma {:induction false} UpdatePayloadShape(form: EditForm)
    ensures Names(UpdatePayload(form))[..6] == ["title", "author", "category", "status", "content", "_method"]
    ensures forall f :: Entry(Name(f), TextPart(form.fields.Get(f))) in UpdatePayload(form)
    ensures UpdatePayload(form)[5] == Entry("_method", TextPart("PUT"))
    ensures |UpdatePayload(form)| == if form.image.Some? then 7 else 6
    ensures (exists i :: 0 <= i < |UpdatePayload(form)| && UpdatePayload(form)[i].name == "image") <==> form.image.Some?
    ensures form.image.Some? ==> UpdatePayload(form)[6] == Entry("image", FilePart(form.image.value))
    ensures forall e :: UpdatePayload(form) == UpdatePayload(form.(existingImage := e))
  {
    UpdatePayloadOrder(form);
    UpdatePayloadCarriesAllFields(form);
    UpdatePayloadImage(form);
  }

  class EditPage {
    /** The `id` route parameter. */
    const postId: int
    var loading: bool
    var formData: EditForm

    constructor (postId: int)
      ensures this.postId == postId
      ensures loading && formData == InitialForm
    {
      this.postId := postId;
      loading := true;
      formData := InitialForm;
    }

    /**
     * `fetchPost`: on success the post is copied into the form field by field,
     * its image becoming the existing image and no new file being chosen;
     * either way loading ends.
     */
    method FetchPost(fetched: Option<Post>)
      modifies this`loading, this`formData
      ensures !loading
      ensures fetched.Some? ==>
        && formData.fields == fetched.value.fields
        && formData.existingImage == fetched.value.image
        && formData.image == None
      ensures fetched.None? ==> formData == old(formData)
    {
      if fetched.Some? {
        formData := FormFromPost(fetched.value);
        loading := false;
      } else {
        loading := false;
      }
    }

    /** `handleInputChange`: only the named field changes. */
    method HandleInputChange(name: Field, value: string)
      modifies this`formData
      ensures formData.fields.Get(name) == value
      ensures forall g :: g != name ==> formData.fields.Get(g) == old(formData.fields.Get(g))
      ensures formData.image == old(formData.image) && formData.existingImage == old(formData.existingImage)
    {
      formData := formData.(fields := formData.fields.With(name, value));
    }

    /** `handleFileChange`: only the new image changes; the existing image is never touched. */
    method HandleFileChange(file: Option<Upload>)
      modifies this`formData
      ensures formData.image == file
      ensures formData.fields == old(formData.fields) && formData.existingImage == old(formData.existingImage)
    {
      formData := formData.(image := file);
    }

    /**
     * `handleSubmit`: builds the update payload part by part and addresses it
     * to `postId`; UpdatePayloadShape says what the payload holds.
     */
    method HandleSubmit() returns (target: int, data: seq<Entry>)
      ensures target == postId
      ensures data == UpdatePayload(formData)
    {
      var body := new FormData();
      body.Append("title", TextPart(formData.fields.title));
      body.Append("author", TextPart(formData.fields.author));
      body.Append("category", TextPart(formData.fields.category));
      body.Append("status", TextPart(formData.fields.status));
      body.Append("content", TextPart(formData.fields.content));
      body.Append("_method", TextPart("PUT"));
      if formData.image.Some? {
        body.Append("image", FilePart(formData.image.value));
      }
      target := postId;
      data := body.entries;
    }
  }
}
