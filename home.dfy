/**
 * The list page: the posts table with its title search, the create overlay
 * and its form, and the delete confirmation dialog. Each handler is a state
 * transition of the page; the outcome of its HTTP request is a parameter.
 */
module Home {
  import opened Wrappers
  import opened Strings
  import opened Sequences
  import opened PostModel
  import opened Multipart

  /** The create form: five texts and the chosen file, if any. */
  datatype CreateForm = CreateForm(fields: Fields, image: Option<Upload>)

  /** The form as first shown and as reset after a successful create. */
  const EmptyForm := CreateForm(Fields("", "", "", "Active", ""), None)

  // ----- search -------------------------------------------------------------

  /** `post.title.toLowerCase().includes(searchTerm.toLowerCase())` */
  predicate TitleMatches(searchTerm: string, p: Post)
  {
    Includes(Lower(p.fields.title), Lower(searchTerm))
  }

  /**
   * `filteredPosts`: the posts whose title contains the search term, ignoring
   * case, in list order, each as often as it is listed.
   */
  function FilteredPosts(posts: seq<Post>, searchTerm: string): (r: seq<Post>)
    ensures IsSubsequence(r, posts)
    ensures forall p :: p in r ==> exists i :: OccursAt(Lower(p.fields.title), Lower(searchTerm), i)
    ensures forall p :: multiset(r)[p] == if TitleMatches(searchTerm, p) then multiset(posts)[p] else 0
  {
    Filter(posts, p => TitleMatches(searchTerm, p))
  }

  /** An empty search shows every post. */
  lemma EmptySearchShowsAll(posts: seq<Post>)
    ensures FilteredPosts(posts, "") == posts
  {
    forall p | p in posts ensures TitleMatches("", p) {
      IncludesEmpty(Lower(p.fields.title));
    }
    FilterKeepsAll(posts, p => TitleMatches("", p));
  }

  // ----- status badge -------------------------------------------------------

  datatype Badge = Green | Red

  /**
   * The status cell's colour: green exactly when the status is "active" or
   * "published" in any mix of case, red otherwise (also when it is empty).
   */
  function StatusBadge(status: string): (b: Badge)
    ensures b == Green <==> SpellsAnyCase(status, "active") || SpellsAnyCase(status, "published")
  {
    LowerEqualsIffSpellsAnyCase(status, "active");
    LowerEqualsIffSpellsAnyCase(status, "published");
    if status != "" && (Lower(status) == "active" || Lower(status) == "published") then Green else Red
  }

  /** The three statuses the form offers, and the empty status. */
  lemma StatusBadgeOfFormChoices()
    ensures StatusBadge("Active") == Green
    ensures StatusBadge("Published") == Green
    ensures StatusBadge("Inactive") == Red
    ensures StatusBadge("") == Red
  {
    assert SpellsAnyCase("Active", "active");
    assert SpellsAnyCase("Published", "published");
  }

  // ----- delete -------------------------------------------------------------

  /** `posts.filter(post => post.id !== deleteId)` */
  function WithoutId(posts: seq<Post>, id: int): (r: seq<Post>)
    ensures IsSubsequence(r, posts)
    ensures forall p :: p in r ==> p.id != id
    ensures forall p :: p in posts && p.id != id ==> p in r
    ensures forall p: Post :: p.id != id ==> multiset(r)[p] == multiset(posts)[p]
  {
    var r := Filter(posts, (p: Post) => p.id != id);
    forall p | p in posts && p.id != id ensures p in r {
      assert multiset(posts)[p] > 0;
    }
    r
  }

  /** `!deleteId` on a number or null: true for no id and for the id 0, false for every other id. */
  predicate Falsy(id: Option<int>)
    ensures Falsy(id) <==> id == None || id == Some(0)
  {
    id.None? || id.value == 0
  }

  // ----- the create payload -------------------------------------------------

  /** The multipart body `handleSubmit` sends: the five texts in order, then the image if one is chosen. */
  function CreatePayload(form: CreateForm): seq<Entry>
  {
    FieldParts(form.fields) + ImagePart(form.image)
  }

  /** The create payload's parts, in order, and the image part exactly when a file is chosen. */
  lemma CreatePayloadShape(form: CreateForm)
    ensures Names(CreatePayload(form))[..5] == ["title", "author", "category", "status", "content"]
    ensures forall f :: Entry(Name(f), TextPart(form.fields.Get(f))) in CreatePayload(form)
    ensures |CreatePayload(form)| == if form.image.Some? then 6 else 5
    ensures form.image.Some? ==> CreatePayload(form)[5] == Entry("image", FilePart(form.image.value))
  {
    var data := CreatePayload(form);
    var names := Names(data);
    assert names[..5] == [names[0], names[1], names[2], names[3], names[4]];
    forall f ensures Entry(Name(f), TextPart(form.fields.Get(f))) in data {
      match f
      case Title => assert data[0] == Entry(Name(f), TextPart(form.fields.Get(f)));
      case Author => assert data[1] == Entry(Name(f), TextPart(form.fields.Get(f)));
      case Category => assert data[2] == Entry(Name(f), TextPart(form.fields.Get(f)));
      case Status => assert data[3] == Entry(Name(f), TextPart(form.fields.Get(f)));
      case Content => assert data[4] == Entry(Name(f), TextPart(form.fields.Get(f)));
    }
  }

  // ----- the page -----------------------------------------------------------

  class HomePage {
    var posts: seq<Post>
    var searchTerm: string
    var isModalOpen: bool
    var isDeleteOpen: bool
    var deleteId: Option<int>
    var formData: CreateForm

    constructor ()
      ensures posts == [] && searchTerm == ""
      ensures !isModalOpen && !isDeleteOpen && deleteId == None
      ensures formData == EmptyForm
    {
      posts := [];
      searchTerm := "";
      isModalOpen := false;
      isDeleteOpen := false;
      deleteId := None;
      formData := EmptyForm;
    }

    /** `loadPosts`: the fetched list replaces the posts; on failure nothing changes. */
    method LoadPosts(fetched: Option<seq<Post>>)
      modifies this`posts
      ensures posts == if fetched.Some? then fetched.value else old(posts)
    {
      if fetched.Some? {
        posts := fetched.value;
      }
    }

    /** The search box's `onChange`, and "Clear Search" with the empty term. */
    method SetSearchTerm(term: string)
      modifies this`searchTerm
      ensures searchTerm == term
    {
      searchTerm := term;
    }

    /** `toggleModal` */
    method ToggleModal()
      modifies this`isModalOpen
      ensures isModalOpen == !old(isModalOpen)
    {
      isModalOpen := !isModalOpen;
    }

    /** `handleInputChange`: only the named field of the form changes. */
    method HandleInputChange(name: Field, value: string)
      modifies this`formData
      ensures formData.fields.Get(name) == value
      ensures forall g :: g != name ==> formData.fields.Get(g) == old(formData.fields.Get(g))
      ensures formData.image == old(formData.image)
    {
      formData := formData.(fields := formData.fields.With(name, value));
    }

    /** `handleFileChange`: only the image changes (to nothing when the picker was cancelled). */
    method HandleFileChange(file: Option<Upload>)
      modifies this`formData
      ensures formData.image == file
      ensures formData.fields == old(formData.fields)
    {
      formData := formData.(image := file);
    }

    /**
     * `handleSubmit`: builds the create payload part by part; when the request
     * succeeds the overlay toggles and the form is reset. The list reload it
     * triggers is a separate `LoadPosts`.
     */
    method HandleSubmit(succeeded: bool) returns (data: seq<Entry>)
      modifies this`isModalOpen, this`formData
      ensures data == CreatePayload(old(formData))
      ensures succeeded ==> isModalOpen == !old(isModalOpen) && formData == EmptyForm
      ensures !succeeded ==> isModalOpen == old(isModalOpen) && formData == old(formData)
    {
      var body := new FormData();
      body.Append("title", TextPart(formData.fields.title));
      body.Append("author", TextPart(formData.fields.author));
      body.Append("category", TextPart(formData.fields.category));
      body.Append("status", TextPart(formData.fields.status));
      body.Append("content", TextPart(formData.fields.content));
      if formData.image.Some? {
        body.Append("image", FilePart(formData.image.value));
      }
      data := body.entries;
      if succeeded {
        ToggleModal();
        formData := EmptyForm;
      }
    }

    /** `confirmDelete`: remember the id and open the dialog. */
    method ConfirmDelete(id: int)
      modifies this`deleteId, this`isDeleteOpen
      ensures deleteId == Some(id) && isDeleteOpen
    {
      deleteId := Some(id);
      isDeleteOpen := true;
    }

    /** The dialog's Cancel button and its `onClose`: the chosen id is kept. */
    method CloseDeleteDialog()
      modifies this`isDeleteOpen
      ensures !isDeleteOpen
    {
      isDeleteOpen := false;
    }

    /**
     * `executeDelete`: with no id chosen nothing happens and no request is
     * sent (`target` is None); otherwise the request for deleteId is sent, and
     * on success exactly the posts with that id leave the list.
     */
    method ExecuteDelete(succeeded: bool) returns (target: Option<int>)
      modifies this`posts, this`isDeleteOpen, this`deleteId
      ensures Falsy(old(deleteId)) ==>
        target == None && posts == old(posts) && isDeleteOpen == old(isDeleteOpen) && deleteId == old(deleteId)
      ensures !Falsy(old(deleteId)) ==> target == old(deleteId) && !isDeleteOpen
      ensures !Falsy(old(deleteId)) && succeeded ==>
        posts == WithoutId(old(posts), old(deleteId).value) && deleteId == None
      ensures !Falsy(old(deleteId)) && !succeeded ==>
        posts == old(posts) && deleteId == old(deleteId)
    {
      if Falsy(deleteId) {
        return None;
      }
      target := deleteId;
      if succeeded {
        posts := WithoutId(posts, deleteId.value);
        isDeleteOpen := false;
        deleteId := None;
      } else {
        isDeleteOpen := false;
      }
    }
  }
}
