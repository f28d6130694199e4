/**
 * The one persisted entity. Its attributes are the model's fillable list:
 * title, author, category, status, content and an optional image URL; the
 * table adds the primary key `id`.
 */
module PostModel {
  import opened Wrappers

  /** The five text attributes, in the order the forms and the validator list them. */
  datatype Field = Title | Author | Category | Status | Content

  const AllFields: set<Field> := {Title, Author, Category, Status, Content}

  lemma AllFieldsComplete(f: Field)
    ensures f in AllFields
  {
  }

  /** The attribute's name in requests, responses and form payloads. */
  function Name(f: Field): string
  {
    match f
    case Title => "title"
    case Author => "author"
    case Category => "category"
    case Status => "status"
    case Content => "content"
  }

  /** The text part of a post or of a form. */
  datatype Fields = Fields(title: string, author: string, category: string, status: string, content: string)
  {
    function Get(f: Field): string
    {
      match f
      case Title => title
      case Author => author
      case Category => category
      case Status => status
      case Content => content
    }

    /** `{ ...fields, [Name(f)]: v }` */
    function With(f: Field, v: string): (r: Fields)
      ensures r.Get(f) == v
      ensures forall g :: g != f ==> r.Get(g) == Get(g)
    {
      match f
      case Title => this.(title := v)
      case Author => this.(author := v)
      case Category => this.(category := v)
      case Status => this.(status := v)
      case Content => this.(content := v)
    }
  }

  /** Two sets of texts that agree on every field are the same. */
  lemma FieldsExtensional(a: Fields, b: Fields)
    requires forall f :: a.Get(f) == b.Get(f)
    ensures a == b
  {
    assert a.Get(Title) == b.Get(Title) && a.Get(Author) == b.Get(Author) && a.Get(Category) == b.Get(Category);
    assert a.Get(Status) == b.Get(Status) && a.Get(Content) == b.Get(Content);
  }

  const EmptyFields := Fields("", "", "", "", "")

  datatype Post = Post(id: int, fields: Fields, image: Option<string>)

  /**
   * The attributes handed to the model for mass assignment: the text
   * attributes present, and the image URL if one is to be set.
   */
  datatype Attributes = Attributes(text: map<Field, string>, image: Option<string>)

  function Pick(attrs: Attributes, f: Field, old_value: string): string
  {
    if f in attrs.text then attrs.text[f] else old_value
  }

  /**
   * Mass assignment of fillable attributes: each attribute present in attrs
   * replaces the post's value, every other attribute and the id stay as they were.
   */
  function Fill(p: Post, attrs: Attributes): (r: Post)
    ensures r.id == p.id
    ensures forall f :: r.fields.Get(f) == if f in attrs.text then attrs.text[f] else p.fields.Get(f)
    ensures r.image == if attrs.image.Some? then attrs.image else p.image
  {
    var old_fields := p.fields;
    Post(p.id,
         Fields(Pick(attrs, Title, old_fields.title),
                Pick(attrs, Author, old_fields.author),
                Pick(attrs, Category, old_fields.category),
                Pick(attrs, Status, old_fields.status),
                Pick(attrs, Content, old_fields.content)),
         if attrs.image.Some? then attrs.image else p.image)
  }

  /** A new, unsaved model instance that will receive the primary key `id`. */
  function Blank(id: int): Post
  {
    Post(id, EmptyFields, None)
  }

  /** Filling with no attributes (an update that supplies no field and no file) changes nothing. */
  lemma FillNothingIsIdentity(p: Post)
    ensures Fill(p, Attributes(map[], None)) == p
  {
  }
}
