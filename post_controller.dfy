/**
 * The server side: the posts table and the controller actions that list,
 * fetch, create, update, delete and "search" posts, with their validation
 * rules and image placement.
 */
module PostController {
  import opened Wrappers
  import opened Strings
  import opened PostModel
  import opened Multipart

  // ----- requests and responses ---------------------------------------------

  /**
   * A request field as the client sent it: text, or some other value (null,
   * an array). The framework's middleware trims every text and then turns an
   * empty one into null, before validation and before storage; the rules
   * below apply both steps to the text directly.
   */
  datatype Input = Text(s: string) | NonText

  /** The input fields of a request and the uploaded file under the key "image", if any. */
  datatype Request = Request(fields: map<string, Input>, file: Option<Upload>)

  /** The JSON body besides its message. */
  datatype Payload =
    | NoPayload
    | OnePost(post: Post)
    | AllPosts(posts: seq<Post>)
    | Submitted(attributes: Attributes)
    | Invalid(failed: set<string>)

  datatype Response = Response(status: nat, message: Option<string>, payload: Payload)

  // ----- validation rules ---------------------------------------------------

  /** The `max:N` bound of each text attribute. */
  function MaxLength(f: Field): nat
  {
    match f
    case Title => 100
    case Author => 50
    case Category => 100
    case Status => 20
    case Content => 500
  }

  /** `mimes:jpeg,png,jpg,gif` */
  const ImageExtensions: set<string> := {"jpeg", "png", "jpg", "gif"}

  /** `max:2048` on a file is 2048 kilobytes. */
  const MaxImageBytes: nat := 2048 * 1024

  /**
   * `string|max:N` on a value that is present, after trimming: a blank text
   * arrives as null and fails `string`, and `max` counts the trimmed text.
   */
  predicate TextRuleHolds(v: Input, max: nat)
  {
    v.Text? && 0 < |Trim(v.s)| <= max
  }

  /** `required|string|max:N` */
  predicate PassesRequired(req: Request, f: Field)
  {
    Name(f) in req.fields && TextRuleHolds(req.fields[Name(f)], MaxLength(f))
  }

  /** `sometimes|string|max:N`: checked only when the field is present. */
  predicate PassesSometimes(req: Request, f: Field)
  {
    Name(f) in req.fields ==> TextRuleHolds(req.fields[Name(f)], MaxLength(f))
  }

  /** `sometimes|image|mimes:jpeg,png,jpg,gif|max:2048` */
  predicate PassesImageRule(req: Request)
  {
    match req.file
    case Some(u) => u.isImage && u.detectedExtension in ImageExtensions && u.sizeBytes <= MaxImageBytes
    case None => "image" !in req.fields
  }

  /** Every text attribute is trimmed, non-empty and within its bound: what the create rules guarantee. */
  predicate WellFormed(fields: Fields)
  {
    forall f :: 0 < |fields.Get(f)| <= MaxLength(f) && IsTrimmed(fields.Get(f))
  }

  /** The text a field is validated and stored as: trimmed. */
  function TextOf(v: Input): string
  {
    if v.Text? then Trim(v.s) else ""
  }

  /** The text attributes of req among fs that are present in the request. */
  function Supplied(req: Request, fs: set<Field>): map<Field, string>
  {
    map f | f in fs && Name(f) in req.fields :: TextOf(req.fields[Name(f)])
  }

  function FailedNames(fs: set<Field>): set<string>
  {
    set f | f in fs :: Name(f)
  }

  lemma NameInjective(f: Field, g: Field)
    requires Name(f) == Name(g)
    ensures f == g
  {
  }

  lemma InFailedNames(f: Field, fs: set<Field>)
    ensures Name(f) in FailedNames(fs) <==> f in fs
  {
    if Name(f) in FailedNames(fs) {
      var g :| g in fs && Name(g) == Name(f);
      NameInjective(f, g);
    }
  }

  /**
   * The create rules: success with the five validated texts, or failure with
   * the names of exactly the attributes that broke a rule.
   */
  function ValidateCreate(req: Request): (r: Result<map<Field, string>, set<string>>)
    ensures r.Success? <==> forall f :: PassesRequired(req, f)
    ensures r.Success? ==> forall f ::
      && f in r.value && Name(f) in req.fields && req.fields[Name(f)].Text?
      && r.value[f] == Trim(req.fields[Name(f)].s) && 0 < |r.value[f]| <= MaxLength(f)
    ensures r.Failure? ==> r.error != {} && forall f :: Name(f) in r.error <==> !PassesRequired(req, f)
    ensures r.Failure? ==> forall n :: n in r.error ==> exists f :: n == Name(f)
  {
    var broken := set f | f in AllFields && !PassesRequired(req, f);
    forall f ensures Name(f) in FailedNames(broken) <==> !PassesRequired(req, f) {
      AllFieldsComplete(f);
      InFailedNames(f, broken);
    }
    if broken == {} then
      assert forall f :: f in AllFields by {
        forall f { AllFieldsComplete(f); }
      }
      Success(Supplied(req, AllFields))
    else
      var f :| f in broken;
      assert Name(f) in FailedNames(broken);
      Failure(FailedNames(broken))
  }

  /**
   * The update rules: success with exactly the texts the request supplies, or
   * failure naming exactly the attributes (and "image") that broke a rule.
   */
  function ValidateUpdate(req: Request): (r: Result<map<Field, string>, set<string>>)
    ensures r.Success? <==> (forall f :: PassesSometimes(req, f)) && PassesImageRule(req)
    ensures r.Success? ==> forall f :: (f in r.value <==> Name(f) in req.fields)
    ensures r.Success? ==> forall f :: f in r.value ==>
      && Name(f) in req.fields && req.fields[Name(f)].Text?
      && r.value[f] == Trim(req.fields[Name(f)].s) && 0 < |r.value[f]| <= MaxLength(f)
    ensures r.Failure? ==> r.error != {}
    ensures r.Failure? ==> forall f :: Name(f) in r.error <==> !PassesSometimes(req, f)
    ensures r.Failure? ==> ("image" in r.error <==> !PassesImageRule(req))
    ensures r.Failure? ==> forall n :: n in r.error ==> n == "image" || exists f :: n == Name(f)
  {
    var broken := set f | f in AllFields && !PassesSometimes(req, f);
    forall f ensures Name(f) in FailedNames(broken) <==> !PassesSometimes(req, f) {
      AllFieldsComplete(f);
      InFailedNames(f, broken);
    }
    assert "image" !in FailedNames(broken);
    var imageFailed: set<string> := if PassesImageRule(req) then {} else {"image"};
    if broken == {} && imageFailed == {} then
      assert forall f :: f in AllFields by {
        forall f { AllFieldsComplete(f); }
      }
      Success(Supplied(req, AllFields))
    else
      assert broken != {} ==> exists f :: Name(f) in FailedNames(broken);
      Failure(FailedNames(broken) + imageFailed)
  }

  // ----- image placement ----------------------------------------------------

  /**
   * `time() . '_' . $file->getClientOriginalExtension()`: the name splits at
   * its first '_' into the digits of the timestamp and the extension.
   */
  function StoredFileName(now: nat, extension: string): (r: string)
    ensures FirstUnderscore(r) < |r| && AllDigits(r[..FirstUnderscore(r)])
    ensures DecimalValue(r[..FirstUnderscore(r)]) == now
    ensures r[FirstUnderscore(r) + 1..] == extension
  {
    var digits := DecimalString(now);
    UnderscoreAfterDigits(digits, extension);
    DecimalRoundTrip(now);
    var r := digits + "_" + extension;
    assert r[..|digits|] == digits;
    assert r[|digits| + 1..] == extension;
    r
  }

  /** `url($path)`: the path appended to the application's root URL. */
  function Url(root: string, path: string): string
  {
    root + "/" + path
  }

  /** Uploads made in different seconds are stored under different names, whatever their extensions. */
  lemma {:induction false} StoredFileNamesDiffer(a: nat, b: nat, extA: string, extB: string)
    requires a != b
    ensures StoredFileName(a, extA) != StoredFileName(b, extB)
  {
  }

  /** The index of the first '_' in s, or |s| when there is none. */
  function FirstUnderscore(s: string): (i: nat)
    ensures i <= |s|
  {
    if s == [] then 0 else if s[0] == '_' then 0 else 1 + FirstUnderscore(s[1..])
  }

  lemma {:induction false} UnderscoreAfterDigits(digits: string, rest: string)
    requires AllDigits(digits)
    ensures FirstUnderscore(digits + "_" + rest) == |digits|
  {
    if digits != [] {
      assert (digits + "_" + rest)[1..] == digits[1..] + "_" + rest;
      UnderscoreAfterDigits(digits[1..], rest);
    }
  }

  // ----- the posts table ----------------------------------------------------

  /** All posts are in strictly ascending id order. */
  predicate Ascending(posts: seq<Post>)
  {
    forall i, j :: 0 <= i < j < |posts| ==> posts[i].id < posts[j].id
  }

  /** The rows whose ids lie in [lo, hi), ordered by ascending id. */
  function InIdOrder(table: map<int, Post>, lo: int, hi: int): (r: seq<Post>)
    requires forall id :: id in table ==> table[id].id == id
    ensures Ascending(r)
    ensures forall i :: 0 <= i < |r| ==> lo <= r[i].id < hi && r[i].id in table && table[r[i].id] == r[i]
    ensures forall id :: id in table && lo <= id < hi ==> table[id] in r
    decreases hi - lo
  {
    if lo >= hi then
      []
    else
      (if lo in table then [table[lo]] else []) + InIdOrder(table, lo + 1, hi)
  }

  /** Every stored row carries its own key, below the counter, and texts that passed the rules. */
  ghost predicate ValidTable(table: map<int, Post>, nextId: int)
  {
    && 1 <= nextId
    && forall id :: id in table ==> 1 <= id < nextId && table[id].id == id && WellFormed(table[id].fields)
  }

  /** Storing a well-formed row under the counter's id and advancing the counter keeps the table valid. */
  lemma InsertKeepsValid(table: map<int, Post>, nextId: int, post: Post)
    requires ValidTable(table, nextId)
    requires post.id == nextId && WellFormed(post.fields)
    ensures nextId !in table
    ensures ValidTable(table[nextId := post], nextId + 1)
  {
  }

  /** The texts of a row filled by a successful create: the trimmed request texts, well formed. */
  lemma CreatedFields(req: Request, p: Post, image: Option<string>)
    requires ValidateCreate(req).Success?
    ensures var q := Fill(p, Attributes(ValidateCreate(req).value, image));
      && WellFormed(q.fields)
      && forall f :: q.fields.Get(f) == Trim(req.fields[Name(f)].s)
  {
    var q := Fill(p, Attributes(ValidateCreate(req).value, image));
    forall f ensures q.fields.Get(f) == Trim(req.fields[Name(f)].s) && IsTrimmed(q.fields.Get(f)) {
      assert f in ValidateCreate(req).value;
    }
  }

  /** The texts of a well-formed row filled by a successful update: each supplied text trimmed, the rest kept. */
  lemma UpdatedFields(req: Request, p: Post, image: Option<string>)
    requires ValidateUpdate(req).Success? && WellFormed(p.fields)
    ensures var q := Fill(p, Attributes(ValidateUpdate(req).value, image));
      && WellFormed(q.fields)
      && forall f :: q.fields.Get(f) == if Name(f) in req.fields then Trim(req.fields[Name(f)].s) else p.fields.Get(f)
  {
    var q := Fill(p, Attributes(ValidateUpdate(req).value, image));
    forall f
      ensures q.fields.Get(f) == if Name(f) in req.fields then Trim(req.fields[Name(f)].s) else p.fields.Get(f)
      ensures 0 < |q.fields.Get(f)| <= MaxLength(f) && IsTrimmed(q.fields.Get(f))
    {
      if Name(f) in req.fields {
        assert f in ValidateUpdate(req).value;
      } else {
        assert f !in ValidateUpdate(req).value;
      }
    }
  }

  /**
   * The posts table (`students`) behind the controller. Ids come from a
   * counter; every stored row carries its own key and texts that passed the
   * rules.
   */
  class PostStore {
    var table: map<int, Post>
    var nextId: int
    const appUrl: string

    ghost predicate Valid()
      reads this
    {
      ValidTable(table, nextId)
    }

    constructor (appUrl: string)
      ensures Valid()
      ensures table == map[] && nextId == 1 && this.appUrl == appUrl
    {
      table := map[];
      nextId := 1;
      this.appUrl := appUrl;
    }

    /**
     * The public URL recorded for the uploaded file of req: there is one
     * exactly when a file was uploaded, and it is the stored file's name
     * under the application's `images` folder.
     */
    function UploadedImageUrl(req: Request, now: nat): (r: Option<string>)
      ensures r.Some? <==> req.file.Some?
      ensures r.Some? ==>
        var prefix := appUrl + "/images/";
        && |prefix| <= |r.value| && r.value[..|prefix|] == prefix
        && r.value[|prefix|..] == StoredFileName(now, req.file.value.clientExtension)
    {
      if req.file.Some? then
        Some(Url(appUrl, "images/" + StoredFileName(now, req.file.value.clientExtension)))
      else
        None
    }

    /** `getAllPosts`: every stored post, exactly once, by ascending id. */
    function GetAllPosts(): (r: Response)
      requires Valid()
      reads this
      ensures r.status == 200 && r.message == Some("All posts retrieved successfully")
      ensures r.payload.AllPosts? && Ascending(r.payload.posts)
      ensures forall p :: p in r.payload.posts ==> p.id in table && table[p.id] == p
      ensures forall id :: id in table ==> table[id] in r.payload.posts
    {
      Response(200, Some("All posts retrieved successfully"), AllPosts(InIdOrder(table, 1, nextId)))
    }

    /** `getPost`: the stored post with that id, or 404 and no post at all. */
    function GetPost(id: int): (r: Response)
      requires Valid()
      reads this
      ensures r.status == 200 <==> id in table
      ensures r.status == 200 ==> r.payload == OnePost(table[id]) && r.payload.post.id == id && r.message == None
      ensures r.status != 200 ==> r == Response(404, Some("Post not found"), NoPayload)
    {
      if id in table then Response(200, None, OnePost(table[id]))
      else Response(404, Some("Post not found"), NoPayload)
    }

    /** `searchPost`: despite its parameter's name, a lookup by primary key. */
    function SearchPost(title: int): (r: Response)
      requires Valid()
      reads this
      ensures r.status == 200 <==> title in table
      ensures r.status == 200 ==> r == Response(200, Some("Post retrieved successfully"), OnePost(table[title]))
      ensures r.status != 200 ==> r == Response(404, Some("Post not found"), NoPayload)
    {
      if title in table then Response(200, Some("Post retrieved successfully"), OnePost(table[title]))
      else Response(404, Some("Post not found"), NoPayload)
    }

    /** `createNewPost` */
    method CreateNewPost(req: Request, now: nat, insertSucceeds: bool) returns (r: Response)
      requires Valid()
      modifies this`table, this`nextId
      ensures Valid()
      ensures ValidateCreate(req).Failure? ==>
        && r == Response(422, None, Invalid(ValidateCreate(req).error))
        && table == old(table) && nextId == old(nextId)
      ensures ValidateCreate(req).Success? && !insertSucceeds ==>
        && r == Response(500, Some("Failed to create post"), NoPayload)
        && table == old(table) && nextId == old(nextId)
      ensures ValidateCreate(req).Success? && insertSucceeds ==>
        var id := old(nextId);
        && id !in old(table)
        && id in table
        && table == old(table)[id := table[id]]
        && nextId == id + 1
        && table[id].id == id
        && (forall f :: table[id].fields.Get(f) == Trim(req.fields[Name(f)].s))
        && table[id].image == UploadedImageUrl(req, now)
        && r == Response(201, Some("Post created successfully"),
                         Submitted(Attributes(ValidateCreate(req).value, UploadedImageUrl(req, now))))
    {
      var validated := ValidateCreate(req);
      if validated.Failure? {
        return Response(422, None, Invalid(validated.error));
      }
      var requestData := Attributes(validated.value, None);
      if req.file.Some? {
        var fileName := StoredFileName(now, req.file.value.clientExtension);
        requestData := requestData.(image := Some(Url(appUrl, "images/" + fileName)));
      }
      if !insertSucceeds {
        return Response(500, Some("Failed to create post"), NoPayload);
      }
      var post := Fill(Blank(nextId), requestData);
      CreatedFields(req, Blank(nextId), requestData.image);
      InsertKeepsValid(table, nextId, post);
      table := table[nextId := post];
      nextId := nextId + 1;
      r := Response(201, Some("Post created successfully"), Submitted(requestData));
    }

    /** `UpdatePost`: look the id up first, then validate, then merge only what was supplied. */
    method UpdatePost(id: int, req: Request, now: nat) returns (r: Response)
      requires Valid()
      modifies this`table
      ensures Valid()
      ensures id !in old(table) ==>
        r == Response(404, Some("Update failed, post not found"), NoPayload) && table == old(table)
      ensures id in old(table) && ValidateUpdate(req).Failure? ==>
        r == Response(422, None, Invalid(ValidateUpdate(req).error)) && table == old(table)
      ensures id in old(table) && ValidateUpdate(req).Success? ==>
        && id in table
        && table == old(table)[id := table[id]]
        && table[id] == Fill(old(table)[id], Attributes(ValidateUpdate(req).value, UploadedImageUrl(req, now)))
        && table[id].id == id
        && (forall f :: table[id].fields.Get(f) ==
              if Name(f) in req.fields then Trim(req.fields[Name(f)].s) else old(table)[id].fields.Get(f))
        && table[id].image == (if req.file.Some? then UploadedImageUrl(req, now) else old(table)[id].image)
        && r == Response(200, Some("Post updated successfully"), OnePost(table[id]))
    {
      if id !in table {
        return Response(404, Some("Update failed, post not found"), NoPayload);
      }
      var post := table[id];
      var validated := ValidateUpdate(req);
      if validated.Failure? {
        return Response(422, None, Invalid(validated.error));
      }
      var validatedData := Attributes(validated.value, None);
      if req.file.Some? {
        var imageName := StoredFileName(now, req.file.value.clientExtension);
        validatedData := validatedData.(image := Some(Url(appUrl, "images/" + imageName)));
      }
      UpdatedFields(req, post, validatedData.image);
      post := Fill(post, validatedData);
      table := table[id := post];
      r := Response(200, Some("Post updated successfully"), OnePost(post));
    }

    /** `DeletePost`: 404 exactly when no row was removed. */
    method DeletePost(id: int) returns (r: Response)
      requires Valid()
      modifies this`table
      ensures Valid()
      ensures table == old(table) - {id}
      ensures id in old(table) ==> r == Response(200, Some("Post deleted successfully"), NoPayload)
      ensures id !in old(table) ==> r == Response(404, Some("Delete failed, post not found"), NoPayload)
    {
      var deleted := if id in table then 1 else 0;
      table := table - {id};
      if deleted == 0 {
        return Response(404, Some("Delete failed, post not found"), NoPayload);
      }
      r := Response(200, Some("Post deleted successfully"), NoPayload);
    }
  }

  /** Files uploaded in different seconds get different URLs. */
  lemma {:induction false} UploadedImageUrlsDiffer(store: PostStore, a: Request, b: Request, t: nat, u: nat)
    requires a.file.Some? && b.file.Some? && t != u
    ensures store.UploadedImageUrl(a, t) != store.UploadedImageUrl(b, u)
  {
    var prefix := store.appUrl + "/images/";
    var x, y := store.UploadedImageUrl(a, t).value, store.UploadedImageUrl(b, u).value;
    StoredFileNamesDiffer(t, u, a.file.value.clientExtension, b.file.value.clientExtension);
    assert x[|prefix|..] != y[|prefix|..];
  }

  /**
   * A text that is blank once trimmed, such as " ", fails `required` on
   * create and `string` on update, and is named in the failure.
   */
  lemma BlankTextRefused(req: Request, f: Field)
    requires Name(f) in req.fields && req.fields[Name(f)].Text? && AllTrimmable(req.fields[Name(f)].s)
    ensures ValidateCreate(req).Failure? && Name(f) in ValidateCreate(req).error
    ensures ValidateUpdate(req).Failure? && Name(f) in ValidateUpdate(req).error
  {
  }

  /** `searchPost` and `getPost` find the same post for every key. */
  lemma SearchIsLookupById(store: PostStore, key: int)
    requires store.Valid()
    ensures store.SearchPost(key).status == store.GetPost(key).status
    ensures store.SearchPost(key).payload == store.GetPost(key).payload
  {
  }

  /** Deleting the same id twice: the second call always answers 404. */
  method DeleteTwice(store: PostStore, id: int) returns (first: Response, second: Response)
    requires store.Valid()
    modifies store`table
    ensures store.Valid()
    ensures first.status == (if id in old(store.table) then 200 else 404)
    ensures second.status == 404
    ensures store.table == old(store.table) - {id}
  {
    first := store.DeletePost(id);
    second := store.DeletePost(id);
  }
}
