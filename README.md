# Blog posts CRUD: a Dafny model

This project models a small blog-post application. It has two parts:

- a Laravel controller (`PostController`) that lists, fetches, creates, updates and deletes rows of a posts table, and validates its input;
- two React pages. `Home` shows the list with a title search, a create form and a delete confirmation dialog. `Edit` loads one post into a form and sends it back as an update.

The posts table is a class, `PostController.PostStore`. It holds a map from id to `Post` and an id counter. The mutating actions (`CreateNewPost`, `UpdatePost`, `DeletePost`) are methods. The read-only actions (`GetAllPosts`, `GetPost`, `SearchPost`) are functions over the map. The class invariant `Valid()` says three things about every row: its key is its own id, the key is below the counter, and its five texts are trimmed, non-empty and within their bounds. Every method preserves it.

Each page is a class whose fields are the component's state: `Home.HomePage` and `Edit.EditPage`. Each handler is a method that changes only the fields its setters touch. Request payloads are built with an imperative `Multipart.FormData` object, by successive `Append` calls. The outcome of each HTTP call is a parameter: a success flag, or the fetched data as an `Option`.

Module layout:

| file | module | models |
|---|---|---|
| wrappers.dfy | `Wrappers` | `Option`, `Result` |
| strings.dfy | `Strings` | ASCII `toLowerCase`, `includes`, PHP's `trim`, PHP's integer-to-string conversion |
| sequences.dfy | `Sequences` | `Array.prototype.filter`, order-preserving subsequences |
| post_model.dfy | `PostModel` | the `Post` entity (the fillable list) and Eloquent mass assignment (`Fill`) |
| multipart.dfy | `Multipart` | browser `FormData` and uploaded files |
| post_controller.dfy | `PostController` | the controller, its validation rules and the table |
| home.dfy | `Home` | the list page |
| edit.dfy | `Edit` | the edit page |
| end_to_end.dfy | `EndToEnd` | how the pages' payloads reach the controller; whole-system runs |

Points where the code's behaviour is easy to misread:

- A successful create answers 201 with the validated input plus the image URL. It does not return the stored row, so the body has no `id`.
- An update can also fail with 422, not only with 404.
- The list is in strictly ascending id order, because ids are primary keys.
- The edit page always sends all five text fields, not only the edited ones.
- `searchPost` looks its argument up as a primary key, like `getPost`.

## Model

| member | source | states |
|---|---|---|
| `Strings.Lower` | frontend/src/component/pages/Home.jsx:44 | `toLowerCase` keeps the length and lower-cases each character on its own (ASCII letters only) |
| `Strings.Includes` | frontend/src/component/pages/Home.jsx:44 | `includes` is true exactly when the needle occurs at some index of the text (the empty needle occurs everywhere) |
| `Strings.LowerEqualsIffSpellsAnyCase` | frontend/src/component/pages/Home.jsx:310 | lower-casing a status and comparing it with a lower-case word is the same as the status spelling that word with each letter in either case |
| `Strings.Trim` | backend_api/app/Http/Controllers/PostController.php:20-26 | the framework's trimming of request texts leaves no trimmable character at either end, and gives the empty string exactly when the text is blank |
| `Strings.TrimIsMiddleSlice` | backend_api/app/Http/Controllers/PostController.php:20-26 | trimming keeps one contiguous slice of the text and strips only trimmable characters before and after it |
| `Strings.TrimKeepsTrimmed` | backend_api/app/Http/Controllers/PostController.php:20-26 | a text with no trimmable character at either end is left unchanged |
| `Strings.TrimIdempotent` | backend_api/app/Http/Controllers/PostController.php:20-26 | trimming twice is trimming once |
| `Strings.TrimExamples` | backend_api/app/Http/Controllers/PostController.php:20-26 | " A " trims to "A", "  " to the empty string, and "A B" keeps its inner space |
| `Strings.DecimalString` | backend_api/app/Http/Controllers/PostController.php:29 | the rendering of `time()` is a non-empty string of decimal digits with no leading zero |
| `Strings.DecimalRoundTrip` | backend_api/app/Http/Controllers/PostController.php:29 | reading the rendered timestamp back as a decimal number gives the timestamp |
| `Sequences.Filter` | frontend/src/component/pages/Home.jsx:43-45 | `filter` returns an order-preserving subsequence holding only kept elements, and every kept element as often as in the input |
| `Sequences.FilterKeepsAll` | frontend/src/component/pages/Home.jsx:43-45 | filtering with a predicate that holds for every element returns the list unchanged |
| `Multipart.FormData.constructor` | frontend/src/component/pages/Home.jsx:63 | `new FormData()` starts with no entries |
| `Multipart.FormData.Append` | frontend/src/component/pages/Home.jsx:64-71 | `append` adds one entry at the end and keeps all earlier entries in order |
| `PostModel.Fields.With` | frontend/src/component/pages/Home.jsx:53 | the spread update `{...formData, [name]: value}` sets the named field and leaves the other four as they were |
| `PostModel.Fill` | backend_api/app/Models/PostModel.php:10-17 | mass assignment of the fillable attributes replaces exactly the supplied texts, replaces the image only when a URL is given, and never changes the id |
| `PostModel.FillNothingIsIdentity` | backend_api/app/Http/Controllers/PostController.php:57-78 | an update that supplies no field and no file leaves the post as it was |
| `PostController.ValidateCreate` | backend_api/app/Http/Controllers/PostController.php:20-26 | create input is accepted exactly when all five fields are present texts that, once trimmed, are non-empty and within 100/50/100/20/500 characters; it then yields those five trimmed texts, and otherwise names exactly the fields that broke a rule |
| `PostController.ValidateUpdate` | backend_api/app/Http/Controllers/PostController.php:57-64 | update input is accepted exactly when every supplied text, once trimmed, is non-empty and within its bound, and the image (if any) is an image of type jpeg/png/jpg/gif of at most 2048 KB; it yields exactly the supplied texts, trimmed, and otherwise names exactly the fields (and "image") that broke a rule |
| `PostController.BlankTextRefused` | backend_api/app/Http/Controllers/PostController.php:20-64 | a text that is blank once trimmed (such as " ") is refused by both create and update, which name its field |
| `PostController.CreatedFields` | backend_api/app/Http/Controllers/PostController.php:34-44 | the row a successful create fills holds the five trimmed request texts, and they satisfy the table invariant |
| `PostController.UpdatedFields` | backend_api/app/Http/Controllers/PostController.php:78 | the row a successful update fills holds each supplied text trimmed and keeps every other text; a well-formed row stays well formed |
| `PostController.InsertKeepsValid` | backend_api/app/Http/Controllers/PostController.php:34-44 | a new row stored under the counter's id was absent before, and the table stays valid once the counter advances |
| `PostController.StoredFileName` | backend_api/app/Http/Controllers/PostController.php:29 | the stored name (here and at line 68) splits at its first `_` into the digits of the timestamp, which read back as `time()`, and the client extension |
| `PostController.StoredFileNamesDiffer` | backend_api/app/Http/Controllers/PostController.php:27-33 | file names `<time>_<extension>` made in different seconds never collide, whatever the extensions |
| `PostController.PostStore.UploadedImageUrl` | backend_api/app/Http/Controllers/PostController.php:27-33 | a URL is recorded exactly when a file was uploaded, and it is the application URL, `/images/`, and the stored file name |
| `PostController.UploadedImageUrlsDiffer` | backend_api/app/Http/Controllers/PostController.php:27-33 | files uploaded in different seconds are recorded under different URLs |
| `PostController.PostStore.constructor` | backend_api/app/Http/Controllers/PostController.php:10-121 | the table starts empty, with the counter at 1 and the invariant holding |
| `PostController.InIdOrder` | backend_api/app/Http/Controllers/PostController.php:12 | the rows in an id range come out in strictly ascending id order, each stored row in range appears, and nothing else does |
| `PostController.PostStore.GetAllPosts` | backend_api/app/Http/Controllers/PostController.php:10-17 | 200 with every stored post, unchanged, in strictly ascending id order |
| `PostController.PostStore.GetPost` | backend_api/app/Http/Controllers/PostController.php:111-121 | 200 with the stored post of that id exactly when the id is stored; otherwise 404 with no post at all |
| `PostController.PostStore.SearchPost` | backend_api/app/Http/Controllers/PostController.php:97-109 | the `title` argument is looked up as a primary key: 200 with that post, or 404 with no post |
| `PostController.SearchIsLookupById` | backend_api/app/Http/Controllers/PostController.php:97-121 | `searchPost` and `getPost` give the same status and post for every key |
| `PostController.PostStore.CreateNewPost` | backend_api/app/Http/Controllers/PostController.php:18-45 | invalid input gives 422 and inserts nothing; a failed insert gives 500 and inserts nothing; otherwise one row with a fresh id is inserted, holding the five trimmed texts and `url("images/<time>_<ext>")` or no image, no other row changes, and the 201 body is the validated input (no id) |
| `PostController.PostStore.UpdatePost` | backend_api/app/Http/Controllers/PostController.php:46-84 | an unknown id gives 404 before any validation, with the table unchanged; invalid input gives 422, table unchanged; otherwise only that row changes, only the supplied texts (trimmed) and (with a file) the image are replaced, the id and all else keep their values, and the 200 body is the updated row |
| `PostController.PostStore.DeletePost` | backend_api/app/Http/Controllers/PostController.php:85-96 | the row with that id is gone and no other row changes; 200 when a row was removed, 404 when none was |
| `PostController.DeleteTwice` | backend_api/app/Http/Controllers/PostController.php:85-96 | deleting the same id twice answers 200 (if it was stored) and then 404; only the table changes, losing that id |
| `Home.FilteredPosts` | frontend/src/component/pages/Home.jsx:43-45 | the shown posts are the order-preserving subsequence of the posts whose lower-cased title contains the lower-cased search term, with their multiplicities |
| `Home.EmptySearchShowsAll` | frontend/src/component/pages/Home.jsx:43-45 | an empty search term shows every post, in order |
| `Home.StatusBadge` | frontend/src/component/pages/Home.jsx:309-312 | the badge is green exactly when the status spells "active" or "published" in any case; red otherwise, including the empty status |
| `Home.StatusBadgeOfFormChoices` | frontend/src/component/pages/Home.jsx:309-312 | "Active" and "Published" are green; "Inactive" and "" are red |
| `Home.WithoutId` | frontend/src/component/pages/Home.jsx:96 | removing an id keeps the order, drops every post with that id and keeps every other post as often as before |
| `Home.Falsy` | frontend/src/component/pages/Home.jsx:92 | `!deleteId` holds for no id and for the id 0, and for no other id |
| `Home.CreatePayloadShape` | frontend/src/component/pages/Home.jsx:63-71 | the create payload is title, author, category, status, content in that order, followed by the image only when one is chosen |
| `Home.HomePage.constructor` | frontend/src/component/pages/Home.jsx:8-27 | the page starts with no posts, an empty search, both dialogs closed, no delete id, and the form empty with status "Active" and no image |
| `Home.HomePage.LoadPosts` | frontend/src/component/pages/Home.jsx:33-40 | a fetched list replaces the posts; a failed fetch changes nothing |
| `Home.HomePage.SetSearchTerm` | frontend/src/component/pages/Home.jsx:139 | typing in the search box (or "Clear Search" with "") sets the term and nothing else |
| `Home.HomePage.ToggleModal` | frontend/src/component/pages/Home.jsx:48-50 | `toggleModal` flips `isModalOpen` and nothing else |
| `Home.HomePage.HandleInputChange` | frontend/src/component/pages/Home.jsx:52-54 | only the named form field changes |
| `Home.HomePage.HandleFileChange` | frontend/src/component/pages/Home.jsx:56-58 | only the form's image changes |
| `Home.HomePage.HandleSubmit` | frontend/src/component/pages/Home.jsx:60-83 | the payload sent is the create payload of the form; on success the overlay toggles and the form resets to empty texts, status "Active" and no image; on failure nothing changes |
| `Home.HomePage.ConfirmDelete` | frontend/src/component/pages/Home.jsx:86-89 | `confirmDelete(id)` remembers the id and opens the dialog |
| `Home.HomePage.CloseDeleteDialog` | frontend/src/component/pages/Home.jsx:263 | cancelling closes the dialog and keeps the chosen id |
| `Home.HomePage.ExecuteDelete` | frontend/src/component/pages/Home.jsx:91-104 | a falsy `deleteId` (none, or 0) sends nothing and changes nothing; on success exactly the posts with that id leave the list, in order, the dialog closes and the id is cleared; on failure the list is kept, the dialog closes and the id is kept |
| `Edit.UpdatePayloadOrder` | frontend/src/component/pages/Edit.jsx:59-71 | the update payload is the five texts in order, `_method=PUT` at index 5, and the image at index 6 only when a new file was chosen |
| `Edit.UpdatePayloadCarriesAllFields` | frontend/src/component/pages/Edit.jsx:59-64 | every one of the five current texts is sent, whichever were edited |
| `Edit.UpdatePayloadImage` | frontend/src/component/pages/Edit.jsx:69-71 | an `image` part is sent exactly when a new file was chosen |
| `Edit.UpdatePayloadShape` | frontend/src/component/pages/Edit.jsx:59-71 | the update payload always carries the five texts in order and then `_method=PUT`, whatever was edited; the image follows only when a new file was chosen; the existing image never matters |
| `Edit.FormFromPost` | frontend/src/component/pages/Edit.jsx:29-37 | the form filled from a fetched post holds each of its five texts, its image as the existing image, and no new file |
| `Edit.EditPage.constructor` | frontend/src/component/pages/Edit.jsx:9-18 | the page starts loading, with empty texts, status "Active", no new image and no existing image |
| `Edit.EditPage.FetchPost` | frontend/src/component/pages/Edit.jsx:21-46 | a fetched post is copied into the form field by field, its image becoming `existingImage` and `image` becoming none; a failed fetch keeps the form; loading ends either way |
| `Edit.EditPage.HandleInputChange` | frontend/src/component/pages/Edit.jsx:48-50 | only the named field changes; both images are kept |
| `Edit.EditPage.HandleFileChange` | frontend/src/component/pages/Edit.jsx:52-54 | only `image` changes; `existingImage` is never touched |
| `Edit.EditPage.HandleSubmit` | frontend/src/component/pages/Edit.jsx:56-81 | the request goes to the page's own id and carries the update payload of the current form |
| `EndToEnd.RequestOfCreatePayload` | frontend/src/component/pages/Home.jsx:63-74 | the create payload reaches the controller as exactly the five text fields and the chosen file |
| `EndToEnd.RequestOfUpdatePayload` | frontend/src/component/pages/Edit.jsx:59-74 | the update payload reaches the controller as the five text fields, `_method`, and the newly chosen file |
| `EndToEnd.CreateFormAcceptedIffFilled` | backend_api/app/Http/Controllers/PostController.php:20-26 | the create form is accepted exactly when each of its texts, once trimmed, is non-empty and within its bound; the validated texts are then the trimmed form texts, and a well-formed form is taken unchanged |
| `EndToEnd.EmptyFormRejected` | frontend/src/component/pages/Home.jsx:77 | the reset form, sent as it is, is refused naming exactly title, author, category and content |
| `EndToEnd.UnchangedEditKeepsPost` | frontend/src/component/pages/Edit.jsx:29-71 | a stored post loaded into the edit form and sent back unchanged passes the update rules and is written back exactly as it was |
| `EndToEnd.OnlyUpdateChecksImage` | backend_api/app/Http/Controllers/PostController.php:20-64 | with valid texts and a file that is not an acceptable image, create accepts and update refuses, naming only "image" |
| `EndToEnd.UntouchedEditChangesNothing` | frontend/src/component/pages/Edit.jsx:21-81 | opening the edit page for any id and submitting it untouched never changes the table or the id counter: 404 for an unknown id, 200 otherwise |
| `EndToEnd.ExampleRequestsPass` | backend_api/app/Http/Controllers/PostController.php:20-64 | the example create request passes every create rule, and the status-only change passes every update rule |
| `EndToEnd.ExampleRun` | backend_api/app/Http/Controllers/PostController.php:18-121 | create, read, update of the status alone, delete and read again answer 201, 200, 200, 200, 404, and leave the table as it was, with the id counter one higher |

## Left out

- The database and the ORM: the table is a map, and new ids come from a counter that only grows, so ids are never reused. The engine's auto-increment, transactions and concurrent requests are not modelled.
- PostController.PostStore.CreateNewPost: whether the insert succeeds is a parameter. The ORM either returns a model or throws, so the real 500 branch depends on the ORM. The image file is moved before the insert, so it stays on disk after a failed insert; this is not modelled.
- Files on disk: `$file->move`, `public_path`, collisions between uploads in the same second with the same extension, and deletion of replaced images (the source only mentions it in a comment).
- `time()` is the parameter `now`. `url()` is the store's root URL joined to the path with "/".
- Validator internals. The framework's default middleware trims every text and then turns an empty one into null, before validation and before storage. The model applies both steps inside the text rule: `string|max:N` checks that the trimmed text is non-empty and within N characters, and the trimmed text is what is stored. `trim` strips PHP's six default characters (space, tab, line feed, carriage return, NUL, vertical tab); the wider Unicode whitespace set of newer framework versions is not modelled. The `image` rule becomes an abstract file record: client extension, detected extension, is-an-image flag, and size in bytes. MIME sniffing, failed uploads (`hasFile` is false for them) and the 422 versus redirect choice are left out.
- Routing: the route table, the `Update-post`/`update-post` case mismatch, the `_method` override, and the conversion of route parameters to integers. `getPost`, `searchPost`, `UpdatePost` and `DeletePost` take an integer id.
- The `/user` route, which is authentication plumbing.
- Home.HomePage.HandleInputChange: the input name is one of the five form fields. An arbitrary name, which would add a new key to the form state, is not modelled.
- Edit.EditPage.HandleInputChange: the same restriction to the five form fields.
- Edit.EditPage.HandleSubmit: the route parameter `id` is an integer here. Navigation and alerts after the request are left out.
- Rendering, the theme object and dark mode, alerts, console output and navigation.
- HTTP calls and races between overlapping handlers. Each handler's outcome is an input. The list reload that a successful create starts is the separate `LoadPosts` transition.
- Unicode case mapping: `toLowerCase` is ASCII-only.
