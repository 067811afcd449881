# ECF animal catalogue — a Dafny model of its controllers and database rules

The ECF application is an ASP.NET MVC site that keeps a catalogue of animals
and their breeds in SQL Server through Entity Framework Core. This project
models its core as pure Dafny:

- the `Animal` and `Breed` entities and their data annotations (`Models`);
- the database that `EcfDbContext.OnModelCreating` describes (`Schema`). It has
  two tables keyed by identity columns, NOT NULL and length limits on the
  string columns, and a foreign key from animal to breed whose delete
  behaviour is Restrict. `SaveChanges` is modelled as the database accepting
  or rejecting the pending state as a whole;
- the POST actions of `AnimalController` and `BreedsController`. Each is a
  transition from (database, request) to (database, result). The result is
  one of NotFound, a redirect to Index, a redirect to a URL, a view, a JSON
  payload, or `Fault` for an exception the action does not catch. The read
  actions return a result only;
- a request trace (`Workflows`), over which the database invariant is proved
  to hold.

C# `null` is `Option.None`. `string.Length` and SQL Server's `nvarchar(n)`
both count UTF-16 code units, so a character outside the Basic Multilingual
Plane counts as two (`Text.Utf16Length`). `[Required]` on a string refuses
null, empty and white-space-only values, the same test as
`string.IsNullOrWhiteSpace`. `Url.IsLocalUrl` is a parameter
(`isLocalUrl`). A save conflict is an input, `Concurrency`, which carries
the database as the other session left it. The existence recheck queries
that state.

Form values reach the actions through MVC's model binder. The binder turns
an empty or white-space-only string into null (`ConvertEmptyStringToNull`),
so a blank string reaches an action only through a direct call, as the unit
tests make. `Models.BindText`, `Models.BindAnimal` and `Models.BindBreed`
model that conversion. The POST actions apply it to every bound string,
`returnUrl` included, and `RegisterDirect`
models the direct call.

Notes on what the code does:

- Animal `Create` does not check the breed itself, and `BreedId <= 0`
  passes its validation. A missing breed fails only at `SaveChanges`, on the
  foreign key. The action catches that failure and shows the form again
  with an error.
- Animal `Edit` loads the existing row with a tracking query and then calls
  `Update(animal)` on a second instance with the same key. EF refuses to
  track two instances with one key and throws before anything is saved, so
  every valid edit ends in the edit-error form (`EditAsWritten`). `Edit`
  models the action as evidently intended: a replacement of the whole row.
- Breeds `Edit` with id 0 (also what a missing route id binds to) inserts:
  `Update` on a key left at its default tracks the breed as Added.
- Deleting a referenced breed is not caught by the action. The host's
  exception handler (Program.cs:23-29) shows its generic error page; the
  model calls that outcome `Fault`.
- The breed list has no order.

## Model

| member | source | states |
|---|---|---|
| Models.AnimalModelErrors | ECF-CDA/ECF/ECF/Models/Animal.cs:12-20 | ModelState errors on an entity are empty exactly when the annotations hold. Each annotation message appears exactly when its check fails, and at most once; no other message appears. On the entity a long blank name gets both name errors; through a form the binder makes it null, which gets only the "required" one. None is about the breed. |
| Models.RequiredIsNotBlank | ECF-CDA/ECF/ECF/Models/Animal.cs:12 | `[Required]` on a string holds exactly when the value is not null or white space |
| Models.BindText | ECF-CDA/ECF/ECF/Controllers/AnimalController.cs:77 | A bound string is null exactly when the posted value is null or blank, and is otherwise the posted value; `[Required]` judges both alike |
| Models.BindAnimal | ECF-CDA/ECF/ECF/Controllers/AnimalController.cs:162 | Binding keeps the ids, turns blank strings into null, delivers every non-blank string as posted, and keeps the annotation verdict; a valid posted animal arrives unchanged |
| Models.BindBreed | ECF-CDA/ECF/ECF/Models/Breed.cs:11-15 | Binding turns blank strings into null, delivers every non-blank string as posted, and keeps the annotation verdict; a valid posted breed arrives unchanged |
| Schema.ResolveBreed | ECF-CDA/ECF/ECF/Controllers/AnimalController.cs:32 | The loaded `Breed` is null exactly when no breed has the animal's `BreedId`, and is otherwise the stored breed under that key. Under the foreign key every stored animal's breed is loaded. |
| Schema.AnimalValidFitsRow | ECF-CDA/ECF/ECF/Database/Context/EcfDbContext.cs:25-33 | An animal that passes the annotations fits the NOT NULL, 50- and 2000-unit columns |
| Schema.RowAcceptsBlankName | ECF-CDA/ECF/ECF/Database/Context/EcfDbContext.cs:25-28 | The converse fails: the name column accepts a blank name that `[Required]` refuses |
| Schema.BreedValidFitsRow | ECF-CDA/ECF/ECF/Database/Context/EcfDbContext.cs:46-53 | A breed that passes the annotations fits its columns |
| Schema.NextKeysFresh | ECF-CDA/ECF/ECF/Database/Context/EcfDbContext.cs:22-23 | In a valid database the next identity value of each table is unused, and no animal references the next breed key, so a new breed starts with no animals |
| Schema.RestrictedDelete | ECF-CDA/ECF/ECF/Database/Context/EcfDbContext.cs:35-39 | Removing a breed leaves a state the database accepts exactly when no animal references it |
| Schema.AddAnimalAccepted | ECF-CDA/ECF/ECF/Database/Context/EcfDbContext.cs:35-38 | Inserting an animal is accepted exactly when its row fits and its breed exists, and an accepted insert keeps the invariant |
| Schema.AddBreedAccepted | ECF-CDA/ECF/ECF/Database/Context/EcfDbContext.cs:43-53 | Inserting a breed is accepted exactly when its row fits, and then keeps the invariant |
| Schema.ReplaceAnimalAccepted | ECF-CDA/ECF/ECF/Database/Context/EcfDbContext.cs:25-38 | Replacing an existing animal row is accepted exactly when the row fits and its breed exists |
| Schema.ReplaceBreedAccepted | ECF-CDA/ECF/ECF/Database/Context/EcfDbContext.cs:46-53 | Replacing an existing breed row is accepted exactly when the row fits |
| Schema.EmptyValid | ECF-CDA/ECF/ECF/Database/Context/EcfDbContext.cs:20-54 | The empty database satisfies the invariant and the annotations |
| Text.OrdinalLeTotal | ECF-CDA/ECF/ECF/Controllers/AnimalController.cs:36 | Any two names are comparable in the order used to sort animals |
| Text.OrdinalLeTransitive | ECF-CDA/ECF/ECF/Controllers/AnimalController.cs:36 | The name order is transitive |
| Text.OrdinalLeAntisymmetric | ECF-CDA/ECF/ECF/Controllers/AnimalController.cs:36 | Names that sort both ways are equal |
| AnimalController.InsertByName | ECF-CDA/ECF/ECF/Controllers/AnimalController.cs:36 | Inserting into a name-ordered list keeps it ordered and adds exactly that animal (multiset) |
| AnimalController.Index | ECF-CDA/ECF/ECF/Controllers/AnimalController.cs:26-43 | The list holds every stored animal exactly once, holds nothing else, and is ordered by `Name` ascending (nulls first). Beside each animal is its loaded breed, which the foreign key guarantees is present. |
| AnimalController.IncludeBreeds | ECF-CDA/ECF/ECF/Controllers/AnimalController.cs:32 | Beside each listed animal is the breed its `BreedId` resolves to, and under the foreign key every listed stored animal has its breed loaded |
| AnimalController.FindAnimal | ECF-CDA/ECF/ECF/Controllers/AnimalController.cs:251-252 | The lookup finds a row exactly when the key is stored; the row found is the stored row, and it carries that id |
| AnimalController.AnimalExists | ECF-CDA/ECF/ECF/Controllers/AnimalController.cs:272-275 | True exactly when the id is a stored key |
| AnimalController.BindForCreate | ECF-CDA/ECF/ECF/Controllers/AnimalController.cs:77 | The bound animal has key 0 and the posted breed id. Each string is null exactly when the posted one is blank, and is otherwise the posted string. The bound animal has the posted animal's annotation verdict. |
| AnimalController.Create | ECF-CDA/ECF/ECF/Controllers/AnimalController.cs:73-120 | Invalid input re-renders the bound animal with its annotation errors and writes nothing. The store changes exactly when the input is valid and the breed exists. Then exactly one animal is added under a fresh key with the submitted fields, and the action redirects to `returnUrl` exactly when it is non-blank and local, otherwise to Index. A missing breed shows the form with the creation error. The invariant and the annotations are kept. |
| AnimalController.Edit | ECF-CDA/ECF/ECF/Controllers/AnimalController.cs:159-211 | The edit as evidently intended. A route id that differs from `AnimalId`, or an unknown id, gives NotFound with no write. Invalid input re-renders with errors and writes nothing. Valid input replaces only that row and redirects to Index; a missing breed shows the edit error instead. On a conflict, the answer is NotFound exactly when the row is gone, otherwise the edit error. The invariant is kept. |
| AnimalController.EditAsWritten | ECF-CDA/ECF/ECF/Controllers/AnimalController.cs:159-211 | As written, no edit writes. A mismatched or unknown id gives NotFound; otherwise the form comes back, with exactly the edit error when the input is valid and with the annotation errors when it is not. |
| AnimalController.EditNeverSaves | ECF-CDA/ECF/ECF/Controllers/AnimalController.cs:173-187 | For every valid change to a stored animal whose breed exists, the intended action replaces the row and redirects, while the action as written shows the edit error and leaves the database unchanged |
| AnimalController.DeleteConfirmed | ECF-CDA/ECF/ECF/Controllers/AnimalController.cs:246-269 | An unknown id gives NotFound with no write. A known id removes exactly that key and nothing else, `AnimalExists` becomes false, and the action redirects to Index. |
| AnimalController.RegisterFieldErrors | ECF-CDA/ECF/ECF/Controllers/AnimalController.cs:312-328 | All field failures are collected, each message at most once and at most one per field, so there are 0 to 3 errors. The name gets "required" for null or blank, otherwise "too long" over 50. The description is refused only when null. `BreedId <= 0` is refused. No other message appears. |
| AnimalController.CorrectedFieldErrors | ECF-CDA/ECF/ECF/Controllers/AnimalController.cs:320-324 | With the description rule corrected, every failing field is still reported: each of the name, description and breed messages appears exactly when its check fails. There are no errors exactly when the annotations hold and `BreedId > 0`. A blank description gets the annotation's message and never the birth-date one, every message is an annotation message or the breed one, and none repeats. |
| AnimalController.RegisterChecked | ECF-CDA/ECF/ECF/Controllers/AnimalController.cs:330-368 | Field errors are returned as they are, and the breed is looked up only when there are none. A missing breed is exactly one error. An animal with its own key is refused by the identity column and caught. Only success writes, adding exactly that animal. |
| AnimalController.RegisterDirect | ECF-CDA/ECF/ECF/Controllers/AnimalController.cs:303-368 | Called directly, the action succeeds exactly when the as-written field checks pass, the breed exists and the key is unset; failure writes nothing |
| AnimalController.RegisterDirectCorrected | ECF-CDA/ECF/ECF/Controllers/AnimalController.cs:303-368 | Called directly with the corrected rule, the action succeeds exactly when the annotations hold, `BreedId > 0`, the breed exists and the key is unset, so stored animals keep satisfying the annotations |
| AnimalController.BoundFieldErrors | ECF-CDA/ECF/ECF/Controllers/AnimalController.cs:304-328 | After the form binder, the as-written field checks pass exactly when the annotations hold and `BreedId > 0` |
| AnimalController.Register | ECF-CDA/ECF/ECF/Controllers/AnimalController.cs:303-368 | On a form post, failure leaves the store unchanged, and in a valid store success holds exactly when the annotations hold, `BreedId > 0` and the breed exists. It then adds exactly one animal with the submitted fields under a fresh key, and the annotations are kept. A blank description is refused with the birth-date message. |
| AnimalController.RegisterCorrected | ECF-CDA/ECF/ECF/Controllers/AnimalController.cs:320-357 | On a form post with the corrected rule, success is decided as in `Register`, and a blank description is refused with the annotation's message |
| AnimalController.RegisterAcceptsBlankDescription | ECF-CDA/ECF/ECF/Controllers/AnimalController.cs:321-324 | Called directly, the as-written action stores an animal whose description is one space, which breaks the annotations |
| AnimalController.RegisterMislabelsMissingDescription | ECF-CDA/ECF/ECF/Controllers/AnimalController.cs:321-322 | A null or blank posted description is reported with the birth-date message and not with the annotation's description message, which the annotations and the corrected action use |
| BreedsController.Index | ECF-CDA/ECF/ECF/Controllers/BreedsController.cs:24-29 | The list holds every stored breed exactly once and nothing else; no order is promised |
| BreedsController.FindBreed | ECF-CDA/ECF/ECF/Controllers/BreedsController.cs:161 | The lookup finds a row exactly when the key is stored, and the row found is the stored breed under that key |
| BreedsController.BreedExists | ECF-CDA/ECF/ECF/Controllers/BreedsController.cs:174-177 | True exactly when some breed has that id |
| BreedsController.Details | ECF-CDA/ECF/ECF/Controllers/BreedsController.cs:33-50 | The result is NotFound exactly when the id is null or unknown; otherwise the view shows that breed |
| BreedsController.BindIdAndName | ECF-CDA/ECF/ECF/Controllers/BreedsController.cs:63 | The bound breed keeps the posted id and the non-blank posted name, its description is null, and so it never passes validation |
| BreedsController.Create | ECF-CDA/ECF/ECF/Controllers/BreedsController.cs:63-74 | An invalid breed re-renders and writes nothing. A non-zero posted key faults. The store changes exactly when the breed is valid and keyless; then exactly one breed is added under a fresh key, it has no animals, and the action redirects to Index. The invariant is kept. |
| BreedsController.CreatePost | ECF-CDA/ECF/ECF/Controllers/BreedsController.cs:63-74 | As written, every post re-renders the form and the database is not written |
| BreedsController.CreatePostCorrected | ECF-CDA/ECF/ECF/Controllers/BreedsController.cs:63-74 | With `Description` bound, a valid keyless breed is added under a fresh key and the action redirects to Index |
| BreedsController.AfterConflict | ECF-CDA/ECF/ECF/Controllers/BreedsController.cs:116-127 | After a conflict the result is NotFound exactly when the breed is gone, and `Fault` otherwise |
| BreedsController.Edit | ECF-CDA/ECF/ECF/Controllers/BreedsController.cs:99-131 | An id mismatch gives NotFound with no write. An invalid breed re-renders. A valid breed with id 0 is inserted under a fresh key and the action redirects to Index. A valid breed with any other id replaces only that row and redirects to Index, or gives NotFound when no row has the key. Conflicts give NotFound or `Fault`. The invariant is kept. |
| BreedsController.EditPost | ECF-CDA/ECF/ECF/Controllers/BreedsController.cs:99-131 | As written, the database is never written. The result is NotFound exactly when the route id differs from the posted `BreedId`, and otherwise the re-rendered form |
| BreedsController.EditPostCorrected | ECF-CDA/ECF/ECF/Controllers/BreedsController.cs:99-131 | With `Description` bound, a valid breed under an existing key replaces that row and redirects to Index, and a valid breed posted with id 0 is inserted |
| BreedsController.DeleteConfirmed | ECF-CDA/ECF/ECF/Controllers/BreedsController.cs:158-171 | An unknown id is a no-op that redirects to Index, never NotFound. A referenced breed faults and leaves both tables unchanged. An unreferenced breed is removed alone. |
| Workflows.Step | ECF-CDA/ECF/ECF/Database/Context/EcfDbContext.cs:20-54 | Any one request, routed to its action as written, leaves a valid database valid |
| Workflows.RunPreservesValid | ECF-CDA/ECF/ECF/Database/Context/EcfDbContext.cs:20-54 | Any sequence of requests leaves the database in a state that satisfies the keys, column limits and foreign key |
| Workflows.DeleteUnknownDiffers | ECF-CDA/ECF/ECF/Controllers/BreedsController.cs:158-171 | For an id that is in neither table, deleting an animal gives NotFound but deleting a breed redirects to Index; neither writes |
| Workflows.BreedCreateDetailsDelete | ECF-CDA/ECF/ECF/Controllers/BreedsController.cs:33-50 | A breed created with `Description` bound is shown by `Details` under its new key; deleting it redirects to Index, and its page is then NotFound |
| Workflows.CreateFindDelete | ECF-CDA/ECF/ECF/TestECF/AnimalControllerTests.cs:68-139 | A created animal is found under its new key with exactly the submitted fields. Deleting it redirects to Index, and it is not found afterwards. |

## Findings

| source | as written | input that shows it | evidently intended | confidence | as-written member | corrected member |
|---|---|---|---|---|---|---|
| ECF-CDA/ECF/ECF/Controllers/AnimalController.cs:321 | The description is checked with `== default`, so only null is refused | A direct call, as the unit tests make, with Description `" "` and an existing breed: `Register` succeeds and stores a blank description. A form post cannot show it, because the binder delivers `" "` as null | Refuse a blank description, as `[Required]` does at Animal.cs:17 | medium; not executed | AnimalController.RegisterAcceptsBlankDescription | AnimalController.RegisterDirectCorrected |
| ECF-CDA/ECF/ECF/Controllers/AnimalController.cs:322 | A missing description is reported as "La date de naissance est obligatoire" | A form post with Description empty, blank or absent | "La description est obligatoire", the annotation's message | high; not executed | AnimalController.RegisterMislabelsMissingDescription | AnimalController.RegisterCorrected |
| ECF-CDA/ECF/ECF/Controllers/AnimalController.cs:187 | `Update(animal)` runs while the row loaded at line 174 is still tracked under the same key, so EF throws and the outer catch shows the edit error | Any valid change to a stored animal, for example a new name, posted through the form | Copy the posted fields onto the loaded row, or load it without tracking, so the edit is saved | high; not executed | AnimalController.EditNeverSaves | AnimalController.Edit |
| ECF-CDA/ECF/ECF/Controllers/BreedsController.cs:63 | `[Bind("BreedId,BreedName")]` leaves `Description` null, and `[Required]` on it then fails model validation | Any posted breed, for example name "Labrador" and description "Chien" | Bind `Description` too, so a valid breed can be created | medium; not executed | BreedsController.CreatePost | BreedsController.CreatePostCorrected |
| ECF-CDA/ECF/ECF/Controllers/BreedsController.cs:99 | The same bind list on Edit, so model validation always fails | Any posted breed whose id matches the route | Bind `Description` too, so the row can be edited | medium; not executed | BreedsController.EditPost | BreedsController.EditPostCorrected |

The breed findings assume that MVC model validation checks the
annotations of properties left out of the bind list, as it does in
ASP.NET Core. The Animal `Edit` finding assumes the default tracking
behaviour, which the context does not change. The request trace in
`Workflows` routes requests to the actions as written.

## Left out

- `Search`: the tests call it, but the controller has no such action, so there is nothing to model.
- The GET actions that only display a form or a confirmation page are left out. These are Animal `Create`, `Edit`, `Delete` and `Register`, and Breeds `Create`, `Edit` and `Delete`. The dropdowns built with `SelectList`/`ViewData` are left out with them.
- Program.cs: hosting, the SQL Server connection and retry policy, HTTPS/HSTS, `/health`, `EnsureCreated`.
- Anti-forgery tokens, async execution and model-binding failures (for example a non-numeric `BreedId`). Of the binder, only the blank-to-null conversion of strings is modelled.
- Catch-all handlers for infrastructure failures, such as an exception while loading the list in `AnimalController.Index`. Only a rejected save, and the tracking conflict in Animal `Edit`, reach a catch in the model.
- Logging and JSON serialisation in `Register` (line 309). The exception text that `Register`'s catch returns is not modelled either; its payload carries an empty error list.
- EF change tracking in general. The one place it decides an outcome, Animal `Edit`, is modelled by `EditAsWritten`; elsewhere a save is the database accepting the pending rows.
- Identity columns: the 32-bit limit, and the values that failed inserts consume, are not modelled.
- The framework's default validation messages for `Breed`: the breed form carries no error list.
- AnimalController.Index: orders names by character code with null first, not by the database collation. SQL Server's default collation is case-insensitive, so there "b" sorts before "C", while the model puts "C" first. The order of animals with equal names is not fixed either, because the query sets no tie-break.
- BreedsController.Index: promises no order, although the model's key scan yields key order.
