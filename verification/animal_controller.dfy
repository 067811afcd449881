/**
 `AnimalController`: the animal list, the form actions Create and Edit
 (validated by the annotations through ModelState), DeleteConfirmed, the
 `AnimalExists` query, and the JSON `Register` action with its hand-written
 validator. Every state-changing action is a function from the database
 and the request to an `Outcome`.
 */
module AnimalController {
  import opened Optional
  import opened Text
  import opened Models
  import opened Schema
  import opened Results

  const MsgCreateFailed := "Une erreur est survenue lors de la création de l'animal."
  const MsgEditFailed := "Une erreur est survenue lors de la modification de l'animal."
  const MsgValidationFailed := "Erreur de validation du formulaire"
  const MsgBirthDateRequired := "La date de naissance est obligatoire"
  const MsgBreedMissing := "La race sélectionnée n'existe pas"
  const MsgRegisterFailed := "Une erreur est survenue lors de l'inscription de l'animal."

  // ---------------------------------------------------------------- Index

  /** Ordered by `Name` ascending. */
  predicate SortedByName(s: seq<Animal>)
  {
    forall i, j :: 0 <= i < j < |s| ==> NullsFirstLe(s[i].name, s[j].name)
  }

  lemma PrependSorted(h: Animal, s: seq<Animal>)
    requires SortedByName(s)
    requires forall x :: x in s ==> NullsFirstLe(h.name, x.name)
    ensures SortedByName([h] + s)
  {
  }

  /** Inserts `a` into a name-ordered list, keeping it ordered and losing nothing. */
  function InsertByName(a: Animal, sorted: seq<Animal>): (r: seq<Animal>)
    requires SortedByName(sorted)
    ensures SortedByName(r)
    ensures multiset(r) == multiset(sorted) + multiset{a}
    decreases |sorted|
  {
    if sorted == [] then [a]
    else if NullsFirstLe(a.name, sorted[0].name) then
      assert forall x :: x in sorted ==> NullsFirstLe(a.name, x.name) by {
        forall x | x in sorted
          ensures NullsFirstLe(a.name, x.name)
        {
          var j :| 0 <= j < |sorted| && sorted[j] == x;
          if j > 0 {
            NullsFirstLeTransitive(a.name, sorted[0].name, x.name);
          }
        }
      }
      PrependSorted(a, sorted);
      [a] + sorted
    else
      var h := sorted[0];
      var tail := sorted[1..];
      assert sorted == [h] + tail;
      NullsFirstLeTotal(a.name, h.name);
      var rest := InsertByName(a, tail);
      assert forall x :: x in rest ==> NullsFirstLe(h.name, x.name) by {
        forall x | x in rest
          ensures NullsFirstLe(h.name, x.name)
        {
          assert x in multiset(rest);
          if x != a {
            assert x in multiset(tail);
            var j :| 0 <= j < |tail| && tail[j] == x;
            assert sorted[j + 1] == x;
          }
        }
      }
      PrependSorted(h, rest);
      [h] + rest
  }

  lemma InsertedMembers(a: Animal, sorted: seq<Animal>)
    requires SortedByName(sorted)
    ensures forall x :: x in InsertByName(a, sorted) <==> x == a || x in sorted
  {
  }

  /** `Include(a => a.Breed)`: the breed loaded beside each listed animal; stored animals always find theirs. */
  function IncludeBreeds(s: Store, animals: seq<Animal>): (bs: seq<Option<Breed>>)
    ensures |bs| == |animals|
    ensures forall i :: 0 <= i < |animals| ==> bs[i] == ResolveBreed(s, animals[i])
    ensures ForeignKeysResolve(s) && (forall a :: a in animals ==> a.animalId in s.animals && s.animals[a.animalId] == a) ==>
      forall i :: 0 <= i < |bs| ==> bs[i].Some?
  {
    seq(|animals|, i requires 0 <= i < |animals| => ResolveBreed(s, animals[i]))
  }

  /**
   `Index`: every stored animal exactly once, ordered by `Name` ascending.
   Equal names may come in any order: the query fixes no tie-break. The rows
   are read by a scan over the identity values issued so far, and
   `Include(a => a.Breed)` loads each animal's breed beside it.
   */
  method Index(s: Store) returns (r: ActionResult)
    requires KeysMatch(s) && IdentitiesIssued(s)
    ensures r.View? && r.page.AnimalList?
    ensures SortedByName(r.page.animals)
    ensures forall k :: k in s.animals ==> multiset(r.page.animals)[s.animals[k]] == 1
    ensures forall a :: a in r.page.animals ==> a.animalId in s.animals && s.animals[a.animalId] == a
    ensures |r.page.animalBreeds| == |r.page.animals|
    ensures forall i :: 0 <= i < |r.page.animals| ==> r.page.animalBreeds[i] == ResolveBreed(s, r.page.animals[i])
    ensures ForeignKeysResolve(s) ==> forall i :: 0 <= i < |r.page.animalBreeds| ==> r.page.animalBreeds[i].Some?
  {
    var i := 1;
    var acc: seq<Animal> := [];
    while i < s.nextAnimalId
      invariant 1 <= i <= s.nextAnimalId
      invariant SortedByName(acc)
      invariant forall k :: k in s.animals ==> multiset(acc)[s.animals[k]] == (if k < i then 1 else 0)
      invariant forall a :: a in acc ==> a.animalId in s.animals && a.animalId < i && s.animals[a.animalId] == a
    {
      if i in s.animals {
        InsertedMembers(s.animals[i], acc);
        acc := InsertByName(s.animals[i], acc);
      }
      i := i + 1;
    }
    r := View(AnimalList(acc, IncludeBreeds(s, acc)));
  }

  // ---------------------------------------------------------------- Create

  /**
   `[Bind("Name,Description,BreedId")]`: `AnimalId` is not bound and keeps
   its default 0, and a blank string arrives as null.
   */
  function BindForCreate(posted: Animal): (a: Animal)
    ensures a.animalId == 0 && a.breedId == posted.breedId
    ensures a.name.None? <==> IsNullOrWhiteSpace(posted.name)
    ensures !IsNullOrWhiteSpace(posted.name) ==> a.name == posted.name
    ensures a.description.None? <==> IsNullOrWhiteSpace(posted.description)
    ensures !IsNullOrWhiteSpace(posted.description) ==> a.description == posted.description
    ensures AnimalValid(a) <==> AnimalValid(posted)
    ensures AnimalValid(posted) ==> a == posted.(animalId := 0)
  {
    BindAnimal(posted).(animalId := 0)
  }

  /**
   `Create` (POST). An invalid form is shown again with the submitted animal.
   A valid one is added under a fresh identity; a breed that does not exist
   makes `SaveChanges` fail on the foreign key, which the action catches.
   Success redirects to `returnUrl` when it is non-blank (the binder turns a
   blank one into null) and local
   (`isLocalUrl` stands for `Url.IsLocalUrl`), and to Index otherwise.
   */
  function Create(s: Store, posted: Animal, returnUrl: Option<string>, isLocalUrl: string -> bool): (o: Outcome)
    ensures !AnimalValid(BindForCreate(posted)) ==>
      o == Outcome(s, View(AnimalForm(BindForCreate(posted), AnimalModelErrors(BindForCreate(posted)))))
    ensures Valid(s) ==> (o.store != s <==> AnimalValid(posted) && posted.breedId in s.breeds)
    ensures Valid(s) && AnimalValid(posted) && posted.breedId !in s.breeds ==>
      o == Outcome(s, View(AnimalForm(BindForCreate(posted), [MsgCreateFailed])))
    ensures Valid(s) && o.store != s ==>
      && s.nextAnimalId !in s.animals
      && o.store.animals == s.animals[s.nextAnimalId := Animal(s.nextAnimalId, posted.name, posted.description, posted.breedId)]
      && o.store.breeds == s.breeds
      && (o.result.RedirectUrl? <==> !IsNullOrWhiteSpace(returnUrl) && isLocalUrl(returnUrl.value))
      && (o.result.RedirectUrl? ==> o.result.url == returnUrl.value)
      && (!o.result.RedirectUrl? ==> o.result == RedirectIndex)
    ensures Valid(s) ==> Valid(o.store)
    ensures Valid(s) && Annotated(s) ==> Annotated(o.store)
  {
    var animal := BindForCreate(posted);
    if !AnimalValid(animal) then
      Outcome(s, View(AnimalForm(animal, AnimalModelErrors(animal))))
    else
      var pending := AddAnimal(s, animal);
      AnimalValidFitsRow(animal);
      CommitCheck(s, animal);
      if !Accepts(pending) then
        Outcome(s, View(AnimalForm(animal, [MsgCreateFailed])))
      else if !IsNullOrEmpty(BindText(returnUrl)) && isLocalUrl(BindText(returnUrl).value) then
        Outcome(pending, RedirectUrl(BindText(returnUrl).value))
      else
        Outcome(pending, RedirectIndex)
  }

  /** The facts about `AddAnimal` a valid store gives; nothing for any other store. */
  lemma CommitCheck(s: Store, a: Animal)
    ensures Valid(s) ==> s.nextAnimalId !in s.animals
    ensures Valid(s) ==> (Accepts(AddAnimal(s, a)) <==> AnimalRowOk(a) && a.breedId in s.breeds)
    ensures Valid(s) && Accepts(AddAnimal(s, a)) ==> Valid(AddAnimal(s, a))
  {
    if Valid(s) {
      AddAnimalAccepted(s, a);
      NextKeysFresh(s);
    }
  }

  // ---------------------------------------------------------------- lookups

  /** `FirstOrDefaultAsync(a => a.AnimalId == id)`, answered by the primary key. */
  function FindAnimal(s: Store, id: int): (found: Option<Animal>)
    ensures found.Some? <==> id in s.animals
    ensures found.Some? ==> found.value == s.animals[id]
    ensures found.Some? && KeysMatch(s) ==> found.value.animalId == id
  {
    if id in s.animals then Some(s.animals[id]) else None
  }

  /** `AnimalExists`: some stored animal has this `AnimalId`. */
  function AnimalExists(s: Store, id: int): (r: bool)
    ensures KeysMatch(s) ==> (r <==> id in s.animals)
  {
    exists k :: k in s.animals && s.animals[k].animalId == id
  }

  // ---------------------------------------------------------------- Edit

  /**
   `Edit` (POST) as evidently intended, binding all four fields. A route id
   that differs from the posted `AnimalId`, or an id with no row, gives
   NotFound. An invalid form is shown again. A valid one replaces the row; a
   failing save (foreign key) is caught and the form is shown with an error.
   On a concurrency conflict the row is looked up again in the database as
   it now is: gone gives NotFound, otherwise the rethrown exception reaches
   the outer catch.
   */
  function Edit(s: Store, id: int, posted: Animal, save: Concurrency): (o: Outcome)
    ensures id != posted.animalId || id !in s.animals ==> o == Outcome(s, NotFound)
    ensures id == posted.animalId && id in s.animals && !AnimalValid(posted) ==>
      o == Outcome(s, View(AnimalForm(BindAnimal(posted), AnimalModelErrors(BindAnimal(posted)))))
    ensures Valid(s) && id == posted.animalId && id in s.animals && AnimalValid(posted) && save.NoConflict? ==>
      if posted.breedId in s.breeds then
        && o.result == RedirectIndex
        && o.store.breeds == s.breeds
        && o.store.animals.Keys == s.animals.Keys
        && o.store.animals[id] == posted
        && (forall k :: k in s.animals && k != id ==> o.store.animals[k] == s.animals[k])
      else
        o == Outcome(s, View(AnimalForm(posted, [MsgEditFailed])))
    ensures id == posted.animalId && id in s.animals && AnimalValid(posted) && save.ConflictWith? ==>
      && o.store == save.current
      && (KeysMatch(save.current) ==> (o.result == NotFound <==> id !in save.current.animals))
      && (o.result != NotFound ==> o.result == View(AnimalForm(posted, [MsgEditFailed])))
    ensures Valid(s) && (save.ConflictWith? ==> Valid(save.current)) ==> Valid(o.store)
    ensures Annotated(s) && (save.ConflictWith? ==> Annotated(save.current)) ==> Annotated(o.store)
  {
    var animal := BindAnimal(posted);
    if id != animal.animalId then Outcome(s, NotFound)
    else if FindAnimal(s, id).None? then Outcome(s, NotFound)
    else if !AnimalValid(animal) then Outcome(s, View(AnimalForm(animal, AnimalModelErrors(animal))))
    else
      match save
      case ConflictWith(current) =>
        if !AnimalExists(current, animal.animalId) then Outcome(current, NotFound)
        else Outcome(current, View(AnimalForm(animal, [MsgEditFailed])))
      case NoConflict =>
        var pending := s.(animals := s.animals[id := animal]);
        AnimalValidFitsRow(animal);
        ReplaceCheck(s, id, animal);
        if Accepts(pending) then Outcome(pending, RedirectIndex)
        else Outcome(s, View(AnimalForm(animal, [MsgEditFailed])))
  }

  /**
   `Edit` (POST) as written. The existing row is loaded by a tracking query,
   so the `Update(animal)` that follows meets a second instance with the
   same key and throws `InvalidOperationException` before anything is
   saved. The inner catch takes only concurrency exceptions; the outer one
   shows the form with the edit error. No edit reaches the database.
   */
  function EditAsWritten(s: Store, id: int, posted: Animal): (o: Outcome)
    ensures o.store == s
    ensures id != posted.animalId || id !in s.animals ==> o.result == NotFound
    ensures id == posted.animalId && id in s.animals ==>
      && o.result.View? && o.result.page.AnimalForm?
      && o.result.page.animal == BindAnimal(posted)
      && (o.result.page.errors == [MsgEditFailed] <==> AnimalValid(posted))
    ensures id == posted.animalId && id in s.animals && !AnimalValid(posted) ==>
      o.result.page.errors == AnimalModelErrors(BindAnimal(posted))
  {
    var animal := BindAnimal(posted);
    if id != animal.animalId then Outcome(s, NotFound)
    else if FindAnimal(s, id).None? then Outcome(s, NotFound)
    else if !AnimalValid(animal) then Outcome(s, View(AnimalForm(animal, AnimalModelErrors(animal))))
    else Outcome(s, View(AnimalForm(animal, [MsgEditFailed])))
  }

  /**
   Where the intended `Edit` replaces the row and redirects, the action as
   written shows the edit error and leaves the database as it was.
   */
  lemma EditNeverSaves(s: Store, id: int, posted: Animal)
    requires Valid(s) && id == posted.animalId && id in s.animals
    requires AnimalValid(posted) && posted.breedId in s.breeds && posted != s.animals[id]
    ensures EditAsWritten(s, id, posted) == Outcome(s, View(AnimalForm(posted, [MsgEditFailed])))
    ensures Edit(s, id, posted, NoConflict).result == RedirectIndex
    ensures Edit(s, id, posted, NoConflict).store.animals[id] == posted
    ensures Edit(s, id, posted, NoConflict).store != s
  {
  }

  lemma ReplaceCheck(s: Store, id: int, a: Animal)
    requires id in s.animals && a.animalId == id
    ensures Valid(s) ==> (Accepts(s.(animals := s.animals[id := a])) <==> AnimalRowOk(a) && a.breedId in s.breeds)
    ensures Valid(s) && Accepts(s.(animals := s.animals[id := a])) ==> Valid(s.(animals := s.animals[id := a]))
  {
    if Valid(s) {
      ReplaceAnimalAccepted(s, id, a);
    }
  }

  // ---------------------------------------------------------------- DeleteConfirmed

  /**
   `DeleteConfirmed`: an unknown id gives NotFound and writes nothing; a
   known one removes exactly that row (animals are leaves: nothing refers
   to them) and redirects to Index.
   */
  function DeleteConfirmed(s: Store, id: int): (o: Outcome)
    ensures id !in s.animals ==> o == Outcome(s, NotFound)
    ensures Valid(s) && id in s.animals ==>
      && o.result == RedirectIndex
      && o.store.animals.Keys == s.animals.Keys - {id}
      && (forall k :: k in o.store.animals ==> o.store.animals[k] == s.animals[k])
      && o.store.breeds == s.breeds
      && !AnimalExists(o.store, id)
    ensures Valid(s) ==> Valid(o.store)
    ensures Annotated(s) ==> Annotated(o.store)
  {
    match FindAnimal(s, id)
    case None => Outcome(s, NotFound)
    case Some(_) =>
      var pending := s.(animals := s.animals - {id});
      if Accepts(pending) then Outcome(pending, RedirectIndex)
      else Outcome(s, View(ErrorPage))
  }

  // ---------------------------------------------------------------- Register

  /**
   The field checks of `Register`, as written: every field is checked and
   every failure is reported, at most one per field. A name is required
   (null or white space) or too long, never both. The description is
   rejected only when null, so an empty or blank one passes, and its message
   speaks of a birth date. A `BreedId` of 0 or less is refused.
   */
  function RegisterFieldErrors(a: Animal): (errors: seq<string>)
    ensures |errors| <= 3
    ensures MsgNameRequired in errors <==> IsNullOrWhiteSpace(a.name)
    ensures MsgNameTooLong in errors <==> !IsNullOrWhiteSpace(a.name) && Utf16Length(a.name.value) > NameMaxLength
    ensures MsgBirthDateRequired in errors <==> a.description.None?
    ensures MsgDescriptionTooLong in errors <==> a.description.Some? && Utf16Length(a.description.value) > DescriptionMaxLength
    ensures MsgBreedRequired in errors <==> a.breedId <= 0
    ensures forall m :: m in errors ==>
      m in {MsgNameRequired, MsgNameTooLong, MsgBirthDateRequired, MsgDescriptionTooLong, MsgBreedRequired}
    ensures forall i, j :: 0 <= i < j < |errors| ==> errors[i] != errors[j]
  {
    (if IsNullOrWhiteSpace(a.name) then [MsgNameRequired]
     else if Utf16Length(a.name.value) > NameMaxLength then [MsgNameTooLong]
     else [])
    + (if a.description.None? then [MsgBirthDateRequired]
       else if Utf16Length(a.description.value) > DescriptionMaxLength then [MsgDescriptionTooLong]
       else [])
    + (if a.breedId <= 0 then [MsgBreedRequired] else [])
  }

  /**
   The description rule as evidently intended: blank is refused like
   `[Required]` refuses it, with the annotation's own message.
   */
  function CorrectedFieldErrors(a: Animal): (errors: seq<string>)
    ensures |errors| <= 3
    ensures errors == [] <==> AnimalValid(a) && a.breedId > 0
    ensures MsgNameRequired in errors <==> IsNullOrWhiteSpace(a.name)
    ensures MsgNameTooLong in errors <==> !IsNullOrWhiteSpace(a.name) && Utf16Length(a.name.value) > NameMaxLength
    ensures MsgDescriptionRequired in errors <==> IsNullOrWhiteSpace(a.description)
    ensures MsgDescriptionTooLong in errors <==>
      !IsNullOrWhiteSpace(a.description) && Utf16Length(a.description.value) > DescriptionMaxLength
    ensures MsgBreedRequired in errors <==> a.breedId <= 0
    ensures MsgBirthDateRequired !in errors
    ensures forall m :: m in errors ==> m in AnimalModelErrors(a) || (m == MsgBreedRequired && a.breedId <= 0)
    ensures forall i, j :: 0 <= i < j < |errors| ==> errors[i] != errors[j]
  {
    (if IsNullOrWhiteSpace(a.name) then [MsgNameRequired]
     else if Utf16Length(a.name.value) > NameMaxLength then [MsgNameTooLong]
     else [])
    + (if IsNullOrWhiteSpace(a.description) then [MsgDescriptionRequired]
       else if Utf16Length(a.description.value) > DescriptionMaxLength then [MsgDescriptionTooLong]
       else [])
    + (if a.breedId <= 0 then [MsgBreedRequired] else [])
  }

  /**
   What `Register` does once its field checks have produced `errors`: report
   them; otherwise look the breed up by key and report a missing one; only
   then add the animal and answer `success = true`. An animal that carries
   its own key sends an explicit value to the identity column, which the
   database refuses; the catch answers with the failure message.
   */
  function RegisterChecked(s: Store, animal: Animal, errors: seq<string>): (o: Outcome)
    ensures o.result.Json?
    ensures !o.result.success ==> o.store == s
    ensures errors != [] ==> o == Outcome(s, Json(false, Some(MsgValidationFailed), errors))
    ensures errors == [] && animal.breedId !in s.breeds ==>
      o == Outcome(s, Json(false, Some(MsgValidationFailed), [MsgBreedMissing]))
    ensures o.result.success ==>
      && errors == [] && animal.breedId in s.breeds && animal.animalId == 0
      && o.store == AddAnimal(s, animal)
    ensures Valid(s) && errors == [] && animal.breedId in s.breeds ==>
      (o.result.success <==> animal.animalId == 0 && AnimalRowOk(animal))
    ensures Valid(s) ==> Valid(o.store)
  {
    if errors != [] then
      Outcome(s, Json(false, Some(MsgValidationFailed), errors))
    else if animal.breedId !in s.breeds then
      Outcome(s, Json(false, Some(MsgValidationFailed), [MsgBreedMissing]))
    else if animal.animalId != 0 then
      Outcome(s, Json(false, Some(MsgRegisterFailed), []))
    else
      var pending := AddAnimal(s, animal);
      CommitCheck(s, animal);
      if Accepts(pending) then Outcome(pending, Json(true, None, []))
      else Outcome(s, Json(false, Some(MsgRegisterFailed), []))
  }

  /**
   `Register` called with an animal directly, as the unit tests call
   actions: no binder runs, so the strings arrive exactly as given.
   */
  function RegisterDirect(s: Store, animal: Animal): (o: Outcome)
    ensures o.result.Json?
    ensures !o.result.success ==> o.store == s
    ensures RegisterFieldErrors(animal) != [] ==>
      o == Outcome(s, Json(false, Some(MsgValidationFailed), RegisterFieldErrors(animal)))
    ensures Valid(s) ==>
      (o.result.success <==> RegisterFieldErrors(animal) == [] && animal.breedId in s.breeds && animal.animalId == 0)
    ensures Valid(s) ==> Valid(o.store)
  {
    RegisterChecked(s, animal, RegisterFieldErrors(animal))
  }

  /**
   A direct call with the description rule corrected: it succeeds exactly
   when the annotations hold and the breed exists, so every stored animal
   keeps satisfying the annotations.
   */
  function RegisterDirectCorrected(s: Store, animal: Animal): (o: Outcome)
    ensures o.result.Json?
    ensures !o.result.success ==> o.store == s
    ensures Valid(s) ==>
      (o.result.success <==> AnimalValid(animal) && animal.breedId > 0 && animal.breedId in s.breeds && animal.animalId == 0)
    ensures Valid(s) ==> Valid(o.store)
    ensures Valid(s) && Annotated(s) ==> Annotated(o.store)
  {
    AnimalValidFitsRow(animal);
    RegisterChecked(s, animal, CorrectedFieldErrors(animal))
  }

  /** Through the form binder, the as-written field checks pass exactly when the annotations hold and the breed id is positive. */
  lemma BoundFieldErrors(posted: Animal)
    ensures RegisterFieldErrors(BindForCreate(posted)) == [] <==> AnimalValid(posted) && posted.breedId > 0
  {
  }

  /**
   `Register` (POST), as written, on a form post. The binder has already
   turned a blank description into null, so the field checks refuse it, but
   under the birth-date message. Field failures are all reported and nothing
   is written; with clean fields a missing breed is the one error; otherwise
   exactly one animal is added under a fresh key.
   */
  function Register(s: Store, posted: Animal): (o: Outcome)
    ensures o.result.Json?
    ensures !o.result.success ==> o.store == s
    ensures RegisterFieldErrors(BindForCreate(posted)) != [] ==>
      o == Outcome(s, Json(false, Some(MsgValidationFailed), RegisterFieldErrors(BindForCreate(posted))))
    ensures AnimalValid(posted) && posted.breedId > 0 && posted.breedId !in s.breeds ==>
      o == Outcome(s, Json(false, Some(MsgValidationFailed), [MsgBreedMissing]))
    ensures IsNullOrWhiteSpace(posted.description) ==>
      !o.result.success && MsgBirthDateRequired in o.result.errors && MsgDescriptionRequired !in o.result.errors
    ensures Valid(s) ==> (o.result.success <==> AnimalValid(posted) && posted.breedId > 0 && posted.breedId in s.breeds)
    ensures Valid(s) && o.result.success ==>
      && s.nextAnimalId !in s.animals
      && o.store.animals == s.animals[s.nextAnimalId := Animal(s.nextAnimalId, posted.name, posted.description, posted.breedId)]
      && o.store.breeds == s.breeds
    ensures Valid(s) ==> Valid(o.store)
    ensures Valid(s) && Annotated(s) ==> Annotated(o.store)
  {
    var animal := BindForCreate(posted);
    BoundFieldErrors(posted);
    CommitCheck(s, animal);
    RegisterDirect(s, animal)
  }

  /** `Register` on a form post with the description rule corrected: a blank description gets the annotation's message. */
  function RegisterCorrected(s: Store, posted: Animal): (o: Outcome)
    ensures o.result.Json?
    ensures !o.result.success ==> o.store == s
    ensures IsNullOrWhiteSpace(posted.description) ==>
      !o.result.success && MsgDescriptionRequired in o.result.errors && MsgBirthDateRequired !in o.result.errors
    ensures Valid(s) ==>
      (o.result.success <==> AnimalValid(posted) && posted.breedId > 0 && posted.breedId in s.breeds)
    ensures Valid(s) ==> Valid(o.store)
    ensures Valid(s) && Annotated(s) ==> Annotated(o.store)
  {
    RegisterDirectCorrected(s, BindForCreate(posted))
  }

  // ---------------------------------------------------------------- findings

  /**
   As written, `Register` called directly stores an animal whose description
   is a single space, which `[Required]` forbids.
   */
  lemma RegisterAcceptsBlankDescription()
    ensures
      var s := Store(map[], map[1 := Breed(1, Some("B"), Some("C"))], 1, 2);
      var o := RegisterDirect(s, Animal(0, Some("R"), Some(" "), 1));
      && Valid(s) && Annotated(s)
      && o.result.success
      && !Annotated(o.store)
  {
    var s := Store(map[], map[1 := Breed(1, Some("B"), Some("C"))], 1, 2);
    var animal := Animal(0, Some("R"), Some(" "), 1);
    assert Utf16Length("B") == 1 && Utf16Length("C") == 1 && Utf16Length("R") == 1 && Utf16Length(" ") == 1;
    assert RequiredOk(Some("B")) by { assert !IsWhiteSpace("B"[0]); }
    assert RequiredOk(Some("C")) by { assert !IsWhiteSpace("C"[0]); }
    assert !IsNullOrWhiteSpace(Some("R")) by { assert !IsWhiteSpace("R"[0]); }
    assert !RequiredOk(Some(" ")) by { assert IsWhiteSpace(" "[0]); }
    assert Valid(s);
    assert RegisterFieldErrors(animal) == [];
    var o := RegisterDirect(s, animal);
    assert o.store.animals[1] == Animal(1, Some("R"), Some(" "), 1);
  }

  /**
   As written, a missing description is reported with a birth-date message,
   not the annotation's description message; on a form post this is also
   what a blank description gets.
   */
  lemma RegisterMislabelsMissingDescription(s: Store, posted: Animal)
    requires IsNullOrWhiteSpace(posted.description)
    ensures MsgBirthDateRequired in Register(s, posted).result.errors
    ensures MsgDescriptionRequired !in Register(s, posted).result.errors
    ensures MsgDescriptionRequired in AnimalModelErrors(posted)
    ensures MsgDescriptionRequired in RegisterCorrected(s, posted).result.errors
  {
  }
}
