/**
 `BreedsController`: list, details, the form actions Create and Edit,
 DeleteConfirmed and the `BreedExists` query. Unlike the animal actions,
 none of these catches exceptions: a rejected save surfaces as `Fault`.
 The POST actions bind only `BreedId` and `BreedName`; the actions proper
 (`Create`, `Edit`) take the breed as bound, and `CreatePost` / `EditPost`
 put the binder in front of them. The corrected actions bind every field
 with `Models.BindBreed`.
 */
module BreedsController {
  import opened Optional
  import opened Text
  import opened Models
  import opened Schema
  import opened Results

  // ---------------------------------------------------------------- Index

  /**
   `Index`: every stored breed exactly once. The query imposes no order; the
   model reads the rows by a scan over the identity values issued so far.
   */
  method Index(s: Store) returns (r: ActionResult)
    requires KeysMatch(s) && IdentitiesIssued(s)
    ensures r.View? && r.page.BreedList?
    ensures forall k :: k in s.breeds ==> multiset(r.page.breeds)[s.breeds[k]] == 1
    ensures forall b :: b in r.page.breeds ==> b.breedId in s.breeds && s.breeds[b.breedId] == b
  {
    var i := 1;
    var acc: seq<Breed> := [];
    while i < s.nextBreedId
      invariant 1 <= i <= s.nextBreedId
      invariant forall k :: k in s.breeds ==> multiset(acc)[s.breeds[k]] == (if k < i then 1 else 0)
      invariant forall b :: b in acc ==> b.breedId in s.breeds && b.breedId < i && s.breeds[b.breedId] == b
    {
      if i in s.breeds {
        acc := acc + [s.breeds[i]];
      }
      i := i + 1;
    }
    r := View(BreedList(acc));
  }

  // ---------------------------------------------------------------- lookups

  /** `FindAsync(id)` / `FirstOrDefaultAsync(m => m.BreedId == id)`, answered by the primary key. */
  function FindBreed(s: Store, id: int): (found: Option<Breed>)
    ensures found.Some? <==> id in s.breeds
    ensures found.Some? ==> found.value == s.breeds[id]
    ensures found.Some? && KeysMatch(s) ==> found.value.breedId == id
  {
    if id in s.breeds then Some(s.breeds[id]) else None
  }

  /** `BreedExists`: some stored breed has this `BreedId`. */
  function BreedExists(s: Store, id: int): (r: bool)
    ensures KeysMatch(s) ==> (r <==> id in s.breeds)
  {
    exists k :: k in s.breeds && s.breeds[k].breedId == id
  }

  /** `Details`: no id, or an id with no breed, gives NotFound; otherwise that breed is shown. */
  function Details(s: Store, id: Option<int>): (r: ActionResult)
    ensures r == NotFound <==> id.None? || id.value !in s.breeds
    ensures r != NotFound ==> r == View(BreedPage(s.breeds[id.value]))
    ensures KeysMatch(s) && r != NotFound ==> r.page.breed.breedId == id.value
  {
    match id
    case None => NotFound
    case Some(k) =>
      match FindBreed(s, k)
      case None => NotFound
      case Some(b) => View(BreedPage(b))
  }

  // ---------------------------------------------------------------- binding

  /**
   `[Bind("BreedId,BreedName")]`, as written: `Description` is never bound
   and stays null, so the bound breed never passes validation.
   */
  function BindIdAndName(posted: Breed): (b: Breed)
    ensures b.breedId == posted.breedId
    ensures b.breedName.None? <==> IsNullOrWhiteSpace(posted.breedName)
    ensures b.breedName.Some? ==> b.breedName == posted.breedName
    ensures b.description.None?
    ensures !BreedValid(b)
  {
    BindBreed(posted).(description := None)
  }

  // ---------------------------------------------------------------- Create

  /**
   `Create` (POST) on a bound breed. An invalid form is shown again. A valid
   breed whose key is left at 0 is added under a fresh identity value and
   starts with no animals; a non-zero key is sent to the identity column,
   which the database refuses, and nothing catches the exception.
   */
  function Create(s: Store, breed: Breed): (o: Outcome)
    ensures !BreedValid(breed) ==> o == Outcome(s, View(BreedForm(breed)))
    ensures BreedValid(breed) && breed.breedId != 0 ==> o == Outcome(s, Fault)
    ensures Valid(s) ==> (o.store != s <==> BreedValid(breed) && breed.breedId == 0)
    ensures Valid(s) && o.store != s ==>
      && o.result == RedirectIndex
      && s.nextBreedId !in s.breeds
      && o.store.breeds == s.breeds[s.nextBreedId := Breed(s.nextBreedId, breed.breedName, breed.description)]
      && o.store.animals == s.animals
      && AnimalsOfBreed(o.store, s.nextBreedId) == {}
    ensures Valid(s) ==> Valid(o.store)
    ensures Valid(s) && Annotated(s) ==> Annotated(o.store)
  {
    if !BreedValid(breed) then Outcome(s, View(BreedForm(breed)))
    else if breed.breedId != 0 then Outcome(s, Fault)
    else
      var pending := AddBreed(s, breed);
      BreedValidFitsRow(breed);
      AddBreedCheck(s, breed);
      if Accepts(pending) then Outcome(pending, RedirectIndex)
      else Outcome(s, Fault)
  }

  lemma AddBreedCheck(s: Store, b: Breed)
    ensures Valid(s) ==> s.nextBreedId !in s.breeds && AnimalsOfBreed(s, s.nextBreedId) == {}
    ensures Valid(s) ==> (Accepts(AddBreed(s, b)) <==> BreedRowOk(b))
    ensures Valid(s) && Accepts(AddBreed(s, b)) ==> Valid(AddBreed(s, b))
  {
    if Valid(s) {
      AddBreedAccepted(s, b);
      NextKeysFresh(s);
    }
  }

  /** The POST action as written: since `Description` is not bound, `[Required]` fails and nothing is ever added. */
  function CreatePost(s: Store, posted: Breed): (o: Outcome)
    ensures o.store == s
    ensures o.result == View(BreedForm(BindIdAndName(posted)))
  {
    Create(s, BindIdAndName(posted))
  }

  /** The POST action with `Description` bound: a valid breed posted without a key is added. */
  function CreatePostCorrected(s: Store, posted: Breed): (o: Outcome)
    ensures Valid(s) ==> (o.store != s <==> BreedValid(posted) && posted.breedId == 0)
    ensures Valid(s) && o.store != s ==>
      && o.result == RedirectIndex
      && o.store.breeds == s.breeds[s.nextBreedId := posted.(breedId := s.nextBreedId)]
      && o.store.animals == s.animals
    ensures Valid(s) ==> Valid(o.store)
  {
    Create(s, BindBreed(posted))
  }

  // ---------------------------------------------------------------- Edit

  /**
   After a `DbUpdateConcurrencyException` the action asks `BreedExists`
   against the database as it now is: gone gives NotFound, otherwise the
   exception is rethrown and nothing catches it.
   */
  function AfterConflict(current: Store, id: int): (o: Outcome)
    ensures o.store == current
    ensures KeysMatch(current) ==> (o.result == NotFound <==> id !in current.breeds)
    ensures o.result == NotFound || o.result == Fault
  {
    if !BreedExists(current, id) then Outcome(current, NotFound) else Outcome(current, Fault)
  }

  /**
   `Edit` (POST) on a bound breed. A route id that differs from the posted
   `BreedId` gives NotFound and writes nothing. An invalid form is shown
   again. `Update` on a breed whose key is left at its default 0 (also what
   a missing route id binds to) tracks it as Added, so the save is the same
   INSERT as `Create` and reports no conflict. A valid breed with any other
   key replaces the row; when no row has that key the UPDATE touches
   nothing, EF reports a concurrency conflict, and the recheck answers
   NotFound.
   */
  function Edit(s: Store, id: int, breed: Breed, save: Concurrency): (o: Outcome)
    ensures id != breed.breedId ==> o == Outcome(s, NotFound)
    ensures id == breed.breedId && !BreedValid(breed) ==> o == Outcome(s, View(BreedForm(breed)))
    ensures Valid(s) && id == breed.breedId && BreedValid(breed) && id == 0 ==>
      && o.result == RedirectIndex
      && s.nextBreedId !in s.breeds
      && o.store.breeds == s.breeds[s.nextBreedId := breed.(breedId := s.nextBreedId)]
      && o.store.animals == s.animals
    ensures Valid(s) && id == breed.breedId && BreedValid(breed) && id != 0 && save.NoConflict? ==>
      if id in s.breeds then
        && o.result == RedirectIndex
        && o.store.animals == s.animals
        && o.store.breeds.Keys == s.breeds.Keys
        && o.store.breeds[id] == breed
        && (forall k :: k in s.breeds && k != id ==> o.store.breeds[k] == s.breeds[k])
      else
        o == Outcome(s, NotFound)
    ensures id == breed.breedId && BreedValid(breed) && id != 0 && save.ConflictWith? ==>
      && o.store == save.current
      && (KeysMatch(save.current) ==> (o.result == NotFound <==> id !in save.current.breeds))
      && (o.result != NotFound ==> o.result == Fault)
    ensures Valid(s) && (save.ConflictWith? ==> Valid(save.current)) ==> Valid(o.store)
    ensures Annotated(s) && (save.ConflictWith? ==> Annotated(save.current)) ==> Annotated(o.store)
  {
    if id != breed.breedId then Outcome(s, NotFound)
    else if !BreedValid(breed) then Outcome(s, View(BreedForm(breed)))
    else if breed.breedId == 0 then Create(s, breed)
    else
      match save
      case ConflictWith(current) => AfterConflict(current, id)
      case NoConflict =>
        if FindBreed(s, id).None? then AfterConflict(s, id)
        else
          var pending := s.(breeds := s.breeds[id := breed]);
          BreedValidFitsRow(breed);
          ReplaceBreedCheck(s, id, breed);
          if Accepts(pending) then Outcome(pending, RedirectIndex)
          else Outcome(s, Fault)
  }

  lemma ReplaceBreedCheck(s: Store, id: int, b: Breed)
    requires id in s.breeds && b.breedId == id
    ensures Valid(s) ==> (Accepts(s.(breeds := s.breeds[id := b])) <==> BreedRowOk(b))
    ensures Valid(s) && Accepts(s.(breeds := s.breeds[id := b])) ==> Valid(s.(breeds := s.breeds[id := b]))
  {
    if Valid(s) {
      ReplaceBreedAccepted(s, id, b);
    }
  }

  /** The POST action as written: whatever is posted, the database is not written. */
  function EditPost(s: Store, id: int, posted: Breed, save: Concurrency): (o: Outcome)
    ensures o.store == s
    ensures o.result == NotFound || o.result == View(BreedForm(BindIdAndName(posted)))
    ensures o.result == NotFound <==> id != posted.breedId
  {
    Edit(s, id, BindIdAndName(posted), save)
  }

  /**
   The POST action with `Description` bound: a valid breed under an existing
   key replaces that row, and one posted with key 0 is inserted.
   */
  function EditPostCorrected(s: Store, id: int, posted: Breed, save: Concurrency): (o: Outcome)
    ensures Valid(s) && id == posted.breedId && id in s.breeds && BreedValid(posted) && save.NoConflict? ==>
      o == Outcome(s.(breeds := s.breeds[id := posted]), RedirectIndex)
    ensures Valid(s) && id == posted.breedId && id == 0 && BreedValid(posted) ==>
      o == Outcome(AddBreed(s, posted), RedirectIndex)
    ensures Valid(s) && (save.ConflictWith? ==> Valid(save.current)) ==> Valid(o.store)
  {
    Edit(s, id, BindBreed(posted), save)
  }

  // ---------------------------------------------------------------- DeleteConfirmed

  /**
   `DeleteConfirmed`: an unknown id is a no-op that still redirects to Index.
   A known breed is removed unless an animal references it; then the
   Restrict foreign key makes `SaveChanges` throw, nothing catches it, and
   both tables are left as they were.
   */
  function DeleteConfirmed(s: Store, id: int): (o: Outcome)
    ensures id !in s.breeds ==> o == Outcome(s, RedirectIndex)
    ensures o.result == Fault ==> o.store == s
    ensures Valid(s) && id in s.breeds ==> (o.result == Fault <==> AnimalsOfBreed(s, id) != {})
    ensures Valid(s) && id in s.breeds && AnimalsOfBreed(s, id) == {} ==>
      && o.result == RedirectIndex
      && o.store.breeds == s.breeds - {id}
      && o.store.animals == s.animals
      && !BreedExists(o.store, id)
    ensures Valid(s) ==> Valid(o.store)
    ensures Annotated(s) ==> Annotated(o.store)
  {
    match FindBreed(s, id)
    case None => Outcome(s, RedirectIndex)
    case Some(_) =>
      var pending := s.(breeds := s.breeds - {id});
      DeleteCheck(s, id);
      if Accepts(pending) then Outcome(pending, RedirectIndex)
      else Outcome(s, Fault)
  }

  lemma DeleteCheck(s: Store, id: int)
    requires id in s.breeds
    ensures Valid(s) ==> (Accepts(s.(breeds := s.breeds - {id})) <==> AnimalsOfBreed(s, id) == {})
  {
    if Valid(s) {
      RestrictedDelete(s, id);
    }
  }
}
