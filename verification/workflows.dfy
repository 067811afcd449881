/**
 The POST actions of both controllers as one request type, run one after
 another against the same database. Each request is handled alone and
 commits at most once, so a run is a fold of the single-request transitions.
 */
module Workflows {
  import opened Optional
  import opened Models
  import opened Schema
  import opened Results
  import AnimalController
  import BreedsController

  datatype Request =
    | CreateAnimal(animal: Animal, returnUrl: Option<string>)
    | EditAnimal(animalId: int, animal: Animal)
    | DeleteAnimal(animalId: int)
    | RegisterAnimal(animal: Animal)
    | CreateBreed(breed: Breed)
    | EditBreed(breedId: int, breed: Breed, breedSave: Concurrency)
    | DeleteBreed(breedId: int)

  /** One request, routed to its action as the controllers are written. */
  function Step(s: Store, r: Request, isLocalUrl: string -> bool): (o: Outcome)
    ensures Valid(s) ==> Valid(o.store)
  {
    match r
    case CreateAnimal(a, url) => AnimalController.Create(s, a, url, isLocalUrl)
    case EditAnimal(id, a) => AnimalController.EditAsWritten(s, id, a)
    case DeleteAnimal(id) => AnimalController.DeleteConfirmed(s, id)
    case RegisterAnimal(a) => AnimalController.Register(s, a)
    case CreateBreed(b) => BreedsController.CreatePost(s, b)
    case EditBreed(id, b, save) => BreedsController.EditPost(s, id, b, save)
    case DeleteBreed(id) => BreedsController.DeleteConfirmed(s, id)
  }

  /** The database after the requests, in order. */
  function Run(s: Store, rs: seq<Request>, isLocalUrl: string -> bool): Store
    decreases |rs|
  {
    if rs == [] then s else Run(Step(s, rs[0], isLocalUrl).store, rs[1..], isLocalUrl)
  }

  /** No sequence of requests leads the database out of its invariant. */
  lemma {:induction false} RunPreservesValid(s: Store, rs: seq<Request>, isLocalUrl: string -> bool)
    requires Valid(s)
    ensures Valid(Run(s, rs, isLocalUrl))
    decreases |rs|
  {
    if rs != [] {
      var t := Step(s, rs[0], isLocalUrl).store;
      RunPreservesValid(t, rs[1..], isLocalUrl);
    }
  }

  /** Unknown ids: deleting an animal answers NotFound, deleting a breed silently redirects. */
  lemma DeleteUnknownDiffers(s: Store, id: int)
    requires id !in s.animals && id !in s.breeds
    ensures AnimalController.DeleteConfirmed(s, id) == Outcome(s, NotFound)
    ensures BreedsController.DeleteConfirmed(s, id) == Outcome(s, RedirectIndex)
  {
  }

  /**
   The breed pages follow the store: a breed created through the corrected
   form is shown under its new key, and once deleted (it has no animals yet)
   its page is NotFound.
   */
  lemma BreedCreateDetailsDelete(s: Store, posted: Breed)
    requires Valid(s) && BreedValid(posted) && posted.breedId == 0
    ensures
      var created := BreedsController.CreatePostCorrected(s, posted);
      var k := s.nextBreedId;
      && BreedsController.Details(created.store, Some(k)) == View(BreedPage(posted.(breedId := k)))
      && BreedsController.DeleteConfirmed(created.store, k).result == RedirectIndex
      && BreedsController.Details(BreedsController.DeleteConfirmed(created.store, k).store, Some(k)) == NotFound
  {
  }

  /** A created animal can be found under its new key with exactly the submitted fields, until it is deleted. */
  lemma CreateFindDelete(s: Store, posted: Animal, isLocalUrl: string -> bool)
    requires Valid(s) && AnimalValid(posted) && posted.breedId in s.breeds
    ensures
      var created := AnimalController.Create(s, posted, None, isLocalUrl);
      var k := s.nextAnimalId;
      && created.result == RedirectIndex
      && AnimalController.FindAnimal(created.store, k) == Some(Animal(k, posted.name, posted.description, posted.breedId))
      && AnimalController.DeleteConfirmed(created.store, k).result == RedirectIndex
      && AnimalController.FindAnimal(AnimalController.DeleteConfirmed(created.store, k).store, k).None?
  {
  }
}
