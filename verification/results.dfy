/** What an action hands back to MVC, and the database state it leaves behind. */
module Results {
  import opened Optional
  import opened Models
  import opened Schema

  /**
   The view models the actions render. The animal list carries, beside each
   animal, the `Breed` that `Include` loaded for it.
   */
  datatype Page =
    | AnimalList(animals: seq<Animal>, animalBreeds: seq<Option<Breed>>)
    | AnimalForm(animal: Animal, errors: seq<string>)
    | BreedList(breeds: seq<Breed>)
    | BreedPage(breed: Breed)
    | BreedForm(breed: Breed)
    | ErrorPage

  /**
   `NotFound()`, `RedirectToAction(nameof(Index))`, `Redirect(url)`,
   `View(...)`, `Json(new { success, message, errors })`, and `Fault` for an
   exception the action does not catch.
   */
  datatype ActionResult =
    | NotFound
    | RedirectIndex
    | RedirectUrl(url: string)
    | View(page: Page)
    | Json(success: bool, message: Option<string>, errors: seq<string>)
    | Fault

  /** A state-changing action's effect: the database after the request, and the result. */
  datatype Outcome = Outcome(store: Store, result: ActionResult)
}
