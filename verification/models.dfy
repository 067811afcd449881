/**
 The two entities, `Animal` and `Breed`, and the data annotations on their
 properties. `AnimalValid` and `BreedValid` are what MVC model validation
 (`ModelState.IsValid`) decides for a bound entity. The `Breed` navigation of
 an animal and the `Animals` collection of a breed are not stored fields:
 they are resolved from `BreedId` against the store (see `Schema`).
 */
module Models {
  import opened Optional
  import opened Text

  const NameMaxLength: nat := 50
  const DescriptionMaxLength: nat := 2000

  /** `AnimalId` is the key; `BreedId` is a non-nullable int, so every animal names a breed. */
  datatype Animal = Animal(animalId: int, name: Option<string>, description: Option<string>, breedId: int)

  /** `BreedId` is the key. */
  datatype Breed = Breed(breedId: int, breedName: Option<string>, description: Option<string>)

  /** `[Required]` on a string: not null, and not empty or white space only. */
  predicate RequiredOk(s: Option<string>)
  {
    s.Some? && exists i | 0 <= i < |s.value| :: !IsWhiteSpace(s.value[i])
  }

  /** `[MaxLength(n)]` on a string: null passes, otherwise at most n UTF-16 units. */
  predicate MaxLengthOk(s: Option<string>, n: nat)
  {
    s.None? || Utf16Length(s.value) <= n
  }

  lemma RequiredIsNotBlank(s: Option<string>)
    ensures RequiredOk(s) <==> !IsNullOrWhiteSpace(s)
  {
  }

  /** The annotations on `Animal`: a non-blank name of at most 50 units and a non-blank description of at most 2000. */
  predicate AnimalValid(a: Animal)
  {
    && RequiredOk(a.name) && MaxLengthOk(a.name, NameMaxLength)
    && RequiredOk(a.description) && MaxLengthOk(a.description, DescriptionMaxLength)
  }

  /** The annotations on `Breed`: the same limits on `BreedName` and `Description`. */
  predicate BreedValid(b: Breed)
  {
    && RequiredOk(b.breedName) && MaxLengthOk(b.breedName, NameMaxLength)
    && RequiredOk(b.description) && MaxLengthOk(b.description, DescriptionMaxLength)
  }

  // ---------------------------------------------------------------- binding

  /**
   How MVC binds a string form value (`ConvertEmptyStringToNull`): an empty
   or white-space-only value arrives as null, anything else as posted.
   */
  function BindText(v: Option<string>): (r: Option<string>)
    ensures r.None? <==> IsNullOrWhiteSpace(v)
    ensures r.Some? ==> r == v
    ensures RequiredOk(r) <==> RequiredOk(v)
  {
    if IsNullOrWhiteSpace(v) then None else v
  }

  /** The string properties of a posted animal as the binder delivers them. */
  function BindAnimal(form: Animal): (a: Animal)
    ensures a.animalId == form.animalId && a.breedId == form.breedId
    ensures a.name.None? <==> IsNullOrWhiteSpace(form.name)
    ensures !IsNullOrWhiteSpace(form.name) ==> a.name == form.name
    ensures a.description.None? <==> IsNullOrWhiteSpace(form.description)
    ensures !IsNullOrWhiteSpace(form.description) ==> a.description == form.description
    ensures AnimalValid(a) <==> AnimalValid(form)
    ensures AnimalValid(form) ==> a == form
  {
    Animal(form.animalId, BindText(form.name), BindText(form.description), form.breedId)
  }

  /** The string properties of a posted breed as the binder delivers them. */
  function BindBreed(form: Breed): (b: Breed)
    ensures b.breedId == form.breedId
    ensures b.breedName.None? <==> IsNullOrWhiteSpace(form.breedName)
    ensures !IsNullOrWhiteSpace(form.breedName) ==> b.breedName == form.breedName
    ensures b.description.None? <==> IsNullOrWhiteSpace(form.description)
    ensures !IsNullOrWhiteSpace(form.description) ==> b.description == form.description
    ensures BreedValid(b) <==> BreedValid(form)
    ensures BreedValid(form) ==> b == form
  {
    Breed(form.breedId, BindText(form.breedName), BindText(form.description))
  }

  // ---------------------------------------------------------------- messages

  const MsgNameRequired := "Le nom est obligatoire"
  const MsgNameTooLong := "Le nom ne peut pas dépasser 50 caractères"
  const MsgDescriptionRequired := "La description est obligatoire"
  const MsgDescriptionTooLong := "La description ne peut pas dépasser 2000 caractères"
  const MsgBreedRequired := "La race est obligatoire"

  /**
   The ModelState errors the annotations of `Animal` record. Every validator of
   every property runs, so a long white-space name on the entity fails both
   `[Required]` and `[MaxLength]`; through a form the binder has already
   made it null, which fails `[Required]` alone. `[Required]` on the int `BreedId` never fails once the
   value is bound.
   */
  function AnimalModelErrors(a: Animal): (errors: seq<string>)
    ensures errors == [] <==> AnimalValid(a)
    ensures |errors| <= 4
    ensures MsgNameRequired in errors <==> IsNullOrWhiteSpace(a.name)
    ensures MsgNameTooLong in errors <==> a.name.Some? && Utf16Length(a.name.value) > NameMaxLength
    ensures MsgDescriptionRequired in errors <==> IsNullOrWhiteSpace(a.description)
    ensures MsgDescriptionTooLong in errors <==> a.description.Some? && Utf16Length(a.description.value) > DescriptionMaxLength
    ensures MsgBreedRequired !in errors
    ensures forall m :: m in errors ==>
      m in {MsgNameRequired, MsgNameTooLong, MsgDescriptionRequired, MsgDescriptionTooLong}
    ensures forall i, j :: 0 <= i < j < |errors| ==> errors[i] != errors[j]
  {
    (if RequiredOk(a.name) then [] else [MsgNameRequired])
    + (if MaxLengthOk(a.name, NameMaxLength) then [] else [MsgNameTooLong])
    + (if RequiredOk(a.description) then [] else [MsgDescriptionRequired])
    + (if MaxLengthOk(a.description, DescriptionMaxLength) then [] else [MsgDescriptionTooLong])
  }
}
