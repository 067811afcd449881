/**
 The database as `EcfDbContext.OnModelCreating` configures it: two tables
 keyed by identity columns, NOT NULL and length limits on the string
 columns, and a foreign key from `Animals.BreedId` to `Breeds.BreedId` whose
 delete behaviour is Restrict. `SaveChanges` either commits the pending
 state in full or is rejected with a `DbUpdateException`; `Accepts` is the
 database's verdict.
 */
module Schema {
  import opened Optional
  import opened Text
  import opened Models

  /**
   Both tables plus the next value of each identity column. SQL Server hands
   out identity values in increasing order and never reuses one.
   */
  datatype Store = Store(
    animals: map<int, Animal>,
    breeds: map<int, Breed>,
    nextAnimalId: int,
    nextBreedId: int)

  /** A fresh database: no rows, both identities seeded at 1. */
  const Empty := Store(map[], map[], 1, 1)

  /** What a save reports: committed, or an optimistic-concurrency conflict after which the database holds `current`. */
  datatype Concurrency = NoConflict | ConflictWith(current: Store)

  /** `HasKey`: every row sits under its own key. */
  predicate KeysMatch(s: Store)
  {
    && (forall k :: k in s.animals ==> s.animals[k].animalId == k)
    && (forall k :: k in s.breeds ==> s.breeds[k].breedId == k)
  }

  /** Animal columns: `Name` NOT NULL varchar(50), `Description` NOT NULL varchar(2000). */
  predicate AnimalRowOk(a: Animal)
  {
    && a.name.Some? && Utf16Length(a.name.value) <= NameMaxLength
    && a.description.Some? && Utf16Length(a.description.value) <= DescriptionMaxLength
  }

  /**
   Breed columns: `BreedName` NOT NULL (its 50-unit size comes from the
   `[MaxLength(50)]` annotation, which the model builder also maps to the
   column), `Description` NOT NULL varchar(2000).
   */
  predicate BreedRowOk(b: Breed)
  {
    && b.breedName.Some? && Utf16Length(b.breedName.value) <= NameMaxLength
    && b.description.Some? && Utf16Length(b.description.value) <= DescriptionMaxLength
  }

  /** The foreign key: every animal's `BreedId` is the key of a breed. */
  predicate ForeignKeysResolve(s: Store)
  {
    forall k :: k in s.animals ==> s.animals[k].breedId in s.breeds
  }

  /** What the database accepts at `SaveChanges`. */
  predicate Accepts(s: Store)
  {
    && KeysMatch(s)
    && (forall k :: k in s.animals ==> AnimalRowOk(s.animals[k]))
    && (forall k :: k in s.breeds ==> BreedRowOk(s.breeds[k]))
    && ForeignKeysResolve(s)
  }

  /** Identity values issued so far are 1 .. next - 1. */
  predicate IdentitiesIssued(s: Store)
  {
    && 1 <= s.nextAnimalId && 1 <= s.nextBreedId
    && (forall k :: k in s.animals ==> 1 <= k < s.nextAnimalId)
    && (forall k :: k in s.breeds ==> 1 <= k < s.nextBreedId)
  }

  /** The store invariant: a state the database can be in. */
  predicate Valid(s: Store)
  {
    Accepts(s) && IdentitiesIssued(s)
  }

  /** Application-level invariant: every stored row also satisfies the entity annotations. */
  predicate Annotated(s: Store)
  {
    && (forall k :: k in s.animals ==> AnimalValid(s.animals[k]))
    && (forall k :: k in s.breeds ==> BreedValid(s.breeds[k]))
  }

  /** `Breed.Animals`: the keys of the animals whose `BreedId` is `breedId`. */
  function AnimalsOfBreed(s: Store, breedId: int): set<int>
  {
    set k | k in s.animals && s.animals[k].breedId == breedId
  }

  /** The `Breed` navigation of an animal: resolved from `BreedId`, null when nothing matches. */
  function ResolveBreed(s: Store, a: Animal): (b: Option<Breed>)
    ensures b.None? <==> a.breedId !in s.breeds
    ensures b.Some? ==> b.value == s.breeds[a.breedId]
    ensures KeysMatch(s) && b.Some? ==> b.value.breedId == a.breedId
    ensures ForeignKeysResolve(s) && a.animalId in s.animals && s.animals[a.animalId] == a ==> b.Some?
  {
    if a.breedId in s.breeds then Some(s.breeds[a.breedId]) else None
  }

  /** `Add(animal)`: the row gets the next identity value; AnimalId is not sent. */
  function AddAnimal(s: Store, a: Animal): Store
  {
    var k := s.nextAnimalId;
    s.(animals := s.animals[k := a.(animalId := k)], nextAnimalId := k + 1)
  }

  /** `Add(breed)` of a breed whose key is left at its default 0. */
  function AddBreed(s: Store, b: Breed): Store
  {
    var k := s.nextBreedId;
    s.(breeds := s.breeds[k := b.(breedId := k)], nextBreedId := k + 1)
  }

  /** The annotations are at least as strict as the columns, so a validated animal always fits its row. */
  lemma AnimalValidFitsRow(a: Animal)
    ensures AnimalValid(a) ==> AnimalRowOk(a)
  {
  }

  /** ... but not conversely: the columns accept a blank name that `[Required]` refuses. */
  lemma RowAcceptsBlankName()
    ensures AnimalRowOk(Animal(1, Some(" "), Some("x"), 1)) && !AnimalValid(Animal(1, Some(" "), Some("x"), 1))
  {
  }

  lemma BreedValidFitsRow(b: Breed)
    ensures BreedValid(b) ==> BreedRowOk(b)
  {
  }

  /** Identity values are fresh: the next key of each table is unused, and no animal references the next breed key. */
  lemma NextKeysFresh(s: Store)
    requires Valid(s)
    ensures s.nextAnimalId !in s.animals
    ensures s.nextBreedId !in s.breeds
    ensures AnimalsOfBreed(s, s.nextBreedId) == {}
  {
    forall k | k in s.animals
      ensures s.animals[k].breedId != s.nextBreedId
    {
      assert s.animals[k].breedId in s.breeds;
    }
    assert forall k :: k !in AnimalsOfBreed(s, s.nextBreedId);
  }

  /**
   Restricted delete: removing a breed leaves a state the database accepts
   exactly when no animal references it.
   */
  lemma RestrictedDelete(s: Store, id: int)
    requires Valid(s) && id in s.breeds
    ensures Accepts(s.(breeds := s.breeds - {id})) <==> AnimalsOfBreed(s, id) == {}
  {
    var t := s.(breeds := s.breeds - {id});
    if k :| k in s.animals && s.animals[k].breedId == id {
      assert k in AnimalsOfBreed(s, id);
      assert !ForeignKeysResolve(t);
    } else {
      assert forall k :: k !in AnimalsOfBreed(s, id);
      assert ForeignKeysResolve(t);
    }
  }

  /** Adding an animal keeps the invariant exactly when the row fits and its breed exists. */
  lemma AddAnimalAccepted(s: Store, a: Animal)
    requires Valid(s)
    ensures Accepts(AddAnimal(s, a)) <==> AnimalRowOk(a) && a.breedId in s.breeds
    ensures Accepts(AddAnimal(s, a)) ==> Valid(AddAnimal(s, a))
  {
    var k := s.nextAnimalId;
    var t := AddAnimal(s, a);
    assert k in t.animals && t.animals[k] == a.(animalId := k);
  }

  /** Adding a breed that fits its row always succeeds and keeps the invariant. */
  lemma AddBreedAccepted(s: Store, b: Breed)
    requires Valid(s)
    ensures Accepts(AddBreed(s, b)) <==> BreedRowOk(b)
    ensures Accepts(AddBreed(s, b)) ==> Valid(AddBreed(s, b))
  {
    var k := s.nextBreedId;
    var t := AddBreed(s, b);
    assert k in t.breeds && t.breeds[k] == b.(breedId := k);
  }

  /** Replacing the row under an existing key keeps the invariant exactly when the new row fits and its breed exists. */
  lemma ReplaceAnimalAccepted(s: Store, id: int, a: Animal)
    requires Valid(s) && id in s.animals && a.animalId == id
    ensures Accepts(s.(animals := s.animals[id := a])) <==> AnimalRowOk(a) && a.breedId in s.breeds
    ensures Accepts(s.(animals := s.animals[id := a])) ==> Valid(s.(animals := s.animals[id := a]))
  {
    var t := s.(animals := s.animals[id := a]);
    assert id in t.animals && t.animals[id] == a;
  }

  /** Replacing the row under an existing breed key keeps the invariant exactly when the new row fits. */
  lemma ReplaceBreedAccepted(s: Store, id: int, b: Breed)
    requires Valid(s) && id in s.breeds && b.breedId == id
    ensures Accepts(s.(breeds := s.breeds[id := b])) <==> BreedRowOk(b)
    ensures Accepts(s.(breeds := s.breeds[id := b])) ==> Valid(s.(breeds := s.breeds[id := b]))
  {
    var t := s.(breeds := s.breeds[id := b]);
    assert id in t.breeds && t.breeds[id] == b;
  }

  /** The empty database satisfies the invariant. */
  lemma EmptyValid()
    ensures Valid(Empty) && Annotated(Empty)
  {
  }
}
