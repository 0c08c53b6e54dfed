/** The in-memory state of `PetAdoptionCenter` and its mutating operations:
    `add_pet`, `remove_pet`, `register_adopter`, `remove_adopter` and
    `adopt_pet`. */
module Center {
  import opened Wrappers
  import opened Keyed
  import opened Records

  /** The pets still available, and the registered adopters, each in
      insertion order. */
  datatype Store = Store(pets: seq<Pet>, adopters: seq<Adopter>)

  /** Every owned pet, adopter by adopter, each adopter's pets in adoption
      order. */
  function Owned(adopters: seq<Adopter>): seq<Pet> {
    if |adopters| == 0 then [] else adopters[0].pets + Owned(adopters[1..])
  }

  /** The pets owned by adopters carrying identifier `id`. */
  function OwnedBy(adopters: seq<Adopter>, id: string): seq<Pet> {
    if |adopters| == 0 then []
    else (if adopters[0].id == id then adopters[0].pets else []) + OwnedBy(adopters[1..], id)
  }

  /** Every pet the store knows of, available or owned, with multiplicity. */
  function AllPets(s: Store): multiset<Pet> {
    multiset(s.pets) + multiset(Owned(s.adopters))
  }

  /** `add_pet`: the pet goes at the end of the available list, even when its id
      is already taken; nothing else changes. */
  function AddPet(s: Store, p: Pet): (r: Store)
    ensures |r.pets| == |s.pets| + 1 && r.pets[..|s.pets|] == s.pets && r.pets[|s.pets|] == p
    ensures r.adopters == s.adopters
    ensures AllPets(r) == AllPets(s) + multiset{p}
  {
    var r := Store(s.pets + [p], s.adopters);
    assert r.pets[..|s.pets|] == s.pets;
    r
  }

  /** `remove_pet`: every available pet with that id is dropped, the others keep
      their order; an absent id is not an error. Adopters, and the pets they
      own, are untouched. */
  function RemovePet(s: Store, id: string): (r: Store)
    ensures r.adopters == s.adopters
    ensures forall p :: p in r.pets <==> p in s.pets && p.id != id
    ensures forall p :: multiset(r.pets)[p] == if p.id == id then 0 else multiset(s.pets)[p]
    ensures KeyAbsent(s.pets, PetId, id) ==> r == s
  {
    Store(RemoveKey(s.pets, PetId, id), s.adopters)
  }

  /** `register_adopter`: the adopter goes at the end, even when its id is
      already taken; nothing else changes. */
  function RegisterAdopter(s: Store, a: Adopter): (r: Store)
    ensures |r.adopters| == |s.adopters| + 1 && r.adopters[..|s.adopters|] == s.adopters
    ensures r.adopters[|s.adopters|] == a
    ensures r.pets == s.pets
  {
    var r := Store(s.pets, s.adopters + [a]);
    assert r.adopters[..|s.adopters|] == s.adopters;
    r
  }

  /** `remove_adopter`: every adopter with that id is dropped, the others keep
      their order; the available pets are untouched, so the dropped adopters'
      pets are not returned to availability. */
  function RemoveAdopter(s: Store, id: string): (r: Store)
    ensures r.pets == s.pets
    ensures forall a :: a in r.adopters <==> a in s.adopters && a.id != id
    ensures forall a :: multiset(r.adopters)[a] == if a.id == id then 0 else multiset(s.adopters)[a]
    ensures KeyAbsent(s.adopters, AdopterId, id) ==> r == s
  {
    Store(s.pets, RemoveKey(s.adopters, AdopterId, id))
  }

  /** The structured outcome of `adopt_pet`, which the source only prints. */
  datatype AdoptOutcome = Adopted | NotFound

  /** `adopt_pet`: the first adopter with `aid` takes the first available pet
      with `pid`, appended to its pets, and exactly that pet leaves the
      available list; if either id is unknown nothing changes. */
  function AdoptPet(s: Store, aid: string, pid: string): (r: (Store, AdoptOutcome))
    ensures r.1 == Adopted <==> !KeyAbsent(s.adopters, AdopterId, aid) && !KeyAbsent(s.pets, PetId, pid)
    ensures r.1 == NotFound ==> r.0 == s
    ensures r.1 == Adopted ==>
      var i := FindKey(s.adopters, AdopterId, aid).value;
      var j := FindKey(s.pets, PetId, pid).value;
      && r.0.pets == RemoveAt(s.pets, j)
      && |r.0.adopters| == |s.adopters|
      && r.0.adopters[i].id == aid
      && r.0.adopters[i] == s.adopters[i].(pets := s.adopters[i].pets + [s.pets[j]])
      && (forall k :: 0 <= k < |s.adopters| && k != i ==> r.0.adopters[k] == s.adopters[k])
  {
    match (FindKey(s.adopters, AdopterId, aid), FindKey(s.pets, PetId, pid))
    case (Some(i), Some(j)) =>
      var a := s.adopters[i];
      (Store(RemoveAt(s.pets, j), s.adopters[i := a.(pets := a.pets + [s.pets[j]])]), Adopted)
    case _ => (s, NotFound)
  }

  /** Replacing one adopter's pets changes the owned pets by exactly that
      difference. */
  lemma {:induction false} OwnedUpdate(adopters: seq<Adopter>, i: nat, a: Adopter)
    requires i < |adopters|
    ensures multiset(Owned(adopters[i := a])) + multiset(adopters[i].pets)
         == multiset(Owned(adopters)) + multiset(a.pets)
    decreases |adopters|
  {
    var updated := adopters[i := a];
    if i == 0 {
      assert updated[1..] == adopters[1..];
      var rest := Owned(adopters[1..]);
      assert Owned(updated) == a.pets + rest;
      assert Owned(adopters) == adopters[0].pets + rest;
      assert multiset(a.pets + rest) == multiset(a.pets) + multiset(rest);
      assert multiset(adopters[0].pets + rest) == multiset(adopters[0].pets) + multiset(rest);
    } else {
      var tail := adopters[1..];
      assert updated[0] == adopters[0];
      assert updated[1..] == tail[i - 1 := a];
      assert tail[i - 1] == adopters[i];
      OwnedUpdate(tail, i - 1, a);
      assert Owned(updated) == adopters[0].pets + Owned(tail[i - 1 := a]);
      assert Owned(adopters) == adopters[0].pets + Owned(tail);
      calc {
        multiset(Owned(updated)) + multiset(adopters[i].pets);
        multiset(adopters[0].pets) + (multiset(Owned(tail[i - 1 := a])) + multiset(tail[i - 1].pets));
        multiset(adopters[0].pets) + (multiset(Owned(tail)) + multiset(a.pets));
        multiset(Owned(adopters)) + multiset(a.pets);
      }
    }
  }

  /** Adoption moves a pet, it never creates or loses one. */
  lemma AdoptConserves(s: Store, aid: string, pid: string)
    ensures AllPets(AdoptPet(s, aid, pid).0) == AllPets(s)
  {
    var res := AdoptPet(s, aid, pid);
    if res.1 == Adopted {
      var i := FindKey(s.adopters, AdopterId, aid).value;
      var j := FindKey(s.pets, PetId, pid).value;
      var p := s.pets[j];
      var a := s.adopters[i];
      var a' := a.(pets := a.pets + [p]);
      var updated := s.adopters[i := a'];
      assert res.0 == Store(RemoveAt(s.pets, j), updated);
      OwnedUpdate(s.adopters, i, a');
      assert multiset(a'.pets) == multiset(a.pets) + multiset{p};
      var grown := multiset(Owned(s.adopters)) + multiset{p};
      assert multiset(Owned(updated)) + multiset(a.pets) == grown + multiset(a.pets);
      assert forall x :: multiset(Owned(updated))[x] == grown[x] by {
        forall x ensures multiset(Owned(updated))[x] == grown[x] {
          assert (multiset(Owned(updated)) + multiset(a.pets))[x] == (grown + multiset(a.pets))[x];
        }
      }
      assert multiset(Owned(updated)) == grown;
      assert p in multiset(s.pets);
      calc {
        AllPets(res.0);
        multiset(RemoveAt(s.pets, j)) + multiset(Owned(updated));
        (multiset(s.pets) - multiset{p}) + (multiset(Owned(s.adopters)) + multiset{p});
        multiset(s.pets) + multiset(Owned(s.adopters));
      }
    }
  }

  /** While available ids are unique, an adopted pet is no longer available
      under its id, and available ids stay unique. */
  lemma AdoptLeavesNoAvailableCopy(s: Store, aid: string, pid: string)
    requires UniqueKeys(s.pets, PetId)
    requires AdoptPet(s, aid, pid).1 == Adopted
    ensures KeyAbsent(AdoptPet(s, aid, pid).0.pets, PetId, pid)
    ensures UniqueKeys(AdoptPet(s, aid, pid).0.pets, PetId)
  {
    RemoveAtUnique(s.pets, PetId, FindKey(s.pets, PetId, pid).value);
  }

  /** Removing a freshly added pet restores the store when its id was new. */
  lemma RemovePetUndoesAddPet(s: Store, p: Pet)
    requires KeyAbsent(s.pets, PetId, p.id)
    ensures RemovePet(AddPet(s, p), p.id) == s
  {
    RemoveKeyAppend(s.pets, [p], PetId, p.id);
    assert RemoveKey([p], PetId, p.id) == [];
  }

  /** Removing a freshly registered adopter restores the store when its id was
      new. */
  lemma RemoveAdopterUndoesRegister(s: Store, a: Adopter)
    requires KeyAbsent(s.adopters, AdopterId, a.id)
    ensures RemoveAdopter(RegisterAdopter(s, a), a.id) == s
  {
    RemoveKeyAppend(s.adopters, [a], AdopterId, a.id);
    assert RemoveKey([a], AdopterId, a.id) == [];
  }

  /** `remove_adopter` does not cascade: the removed adopters' pets leave the
      store altogether, and every other pet stays. */
  lemma {:induction false} RemoveAdopterDropsOwnedPets(adopters: seq<Adopter>, id: string)
    ensures multiset(Owned(RemoveKey(adopters, AdopterId, id))) + multiset(OwnedBy(adopters, id))
         == multiset(Owned(adopters))
    decreases |adopters|
  {
    if |adopters| > 0 {
      RemoveAdopterDropsOwnedPets(adopters[1..], id);
      var rest := RemoveKey(adopters[1..], AdopterId, id);
      if adopters[0].id != id {
        assert RemoveKey(adopters, AdopterId, id) == [adopters[0]] + rest;
        assert ([adopters[0]] + rest)[1..] == rest;
      }
    }
  }
}
