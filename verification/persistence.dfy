/** `load_data` and `save_data` without the files: a file is the sequence of
    its lines as read (each keeping its terminator), and a missing file is
    `None`. */
module Persistence {
  import opened Wrappers
  import opened Seqs
  import opened Keyed
  import opened Records
  import opened Center
  import Numerals
  import Text

  /** Why loading aborts: `int(age)` raised on the line with this 0-based
      position in the pets file. Only a missing file is caught by the source,
      so this error ends the load. */
  datatype LoadError = UnreadableAge(lineNo: nat)

  /** What `Pet.from_line` makes of each line of the pets file. */
  function DecodePets(lines: seq<string>): (ds: seq<PetDecoding>)
    ensures |ds| == |lines| && forall k :: 0 <= k < |lines| ==> ds[k] == DecodePet(lines[k])
  {
    seq(|lines|, k requires 0 <= k < |lines| => DecodePet(lines[k]))
  }

  /** No decoded line made `int(age)` raise. */
  predicate AgesReadable(ds: seq<PetDecoding>) {
    forall k :: 0 <= k < |ds| ==> !ds[k].BadAge?
  }

  /** The loop of the pets-file half of `load_data`, over the decoded lines:
      every decoded pet is kept, in file order; lines that decoded to `None`
      are skipped; the first line whose age did not parse aborts the load. */
  function CollectPets(ds: seq<PetDecoding>): (r: Result<seq<Pet>, LoadError>)
    ensures r.Success? <==> AgesReadable(ds)
    ensures r.Failure? ==>
      && r.error.lineNo < |ds| && ds[r.error.lineNo].BadAge?
      && AgesReadable(ds[..r.error.lineNo])
    ensures r.Success? ==> |r.value| <= |ds|
    ensures r.Success? ==> forall p :: p in r.value <==> Decoded(p) in ds
    decreases |ds|
  {
    if |ds| == 0 then Success([])
    else
      var rest := CollectPets(ds[1..]);
      assert ds == [ds[0]] + ds[1..];
      if ds[0].BadAge? then Failure(UnreadableAge(0))
      else if rest.Failure? then
        assert ds[..rest.error.lineNo + 1] == [ds[0]] + ds[1..][..rest.error.lineNo];
        Failure(UnreadableAge(rest.error.lineNo + 1))
      else if ds[0].Decoded? then Success([ds[0].pet] + rest.value)
      else rest
  }

  /** The pets-file half of `load_data`: it fails exactly when some line has an
      unreadable age, naming the first; otherwise it keeps exactly the pets the
      lines decode to. */
  function LoadPets(lines: seq<string>): (r: Result<seq<Pet>, LoadError>)
    ensures r.Success? <==> forall k :: 0 <= k < |lines| ==> !DecodePet(lines[k]).BadAge?
    ensures r.Failure? ==>
      && r.error.lineNo < |lines| && DecodePet(lines[r.error.lineNo]).BadAge?
      && forall k :: 0 <= k < r.error.lineNo ==> !DecodePet(lines[k]).BadAge?
    ensures r.Success? ==> forall p :: p in r.value <==> Decoded(p) in DecodePets(lines)
  {
    var ds := DecodePets(lines);
    var r := CollectPets(ds);
    assert r.Failure? ==> forall k :: 0 <= k < r.error.lineNo ==> !DecodePet(lines[k]).BadAge? by {
      if r.Failure? {
        forall k | 0 <= k < r.error.lineNo ensures !DecodePet(lines[k]).BadAge? {
          assert ds[..r.error.lineNo][k] == ds[k];
        }
      }
    }
    r
  }

  /** Collecting two halves of a readable pets file collects them one after
      the other: decoded pets keep file order. */
  lemma {:induction false} CollectPetsAppend(a: seq<PetDecoding>, b: seq<PetDecoding>)
    requires AgesReadable(a) && AgesReadable(b)
    ensures CollectPets(a + b) == Success(CollectPets(a).value + CollectPets(b).value)
    decreases |a|
  {
    if |a| == 0 {
      EmptyMiddle([], a, b);
      EmptyMiddle([], [], CollectPets(b).value);
    } else {
      ConsAppend(a, b);
      assert AgesReadable(a[1..]) by {
        forall k | 0 <= k < |a[1..]| ensures !a[1..][k].BadAge? {
          assert a[1..][k] == a[k + 1];
        }
      }
      CollectPetsAppend(a[1..], b);
      var tail := CollectPets(a[1..]).value;
      var tb := CollectPets(b).value;
      if a[0].Decoded? {
        AppendAssoc([a[0].pet], tail, tb);
      }
    }
  }

  /** The lines `save_data` writes for a list of pets. */
  function EncodePets(pets: seq<Pet>): (lines: seq<string>)
    ensures |lines| == |pets| && forall k :: 0 <= k < |pets| ==> lines[k] == EncodePet(pets[k])
  {
    seq(|pets|, k requires 0 <= k < |pets| => EncodePet(pets[k]))
  }

  predicate AllCodecSafe(pets: seq<Pet>) {
    forall k :: 0 <= k < |pets| ==> CodecSafePet(pets[k])
  }

  /** Reading back the lines written for codec-safe pets gives the same pets,
      in the same order. */
  lemma LoadEncodedPets(pets: seq<Pet>)
    requires AllCodecSafe(pets)
    ensures LoadPets(EncodePets(pets)) == Success(pets)
  {
    var ds := DecodePets(EncodePets(pets));
    forall k | 0 <= k < |pets| ensures ds[k] == Decoded(pets[k]) {
      PetRoundTrip(pets[k]);
    }
    CollectDecoded(pets, ds);
  }

  /** Collecting lines that all decoded gives exactly their pets. */
  lemma {:induction false} CollectDecoded(pets: seq<Pet>, ds: seq<PetDecoding>)
    requires |ds| == |pets| && forall k :: 0 <= k < |pets| ==> ds[k] == Decoded(pets[k])
    ensures CollectPets(ds) == Success(pets)
    decreases |pets|
  {
    if |pets| > 0 {
      CollectDecoded(pets[1..], ds[1..]);
      assert pets == [pets[0]] + pets[1..];
    }
  }

  /** The candidate-id loop of `load_data` for one adopter: each id in turn is
      looked up among the pets available at that moment; the first match is
      moved to the end of the adopter's pets, and an id with no match is
      dropped. */
  function ResolveCandidates(avail: seq<Pet>, owned: seq<Pet>, ids: seq<string>): (r: (seq<Pet>, seq<Pet>))
    ensures |owned| <= |r.1| <= |owned| + |ids| && r.1[..|owned|] == owned
    decreases |ids|
  {
    if |ids| == 0 then (avail, owned)
    else
      match FindKey(avail, PetId, ids[0])
      case None =>
        ResolveCandidates(avail, owned, ids[1..])
      case Some(j) =>
        var p := avail[j];
        var r := ResolveCandidates(RemoveAt(avail, j), owned + [p], ids[1..]);
        assert r.1[..|owned| + 1] == owned + [p];
        assert r.1[..|owned|] == (owned + [p])[..|owned|];
        r
  }

  /** Resolving candidates moves pets, it never creates or loses one. */
  lemma {:induction false} ResolveConserves(avail: seq<Pet>, owned: seq<Pet>, ids: seq<string>)
    ensures var r := ResolveCandidates(avail, owned, ids);
      multiset(r.0) + multiset(r.1) == multiset(avail) + multiset(owned)
    decreases |ids|
  {
    if |ids| > 0 {
      match FindKey(avail, PetId, ids[0])
      case None => ResolveConserves(avail, owned, ids[1..]);
      case Some(j) =>
        var p := avail[j];
        ResolveConserves(RemoveAt(avail, j), owned + [p], ids[1..]);
        assert p in multiset(avail);
        calc {
          multiset(RemoveAt(avail, j)) + multiset(owned + [p]);
          (multiset(avail) - multiset{p}) + (multiset(owned) + multiset{p});
          multiset(avail) + multiset(owned);
        }
    }
  }

  /** Ids that match no available pet resolve to nothing and move nothing. */
  lemma {:induction false} ResolveUnmatched(avail: seq<Pet>, owned: seq<Pet>, ids: seq<string>)
    requires forall i :: 0 <= i < |ids| ==> KeyAbsent(avail, PetId, ids[i])
    ensures ResolveCandidates(avail, owned, ids) == (avail, owned)
    decreases |ids|
  {
    if |ids| > 0 {
      assert KeyAbsent(avail, PetId, ids[0]);
      assert forall i :: 0 <= i < |ids[1..]| ==> ids[1..][i] == ids[i + 1];
      ResolveUnmatched(avail, owned, ids[1..]);
    }
  }

  /** One decoded adopter line: the adopter starts with no pets, takes what its
      candidate ids resolve to, and is appended whether or not any resolved. */
  function AddAdopterRecord(s: Store, rec: AdopterRecord): (r: Store)
    ensures |r.adopters| == |s.adopters| + 1 && r.adopters[..|s.adopters|] == s.adopters
    ensures var a := r.adopters[|s.adopters|];
      a.id == rec.id && a.name == rec.name && a.contact == rec.contact
    ensures var rc := ResolveCandidates(s.pets, [], rec.candidates);
      r.pets == rc.0 && r.adopters[|s.adopters|].pets == rc.1
  {
    var (avail, owned) := ResolveCandidates(s.pets, [], rec.candidates);
    var r := Store(avail, s.adopters + [Adopter(rec.id, rec.name, rec.contact, owned)]);
    assert r.adopters[..|s.adopters|] == s.adopters;
    r
  }

  /** Adding a decoded adopter moves pets, it never creates or loses one. */
  lemma AddAdopterRecordConserves(s: Store, rec: AdopterRecord)
    ensures AllPets(AddAdopterRecord(s, rec)) == AllPets(s)
  {
    var (avail, owned) := ResolveCandidates(s.pets, [], rec.candidates);
    var a := Adopter(rec.id, rec.name, rec.contact, owned);
    assert AddAdopterRecord(s, rec) == Store(avail, s.adopters + [a]);
    OwnedAppend(s.adopters, a);
    ResolveConserves(s.pets, [], rec.candidates);
    calc {
      AllPets(Store(avail, s.adopters + [a]));
      multiset(avail) + multiset(Owned(s.adopters + [a]));
      multiset(avail) + (multiset(Owned(s.adopters)) + multiset(owned));
      (multiset(avail) + multiset(owned)) + multiset(Owned(s.adopters));
      AllPets(s);
    }
  }

  lemma {:induction false} OwnedAppend(adopters: seq<Adopter>, a: Adopter)
    ensures multiset(Owned(adopters + [a])) == multiset(Owned(adopters)) + multiset(a.pets)
    decreases |adopters|
  {
    if |adopters| == 0 {
      assert Owned([a]) == a.pets + Owned([]);
    } else {
      assert (adopters + [a])[1..] == adopters[1..] + [a];
      OwnedAppend(adopters[1..], a);
    }
  }

  /** The values present in a list of optional values, in order. */
  function Present<T>(os: seq<Option<T>>): (r: seq<T>)
    ensures |r| <= |os|
    ensures forall k :: 0 <= k < |r| ==> Some(r[k]) in os
    ensures forall k :: 0 <= k < |os| && os[k].Some? ==> os[k].value in r
    decreases |os|
  {
    if |os| == 0 then []
    else if os[0].Some? then [os[0].value] + Present(os[1..])
    else Present(os[1..])
  }

  /** Keeping the present values of two lists keeps them one after the other,
      so present values keep their order. */
  lemma {:induction false} PresentAppend<T>(a: seq<Option<T>>, b: seq<Option<T>>)
    ensures Present(a + b) == Present(a) + Present(b)
    decreases |a|
  {
    if |a| == 0 {
      EmptyMiddle([], a, b);
      EmptyMiddle([], [], Present(b));
    } else {
      ConsAppend(a, b);
      PresentAppend(a[1..], b);
      if a[0].Some? {
        AppendAssoc([a[0].value], Present(a[1..]), Present(b));
      }
    }
  }

  /** The records of the adopters-file lines that decode, in file order;
      a line with fewer than three fields gives none. */
  function DecodedAdopters(lines: seq<string>): seq<AdopterRecord> {
    Present(seq(|lines|, k requires 0 <= k < |lines| => DecodeAdopter(lines[k])))
  }

  /** The loop of the adopters-file half of `load_data`, over the decoded
      records, starting from store `s`: each record adds exactly one adopter,
      in order, and pets only move from available to owned. */
  function AddAdopterRecords(s: Store, recs: seq<AdopterRecord>): (r: Store)
    ensures |r.adopters| == |s.adopters| + |recs|
    ensures r.adopters[..|s.adopters|] == s.adopters
    ensures forall k :: 0 <= k < |recs| ==>
      var a := r.adopters[|s.adopters| + k];
      a.id == recs[k].id && a.name == recs[k].name && a.contact == recs[k].contact
    decreases |recs|
  {
    if |recs| == 0 then s
    else
      var next := AddAdopterRecord(s, recs[0]);
      var r := AddAdopterRecords(next, recs[1..]);
      assert r.adopters[..|s.adopters|] == next.adopters[..|s.adopters|];
      assert forall k :: 1 <= k < |recs| ==> recs[k] == recs[1..][k - 1];
      r
  }

  /** A single record is resolved against the store as it stands. */
  lemma AddAdopterRecordsOne(s: Store, rec: AdopterRecord)
    ensures AddAdopterRecords(s, [rec]) == AddAdopterRecord(s, rec)
  {
    assert [rec][1..] == [];
  }

  /** Records are taken in file order: the later ones are resolved against the
      store the earlier ones left, so an earlier line wins a contested pet. */
  lemma {:induction false} AddAdopterRecordsAppend(s: Store, a: seq<AdopterRecord>, b: seq<AdopterRecord>)
    ensures AddAdopterRecords(s, a + b) == AddAdopterRecords(AddAdopterRecords(s, a), b)
    decreases |a|
  {
    if |a| == 0 {
      EmptyMiddle([], a, b);
    } else {
      ConsAppend(a, b);
      AddAdopterRecordsAppend(AddAdopterRecord(s, a[0]), a[1..], b);
    }
  }

  /** Loading adopters moves pets, it never creates or loses one. */
  lemma {:induction false} AddAdopterRecordsConserves(s: Store, recs: seq<AdopterRecord>)
    ensures AllPets(AddAdopterRecords(s, recs)) == AllPets(s)
    decreases |recs|
  {
    if |recs| > 0 {
      AddAdopterRecordConserves(s, recs[0]);
      AddAdopterRecordsConserves(AddAdopterRecord(s, recs[0]), recs[1..]);
    }
  }

  /** The adopters-file half of `load_data`. */
  function LoadAdopters(s: Store, lines: seq<string>): Store {
    AddAdopterRecords(s, DecodedAdopters(lines))
  }

  /** `load_data`: pets first, then adopters resolved against the pets just
      loaded. A missing file contributes nothing; an unreadable age aborts. */
  function Load(petsFile: Option<seq<string>>, adoptersFile: Option<seq<string>>): (r: Result<Store, LoadError>)
    ensures r.Success? <==> petsFile.None? || AgesReadable(DecodePets(petsFile.value))
    ensures r.Success? && adoptersFile.None? ==> r.value.adopters == []
    ensures r.Success? && adoptersFile.None? ==>
      r.value.pets == (if petsFile.None? then [] else LoadPets(petsFile.value).value)
    ensures r.Success? && adoptersFile.Some? ==>
      && |r.value.adopters| == |DecodedAdopters(adoptersFile.value)|
      && forall k :: 0 <= k < |r.value.adopters| ==>
           var rec := DecodedAdopters(adoptersFile.value)[k];
           var a := r.value.adopters[k];
           a.id == rec.id && a.name == rec.name && a.contact == rec.contact
    ensures petsFile.None? && adoptersFile.None? ==> r == Success(Store([], []))
  {
    var pets :- match petsFile
      case None => Success([])
      case Some(lines) => LoadPets(lines);
    var start := Store(pets, []);
    match adoptersFile
    case None => Success(start)
    case Some(lines) => Success(LoadAdopters(start, lines))
  }

  /** Loading neither duplicates nor loses a pet: the available pets and all
      owned pets together are exactly the pets decoded from the pets file. */
  lemma LoadConservesPets(petsFile: Option<seq<string>>, adoptersFile: Option<seq<string>>)
    requires petsFile.None? || AgesReadable(DecodePets(petsFile.value))
    ensures petsFile.None? ==> AllPets(Load(petsFile, adoptersFile).value) == multiset{}
    ensures petsFile.Some? ==>
      AllPets(Load(petsFile, adoptersFile).value) == multiset(LoadPets(petsFile.value).value)
  {
    var pets := if petsFile.None? then [] else LoadPets(petsFile.value).value;
    var start := Store(pets, []);
    assert AllPets(start) == multiset(pets);
    if adoptersFile.Some? {
      AddAdopterRecordsConserves(start, DecodedAdopters(adoptersFile.value));
    }
  }

  /** The two files `save_data` writes, as their lines. */
  datatype SavedFiles = SavedFiles(petLines: seq<string>, adopterLines: seq<string>)

  /** The lines `save_data` writes for a list of adopters. */
  function EncodeAdopters(adopters: seq<Adopter>): (lines: seq<string>)
    ensures |lines| == |adopters| && forall k :: 0 <= k < |adopters| ==> lines[k] == EncodeAdopter(adopters[k])
  {
    seq(|adopters|, k requires 0 <= k < |adopters| => EncodeAdopter(adopters[k]))
  }

  /** `save_data`: one line per available pet, then one line per adopter. Pets
      owned by adopters get no line of their own. */
  function Save(s: Store): SavedFiles {
    SavedFiles(EncodePets(s.pets), EncodeAdopters(s.adopters))
  }

  /** The adopters with their pets forgotten. */
  function Disowned(adopters: seq<Adopter>): (r: seq<Adopter>)
    ensures |r| == |adopters|
    ensures forall k :: 0 <= k < |r| ==> r[k] == adopters[k].(pets := [])
  {
    seq(|adopters|, k requires 0 <= k < |adopters| => adopters[k].(pets := []))
  }

  predicate AllCodecSafeAdopters(adopters: seq<Adopter>) {
    forall k :: 0 <= k < |adopters| ==> CodecSafeAdopter(adopters[k])
  }

  /** No candidate id written for these adopters names an available pet. */
  predicate CandidatesUnmatched(adopters: seq<Adopter>, avail: seq<Pet>) {
    forall k, c :: 0 <= k < |adopters| && c in Candidates(adopters[k]) ==> KeyAbsent(avail, PetId, c)
  }

  /** The record a written adopter line decodes to. */
  function WrittenRecord(a: Adopter): AdopterRecord {
    AdopterRecord(a.id, a.name, a.contact, Candidates(a))
  }

  /** The records written for a list of adopters. */
  function WrittenRecords(adopters: seq<Adopter>): (recs: seq<AdopterRecord>)
    ensures |recs| == |adopters| && forall k :: 0 <= k < |adopters| ==> recs[k] == WrittenRecord(adopters[k])
  {
    seq(|adopters|, k requires 0 <= k < |adopters| => WrittenRecord(adopters[k]))
  }

  /** The adopters records describe, each with no pets yet. */
  function Unresolved(recs: seq<AdopterRecord>): (r: seq<Adopter>)
    decreases |recs|
  {
    if |recs| == 0 then []
    else [Adopter(recs[0].id, recs[0].name, recs[0].contact, [])] + Unresolved(recs[1..])
  }

  /** Written records, once their adopters are rebuilt without pets, describe
      the original adopters with their pets forgotten. */
  lemma {:induction false} UnresolvedWritten(adopters: seq<Adopter>)
    ensures Unresolved(WrittenRecords(adopters)) == Disowned(adopters)
    decreases |adopters|
  {
    if |adopters| > 0 {
      assert WrittenRecords(adopters)[1..] == WrittenRecords(adopters[1..]);
      UnresolvedWritten(adopters[1..]);
      assert Disowned(adopters) == [adopters[0].(pets := [])] + Disowned(adopters[1..]);
    }
  }

  /** A list of values wrapped in `Some` keeps all of them. */
  lemma {:induction false} PresentAllSome<T>(vs: seq<T>, os: seq<Option<T>>)
    requires |os| == |vs| && forall k :: 0 <= k < |vs| ==> os[k] == Some(vs[k])
    ensures Present(os) == vs
    decreases |vs|
  {
    if |vs| > 0 {
      PresentAllSome(vs[1..], os[1..]);
      assert vs == [vs[0]] + vs[1..];
    }
  }

  /** Every line written for codec-safe adopters decodes, to the adopter's
      fixed fields and candidate ids, in order. */
  lemma DecodeEncodedAdopters(adopters: seq<Adopter>)
    requires AllCodecSafeAdopters(adopters)
    ensures DecodedAdopters(EncodeAdopters(adopters)) == WrittenRecords(adopters)
  {
    var lines := EncodeAdopters(adopters);
    var recs := WrittenRecords(adopters);
    var os := seq(|lines|, k requires 0 <= k < |lines| => DecodeAdopter(lines[k]));
    forall k | 0 <= k < |adopters| ensures os[k] == Some(recs[k]) {
      AdopterRoundTrip(adopters[k]);
    }
    PresentAllSome(recs, os);
  }

  /** Records whose candidate ids match no available pet add their adopters
      with no pets and leave the available pets alone. */
  lemma {:induction false} AddUnmatchedRecords(avail: seq<Pet>, acc: seq<Adopter>, recs: seq<AdopterRecord>)
    requires forall k, i :: 0 <= k < |recs| && 0 <= i < |recs[k].candidates| ==> KeyAbsent(avail, PetId, recs[k].candidates[i])
    ensures AddAdopterRecords(Store(avail, acc), recs) == Store(avail, acc + Unresolved(recs))
    decreases |recs|
  {
    if |recs| == 0 {
      EmptyMiddle(acc, Unresolved(recs), []);
    } else {
      var rec := recs[0];
      var first := Adopter(rec.id, rec.name, rec.contact, []);
      var next := Store(avail, acc + [first]);
      assert AddAdopterRecord(Store(avail, acc), rec) == next by {
        ResolveUnmatched(avail, [], rec.candidates);
      }
      assert AddAdopterRecords(Store(avail, acc), recs) == AddAdopterRecords(next, recs[1..]);
      assert AddAdopterRecords(next, recs[1..]) == Store(avail, (acc + [first]) + Unresolved(recs[1..])) by {
        AddUnmatchedRecords(avail, acc + [first], recs[1..]);
      }
      assert Unresolved(recs) == [first] + Unresolved(recs[1..]);
      AppendAssoc(acc, [first], Unresolved(recs[1..]));
    }
  }

  lemma WrittenCandidatesUnmatched(adopters: seq<Adopter>, avail: seq<Pet>)
    requires CandidatesUnmatched(adopters, avail)
    ensures var recs := WrittenRecords(adopters);
      forall k, i :: 0 <= k < |recs| && 0 <= i < |recs[k].candidates| ==> KeyAbsent(avail, PetId, recs[k].candidates[i])
  {
    var recs := WrittenRecords(adopters);
    forall k, i | 0 <= k < |recs| && 0 <= i < |recs[k].candidates|
      ensures KeyAbsent(avail, PetId, recs[k].candidates[i])
    {
      assert recs[k].candidates[i] in Candidates(adopters[k]);
    }
  }

  /** Save then load: the available pets come back exactly and in order, the
      adopters come back in order with id, name and contact, but every
      adopter's pets are lost, because owned pets are never written to the
      pets file. Holds for codec-safe records whose written candidate ids
      (including the `""` of an adopter without pets) match no available pet. */
  lemma SaveThenLoad(s: Store)
    requires AllCodecSafe(s.pets) && AllCodecSafeAdopters(s.adopters)
    requires CandidatesUnmatched(s.adopters, s.pets)
    ensures Load(Some(Save(s).petLines), Some(Save(s).adopterLines)) == Success(Store(s.pets, Disowned(s.adopters)))
  {
    var files := Save(s);
    assert LoadPets(files.petLines) == Success(s.pets) by {
      LoadEncodedPets(s.pets);
    }
    var recs := WrittenRecords(s.adopters);
    assert DecodedAdopters(files.adopterLines) == recs by {
      DecodeEncodedAdopters(s.adopters);
    }
    assert AddAdopterRecords(Store(s.pets, []), recs) == Store(s.pets, Disowned(s.adopters)) by {
      WrittenCandidatesUnmatched(s.adopters, s.pets);
      AddUnmatchedRecords(s.pets, [], recs);
      UnresolvedWritten(s.adopters);
      EmptyMiddle([], [], Unresolved(recs));
    }
  }

  /** A list without a middle stretch keeps identifiers unique. */
  lemma UniqueWithoutMiddle(a: seq<Pet>, b: seq<Pet>, c: seq<Pet>)
    requires UniqueKeys(a + b + c, PetId)
    ensures UniqueKeys(a + c, PetId)
  {
    var whole := a + b + c;
    var shorter := a + c;
    forall i, j | 0 <= i < j < |shorter|
      ensures shorter[i].id != shorter[j].id
    {
      var i' := if i < |a| then i else i + |b|;
      var j' := if j < |a| then j else j + |b|;
      assert shorter[i] == whole[i'] && shorter[j] == whole[j'];
    }
  }

  /** A list without a middle stretch still lacks an absent identifier. */
  lemma AbsentWithoutMiddle(a: seq<Pet>, b: seq<Pet>, c: seq<Pet>, k: string)
    requires KeyAbsent(a + b + c, PetId, k)
    ensures KeyAbsent(a + c, PetId, k)
  {
    var whole := a + b + c;
    var shorter := a + c;
    forall i | 0 <= i < |shorter|
      ensures shorter[i].id != k
    {
      var i' := if i < |a| then i else i + |b|;
      assert shorter[i] == whole[i'];
    }
  }

  /** A candidate id that matches no available pet is dropped, and the
      remaining ids are resolved against the same available pets. */
  lemma ResolveSkip(avail: seq<Pet>, owned: seq<Pet>, ids: seq<string>)
    requires |ids| > 0 && KeyAbsent(avail, PetId, ids[0])
    ensures ResolveCandidates(avail, owned, ids) == ResolveCandidates(avail, owned, ids[1..])
  {
    assert FindKey(avail, PetId, ids[0]).None?;
  }

  /** A candidate id whose first match sits at position `j` moves that pet. */
  lemma ResolveFound(avail: seq<Pet>, owned: seq<Pet>, ids: seq<string>, j: nat)
    requires |ids| > 0 && j < |avail| && avail[j].id == ids[0]
    requires KeyAbsent(avail[..j], PetId, ids[0])
    ensures ResolveCandidates(avail, owned, ids) == ResolveCandidates(RemoveAt(avail, j), owned + [avail[j]], ids[1..])
  {
    FindFirst(avail, PetId, ids[0], j);
  }

  /** The first of an adopter's own pet ids takes back its first pet. */
  lemma ResolveOwnFirst(avail: seq<Pet>, q: seq<Pet>, rest: seq<Pet>, owned: seq<Pet>)
    requires |q| > 0 && UniqueKeys(avail + q + rest, PetId)
    ensures ResolveCandidates(avail + q + rest, owned, PetIds(q))
         == ResolveCandidates(avail + q[1..] + rest, owned + [q[0]], PetIds(q[1..]))
  {
    var whole := avail + q + rest;
    var x := q[0];
    var ids := PetIds(q);
    assert whole[|avail|] == x;
    assert RemoveAt(whole, |avail|) == avail + q[1..] + rest by {
      assert whole[..|avail|] == avail;
      assert whole[|avail| + 1..] == q[1..] + rest;
    }
    assert ids[0] == x.id && ids[1..] == PetIds(q[1..]);
    assert KeyAbsent(whole[..|avail|], PetId, x.id) by {
      forall i | 0 <= i < |avail|
        ensures whole[..|avail|][i].id != x.id
      {
        assert whole[..|avail|][i] == whole[i];
      }
    }
    ResolveFound(whole, owned, ids, |avail|);
  }

  /** Dropping the first of a middle stretch keeps identifiers unique. */
  lemma UniqueWithoutFirst(avail: seq<Pet>, q: seq<Pet>, rest: seq<Pet>)
    requires |q| > 0 && UniqueKeys(avail + q + rest, PetId)
    ensures UniqueKeys(avail + q[1..] + rest, PetId)
  {
    assert avail + q + rest == avail + q[..1] + (q[1..] + rest) by {
      assert q == q[..1] + q[1..];
    }
    UniqueWithoutMiddle(avail, q[..1], q[1..] + rest);
    AppendAssoc(avail, q[1..], rest);
  }

  /** With unique identifiers, an adopter's own pet ids, resolved in order,
      take back exactly its pets from where they sit among the available ones. */
  lemma {:induction false} ResolveOwnPets(avail: seq<Pet>, q: seq<Pet>, rest: seq<Pet>, owned: seq<Pet>)
    requires UniqueKeys(avail + q + rest, PetId)
    ensures ResolveCandidates(avail + q + rest, owned, PetIds(q)) == (avail + rest, owned + q)
    decreases |q|
  {
    if |q| == 0 {
      EmptyMiddle(avail, q, rest);
      EmptyMiddle(owned, q, []);
    } else {
      var r := ResolveCandidates(avail + q[1..] + rest, owned + [q[0]], PetIds(q[1..]));
      ResolveOwnFirst(avail, q, rest, owned);
      assert r == (avail + rest, owned + q) by {
        UniqueWithoutFirst(avail, q, rest);
        ResolveOwnPets(avail, q[1..], rest, owned + [q[0]]);
        AppendFirstThenRest(owned, q);
      }
    }
  }

  /** The corrected save: the pets file also lists every owned pet, after the
      available ones, so that the adopters file's pet ids resolve on load. */
  function SaveKeepingOwned(s: Store): SavedFiles {
    SavedFiles(EncodePets(s.pets + Owned(s.adopters)), EncodeAdopters(s.adopters))
  }

  /** One adopter line of a corrected save takes back exactly that adopter's
      pets from where they sit among the available ones. */
  lemma ResolveSavedOwner(avail: seq<Pet>, a: Adopter, others: seq<Pet>, acc: seq<Adopter>)
    requires UniqueKeys(avail + a.pets + others, PetId)
    requires KeyAbsent(avail + a.pets + others, PetId, "")
    ensures AddAdopterRecord(Store(avail + a.pets + others, acc), WrittenRecord(a)) == Store(avail + others, acc + [a])
  {
    if |a.pets| == 0 {
      EmptyMiddle(avail, a.pets, others);
      assert forall i :: 0 <= i < |Candidates(a)| ==> KeyAbsent(avail + others, PetId, Candidates(a)[i]);
      ResolveUnmatched(avail + others, [], Candidates(a));
      assert Adopter(a.id, a.name, a.contact, []) == a;
    } else {
      ResolveOwnPets(avail, a.pets, others, []);
      EmptyMiddle([], [], a.pets);
      assert Adopter(a.id, a.name, a.contact, a.pets) == a;
    }
  }

  /** Loading the adopter lines of a corrected save against the available pets
      followed by all owned pets gives every adopter its pets back and leaves
      exactly the available pets. */
  lemma {:induction false} ResolveSavedOwners(avail: seq<Pet>, acc: seq<Adopter>, adopters: seq<Adopter>)
    requires UniqueKeys(avail + Owned(adopters), PetId)
    requires KeyAbsent(avail + Owned(adopters), PetId, "")
    ensures AddAdopterRecords(Store(avail + Owned(adopters), acc), WrittenRecords(adopters)) == Store(avail, acc + adopters)
    decreases |adopters|
  {
    if |adopters| == 0 {
      EmptyMiddle(avail, Owned(adopters), []);
      EmptyMiddle(acc, adopters, []);
    } else {
      var a := adopters[0];
      var others := Owned(adopters[1..]);
      var rest := WrittenRecords(adopters[1..]);
      assert avail + Owned(adopters) == avail + a.pets + others by {
        assert Owned(adopters) == a.pets + others;
        AppendAssoc(avail, a.pets, others);
      }
      assert AddAdopterRecords(Store(avail + a.pets + others, acc), WrittenRecords(adopters))
          == AddAdopterRecords(Store(avail + others, acc + [a]), rest) by {
        var recs := WrittenRecords(adopters);
        assert recs[0] == WrittenRecord(a) && recs[1..] == rest;
        ResolveSavedOwner(avail, a, others, acc);
      }
      assert AddAdopterRecords(Store(avail + others, acc + [a]), rest) == Store(avail, acc + adopters) by {
        UniqueWithoutMiddle(avail, a.pets, others);
        AbsentWithoutMiddle(avail, a.pets, others, "");
        ResolveSavedOwners(avail, acc + [a], adopters[1..]);
        AppendFirstThenRest(acc, adopters);
      }
    }
  }

  /** Corrected save then load reproduces the store exactly, adoptions
      included, for codec-safe records with unique, non-empty pet ids. */
  lemma SaveKeepingOwnedThenLoad(s: Store)
    requires AllCodecSafe(s.pets + Owned(s.adopters)) && AllCodecSafeAdopters(s.adopters)
    requires UniqueKeys(s.pets + Owned(s.adopters), PetId)
    requires KeyAbsent(s.pets + Owned(s.adopters), PetId, "")
    ensures Load(Some(SaveKeepingOwned(s).petLines), Some(SaveKeepingOwned(s).adopterLines)) == Success(s)
  {
    var files := SaveKeepingOwned(s);
    var everyPet := s.pets + Owned(s.adopters);
    assert LoadPets(files.petLines) == Success(everyPet) by {
      LoadEncodedPets(everyPet);
    }
    assert DecodedAdopters(files.adopterLines) == WrittenRecords(s.adopters) by {
      DecodeEncodedAdopters(s.adopters);
    }
    assert AddAdopterRecords(Store(everyPet, []), WrittenRecords(s.adopters)) == s by {
      ResolveSavedOwners(s.pets, [], s.adopters);
      EmptyMiddle([], [], s.adopters);
    }
  }

  /** The pet and adopter of the worked example: Jane has adopted Rex. */
  const Rex := Pet("P1", "Rex", 3, "Labrador", "Healthy", Dog)
  const Jane := Adopter("A1", "Jane", "555-1234", [Rex])
  const RexLine := "Dog,P1,Rex,3,Labrador,Healthy\n"
  const JaneLine := "A1,Jane,555-1234,P1\n"

  lemma JoinFour(a: string, b: string, c: string, d: string, sep: char)
    ensures Text.Join([a, b, c, d], sep) == a + [sep] + b + [sep] + c + [sep] + d
  {
    assert [a, b, c, d][1..] == [b, c, d];
    assert [b, c, d][1..] == [c, d];
    assert [c, d][1..] == [d];
    var cd := Text.Join([c, d], sep);
    assert Text.Join([d], sep) == d;
    assert cd == c + [sep] + d;
    assert Text.Join([b, c, d], sep) == b + [sep] + cd;
    assert Text.Join([a, b, c, d], sep) == a + [sep] + (b + [sep] + cd);
  }

  lemma JoinSix(a: string, b: string, c: string, d: string, e: string, f: string, sep: char)
    ensures Text.Join([a, b, c, d, e, f], sep) == a + [sep] + b + [sep] + c + [sep] + d + [sep] + e + [sep] + f
  {
    assert [a, b, c, d, e, f][1..] == [b, c, d, e, f];
    assert [b, c, d, e, f][1..] == [c, d, e, f];
    assert [e, f][1..] == [f];
    var ef := Text.Join([e, f], sep);
    assert Text.Join([f], sep) == f;
    assert ef == e + [sep] + f;
    assert Text.Join([d, e, f], sep) == d + [sep] + ef by {
      assert [d, e, f][1..] == [e, f];
    }
    assert Text.Join([c, d, e, f], sep) == c + [sep] + Text.Join([d, e, f], sep) by {
      assert [c, d, e, f][1..] == [d, e, f];
    }
  }

  /** Rex's line in the pets file. */
  lemma RexLineWritten()
    ensures EncodePet(Rex) == RexLine
  {
    RexFields();
    JoinSix("Dog", "P1", "Rex", "3", "Labrador", "Healthy", ',');
    RexLineSpelled();
  }

  lemma RexLineSpelled()
    ensures "Dog" + [','] + "P1" + [','] + "Rex" + [','] + "3" + [','] + "Labrador" + [','] + "Healthy" + "\n" == RexLine
  {
  }

  lemma RexFields()
    ensures PetFields(Rex) == ["Dog", "P1", "Rex", "3", "Labrador", "Healthy"]
  {
    assert Numerals.FormatInt(3) == "3";
  }

  lemma RexSafe()
    ensures CodecSafePet(Rex)
  {
    assert Text.IsSpace('y') == false;
  }

  /** Jane's line in the adopters file. */
  lemma JaneLineWritten()
    ensures EncodeAdopter(Jane) == JaneLine
  {
    assert PetIds(Jane.pets) == ["P1"];
    assert Text.Join(["P1"], ',') == "P1";
    JoinFour("A1", "Jane", "555-1234", "P1", ',');
  }

  lemma JaneSafe()
    ensures CodecSafeAdopter(Jane)
  {
    RexSafe();
    assert PetIds(Jane.pets) == ["P1"];
  }

  /** The worked example's files as the source's save writes them. */
  lemma SaveWorkedExample()
    ensures Save(Store([], [Jane])) == SavedFiles([], [JaneLine])
  {
    JaneLineWritten();
    assert EncodeAdopters([Jane]) == [JaneLine];
  }

  /** The discrepancy: saving the store of the worked example and loading it
      again loses Jane's adoption of Rex, since Rex is written to neither
      file as a pet. */
  lemma SaveThenLoadLosesAdoption()
    ensures Load(Some([]), Some([JaneLine])) == Success(Store([], [Jane.(pets := [])]))
    ensures Load(Some([]), Some([JaneLine])) != Success(Store([], [Jane]))
  {
    var s := Store([], [Jane]);
    assert AllCodecSafeAdopters(s.adopters) by {
      JaneSafe();
    }
    SaveThenLoad(s);
    SaveWorkedExample();
    assert Disowned(s.adopters) == [Jane.(pets := [])];
    assert Jane.(pets := []) != Jane;
  }

  /** The worked example's files as the corrected save writes them. */
  lemma SaveKeepingOwnedWorkedExample()
    ensures SaveKeepingOwned(Store([], [Jane])) == SavedFiles([RexLine], [JaneLine])
  {
    assert Owned([Jane]) == [Rex] by {
      assert Owned([Jane][1..]) == [];
    }
    RexLineWritten();
    JaneLineWritten();
    assert EncodeAdopters([Jane]) == [JaneLine];
    assert EncodePets([] + [Rex]) == [RexLine];
  }

  /** Loading a pets file holding Rex and an adopters file naming Rex under
      Jane gives Jane her pet, and leaves no pet available. */
  lemma LoadWorkedExample()
    ensures Load(Some([RexLine]), Some([JaneLine])) == Success(Store([], [Jane]))
  {
    var s := Store([], [Jane]);
    assert s.pets + Owned(s.adopters) == [Rex] by {
      assert Owned(s.adopters[1..]) == [];
    }
    assert AllCodecSafe([Rex]) by {
      RexSafe();
    }
    assert AllCodecSafeAdopters(s.adopters) by {
      JaneSafe();
    }
    SaveKeepingOwnedWorkedExample();
    SaveKeepingOwnedThenLoad(s);
  }

  /** Two adopter lines that both name Rex: the earlier line takes him, and
      the later adopter gets nothing. */
  lemma EarlierLineWins()
    ensures var r := AddAdopterRecords(Store([Rex], []),
                       [AdopterRecord("A1", "Jane", "555-1234", ["P1"]),
                        AdopterRecord("A2", "Sam", "555-9876", ["P1"])]);
      r.pets == [] && |r.adopters| == 2 && r.adopters[0].pets == [Rex] && r.adopters[1].pets == []
  {
    var r1 := AdopterRecord("A1", "Jane", "555-1234", ["P1"]);
    var r2 := AdopterRecord("A2", "Sam", "555-9876", ["P1"]);
    AddAdopterRecordsAppend(Store([Rex], []), [r1], [r2]);
    AddAdopterRecordsOne(Store([Rex], []), r1);
    ResolveFound([Rex], [], ["P1"], 0);
    assert RemoveAt([Rex], 0) == [];
    var mid := AddAdopterRecord(Store([Rex], []), r1);
    assert mid.pets == [] && mid.adopters[0].pets == [Rex];
    AddAdopterRecordsOne(mid, r2);
    ResolveSkip([], [], ["P1"]);
  }
}
