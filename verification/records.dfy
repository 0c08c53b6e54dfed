/** The two record kinds of the adoption center and their one-line text form:
    `Pet.to_line`/`Pet.from_line` and `Adopter.to_line`/`Adopter.from_line`. */
module Records {
  import opened Wrappers
  import opened Seqs
  import opened Text
  import opened Numerals

  /** The three pet subclasses, which differ only in their class name. */
  datatype Species = Dog | Cat | Bird

  /** The class name written as the first field of a pet line. */
  function SpeciesTag(sp: Species): string {
    match sp
    case Dog => "Dog"
    case Cat => "Cat"
    case Bird => "Bird"
  }

  /** The class chosen for a pet line's first field; only an exact tag matches. */
  function ParseSpecies(tag: string): (r: Option<Species>)
    ensures forall sp :: r == Some(sp) <==> SpeciesTag(sp) == tag
  {
    if tag == "Dog" then Some(Dog)
    else if tag == "Cat" then Some(Cat)
    else if tag == "Bird" then Some(Bird)
    else None
  }

  datatype Pet = Pet(id: string, name: string, age: int, breed: string, health: string, species: Species)

  function PetId(p: Pet): string {
    p.id
  }

  /** An adopter and, in adoption order, the pets it owns. */
  datatype Adopter = Adopter(id: string, name: string, contact: string, pets: seq<Pet>)

  function AdopterId(a: Adopter): string {
    a.id
  }

  /** A decoded adopter line: the three fixed fields and the pet ids that
      still have to be resolved against the available pets. */
  datatype AdopterRecord = AdopterRecord(id: string, name: string, contact: string, candidates: seq<string>)

  /** The six comma-separated fields of a pet line, in file order. */
  function PetFields(p: Pet): seq<string> {
    [SpeciesTag(p.species), p.id, p.name, FormatInt(p.age), p.breed, p.health]
  }

  /** `Pet.to_line`. */
  function EncodePet(p: Pet): string {
    Join(PetFields(p), ',') + "\n"
  }

  /** What `Pet.from_line` does with a line: build a pet, return `None`, or
      raise from `int(age)`. */
  datatype PetDecoding = Decoded(pet: Pet) | Skipped | BadAge

  /** `Pet.from_line` once the line is stripped and split: six fields and a
      known tag are required, and only then is the age parsed, so a bad age
      under an unknown tag is a skip, not an error. */
  function DecodePetFields(parts: seq<string>): (r: PetDecoding)
    ensures r.Skipped? <==> |parts| != 6 || ParseSpecies(parts[0]).None?
    ensures r.BadAge? <==> |parts| == 6 && ParseSpecies(parts[0]).Some? && !IsIntLiteral(parts[3])
    ensures r.Decoded? ==>
      && |parts| == 6 && parts[0] == SpeciesTag(r.pet.species)
      && parts[1] == r.pet.id && parts[2] == r.pet.name
      && ParseInt(parts[3]) == Some(r.pet.age)
      && parts[4] == r.pet.breed && parts[5] == r.pet.health
  {
    if |parts| != 6 then Skipped
    else
      match ParseSpecies(parts[0])
      case None => Skipped
      case Some(sp) =>
        match ParseInt(parts[3])
        case None => BadAge
        case Some(age) => Decoded(Pet(parts[1], parts[2], age, parts[4], parts[5], sp))
  }

  /** `Pet.from_line`. */
  function DecodePet(line: string): PetDecoding {
    DecodePetFields(Split(Strip(line), ','))
  }

  /** A field that survives a write and a read: no comma (the field separator),
      no line break (the file reads line by line) and only ASCII (the file is
      written as UTF-8 and read as Latin-1). */
  predicate SafeField(f: string) {
    forall k :: 0 <= k < |f| ==> f[k] != ',' && f[k] != '\n' && f[k] != '\r' && f[k] < '\U{80}'
  }

  /** A pet whose line decodes to itself: safe fields, and no trailing
      whitespace on the health status, which ends the line and meets `strip()`. */
  predicate CodecSafePet(p: Pet) {
    SafeField(p.id) && SafeField(p.name) && SafeField(p.breed) && SafeField(p.health)
    && NoTrailingSpace(p.health)
  }

  lemma SafeFieldNoComma(f: string)
    requires SafeField(f)
    ensures ',' !in f
  {
  }

  lemma FormatIntSafe(n: int)
    ensures ',' !in FormatInt(n)
    ensures SafeField(FormatInt(n))
  {
  }

  /** A codec-safe pet's fields contain no comma. */
  lemma PetFieldsNoComma(p: Pet)
    requires CodecSafePet(p)
    ensures forall k :: 0 <= k < 6 ==> ',' !in PetFields(p)[k]
  {
    SafeFieldNoComma(p.id);
    SafeFieldNoComma(p.name);
    SafeFieldNoComma(p.breed);
    SafeFieldNoComma(p.health);
    FormatIntSafe(p.age);
  }

  /** The text of a pet line, without its terminator, is exactly the six
      fields joined by commas and is left alone by `strip()`. */
  lemma PetLineStrip(p: Pet)
    requires CodecSafePet(p)
    ensures Strip(EncodePet(p)) == Join(PetFields(p), ',')
  {
    var fields := PetFields(p);
    var body := Join(fields, ',');
    JoinFirstChar(fields, ',');
    JoinNoTrailingSpace(fields, ',');
    StripLine(body);
  }

  /** Pet round trip: decoding the line written for a codec-safe pet gives the
      same pet back. */
  lemma PetRoundTrip(p: Pet)
    requires CodecSafePet(p)
    ensures DecodePet(EncodePet(p)) == Decoded(p)
  {
    PetLineSplit(p);
    PetFieldsDecode(p);
  }

  lemma PetLineSplit(p: Pet)
    requires CodecSafePet(p)
    ensures Split(Strip(EncodePet(p)), ',') == PetFields(p)
  {
    PetLineStrip(p);
    PetFieldsNoComma(p);
    SplitJoin(PetFields(p), ',');
  }

  lemma PetFieldsDecode(p: Pet)
    ensures DecodePetFields(PetFields(p)) == Decoded(p)
  {
    ParseFormat(p.age);
  }

  /** The converse round trip: a line that decodes to a pet and spells its age
      canonically is, up to `strip()`, the line that pet writes. */
  lemma DecodedPetReencodes(line: string)
    requires DecodePet(line).Decoded?
    requires IsCanonicalInt(Split(Strip(line), ',')[3])
    ensures EncodePet(DecodePet(line).pet) == Strip(line) + "\n"
  {
    var parts := Split(Strip(line), ',');
    FormatParse(parts[3]);
    DecodedFieldsReencode(parts);
  }

  /** The fields a decoded pet writes are the fields it was decoded from,
      once the age is spelled the way `str()` spells it. */
  lemma DecodedFieldsReencode(parts: seq<string>)
    requires DecodePetFields(parts).Decoded?
    requires FormatInt(DecodePetFields(parts).pet.age) == parts[3]
    ensures PetFields(DecodePetFields(parts).pet) == parts
  {
    var f := PetFields(DecodePetFields(parts).pet);
    assert |f| == |parts|;
    assert f[0] == parts[0];
  }

  /** The ids of a list of pets, in order. */
  function PetIds(pets: seq<Pet>): (ids: seq<string>)
    ensures |ids| == |pets| && forall k :: 0 <= k < |pets| ==> ids[k] == pets[k].id
  {
    seq(|pets|, k requires 0 <= k < |pets| => pets[k].id)
  }

  /** `Adopter.to_line`: the three fixed fields and then the comma-joined ids
      of the owned pets, as a fourth field even when there are none. */
  function EncodeAdopter(a: Adopter): string {
    Join([a.id, a.name, a.contact, Join(PetIds(a.pets), ',')], ',') + "\n"
  }

  /** `Adopter.from_line`: at least three fields are required; every field
      after the third is a candidate pet id. */
  function DecodeAdopter(line: string): (r: Option<AdopterRecord>)
    ensures r.None? <==> |Split(Strip(line), ',')| < 3
    ensures r.Some? ==>
      var fields := [r.value.id, r.value.name, r.value.contact] + r.value.candidates;
      && Join(fields, ',') == Strip(line)
      && forall k :: 0 <= k < |fields| ==> ',' !in fields[k]
  {
    var parts := Split(Strip(line), ',');
    if |parts| < 3 then None
    else
      var r := AdopterRecord(parts[0], parts[1], parts[2], parts[3..]);
      FirstThree(parts);
      Some(r)
  }

  /** The candidate ids a written adopter line decodes to: its pets' ids, or
      the single empty id `""` when it owns none, because the line then ends
      in a bare comma. */
  function Candidates(a: Adopter): seq<string> {
    if |a.pets| == 0 then [""] else PetIds(a.pets)
  }

  /** An adopter whose line decodes to its own fields: safe fields, no leading
      whitespace on the id and no trailing whitespace on the last pet id, the
      two ends `strip()` sees. */
  predicate CodecSafeAdopter(a: Adopter) {
    && SafeField(a.id) && SafeField(a.name) && SafeField(a.contact)
    && (forall k :: 0 <= k < |a.pets| ==> SafeField(a.pets[k].id))
    && NoLeadingSpace(a.id)
    && (|a.pets| > 0 ==> NoTrailingSpace(a.pets[|a.pets| - 1].id))
  }

  /** The fields of an adopter line once the joined pet ids are split apart. */
  lemma AdopterLineFields(a: Adopter)
    ensures Join([a.id, a.name, a.contact, Join(PetIds(a.pets), ',')], ',')
         == Join([a.id, a.name, a.contact] + Candidates(a), ',')
  {
    if |a.pets| > 0 {
      var fixed := [a.id, a.name, a.contact];
      JoinAppend(fixed, PetIds(a.pets), ',');
      JoinAppend(fixed, [Join(PetIds(a.pets), ',')], ',');
      assert fixed + [Join(PetIds(a.pets), ',')] == [a.id, a.name, a.contact, Join(PetIds(a.pets), ',')];
    } else {
      assert PetIds(a.pets) == [];
      assert [a.id, a.name, a.contact] + Candidates(a) == [a.id, a.name, a.contact, ""];
    }
  }

  /** The text of a codec-safe adopter's line, without its terminator, is left
      alone by `strip()`. */
  lemma AdopterLineStrip(a: Adopter)
    requires CodecSafeAdopter(a)
    ensures Strip(EncodeAdopter(a)) == Join([a.id, a.name, a.contact] + Candidates(a), ',')
  {
    var fields := [a.id, a.name, a.contact] + Candidates(a);
    var body := Join(fields, ',');
    AdopterLineFields(a);
    assert NoLeadingSpace(body) by {
      if |a.id| > 0 { JoinFirstChar(fields, ','); }
    }
    assert NoTrailingSpace(body) by {
      assert NoTrailingSpace(fields[|fields| - 1]);
      JoinNoTrailingSpace(fields, ',');
    }
    StripLine(body);
  }

  /** No field of a codec-safe adopter's line contains a comma. */
  lemma AdopterFieldsNoComma(a: Adopter)
    requires CodecSafeAdopter(a)
    ensures var fields := [a.id, a.name, a.contact] + Candidates(a);
      forall k :: 0 <= k < |fields| ==> ',' !in fields[k]
  {
    var fields := [a.id, a.name, a.contact] + Candidates(a);
    forall k | 0 <= k < |fields|
      ensures ',' !in fields[k]
    {
      if k >= 3 && |a.pets| > 0 {
        SafeFieldNoComma(a.pets[k - 3].id);
      } else if k < 3 {
        SafeFieldNoComma(fields[k]);
      }
    }
  }

  /** Adopter round trip: decoding a codec-safe adopter's line gives back its
      id, name and contact, and its pet ids in order as candidates; with no
      pets the candidates are `[""]`, not `[]`. */
  lemma AdopterRoundTrip(a: Adopter)
    requires CodecSafeAdopter(a)
    ensures DecodeAdopter(EncodeAdopter(a)) == Some(AdopterRecord(a.id, a.name, a.contact, Candidates(a)))
  {
    var fields := [a.id, a.name, a.contact] + Candidates(a);
    AdopterLineStrip(a);
    AdopterFieldsNoComma(a);
    SplitJoin(fields, ',');
    assert fields[3..] == Candidates(a);
  }
}
