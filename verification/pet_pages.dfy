/**
  The matches list and the messages list both show, for each match, the
  user's own pet and the other pet.  Both read the same reply of the match
  list endpoint, which gives each pet of a match twice: as a bare id under
  `pet1`/`pet2` and as a nested pet under `pet1_details`/`pet2_details`.
  Each page decides by asking whether the first pet of the match is among
  the user's pets.
*/
module MatchesPage {

  /** The fields of a pet the choice reads. */
  datatype PetView = PetView(id: int, name: string)

  /** A match as the match list endpoint returns it. */
  datatype MatchRecord = MatchRecord(id: int, pet1: int, pet2: int, pet1Details: PetView, pet2Details: PetView)

  /** The nested pets are the pets the ids name, as the serializer writes them. */
  predicate WellFormed(m: MatchRecord) {
    m.pet1Details.id == m.pet1 && m.pet2Details.id == m.pet2
  }

  /** One of the user's pets has this id. */
  predicate Owns(userPets: seq<PetView>, id: int) {
    exists i :: 0 <= i < |userPets| && userPets[i].id == id
  }

  /** The ids of the user's pets, in list order. */
  function PetIds(userPets: seq<PetView>): (ids: seq<int>)
    ensures |ids| == |userPets|
    ensures forall i :: 0 <= i < |ids| ==> ids[i] == userPets[i].id
  {
    seq(|userPets|, i requires 0 <= i < |userPets| => userPets[i].id)
  }

  /** `getMyPet`, reading the nested pets. */
  function GetMyPet(userPets: seq<PetView>, m: MatchRecord): (r: PetView)
    ensures Owns(userPets, m.pet1Details.id) ==> r == m.pet1Details
    ensures !Owns(userPets, m.pet1Details.id) ==> r == m.pet2Details
  {
    var ids := PetIds(userPets);
    if m.pet1Details.id in ids then m.pet1Details else m.pet2Details
  }

  /** `getOtherPet`, reading the nested pets. */
  function GetOtherPet(userPets: seq<PetView>, m: MatchRecord): (r: PetView)
    ensures Owns(userPets, m.pet1Details.id) ==> r == m.pet2Details
    ensures !Owns(userPets, m.pet1Details.id) ==> r == m.pet1Details
  {
    var ids := PetIds(userPets);
    if m.pet1Details.id in ids then m.pet2Details else m.pet1Details
  }

  /**
    The two choices split the match between them: together they are the
    match's two pets, one each, so they differ when the pets do; a user
    owning exactly one of the two pets sees that one as theirs; a user
    owning both sees the first pet as theirs.
  */
  lemma MyAndOtherSplitTheMatch(userPets: seq<PetView>, m: MatchRecord)
    ensures var mine := GetMyPet(userPets, m);
      var other := GetOtherPet(userPets, m);
      && multiset{mine, other} == multiset{m.pet1Details, m.pet2Details}
      && (m.pet1Details != m.pet2Details ==> mine != other)
      && (Owns(userPets, m.pet1Details.id) != Owns(userPets, m.pet2Details.id) ==>
            Owns(userPets, mine.id) && !Owns(userPets, other.id))
      && (Owns(userPets, m.pet1Details.id) && Owns(userPets, m.pet2Details.id) ==> mine == m.pet1Details)
  {
  }
}

/**
  The conversations list.  As written it reads `pet1` and `pet2`, which the
  reply holds as bare ids, and asks for their `id` property; the corrected
  choice reads the nested pets, as the single conversation page does.
*/
module MessagesPage {
  import opened Base
  import opened MatchesPage

  /** A value the page reads from a match field: a bare number, or a pet. */
  datatype Value = Number(n: int) | Object(pet: PetView)

  /** A property read from a value: a number has neither an `id` nor a
      `name`, so both read as undefined. */
  function IdOf(v: Value): (r: Option<int>)
    ensures r.Some? <==> v.Object?
    ensures v.Object? ==> r.value == v.pet.id
  {
    match v
    case Number(_) => None
    case Object(p) => Some(p.id)
  }

  function NameOf(v: Value): (r: Option<string>)
    ensures r.Some? <==> v.Object?
    ensures v.Object? ==> r.value == v.pet.name
  {
    match v
    case Number(_) => None
    case Object(p) => Some(p.name)
  }

  /** `includes` on the list of numeric ids: undefined is never found. */
  predicate Includes(ids: seq<int>, x: Option<int>) {
    x.Some? && x.value in ids
  }

  /** `getMyPet` as written: `match.pet1.id` is looked up among the user's
      pet ids, with `match.pet1` the bare id the reply carries. */
  function GetMyPetAsWritten(userPets: seq<PetView>, m: MatchRecord): (r: Value)
    ensures r == Number(m.pet2)
  {
    var pet1 := Number(m.pet1);
    if Includes(PetIds(userPets), IdOf(pet1)) then pet1 else Number(m.pet2)
  }

  /** `getOtherPet` as written. */
  function GetOtherPetAsWritten(userPets: seq<PetView>, m: MatchRecord): (r: Value)
    ensures r == Number(m.pet1)
  {
    var pet1 := Number(m.pet1);
    if Includes(PetIds(userPets), IdOf(pet1)) then Number(m.pet2) else pet1
  }

  /**
    As written, the list ignores which pets the user owns: the value behind
    the other side of every card is the first pet's bare id, and neither
    value has a name, so the card has no name to render.  For a user who
    owns the first pet of a match, that id is their own pet's.
  */
  lemma ListIgnoresOwnership(userPets: seq<PetView>, m: MatchRecord)
    requires WellFormed(m)
    ensures NameOf(GetMyPetAsWritten(userPets, m)).None? && NameOf(GetOtherPetAsWritten(userPets, m)).None?
    ensures Owns(userPets, m.pet1) && m.pet1 != m.pet2 ==>
      && IdOf(Object(MatchesPage.GetMyPet(userPets, m))) == Some(m.pet1)
      && GetOtherPetAsWritten(userPets, m) == Number(m.pet1)
  {
  }

  /**
    One concrete disagreement: the user owns Rex, matched with Luna.  The
    matches page shows Rex as the user's pet and Luna as the match; on the
    conversations list the value behind the other side is Rex's bare id,
    which has no name.
  */
  lemma PagesDisagree()
    ensures var rex := PetView(1, "Rex");
      var luna := PetView(2, "Luna");
      var m := MatchRecord(7, 1, 2, rex, luna);
      && WellFormed(m)
      && MatchesPage.GetMyPet([rex], m) == rex
      && MatchesPage.GetOtherPet([rex], m) == luna
      && GetMyPetAsWritten([rex], m) == Number(2)
      && GetOtherPetAsWritten([rex], m) == Number(1)
      && NameOf(GetOtherPetAsWritten([rex], m)).None?
  {
    var rex := PetView(1, "Rex");
    assert Owns([rex], 1) by {
      assert [rex][0].id == 1;
    }
  }

  /** `getMyPet` corrected: the same lookup as written, on the nested pets
      the reply carries under `pet1_details` and `pet2_details`. */
  function GetMyPet(userPets: seq<PetView>, m: MatchRecord): (r: Value)
    ensures r.Object? && NameOf(r).Some?
    ensures Owns(userPets, m.pet1Details.id) ==> r == Object(m.pet1Details)
    ensures !Owns(userPets, m.pet1Details.id) ==> r == Object(m.pet2Details)
  {
    var pet1 := Object(m.pet1Details);
    if Includes(PetIds(userPets), IdOf(pet1)) then pet1 else Object(m.pet2Details)
  }

  /** `getOtherPet` corrected in the same way. */
  function GetOtherPet(userPets: seq<PetView>, m: MatchRecord): (r: Value)
    ensures r.Object? && NameOf(r).Some?
    ensures Owns(userPets, m.pet1Details.id) ==> r == Object(m.pet2Details)
    ensures !Owns(userPets, m.pet1Details.id) ==> r == Object(m.pet1Details)
  {
    var pet1 := Object(m.pet1Details);
    if Includes(PetIds(userPets), IdOf(pet1)) then Object(m.pet2Details) else pet1
  }

  /**
    With the nested pets read, the conversations list picks the same pets
    as the matches page for every match, one of each, with a name to show,
    and a user owning the first pet (by its bare id) sees it as theirs.
  */
  lemma SameRuleAsMatchesPage(userPets: seq<PetView>, m: MatchRecord)
    ensures && GetMyPet(userPets, m) == Object(MatchesPage.GetMyPet(userPets, m))
      && GetOtherPet(userPets, m) == Object(MatchesPage.GetOtherPet(userPets, m))
      && multiset{GetMyPet(userPets, m).pet, GetOtherPet(userPets, m).pet} == multiset{m.pet1Details, m.pet2Details}
    ensures WellFormed(m) && Owns(userPets, m.pet1) ==> IdOf(GetMyPet(userPets, m)) == Some(m.pet1)
  {
    MatchesPage.MyAndOtherSplitTheMatch(userPets, m);
  }
}
