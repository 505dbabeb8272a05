/**
  The request handlers of the swipe/match backend, each a transition from a
  database to a database plus an HTTP status and body.  The requesting user
  arrives as a user id (authentication is the framework's business), request
  fields arrive as options: `None` is an absent key.
*/
module Views {
  import opened Base
  import opened Models
  import Serializers

  const HTTP_200_OK := 200
  const HTTP_201_CREATED := 201
  const HTTP_400_BAD_REQUEST := 400
  const HTTP_403_FORBIDDEN := 403
  const HTTP_404_NOT_FOUND := 404

  const PET_ID_REQUIRED := "pet_id is required"
  const PET_NOT_OWNED := "Pet not found or you do not own this pet"
  const PETS_REQUIRED := "from_pet and to_pet are required"
  const PET_NOT_FOUND := "Pet not found"
  const LIKE_EXISTS := "Like already exists"
  const MATCH_NOT_FOUND := "Match not found"
  const VIEW_FORBIDDEN := "You do not have permission to view these messages"
  const MESSAGE_FIELDS_REQUIRED := "sender_pet and content are required"
  const NOT_IN_MATCH := "This pet is not part of this match"
  const MARKED_READ := "Messages marked as read"
  /** Error bodies written by the framework itself (object lookup, field
      validation) are not modelled; they carry this empty text. */
  const FRAMEWORK_ERROR := ""

  /** At most this many pets are returned by one discover request. */
  const DISCOVER_LIMIT := 20

  datatype Response<T> = Ok(status: int, value: T) | Error(status: int, message: string)

  datatype Outcome<T> = Outcome(db: Db, response: Response<T>)

  /** A JSON id that passes the handlers' `if not x` test: present and not 0. */
  predicate Given(v: Option<int>) {
    v.Some? && v.value != 0
  }

  /** A JSON text that passes `if not x`: present and not empty. */
  predicate GivenText(v: Option<string>) {
    v.Some? && v.value != ""
  }

  // ---------------------------------------------------------------------
  // PetViewSet
  // ---------------------------------------------------------------------

  /** `PetViewSet.create`: validate the submitted fields, then create the pet
      for the requesting user. */
  function CreatePet(db: Db, user: UserId, form: Serializers.PetForm): (r: Outcome<Id>)
    requires KeysBelow(db)
    ensures !Serializers.FormValid(form) ==> r == Outcome(db, Error(HTTP_400_BAD_REQUEST, FRAMEWORK_ERROR))
    ensures Serializers.FormValid(form) ==>
      && r.response == Ok(HTTP_201_CREATED, db.nextId)
      && OwnedBy(r.db, db.nextId, user)
      && r.db.pets[db.nextId].isActive
      && r.db == Serializers.PetCreate(db, user, form).db
  {
    if !Serializers.FormValid(form) then Outcome(db, Error(HTTP_400_BAD_REQUEST, FRAMEWORK_ERROR))
    else
      var created := Serializers.PetCreate(db, user, form);
      Outcome(created.db, Ok(HTTP_201_CREATED, created.pet))
  }

  /** A name, breed or bio that is all white space is blank once stripped,
      so the request is refused and nothing is stored. */
  lemma BlankTextRejected(db: Db, user: UserId, form: Serializers.PetForm)
    requires KeysBelow(db)
    requires || (forall k :: 0 <= k < |form.name| ==> Serializers.IsSpace(form.name[k]))
             || (forall k :: 0 <= k < |form.breed| ==> Serializers.IsSpace(form.breed[k]))
             || (forall k :: 0 <= k < |form.bio| ==> Serializers.IsSpace(form.bio[k]))
    ensures CreatePet(db, user, form) == Outcome(db, Error(HTTP_400_BAD_REQUEST, FRAMEWORK_ERROR))
  {
    Serializers.TrimSpec(form.name);
    Serializers.TrimSpec(form.breed);
    Serializers.TrimSpec(form.bio);
  }

  /** Creating a pet keeps every table invariant. */
  lemma CreatePetPreservesValid(db: Db, user: UserId, form: Serializers.PetForm)
    requires Valid(db)
    ensures Valid(CreatePet(db, user, form).db)
  {
    if Serializers.FormValid(form) {
      var r := Serializers.PetCreate(db, user, form).db;
      forall i | 0 <= i < |r.images| ensures r.images[i].pet in r.pets {
        if i < |db.images| {
          assert r.images[i] == db.images[i];
        }
      }
      MutualKept(db, r);
    }
  }

  /**
    `PetViewSet.set_active`: the pet is looked up among the user's own pets
    (404 otherwise); every pet of the user is switched off, then this one on.
  */
  function SetActive(db: Db, user: UserId, pk: Id): (r: Outcome<Pet>)
    ensures !OwnedBy(db, pk, user) ==> r == Outcome(db, Error(HTTP_404_NOT_FOUND, FRAMEWORK_ERROR))
    ensures OwnedBy(db, pk, user) ==>
      && r.response.Ok? && r.response.status == HTTP_200_OK
      && r.db.pets.Keys == db.pets.Keys
      && r.response.value == r.db.pets[pk]
      && (forall id :: id in db.pets && db.pets[id].owner == user ==>
            r.db.pets[id].isActive == (id == pk))
      && (forall id :: id in db.pets && db.pets[id].owner != user ==> r.db.pets[id] == db.pets[id])
      && (forall id :: id in db.pets ==> r.db.pets[id].(isActive := db.pets[id].isActive) == db.pets[id])
      && r.db == db.(pets := r.db.pets)
  {
    if !OwnedBy(db, pk, user) then Outcome(db, Error(HTTP_404_NOT_FOUND, FRAMEWORK_ERROR))
    else
      var pets := map id | id in db.pets ::
        if db.pets[id].owner == user then db.pets[id].(isActive := id == pk) else db.pets[id];
      Outcome(db.(pets := pets), Ok(HTTP_200_OK, pets[pk]))
  }

  /** After `set_active` the chosen pet is the only active pet of its owner. */
  lemma SetActiveLeavesOneActive(db: Db, user: UserId, pk: Id)
    requires OwnedBy(db, pk, user)
    ensures var r := SetActive(db, user, pk);
      forall id :: OwnedBy(r.db, id, user) && r.db.pets[id].isActive <==> id == pk
  {
  }

  lemma SetActivePreservesValid(db: Db, user: UserId, pk: Id)
    requires Valid(db)
    ensures Valid(SetActive(db, user, pk).db)
  {
    MutualKept(db, SetActive(db, user, pk).db);
  }

  // ---------------------------------------------------------------------
  // discover_pets
  // ---------------------------------------------------------------------

  /** The ids the discover query excludes for the current pet: the pets it
      liked, passed on, or is matched with, and itself. */
  function ExcludedIds(db: Db, current: Id): set<Id> {
    (set id | id in db.likes && db.likes[id].fromPet == current :: db.likes[id].toPet)
    + (set id | id in db.passes && db.passes[id].fromPet == current :: db.passes[id].toPet)
    + (set id | id in db.matches && (db.matches[id].pet1 == current || db.matches[id].pet2 == current) ::
         Partner(db.matches[id], current))
    + {current}
  }

  /** The matched pet the discover query records for a match of `current`. */
  function Partner(m: Match, current: Id): Id {
    if m.pet2 == current then m.pet1 else m.pet2
  }

  /** The pets the discover query selects from, written as the query is. */
  function EligibleIds(db: Db, user: UserId, current: Id): set<Id>
    requires current in db.pets
  {
    var c := db.pets[current];
    set id | id in db.pets
      && db.pets[id].breed == c.breed
      && db.pets[id].petType == c.petType
      && db.pets[id].isActive
      && id !in ExcludedIds(db, current)
      && db.pets[id].owner != user
  }

  /** What a discover result may contain, stated in terms of the tables. */
  predicate Discoverable(db: Db, user: UserId, current: Id, id: Id)
    requires current in db.pets
  {
    && id in db.pets
    && var p := db.pets[id];
    && p.isActive
    && p.breed == db.pets[current].breed
    && p.petType == db.pets[current].petType
    && id != current
    && p.owner != user
    && !HasLike(db, current, id)
    && !HasPass(db, current, id)
    && !HasMatch(db, current, id)
    && !HasMatch(db, id, current)
  }

  /** The query's exclusion list removes exactly the pets already liked,
      passed on or matched with. */
  lemma EligibleIffDiscoverable(db: Db, user: UserId, current: Id, id: Id)
    requires current in db.pets
    ensures id in EligibleIds(db, user, current) <==> Discoverable(db, user, current, id)
  {
    var ex := ExcludedIds(db, current);
    if HasLike(db, current, id) {
      var k :| k in db.likes && db.likes[k] == Like(current, id);
      assert db.likes[k].toPet in ex;
    }
    if HasPass(db, current, id) {
      var k :| k in db.passes && db.passes[k] == Pass(current, id);
      assert db.passes[k].toPet in ex;
    }
    if HasMatch(db, current, id) {
      var k :| k in db.matches && db.matches[k] == Match(current, id);
      assert Partner(db.matches[k], current) in ex;
    }
    if HasMatch(db, id, current) {
      var k :| k in db.matches && db.matches[k] == Match(id, current);
      assert Partner(db.matches[k], current) in ex;
    }
    if id in ex && id != current {
      if k :| k in db.likes && db.likes[k].fromPet == current && db.likes[k].toPet == id {
        assert db.likes[k] == Like(current, id);
      } else if k :| k in db.passes && db.passes[k].fromPet == current && db.passes[k].toPet == id {
        assert db.passes[k] == Pass(current, id);
      } else {
        var k :| k in db.matches && (db.matches[k].pet1 == current || db.matches[k].pet2 == current)
          && id == Partner(db.matches[k], current);
        if db.matches[k].pet2 == current {
          assert db.matches[k] == Match(id, current);
        } else {
          assert db.matches[k] == Match(current, id);
        }
      }
    }
  }

  /**
    `discover_pets`: 400 without a pet id, 404 unless the pet belongs to the
    requester; otherwise a random selection, without repetition, of
    min(20, |eligible|) eligible pet ids.  The random order is the choice the
    `:|` statement makes.
  */
  method DiscoverPets(db: Db, user: UserId, petId: Option<int>) returns (status: int, found: seq<Id>)
    ensures petId.None? ==> status == HTTP_400_BAD_REQUEST && found == []
    ensures petId.Some? && !OwnedBy(db, petId.value, user) ==> status == HTTP_404_NOT_FOUND && found == []
    ensures petId.Some? && OwnedBy(db, petId.value, user) ==>
      && status == HTTP_200_OK
      && |found| == Min(DISCOVER_LIMIT, |EligibleIds(db, user, petId.value)|)
      && (forall i :: 0 <= i < |found| ==> Discoverable(db, user, petId.value, found[i]))
    ensures forall i, j :: 0 <= i < j < |found| ==> found[i] != found[j]
  {
    if petId.None? {
      return HTTP_400_BAD_REQUEST, [];
    }
    var current := petId.value;
    if !OwnedBy(db, current, user) {
      return HTTP_404_NOT_FOUND, [];
    }
    var eligible := EligibleIds(db, user, current);
    var pool := eligible;
    found := [];
    while |found| < DISCOVER_LIMIT && pool != {}
      invariant pool <= eligible
      invariant |found| + |pool| == |eligible|
      invariant |found| <= DISCOVER_LIMIT
      invariant forall i :: 0 <= i < |found| ==> found[i] in eligible && found[i] !in pool
      invariant forall i, j :: 0 <= i < j < |found| ==> found[i] != found[j]
      decreases |pool|
    {
      NonEmptyHasElement(pool);
      var pick :| pick in pool;
      found := found + [pick];
      pool := pool - {pick};
    }
    forall i | 0 <= i < |found| ensures Discoverable(db, user, current, found[i]) {
      EligibleIffDiscoverable(db, user, current, found[i]);
    }
    status := HTTP_200_OK;
  }

  /** A non-empty set has an element: the witness the random pick needs. */
  lemma NonEmptyHasElement(s: set<Id>)
    requires s != {}
    ensures exists x :: x in s
  {
    if forall x :: x !in s {
      assert false;
    }
  }

  // ---------------------------------------------------------------------
  // create_like / create_pass
  // ---------------------------------------------------------------------

  /** The outcome of the id checks `create_like` and `create_pass` share. */
  datatype Check = Accept(fromPet: Id, toPet: Id) | Reject(status: int, message: string)

  /** Both ids must be given (400); the first must be one of the requester's
      pets and the second must exist (404). */
  function CheckPets(db: Db, user: UserId, fromPet: Option<int>, toPet: Option<int>): (r: Check)
    ensures !Given(fromPet) || !Given(toPet) ==> r == Reject(HTTP_400_BAD_REQUEST, PETS_REQUIRED)
    ensures Given(fromPet) && Given(toPet) && !(OwnedBy(db, fromPet.value, user) && toPet.value in db.pets) ==>
      r == Reject(HTTP_404_NOT_FOUND, PET_NOT_FOUND)
    ensures Given(fromPet) && Given(toPet) && OwnedBy(db, fromPet.value, user) && toPet.value in db.pets ==>
      r == Accept(fromPet.value, toPet.value)
    ensures r.Accept? ==>
      && Given(fromPet) && Given(toPet)
      && r.fromPet == fromPet.value && r.toPet == toPet.value
      && OwnedBy(db, r.fromPet, user) && r.toPet in db.pets
  {
    if !Given(fromPet) || !Given(toPet) then Reject(HTTP_400_BAD_REQUEST, PETS_REQUIRED)
    else if !OwnedBy(db, fromPet.value, user) || toPet.value !in db.pets then Reject(HTTP_404_NOT_FOUND, PET_NOT_FOUND)
    else Accept(fromPet.value, toPet.value)
  }

  /** `Match.objects.get_or_create` for an ordered pair. */
  function GetOrCreateMatch(db: Db, pet1: Id, pet2: Id): (r: Db)
    ensures HasMatch(r, pet1, pet2)
    ensures HasMatch(db, pet1, pet2) ==> r == db
    ensures !HasMatch(db, pet1, pet2) ==>
      && r.matches.Keys == db.matches.Keys + {db.nextId}
      && r.matches[db.nextId] == Match(pet1, pet2)
      && r.nextId == db.nextId + 1
      && r == db.(matches := r.matches, nextId := r.nextId)
  {
    if HasMatch(db, pet1, pet2) then db
    else
      var r := db.(matches := db.matches[db.nextId := Match(pet1, pet2)], nextId := db.nextId + 1);
      assert r.matches[db.nextId] == Match(pet1, pet2);
      r
  }

  datatype LikeCreated = LikeCreated(like: Serializers.LikeData, matched: Option<Match>)

  /**
    `create_like`: after the shared id checks, a duplicate like is refused
    with 400; otherwise the like is stored, and when the liked pet already
    liked back, the match row for the pair (lower id first) is fetched or
    created and returned with the like.
  */
  function CreateLike(db: Db, user: UserId, fromPet: Option<int>, toPet: Option<int>): (r: Outcome<LikeCreated>)
    requires KeysBelow(db)
    ensures CheckPets(db, user, fromPet, toPet).Reject? ==>
      r == Outcome(db, Error(CheckPets(db, user, fromPet, toPet).status, CheckPets(db, user, fromPet, toPet).message))
    ensures CheckPets(db, user, fromPet, toPet).Accept? && HasLike(db, fromPet.value, toPet.value) ==>
      r == Outcome(db, Error(HTTP_400_BAD_REQUEST, LIKE_EXISTS))
    ensures CheckPets(db, user, fromPet, toPet).Accept? && !HasLike(db, fromPet.value, toPet.value) ==>
      r.response.Ok?
    ensures r.response.Ok? ==>
      var f := fromPet.value;
      var t := toPet.value;
      var v := r.response.value;
      && CheckPets(db, user, fromPet, toPet).Accept? && !HasLike(db, f, t)
      && r.response.status == HTTP_201_CREATED
      && v.like.id == db.nextId && v.like.id !in db.likes && v.like.fromPet == f && v.like.toPet == t
      && r.db.likes.Keys == db.likes.Keys + {db.nextId}
      && r.db.likes[db.nextId] == Like(f, t)
      && (forall id :: id in db.likes ==> r.db.likes[id] == db.likes[id])
      && (v.like.isMatch <==> HasLike(r.db, t, f))
      && (v.matched.Some? <==> v.like.isMatch)
      && (v.matched.Some? ==> v.matched.value == Match(Min(f, t), Max(f, t)) && HasMatch(r.db, Min(f, t), Max(f, t)))
      && (!v.like.isMatch ==> r.db.matches == db.matches && r.db.nextId == db.nextId + 1)
      && (v.like.isMatch ==>
            && (forall id :: id in db.matches ==> id in r.db.matches && r.db.matches[id] == db.matches[id])
            && r.db.matches.Keys <= db.matches.Keys + {db.nextId + 1}
            && db.nextId + 1 <= r.db.nextId <= db.nextId + 2)
      && r.db.clock == db.clock
      && r.db.pets == db.pets && r.db.passes == db.passes
      && r.db.messages == db.messages && r.db.images == db.images
    ensures r.response.Error? ==> r.db == db
  {
    match CheckPets(db, user, fromPet, toPet)
    case Reject(status, message) => Outcome(db, Error(status, message))
    case Accept(f, t) =>
      if HasLike(db, f, t) then Outcome(db, Error(HTTP_400_BAD_REQUEST, LIKE_EXISTS))
      else
        var likeId := db.nextId;
        var like := Like(f, t);
        var db1 := db.(likes := db.likes[likeId := like], nextId := db.nextId + 1);
        assert db1.likes[likeId] == like;
        if LikeIsMatch(db1, like) then
          var db2 := GetOrCreateMatch(db1, Min(f, t), Max(f, t));
          assert db2.likes == db1.likes;
          Outcome(db2, Ok(HTTP_201_CREATED, LikeCreated(Serializers.SerializeLike(db2, likeId, like), Some(Match(Min(f, t), Max(f, t))))))
        else
          Outcome(db1, Ok(HTTP_201_CREATED, LikeCreated(Serializers.SerializeLike(db1, likeId, like), None)))
  }

  /** What adding one like row does to `HasLike`. */
  lemma HasLikeAfterInsert(db: Db, id: Id, like: Like, a: Id, b: Id)
    requires id !in db.likes
    ensures HasLike(db.(likes := db.likes[id := like]), a, b) <==> HasLike(db, a, b) || like == Like(a, b)
  {
    var db' := db.(likes := db.likes[id := like]);
    if HasLike(db, a, b) {
      var k :| k in db.likes && db.likes[k] == Like(a, b);
      assert db'.likes[k] == Like(a, b);
    }
    if like == Like(a, b) {
      assert db'.likes[id] == Like(a, b);
    }
    if HasLike(db', a, b) && like != Like(a, b) {
      var k :| k in db'.likes && db'.likes[k] == Like(a, b);
      assert k != id && db.likes[k] == Like(a, b);
    }
  }

  /** What adding one match row does to `HasMatch`. */
  lemma HasMatchAfterInsert(db: Db, id: Id, m: Match, a: Id, b: Id)
    requires id !in db.matches
    ensures HasMatch(db.(matches := db.matches[id := m]), a, b) <==> HasMatch(db, a, b) || m == Match(a, b)
  {
    var db' := db.(matches := db.matches[id := m]);
    if HasMatch(db, a, b) {
      var k :| k in db.matches && db.matches[k] == Match(a, b);
      assert db'.matches[k] == Match(a, b);
    }
    if m == Match(a, b) {
      assert db'.matches[id] == Match(a, b);
    }
    if HasMatch(db', a, b) && m != Match(a, b) {
      var k :| k in db'.matches && db'.matches[k] == Match(a, b);
      assert k != id && db.matches[k] == Match(a, b);
    }
  }

  /**
    `create_like` keeps every table invariant: in particular a match row
    exists for a pair exactly when both pets liked each other, and no pair
    ever gets a second like or a second match row.
  */
  lemma CreateLikePreservesValid(db: Db, user: UserId, fromPet: Option<int>, toPet: Option<int>)
    requires Valid(db)
    ensures Valid(CreateLike(db, user, fromPet, toPet).db)
  {
    var r := CreateLike(db, user, fromPet, toPet);
    match CheckPets(db, user, fromPet, toPet)
    case Reject(_, _) =>
      assert r.db == db;
    case Accept(f, t) =>
      if HasLike(db, f, t) {
        assert r.db == db;
      } else {
        var db1 := db.(likes := db.likes[db.nextId := Like(f, t)], nextId := db.nextId + 1);
        var db2 := db1.(matches := db1.matches[db1.nextId := Match(Min(f, t), Max(f, t))], nextId := db1.nextId + 1);
        NewLikeDb(db, user, fromPet, toPet, f, t);
        LikeRowKeepsTables(db, db1, f, t);
        if LikeIsMatch(db1, Like(f, t)) {
          MatchRowKeepsValid(db, db1, db2, f, t);
          assert r.db == db2;
        } else {
          LoneLikeKeepsValid(db, db1, f, t);
          assert r.db == db1;
        }
      }
  }

  /** The tables after a new, accepted like: the like row, and the pair's
      match row when the like completes the pair and no row exists yet. */
  lemma NewLikeDb(db: Db, user: UserId, fromPet: Option<int>, toPet: Option<int>, f: Id, t: Id)
    requires KeysBelow(db)
    requires CheckPets(db, user, fromPet, toPet) == Accept(f, t) && !HasLike(db, f, t)
    ensures var db1 := db.(likes := db.likes[db.nextId := Like(f, t)], nextId := db.nextId + 1);
      var db2 := db1.(matches := db1.matches[db1.nextId := Match(Min(f, t), Max(f, t))], nextId := db1.nextId + 1);
      && (!LikeIsMatch(db1, Like(f, t)) ==> CreateLike(db, user, fromPet, toPet).db == db1)
      && (LikeIsMatch(db1, Like(f, t)) && !HasMatch(db1, Min(f, t), Max(f, t)) ==>
            CreateLike(db, user, fromPet, toPet).db == db2)
  {
    var db1 := db.(likes := db.likes[db.nextId := Like(f, t)], nextId := db.nextId + 1);
    var db2 := db1.(matches := db1.matches[db1.nextId := Match(Min(f, t), Max(f, t))], nextId := db1.nextId + 1);
    if LikeIsMatch(db1, Like(f, t)) && !HasMatch(db1, Min(f, t), Max(f, t)) {
      assert GetOrCreateMatch(db1, Min(f, t), Max(f, t)) == db2;
    }
  }

  /** Inserting a new like row keeps keys, links and like uniqueness, and
      adds exactly that pair to the liked pairs. */
  lemma LikeRowKeepsTables(db: Db, db1: Db, f: Id, t: Id)
    requires Valid(db) && f in db.pets && t in db.pets && !HasLike(db, f, t)
    requires db1 == db.(likes := db.likes[db.nextId := Like(f, t)], nextId := db.nextId + 1)
    ensures KeysBelow(db1) && LinksResolve(db1) && Unique(db1.likes)
    ensures forall a, b :: HasLike(db1, a, b) <==> HasLike(db, a, b) || Like(f, t) == Like(a, b)
  {
    var like := Like(f, t);
    assert db.nextId !in db.likes;
    forall a, b ensures HasLike(db1, a, b) <==> HasLike(db, a, b) || like == Like(a, b) {
      HasLikeAfterInsert(db, db.nextId, like, a, b);
    }
    forall k | k in db.likes ensures db.likes[k] != like {
      assert !HasLike(db, f, t);
    }
    UniqueAfterInsert(db.likes, db.nextId, like);
  }

  /** A like that is not returned keeps the invariant without a match row. */
  lemma LoneLikeKeepsValid(db: Db, db1: Db, f: Id, t: Id)
    requires Valid(db) && f in db.pets && t in db.pets && !HasLike(db, f, t)
    requires db1 == db.(likes := db.likes[db.nextId := Like(f, t)], nextId := db.nextId + 1)
    requires KeysBelow(db1) && LinksResolve(db1) && Unique(db1.likes)
    requires forall a, b :: HasLike(db1, a, b) <==> HasLike(db, a, b) || Like(f, t) == Like(a, b)
    requires !HasLike(db1, t, f)
    ensures Valid(db1)
  {
    forall a, b | a <= b ensures HasMatch(db1, a, b) <==> HasLike(db1, a, b) && HasLike(db1, b, a) {
      assert HasMatch(db1, a, b) == HasMatch(db, a, b);
    }
  }

  /** A like that completes a pair, followed by the pair's new match row,
      keeps the invariant; the pair had no match row before. */
  lemma MatchRowKeepsValid(db: Db, db1: Db, db2: Db, f: Id, t: Id)
    requires Valid(db) && f in db.pets && t in db.pets && !HasLike(db, f, t)
    requires db1 == db.(likes := db.likes[db.nextId := Like(f, t)], nextId := db.nextId + 1)
    requires KeysBelow(db1) && LinksResolve(db1) && Unique(db1.likes)
    requires forall a, b :: HasLike(db1, a, b) <==> HasLike(db, a, b) || Like(f, t) == Like(a, b)
    requires HasLike(db1, t, f)
    requires db2 == db1.(matches := db1.matches[db1.nextId := Match(Min(f, t), Max(f, t))], nextId := db1.nextId + 1)
    ensures !HasMatch(db1, Min(f, t), Max(f, t))
    ensures Valid(db2)
  {
    var lo, hi := Min(f, t), Max(f, t);
    assert !HasLike(db, lo, hi) || !HasLike(db, hi, lo);
    assert !HasMatch(db, lo, hi);
    assert HasMatch(db1, lo, hi) == HasMatch(db, lo, hi);
    MatchRowKeepsTables(db1, db2, lo, hi);
    MatchRowKeepsMutual(db, db1, db2, f, t);
  }

  /** A new match row for an unmatched pair of existing pets, stored lower
      id first, keeps keys, links and match uniqueness, and adds exactly
      that pair to the matched pairs. */
  lemma MatchRowKeepsTables(db1: Db, db2: Db, lo: Id, hi: Id)
    requires KeysBelow(db1) && LinksResolve(db1) && Unique(db1.matches)
    requires lo in db1.pets && hi in db1.pets && !HasMatch(db1, lo, hi)
    requires db2 == db1.(matches := db1.matches[db1.nextId := Match(lo, hi)], nextId := db1.nextId + 1)
    ensures KeysBelow(db2) && LinksResolve(db2) && Unique(db2.matches)
    ensures forall a, b :: HasMatch(db2, a, b) <==> HasMatch(db1, a, b) || Match(lo, hi) == Match(a, b)
  {
    var m := Match(lo, hi);
    assert db1.nextId !in db1.matches;
    forall a, b ensures HasMatch(db2, a, b) <==> HasMatch(db1, a, b) || m == Match(a, b) {
      HasMatchAfterInsert(db1, db1.nextId, m, a, b);
    }
    forall k | k in db1.matches ensures db1.matches[k] != m {
      assert !HasMatch(db1, lo, hi);
    }
    UniqueAfterInsert(db1.matches, db1.nextId, m);
  }

  /** With the completing like and the new match row in place, a pair is
      matched exactly when both pets liked each other. */
  lemma MatchRowKeepsMutual(db: Db, db1: Db, db2: Db, f: Id, t: Id)
    requires MatchIffMutual(db)
    requires db1 == db.(likes := db1.likes, nextId := db1.nextId)
    requires forall a, b :: HasLike(db1, a, b) <==> HasLike(db, a, b) || Like(f, t) == Like(a, b)
    requires HasLike(db1, t, f)
    requires db2 == db1.(matches := db2.matches, nextId := db2.nextId)
    requires forall a, b :: HasMatch(db2, a, b) <==> HasMatch(db1, a, b) || Match(Min(f, t), Max(f, t)) == Match(a, b)
    requires db2.matches.Keys == db1.matches.Keys + {db1.nextId}
    requires forall k :: k in db1.matches ==> db2.matches[k] == db1.matches[k]
    requires db2.matches[db1.nextId] == Match(Min(f, t), Max(f, t))
    ensures MatchIffMutual(db2)
  {
    forall id | id in db2.matches ensures db2.matches[id].pet1 <= db2.matches[id].pet2 {
      if id != db1.nextId {
        assert db2.matches[id] == db.matches[id];
      }
    }
    forall a, b | a <= b ensures HasMatch(db2, a, b) <==> HasLike(db2, a, b) && HasLike(db2, b, a) {
      assert HasMatch(db1, a, b) == HasMatch(db, a, b);
      assert HasLike(db2, a, b) == HasLike(db1, a, b);
      assert HasLike(db2, b, a) == HasLike(db1, b, a);
    }
  }

  /** Adding a row whose value no other row holds keeps the table unique. */
  lemma UniqueAfterInsert<V>(m: map<Id, V>, k: Id, v: V)
    requires Unique(m) && k !in m
    requires forall j :: j in m ==> m[j] != v
    ensures Unique(m[k := v])
  {
  }

  /** Handlers that leave the like and match tables alone keep the
      match-iff-mutual invariant. */
  lemma MutualKept(db: Db, db': Db)
    requires MatchIffMutual(db)
    requires db'.likes == db.likes && db'.matches == db.matches
    ensures MatchIffMutual(db')
  {
    forall a, b ensures HasLike(db', a, b) == HasLike(db, a, b) && HasMatch(db', a, b) == HasMatch(db, a, b) {
    }
  }

  /** After a successful like, the pair has a match row exactly when the
      liked pet has liked back; the row keeps the lower id first. */
  lemma CreateLikeMatchIffReverse(db: Db, user: UserId, fromPet: Option<int>, toPet: Option<int>)
    requires Valid(db)
    requires CreateLike(db, user, fromPet, toPet).response.Ok?
    ensures var r := CreateLike(db, user, fromPet, toPet);
      var f := fromPet.value;
      var t := toPet.value;
      && (HasMatch(r.db, Min(f, t), Max(f, t)) <==> HasLike(r.db, t, f))
      && (f != t ==> !HasMatch(r.db, Max(f, t), Min(f, t)))
  {
    var r := CreateLike(db, user, fromPet, toPet);
    CreateLikePreservesValid(db, user, fromPet, toPet);
    var f, t := fromPet.value, toPet.value;
    assert HasLike(r.db, f, t);
    forall k | k in r.db.matches && f != t ensures r.db.matches[k] != Match(Max(f, t), Min(f, t)) {
      assert r.db.matches[k].pet1 <= r.db.matches[k].pet2;
    }
  }

  /** A pet that likes itself is at once matched with itself: the like is
      its own reverse like. */
  lemma SelfLikeMakesSelfMatch(db: Db, user: UserId, pet: int)
    requires KeysBelow(db)
    requires CreateLike(db, user, Some(pet), Some(pet)).response.Ok?
    ensures var r := CreateLike(db, user, Some(pet), Some(pet));
      r.response.value.like.isMatch && HasMatch(r.db, pet, pet)
  {
  }

  /**
    `create_pass`: after the shared id checks, the pass row for the pair is
    fetched or created; the answer is 201 either way.
  */
  function CreatePass(db: Db, user: UserId, fromPet: Option<int>, toPet: Option<int>): (r: Outcome<Pass>)
    ensures CheckPets(db, user, fromPet, toPet).Reject? ==>
      r == Outcome(db, Error(CheckPets(db, user, fromPet, toPet).status, CheckPets(db, user, fromPet, toPet).message))
    ensures r.response.Ok? ==>
      var f := fromPet.value;
      var t := toPet.value;
      && CheckPets(db, user, fromPet, toPet).Accept?
      && r.response == Ok(HTTP_201_CREATED, Pass(f, t))
      && HasPass(r.db, f, t)
      && (HasPass(db, f, t) ==> r.db == db)
      && (!HasPass(db, f, t) ==>
            r.db == db.(passes := db.passes[db.nextId := Pass(f, t)], nextId := db.nextId + 1))
    ensures CheckPets(db, user, fromPet, toPet).Accept? ==> r.response.Ok? && r.response.status == HTTP_201_CREATED
    ensures r.response.Error? ==> r.db == db
  {
    match CheckPets(db, user, fromPet, toPet)
    case Reject(status, message) => Outcome(db, Error(status, message))
    case Accept(f, t) =>
      if HasPass(db, f, t) then Outcome(db, Ok(HTTP_201_CREATED, Pass(f, t)))
      else
        var r := db.(passes := db.passes[db.nextId := Pass(f, t)], nextId := db.nextId + 1);
        assert r.passes[db.nextId] == Pass(f, t);
        Outcome(r, Ok(HTTP_201_CREATED, Pass(f, t)))
  }

  /** The pass rows for one pair. */
  function PassRows(db: Db, from: Id, to: Id): set<Id> {
    set id | id in db.passes && db.passes[id] == Pass(from, to)
  }

  /**
    Passing twice on the same pet changes nothing the second time, and leaves
    exactly one pass row for the pair.
  */
  lemma CreatePassIdempotent(db: Db, user: UserId, fromPet: Option<int>, toPet: Option<int>)
    requires Valid(db)
    requires CreatePass(db, user, fromPet, toPet).response.Ok?
    ensures var r1 := CreatePass(db, user, fromPet, toPet);
      var r2 := CreatePass(r1.db, user, fromPet, toPet);
      && r2 == r1
      && |PassRows(r2.db, fromPet.value, toPet.value)| == 1
  {
    var r1 := CreatePass(db, user, fromPet, toPet);
    var f, t := fromPet.value, toPet.value;
    assert r1.db.pets == db.pets;
    assert CheckPets(r1.db, user, fromPet, toPet) == Accept(f, t);
    assert HasPass(r1.db, f, t);
    CreatePassPreservesValid(db, user, fromPet, toPet);
    SinglePassRow(r1.db, f, t);
  }

  /** With the pair unique, an existing pass is its only row. */
  lemma SinglePassRow(db: Db, f: Id, t: Id)
    requires Unique(db.passes) && HasPass(db, f, t)
    ensures |PassRows(db, f, t)| == 1
  {
    var k :| k in db.passes && db.passes[k] == Pass(f, t);
    forall j | j in PassRows(db, f, t) ensures j == k {
      assert db.passes[j] == db.passes[k];
    }
    assert k in PassRows(db, f, t);
    assert PassRows(db, f, t) == {k};
  }

  lemma CreatePassPreservesValid(db: Db, user: UserId, fromPet: Option<int>, toPet: Option<int>)
    requires Valid(db)
    ensures Valid(CreatePass(db, user, fromPet, toPet).db)
  {
    var r := CreatePass(db, user, fromPet, toPet);
    MutualKept(db, r.db);
    if r.response.Ok? && !HasPass(db, fromPet.value, toPet.value) {
      var v := Pass(fromPet.value, toPet.value);
      forall k | k in db.passes ensures db.passes[k] != v {
        assert !HasPass(db, fromPet.value, toPet.value);
      }
      UniqueAfterInsert(db.passes, db.nextId, v);
    }
  }

  // ---------------------------------------------------------------------
  // list_matches
  // ---------------------------------------------------------------------

  /** `list_matches`: the ids of the matches in which one of the requester's
      pets takes part. */
  function ListMatches(db: Db, user: UserId): (r: Outcome<set<Id>>)
    ensures r.db == db && r.response.Ok? && r.response.status == HTTP_200_OK
    ensures forall id :: id in r.response.value <==> id in db.matches && TakesPart(db, user, db.matches[id])
  {
    Outcome(db, Ok(HTTP_200_OK, set id | id in db.matches
      && (OwnedBy(db, db.matches[id].pet1, user) || OwnedBy(db, db.matches[id].pet2, user))))
  }

  /** A match made by a like appears in the match list of both owners. */
  lemma NewMatchListedForBothOwners(db: Db, user: UserId, fromPet: Option<int>, toPet: Option<int>)
    requires Valid(db)
    requires CreateLike(db, user, fromPet, toPet).response.Ok?
    requires CreateLike(db, user, fromPet, toPet).response.value.matched.Some?
    ensures var r := CreateLike(db, user, fromPet, toPet);
      forall owner :: owner == user || owner == r.db.pets[toPet.value].owner ==>
        exists id :: id in ListMatches(r.db, owner).response.value && r.db.matches[id] == r.response.value.matched.value
  {
    var r := CreateLike(db, user, fromPet, toPet);
    var m := r.response.value.matched.value;
    var k :| k in r.db.matches && r.db.matches[k] == m;
    forall owner | owner == user || owner == r.db.pets[toPet.value].owner
      ensures exists id :: id in ListMatches(r.db, owner).response.value && r.db.matches[id] == m
    {
      assert k in ListMatches(r.db, owner).response.value;
    }
  }

  // ---------------------------------------------------------------------
  // Messages
  // ---------------------------------------------------------------------

  /** Whether the requester owns one of the two pets of the match. */
  predicate TakesPart(db: Db, user: UserId, m: Match) {
    OwnedBy(db, m.pet1, user) || OwnedBy(db, m.pet2, user)
  }

  /** `list_messages`: 404 for an unknown match, 403 unless the requester owns
      one of its pets; otherwise the match's messages. */
  function ListMessages(db: Db, user: UserId, matchId: Id): (r: Outcome<seq<Message>>)
    ensures r.db == db
    ensures matchId !in db.matches ==> r.response == Error(HTTP_404_NOT_FOUND, MATCH_NOT_FOUND)
    ensures matchId in db.matches && !TakesPart(db, user, db.matches[matchId]) ==>
      r.response == Error(HTTP_403_FORBIDDEN, VIEW_FORBIDDEN)
    ensures r.response.Ok? ==>
      && matchId in db.matches && TakesPart(db, user, db.matches[matchId])
      && r.response.status == HTTP_200_OK
      && (forall m :: m in r.response.value <==> m in db.messages && m.matchId == matchId)
    ensures matchId in db.matches && TakesPart(db, user, db.matches[matchId]) ==> r.response.Ok?
  {
    if matchId !in db.matches then Outcome(db, Error(HTTP_404_NOT_FOUND, MATCH_NOT_FOUND))
    else if !TakesPart(db, user, db.matches[matchId]) then Outcome(db, Error(HTTP_403_FORBIDDEN, VIEW_FORBIDDEN))
    else Outcome(db, Ok(HTTP_200_OK, MessagesOf(db.messages, matchId)))
  }

  /** A match is in the requester's match list exactly when the requester
      may read its conversation. */
  lemma ListedIffReadable(db: Db, user: UserId, matchId: Id)
    ensures matchId in ListMatches(db, user).response.value <==> ListMessages(db, user, matchId).response.Ok?
  {
  }

  /** Listed messages come oldest first. */
  lemma ListMessagesChronological(db: Db, user: UserId, matchId: Id)
    requires Valid(db)
    requires ListMessages(db, user, matchId).response.Ok?
    ensures var ms := ListMessages(db, user, matchId).response.value;
      forall i, j :: 0 <= i < j < |ms| ==> ms[i].createdAt < ms[j].createdAt
  {
    Serializers.MessagesOfChronological(db.messages, matchId);
  }

  /**
    `create_message`: checks, in this order, that the match exists (404),
    that sender and content are given (400), that the sender is one of the
    requester's pets (404) and that it takes part in the match (403); then
    appends one unread message stamped with the current time.
  */
  function CreateMessage(db: Db, user: UserId, matchId: Id, senderPet: Option<int>, content: Option<string>): (r: Outcome<Message>)
    ensures matchId !in db.matches ==> r == Outcome(db, Error(HTTP_404_NOT_FOUND, MATCH_NOT_FOUND))
    ensures matchId in db.matches && (!Given(senderPet) || !GivenText(content)) ==>
      r == Outcome(db, Error(HTTP_400_BAD_REQUEST, MESSAGE_FIELDS_REQUIRED))
    ensures matchId in db.matches && Given(senderPet) && GivenText(content) && !OwnedBy(db, senderPet.value, user) ==>
      r == Outcome(db, Error(HTTP_404_NOT_FOUND, PET_NOT_OWNED))
    ensures (&& matchId in db.matches && Given(senderPet) && GivenText(content) && OwnedBy(db, senderPet.value, user)
             && senderPet.value != db.matches[matchId].pet1 && senderPet.value != db.matches[matchId].pet2) ==>
      r == Outcome(db, Error(HTTP_403_FORBIDDEN, NOT_IN_MATCH))
    ensures r.response.Ok? ==>
      var msg := r.response.value;
      && r.response.status == HTTP_201_CREATED
      && matchId in db.matches && Given(senderPet) && GivenText(content) && OwnedBy(db, senderPet.value, user)
      && msg == Message(db.nextId, matchId, senderPet.value, content.value, db.clock, MESSAGE_DEFAULT_READ)
      && r.db == db.(messages := db.messages + [msg], nextId := db.nextId + 1, clock := db.clock + 1)
    ensures (&& matchId in db.matches && Given(senderPet) && GivenText(content) && OwnedBy(db, senderPet.value, user)
             && (senderPet.value == db.matches[matchId].pet1 || senderPet.value == db.matches[matchId].pet2)) ==>
      r.response.Ok?
    ensures r.response.Error? ==> r.db == db
  {
    if matchId !in db.matches then Outcome(db, Error(HTTP_404_NOT_FOUND, MATCH_NOT_FOUND))
    else if !Given(senderPet) || !GivenText(content) then Outcome(db, Error(HTTP_400_BAD_REQUEST, MESSAGE_FIELDS_REQUIRED))
    else if !OwnedBy(db, senderPet.value, user) then Outcome(db, Error(HTTP_404_NOT_FOUND, PET_NOT_OWNED))
    else
      var m := db.matches[matchId];
      var sender := senderPet.value;
      if sender != m.pet1 && sender != m.pet2 then Outcome(db, Error(HTTP_403_FORBIDDEN, NOT_IN_MATCH))
      else
        var msg := Message(db.nextId, matchId, sender, content.value, db.clock, MESSAGE_DEFAULT_READ);
        Outcome(db.(messages := db.messages + [msg], nextId := db.nextId + 1, clock := db.clock + 1), Ok(HTTP_201_CREATED, msg))
  }

  /** A sent message extends its own match's conversation by exactly that
      message and leaves every other conversation as it was. */
  lemma CreateMessageAppendsToMatch(db: Db, user: UserId, matchId: Id, senderPet: Option<int>, content: Option<string>, other: Id)
    requires CreateMessage(db, user, matchId, senderPet, content).response.Ok?
    ensures var r := CreateMessage(db, user, matchId, senderPet, content);
      && MessagesOf(r.db.messages, matchId) == MessagesOf(db.messages, matchId) + [r.response.value]
      && (other != matchId ==> MessagesOf(r.db.messages, other) == MessagesOf(db.messages, other))
  {
    var r := CreateMessage(db, user, matchId, senderPet, content);
    var ms := r.db.messages;
    assert ms[..|ms| - 1] == db.messages;
  }

  lemma CreateMessagePreservesValid(db: Db, user: UserId, matchId: Id, senderPet: Option<int>, content: Option<string>)
    requires Valid(db)
    ensures Valid(CreateMessage(db, user, matchId, senderPet, content).db)
  {
    var r := CreateMessage(db, user, matchId, senderPet, content);
    if r.response.Ok? {
      AppendMessageKeepsValid(db, r.response.value, r.db);
    } else {
      assert r.db == db;
    }
  }

  /** Appending a message of an existing match from an existing pet, with
      the next id and the current time, keeps every table invariant. */
  lemma AppendMessageKeepsValid(db: Db, msg: Message, db': Db)
    requires Valid(db)
    requires msg.matchId in db.matches && msg.senderPet in db.pets
    requires msg.id == db.nextId && msg.createdAt == db.clock
    requires db' == db.(messages := db.messages + [msg], nextId := db.nextId + 1, clock := db.clock + 1)
    ensures Valid(db')
  {
    MutualKept(db, db');
    var ms := db'.messages;
    assert ms[|ms| - 1] == msg;
    forall i | 0 <= i < |db.messages| ensures ms[i] == db.messages[i] {
    }
  }

  /**
    Which pet of the match `mark_messages_read` treats as the other side: the
    requester's pet is pet1 when the requester owns pet1, and pet2 otherwise.
  */
  function OtherSide(db: Db, user: UserId, m: Match): (other: Id)
    ensures OwnedBy(db, m.pet1, user) ==> other == m.pet2
    ensures !OwnedBy(db, m.pet1, user) ==> other == m.pet1
  {
    var userPet := if OwnedBy(db, m.pet1, user) then m.pet1 else m.pet2;
    if userPet == m.pet1 then m.pet2 else m.pet1
  }

  /** `mark_messages_read`: 404 for an unknown match; otherwise every unread
      message the other side sent in this match is marked read. */
  function MarkMessagesRead(db: Db, user: UserId, matchId: Id): (r: Outcome<string>)
    ensures matchId !in db.matches ==> r == Outcome(db, Error(HTTP_404_NOT_FOUND, MATCH_NOT_FOUND))
    ensures matchId in db.matches ==>
      var other := OtherSide(db, user, db.matches[matchId]);
      var ms := db.messages;
      var ms' := r.db.messages;
      && r.response == Ok(HTTP_200_OK, MARKED_READ)
      && r.db == db.(messages := ms')
      && |ms'| == |ms|
      && (forall i :: 0 <= i < |ms| ==> ms'[i].(isRead := ms[i].isRead) == ms[i])
      && (forall i :: 0 <= i < |ms| && ms[i].matchId == matchId && ms[i].senderPet == other ==> ms'[i].isRead)
      && (forall i :: 0 <= i < |ms| && (ms[i].matchId != matchId || ms[i].senderPet != other) ==> ms'[i] == ms[i])
  {
    if matchId !in db.matches then Outcome(db, Error(HTTP_404_NOT_FOUND, MATCH_NOT_FOUND))
    else
      var other := OtherSide(db, user, db.matches[matchId]);
      var ms := db.messages;
      var ms' := seq(|ms|, i requires 0 <= i < |ms| =>
        if ms[i].matchId == matchId && ms[i].senderPet == other && !ms[i].isRead then ms[i].(isRead := true) else ms[i]);
      Outcome(db.(messages := ms'), Ok(HTTP_200_OK, MARKED_READ))
  }

  /** Marking a conversation read a second time changes nothing. */
  lemma MarkMessagesReadIdempotent(db: Db, user: UserId, matchId: Id)
    ensures var r1 := MarkMessagesRead(db, user, matchId);
      MarkMessagesRead(r1.db, user, matchId) == r1
  {
    var r1 := MarkMessagesRead(db, user, matchId);
    if matchId in db.matches {
      var r2 := MarkMessagesRead(r1.db, user, matchId);
      assert r1.db.matches == db.matches && r1.db.pets == db.pets;
      assert r2.db.messages == r1.db.messages;
    }
  }

  /** The handler does not check that the requester takes part in the match:
      a stranger's call marks pet1's messages read. */
  lemma MarkMessagesReadByStranger(db: Db, user: UserId, matchId: Id)
    requires matchId in db.matches && !TakesPart(db, user, db.matches[matchId])
    ensures var r := MarkMessagesRead(db, user, matchId);
      var m := db.matches[matchId];
      && r.response.Ok?
      && forall i :: 0 <= i < |db.messages| && db.messages[i].matchId == matchId && db.messages[i].senderPet == m.pet1 ==>
           r.db.messages[i].isRead
  {
  }

  lemma MarkMessagesReadPreservesValid(db: Db, user: UserId, matchId: Id)
    requires Valid(db)
    ensures Valid(MarkMessagesRead(db, user, matchId).db)
  {
    MutualKept(db, MarkMessagesRead(db, user, matchId).db);
  }
}
