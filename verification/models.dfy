/**
  The backend's tables: pets, their extra images, likes, passes, matches and
  messages, together with the field limits, choice lists and defaults the
  Django models declare, and the invariant every request handler preserves.

  Rows that are referred to by id are kept in maps keyed by that id.  Messages
  and images are kept in insertion order, which is also their creation-time
  order because every pet, image and message insert reads a strictly
  increasing clock.
*/
module Models {
  import opened Base

  type Id = int
  type UserId = int

  // ---------------------------------------------------------------------
  // Choices and limits
  // ---------------------------------------------------------------------

  datatype PetType = Dog | Cat | Bird | Rabbit | OtherKind
  datatype Gender = Male | Female

  const NAME_MAX_LENGTH: nat := 100
  const PET_TYPE_MAX_LENGTH: nat := 20
  const BREED_MAX_LENGTH: nat := 100
  const GENDER_MAX_LENGTH: nat := 10
  const BIO_MAX_LENGTH: nat := 500

  /** The code stored in the database for each pet type. */
  function PetTypeCode(t: PetType): (code: string)
    ensures 0 < |code| <= PET_TYPE_MAX_LENGTH
  {
    match t
    case Dog => "dog"
    case Cat => "cat"
    case Bird => "bird"
    case Rabbit => "rabbit"
    case OtherKind => "other"
  }

  /** Reads a submitted pet type; only the five declared codes are accepted. */
  function ParsePetType(s: string): (r: Option<PetType>)
    ensures r.Some? <==> s in ["dog", "cat", "bird", "rabbit", "other"]
    ensures r.Some? ==> PetTypeCode(r.value) == s
  {
    if s == "dog" then Some(Dog)
    else if s == "cat" then Some(Cat)
    else if s == "bird" then Some(Bird)
    else if s == "rabbit" then Some(Rabbit)
    else if s == "other" then Some(OtherKind)
    else None
  }

  function GenderCode(g: Gender): (code: string)
    ensures 0 < |code| <= GENDER_MAX_LENGTH
  {
    match g
    case Male => "male"
    case Female => "female"
  }

  function ParseGender(s: string): (r: Option<Gender>)
    ensures r.Some? <==> s in ["male", "female"]
    ensures r.Some? ==> GenderCode(r.value) == s
  {
    if s == "male" then Some(Male)
    else if s == "female" then Some(Female)
    else None
  }

  /** Every code is read back as the choice it was written from. */
  lemma ChoicesRoundTrip(t: PetType, g: Gender)
    ensures ParsePetType(PetTypeCode(t)) == Some(t)
    ensures ParseGender(GenderCode(g)) == Some(g)
  {
  }

  // ---------------------------------------------------------------------
  // Rows
  // ---------------------------------------------------------------------

  datatype Pet = Pet(
    owner: UserId,
    name: string,
    petType: PetType,
    breed: string,
    age: int,
    gender: Gender,
    bio: string,
    mainImage: Option<string>,
    createdAt: int,
    isActive: bool)

  datatype PetImage = PetImage(pet: Id, image: string, uploadedAt: int)

  datatype Like = Like(fromPet: Id, toPet: Id)

  datatype Pass = Pass(fromPet: Id, toPet: Id)

  datatype Match = Match(pet1: Id, pet2: Id)

  datatype Message = Message(
    id: Id,
    matchId: Id,
    senderPet: Id,
    content: string,
    createdAt: int,
    isRead: bool)

  /** Default for a new pet: active. */
  const PET_DEFAULT_ACTIVE := true
  /** Default for a new message: unread. */
  const MESSAGE_DEFAULT_READ := false

  /**
    The whole database.  `nextId` is the next primary key handed out and
    `clock` the next creation timestamp; both only grow.
  */
  datatype Db = Db(
    pets: map<Id, Pet>,
    images: seq<PetImage>,
    likes: map<Id, Like>,
    passes: map<Id, Pass>,
    matches: map<Id, Match>,
    messages: seq<Message>,
    nextId: Id,
    clock: int)

  const EmptyDb := Db(map[], [], map[], map[], map[], [], 1, 0)

  // ---------------------------------------------------------------------
  // Queries shared by the handlers
  // ---------------------------------------------------------------------

  predicate OwnedBy(db: Db, pet: Id, user: UserId) {
    pet in db.pets && db.pets[pet].owner == user
  }

  predicate HasLike(db: Db, from: Id, to: Id) {
    exists id :: id in db.likes && db.likes[id] == Like(from, to)
  }

  predicate HasPass(db: Db, from: Id, to: Id) {
    exists id :: id in db.passes && db.passes[id] == Pass(from, to)
  }

  predicate HasMatch(db: Db, pet1: Id, pet2: Id) {
    exists id :: id in db.matches && db.matches[id] == Match(pet1, pet2)
  }

  /** `Like.is_match`: the liked pet has liked back. */
  predicate LikeIsMatch(db: Db, like: Like) {
    HasLike(db, like.toPet, like.fromPet)
  }

  /** The messages of one match, in table (creation) order. */
  function MessagesOf(ms: seq<Message>, matchId: Id): (r: seq<Message>)
    ensures |r| <= |ms|
    ensures forall m :: m in r <==> m in ms && m.matchId == matchId
  {
    if ms == [] then []
    else
      var last := ms[|ms| - 1];
      var prefix := MessagesOf(ms[..|ms| - 1], matchId);
      assert ms == ms[..|ms| - 1] + [last];
      if last.matchId == matchId then prefix + [last] else prefix
  }

  // ---------------------------------------------------------------------
  // The database invariant
  // ---------------------------------------------------------------------

  /** No two rows of the table hold the same value (a `unique_together`). */
  ghost predicate Unique<V>(m: map<Id, V>) {
    forall a, b :: a in m && b in m && m[a] == m[b] ==> a == b
  }

  /** Every key handed out so far lies below `nextId`. */
  ghost predicate KeysBelow(db: Db) {
    && (forall id :: id in db.pets ==> id < db.nextId)
    && (forall id :: id in db.likes ==> id < db.nextId)
    && (forall id :: id in db.passes ==> id < db.nextId)
    && (forall id :: id in db.matches ==> id < db.nextId)
    && (forall i :: 0 <= i < |db.messages| ==> db.messages[i].id < db.nextId)
  }

  /** Every foreign key points at an existing row. */
  ghost predicate LinksResolve(db: Db) {
    && (forall id :: id in db.likes ==> db.likes[id].fromPet in db.pets && db.likes[id].toPet in db.pets)
    && (forall id :: id in db.passes ==> db.passes[id].fromPet in db.pets && db.passes[id].toPet in db.pets)
    && (forall id :: id in db.matches ==> db.matches[id].pet1 in db.pets && db.matches[id].pet2 in db.pets)
    && (forall i :: 0 <= i < |db.messages| ==>
          db.messages[i].matchId in db.matches && db.messages[i].senderPet in db.pets)
    && (forall i :: 0 <= i < |db.images| ==> db.images[i].pet in db.pets)
  }

  /** Messages are stored in strictly increasing creation time (and id). */
  ghost predicate Chronological(ms: seq<Message>) {
    forall i, j :: 0 <= i < j < |ms| ==> ms[i].createdAt < ms[j].createdAt && ms[i].id < ms[j].id
  }

  /** A match row exists for a pair exactly when both pets liked each other;
      it is stored with the lower id first. */
  ghost predicate MatchIffMutual(db: Db) {
    && (forall id :: id in db.matches ==> db.matches[id].pet1 <= db.matches[id].pet2)
    && (forall a, b :: a <= b ==> (HasMatch(db, a, b) <==> HasLike(db, a, b) && HasLike(db, b, a)))
  }

  ghost predicate Valid(db: Db) {
    && KeysBelow(db)
    && LinksResolve(db)
    && Unique(db.likes)
    && Unique(db.passes)
    && Unique(db.matches)
    && MatchIffMutual(db)
    && Chronological(db.messages)
    && (forall i :: 0 <= i < |db.messages| ==> db.messages[i].createdAt < db.clock)
  }

  lemma EmptyDbValid()
    ensures Valid(EmptyDb)
  {
  }
}
