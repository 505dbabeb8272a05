/**
  The serializer routines that carry logic of their own: pet creation with its
  fan-out of extra images, the `is_match` field of a serialized like, and the
  `last_message` summary of a serialized match.
*/
module Serializers {
  import opened Base
  import opened Models

  // ---------------------------------------------------------------------
  // PetCreateSerializer
  // ---------------------------------------------------------------------

  /** The fields a client submits to create a pet.  `additionalImages` is the
      write-only list of extra image URLs; `None` means the key was absent. */
  datatype PetForm = PetForm(
    name: string,
    petType: string,
    breed: string,
    age: int,
    gender: string,
    bio: string,
    mainImage: Option<string>,
    additionalImages: Option<seq<string>>)

  /** The characters Python's `str.isspace` accepts: the ones a text field
      strips from both ends of a submitted value. */
  const SPACE_CHARS: set<char> := {
    ' ', '\t', '\n', '\U{0B}', '\U{0C}', '\r', '\U{1C}', '\U{1D}', '\U{1E}', '\U{1F}',
    '\U{85}', '\U{A0}', '\U{1680}',
    '\U{2000}', '\U{2001}', '\U{2002}', '\U{2003}', '\U{2004}', '\U{2005}',
    '\U{2006}', '\U{2007}', '\U{2008}', '\U{2009}', '\U{200A}',
    '\U{2028}', '\U{2029}', '\U{202F}', '\U{205F}', '\U{3000}'}

  predicate IsSpace(c: char) {
    c in SPACE_CHARS
  }

  /** How many white-space characters the text starts with. */
  function Lead(s: string): (n: nat)
    ensures n <= |s|
  {
    if s != [] && IsSpace(s[0]) then 1 + Lead(s[1..]) else 0
  }

  /** Where the text's trailing white space begins. */
  function Trail(s: string): (n: nat)
    ensures n <= |s|
  {
    if s != [] && IsSpace(s[|s| - 1]) then Trail(s[..|s| - 1]) else |s|
  }

  /** The leading run is white space and ends at a character that is not. */
  lemma {:induction false} LeadSpec(s: string)
    ensures forall k :: 0 <= k < Lead(s) ==> IsSpace(s[k])
    ensures Lead(s) < |s| ==> !IsSpace(s[Lead(s)])
    decreases |s|
  {
    if s != [] && IsSpace(s[0]) {
      LeadSpec(s[1..]);
      forall k | 0 <= k < Lead(s) ensures IsSpace(s[k]) {
        if k > 0 {
          assert s[k] == s[1..][k - 1];
        }
      }
      if Lead(s) < |s| {
        assert s[Lead(s)] == s[1..][Lead(s[1..])];
      }
    }
  }

  /** The trailing run is white space and starts after a character that is not. */
  lemma {:induction false} TrailSpec(s: string)
    ensures forall k :: Trail(s) <= k < |s| ==> IsSpace(s[k])
    ensures Trail(s) > 0 ==> !IsSpace(s[Trail(s) - 1])
    decreases |s|
  {
    if s != [] && IsSpace(s[|s| - 1]) {
      var init := s[..|s| - 1];
      TrailSpec(init);
      forall k | Trail(s) <= k < |s| ensures IsSpace(s[k]) {
        if k < |s| - 1 {
          assert s[k] == init[k];
        }
      }
      if Trail(s) > 0 {
        assert s[Trail(s) - 1] == init[Trail(init) - 1];
      }
    }
  }

  /**
    What a text field keeps of a submitted value (`trim_whitespace`, on by
    default): the value with white space stripped from both ends.
  */
  function Trim(s: string): (r: string)
    ensures |r| <= |s|
  {
    if Lead(s) == |s| then []
    else
      LeadSpec(s);
      TrailSpec(s);
      s[Lead(s)..Trail(s)]
  }

  /** A value that is all white space strips to nothing. */
  lemma {:induction false} TrimBlank(s: string)
    requires Lead(s) == |s|
    ensures Trim(s) == [] && forall k :: 0 <= k < |s| ==> IsSpace(s[k])
  {
    LeadSpec(s);
  }

  /** Otherwise the stripped value runs from the first to the last
      character that is not white space. */
  lemma {:induction false} TrimNotBlank(s: string)
    requires Lead(s) < |s|
    ensures Lead(s) < Trail(s)
    ensures Trim(s) == s[Lead(s)..Trail(s)]
    ensures !IsSpace(s[Lead(s)]) && !IsSpace(s[Trail(s) - 1])
  {
    LeadSpec(s);
    TrailSpec(s);
  }

  /**
    The stripped value is empty exactly when the value is all white space;
    otherwise it is the stretch of the value from its first to its last
    character that is not white space.
  */
  lemma {:induction false} TrimSpec(s: string)
    ensures Trim(s) == [] <==> forall k :: 0 <= k < |s| ==> IsSpace(s[k])
    ensures Trim(s) != [] ==>
      && (forall k :: 0 <= k < Lead(s) ==> IsSpace(s[k]))
      && (forall k :: Trail(s) <= k < |s| ==> IsSpace(s[k]))
      && Trim(s) == s[Lead(s)..Trail(s)]
      && !IsSpace(Trim(s)[0]) && !IsSpace(Trim(s)[|Trim(s)| - 1])
  {
    if Lead(s) == |s| {
      TrimBlank(s);
    } else {
      TrimNotBlank(s);
      LeadSpec(s);
      TrailSpec(s);
      var a, b := Lead(s), Trail(s);
      var t := Trim(s);
      assert t[0] == s[a] && t[|t| - 1] == s[b - 1];
      assert !IsSpace(s[a]);
    }
  }

  /** A value without white space at its ends is kept as it is. */
  lemma {:induction false} TrimKeepsTrimmed(s: string)
    requires s == [] || (!IsSpace(s[0]) && !IsSpace(s[|s| - 1]))
    ensures Trim(s) == s
  {
  }

  /** Stripping twice is stripping once. */
  lemma {:induction false} TrimIdempotent(s: string)
    ensures Trim(Trim(s)) == Trim(s)
  {
    TrimSpec(s);
    TrimKeepsTrimmed(Trim(s));
  }

  /** Every URL of a list, stripped (each list item is a text field). */
  function TrimAll(urls: seq<string>): (r: seq<string>)
    ensures |r| == |urls| && forall i :: 0 <= i < |urls| ==> r[i] == Trim(urls[i])
  {
    seq(|urls|, i requires 0 <= i < |urls| => Trim(urls[i]))
  }

  /**
    Field validation done before `create` runs, on the stripped values: the
    model's character limits, the two choice lists (choices are not
    stripped), and the framework's rule that a required text field may not
    be blank.  `main_image` is redeclared on the serializer without a length
    limit, so it is not checked here.
  */
  predicate FormValid(f: PetForm) {
    && 0 < |Trim(f.name)| <= NAME_MAX_LENGTH
    && ParsePetType(f.petType).Some?
    && 0 < |Trim(f.breed)| <= BREED_MAX_LENGTH
    && ParseGender(f.gender).Some?
    && 0 < |Trim(f.bio)| <= BIO_MAX_LENGTH
  }

  /** The URLs of the images stored for `pet`, in table order. */
  function ImagesOf(images: seq<PetImage>, pet: Id): (urls: seq<string>)
    ensures |urls| <= |images|
  {
    if images == [] then []
    else
      var rest := ImagesOf(images[..|images| - 1], pet);
      var last := images[|images| - 1];
      if last.pet == pet then rest + [last.image] else rest
  }

  datatype Created = Created(db: Db, pet: Id)

  /**
    `PetCreateSerializer.create`: takes the extra image list out of the pet
    fields, inserts the pet (active by default) with its text fields as
    validation left them, stripped of surrounding white space, and then one
    image row per URL, in list order.
  */
  function PetCreate(db: Db, owner: UserId, f: PetForm): (r: Created)
    requires KeysBelow(db)
    requires FormValid(f)
    ensures r.pet == db.nextId && r.pet !in db.pets
    ensures r.db.pets.Keys == db.pets.Keys + {r.pet}
    ensures forall id :: id in db.pets ==> r.db.pets[id] == db.pets[id]
    ensures r.db.pets[r.pet] == NewPet(owner, f, db.clock)
    ensures f.additionalImages.None? ==> r.db.images == db.images
    ensures f.additionalImages.Some? ==>
      r.db.images == AddImages(db.images, r.pet, f.additionalImages.value, db.clock + 1)
    ensures r.db.likes == db.likes && r.db.passes == db.passes
    ensures r.db.matches == db.matches && r.db.messages == db.messages
    ensures r.db.nextId > db.nextId && r.db.clock > db.clock
  {
    var urls := Extras(f);
    var id := db.nextId;
    Created(
      db.(pets := db.pets[id := NewPet(owner, f, db.clock)],
          images := AddImages(db.images, id, urls, db.clock + 1),
          nextId := db.nextId + 1, clock := db.clock + 1 + |urls|),
      id)
  }

  /** The extra image list taken out of the fields, empty when it was not sent. */
  function Extras(f: PetForm): (urls: seq<string>)
    ensures f.additionalImages.None? ==> urls == []
    ensures f.additionalImages.Some? ==> urls == f.additionalImages.value
  {
    if f.additionalImages.Some? then f.additionalImages.value else []
  }

  /** The image table after one row per URL, stripped and stamped in turn,
      is appended for `pet`. */
  function AddImages(images: seq<PetImage>, pet: Id, urls: seq<string>, stamp: int): (r: seq<PetImage>)
    ensures |r| == |images| + |urls|
    ensures forall i :: 0 <= i < |images| ==> r[i] == images[i]
    ensures forall i :: |images| <= i < |r| ==> r[i].pet == pet
    decreases |urls|
  {
    if urls == [] then images
    else
      var n := |urls| - 1;
      AddImages(images, pet, urls[..n], stamp) + [PetImage(pet, Trim(urls[n]), stamp + n)]
  }

  /** The new rows hold the URLs in list order, each stripped, stamped one
      after another from `stamp`. */
  lemma {:induction false} AddImagesRows(images: seq<PetImage>, pet: Id, urls: seq<string>, stamp: int)
    ensures forall i :: |images| <= i < |images| + |urls| ==>
      AddImages(images, pet, urls, stamp)[i] == PetImage(pet, Trim(urls[i - |images|]), stamp + (i - |images|))
    decreases |urls|
  {
    if urls != [] {
      var n := |urls| - 1;
      var init := urls[..n];
      AddImagesRows(images, pet, init, stamp);
      var r := AddImages(images, pet, urls, stamp);
      var prev := AddImages(images, pet, init, stamp);
      forall i | |images| <= i < |r|
        ensures r[i] == PetImage(pet, Trim(urls[i - |images|]), stamp + (i - |images|))
      {
        if i < |r| - 1 {
          assert r[i] == prev[i];
          assert prev[i] == PetImage(pet, Trim(init[i - |images|]), stamp + (i - |images|));
          assert init[i - |images|] == urls[i - |images|];
        } else {
          assert r[i] == PetImage(pet, Trim(urls[n]), stamp + n);
        }
      }
    }
  }

  /** The pet row a valid form creates. */
  function NewPet(owner: UserId, f: PetForm, stamp: int): (p: Pet)
    requires FormValid(f)
    ensures && p.owner == owner && p.name == Trim(f.name) && PetTypeCode(p.petType) == f.petType
      && p.breed == Trim(f.breed) && p.age == f.age && GenderCode(p.gender) == f.gender
      && p.bio == Trim(f.bio) && p.isActive && p.createdAt == stamp
      && (f.mainImage.None? ==> p.mainImage.None?)
      && (f.mainImage.Some? ==> p.mainImage == Some(Trim(f.mainImage.value)))
  {
    var image := if f.mainImage.Some? then Some(Trim(f.mainImage.value)) else None;
    Pet(owner, Trim(f.name), ParsePetType(f.petType).value, Trim(f.breed), f.age,
        ParseGender(f.gender).value, Trim(f.bio), image, stamp, PET_DEFAULT_ACTIVE)
  }

  lemma {:induction false} ImagesOfAbsent(images: seq<PetImage>, pet: Id)
    requires forall i :: 0 <= i < |images| ==> images[i].pet != pet
    ensures ImagesOf(images, pet) == []
    decreases |images|
  {
    if images != [] {
      ImagesOfAbsent(images[..|images| - 1], pet);
    }
  }

  /** Appending a pet's images to a table that holds none of its images
      reads back as the stripped URL list. */
  lemma {:induction false} AddImagesRoundTrip(images: seq<PetImage>, pet: Id, urls: seq<string>, stamp: int)
    requires forall i :: 0 <= i < |images| ==> images[i].pet != pet
    ensures ImagesOf(AddImages(images, pet, urls, stamp), pet) == TrimAll(urls)
    decreases |urls|
  {
    if urls == [] {
      ImagesOfAbsent(images, pet);
    } else {
      var n := |urls| - 1;
      var init := urls[..n];
      var prev := AddImages(images, pet, init, stamp);
      var row := PetImage(pet, Trim(urls[n]), stamp + n);
      AddImagesRoundTrip(images, pet, init, stamp);
      assert (prev + [row])[..|prev + [row]| - 1] == prev;
      assert TrimAll(urls) == TrimAll(init) + [Trim(urls[n])];
    }
  }

  /**
    Reading back the images of a freshly created pet gives exactly the
    submitted URL list, in order and stripped; with no list, the pet has no
    images.
  */
  lemma PetCreateImagesRoundTrip(db: Db, owner: UserId, f: PetForm)
    requires KeysBelow(db) && LinksResolve(db)
    requires FormValid(f)
    ensures ImagesOf(PetCreate(db, owner, f).db.images, db.nextId) == TrimAll(Extras(f))
  {
    var after := AddImages(db.images, db.nextId, Extras(f), db.clock + 1);
    assert PetCreate(db, owner, f).db.images == after;
    NoImagesOfFreshId(db);
    AddImagesRoundTrip(db.images, db.nextId, Extras(f), db.clock + 1);
  }

  /** No image row points at the id the next insert will take. */
  lemma NoImagesOfFreshId(db: Db)
    requires KeysBelow(db) && LinksResolve(db)
    ensures forall i :: 0 <= i < |db.images| ==> db.images[i].pet != db.nextId
  {
    forall i | 0 <= i < |db.images| ensures db.images[i].pet != db.nextId {
      assert db.images[i].pet in db.pets;
    }
  }

  // ---------------------------------------------------------------------
  // LikeSerializer
  // ---------------------------------------------------------------------

  datatype LikeData = LikeData(id: Id, fromPet: Id, toPet: Id, isMatch: bool)

  /** A serialized like; its `is_match` field is read from the table as it is
      when the like is serialized. */
  function SerializeLike(db: Db, id: Id, like: Like): (d: LikeData)
    ensures d.id == id && d.fromPet == like.fromPet && d.toPet == like.toPet
    ensures d.isMatch == LikeIsMatch(db, like)
    ensures Valid(db) && id in db.likes && db.likes[id] == like ==>
      (d.isMatch <==> HasMatch(db, Min(like.fromPet, like.toPet), Max(like.fromPet, like.toPet)))
  {
    assert id in db.likes && db.likes[id] == like ==> HasLike(db, like.fromPet, like.toPet);
    LikeData(id, like.fromPet, like.toPet, LikeIsMatch(db, like))
  }

  // ---------------------------------------------------------------------
  // MatchSerializer.get_last_message
  // ---------------------------------------------------------------------

  datatype LastMessage = LastMessage(content: string, senderPetId: Id, createdAt: int, isRead: bool)

  /** The newest message of the match (messages are ordered by creation time),
      or `None` when the match has none. */
  function GetLastMessage(db: Db, matchId: Id): (r: Option<LastMessage>)
  {
    var ms := MessagesOf(db.messages, matchId);
    if ms == [] then None
    else
      var m := ms[|ms| - 1];
      Some(LastMessage(m.content, m.senderPet, m.createdAt, m.isRead))
  }

  lemma {:induction false} MessagesOfChronological(ms: seq<Message>, matchId: Id)
    requires Chronological(ms)
    ensures Chronological(MessagesOf(ms, matchId))
    decreases |ms|
  {
    if ms != [] {
      var init := ms[..|ms| - 1];
      var last := ms[|ms| - 1];
      MessagesOfChronological(init, matchId);
      var prefix := MessagesOf(init, matchId);
      if last.matchId == matchId {
        var r := prefix + [last];
        forall i, j | 0 <= i < j < |r| ensures r[i].createdAt < r[j].createdAt && r[i].id < r[j].id {
          if j == |r| - 1 {
            assert r[i] in init;
            var k :| 0 <= k < |init| && init[k] == r[i];
            assert ms[k] == r[i] && ms[|ms| - 1] == last;
          } else {
            assert r[i] == prefix[i] && r[j] == prefix[j];
          }
        }
      }
    }
  }

  /**
    `get_last_message` is `None` exactly for a match without messages;
    otherwise it summarises a message of that match that no other message of
    the match postdates.  It relies on the match's messages being kept in
    creation order, which `MessagesOfChronological` derives from the table.
  */
  lemma {:induction false} GetLastMessageIsNewest(db: Db, matchId: Id)
    requires Chronological(MessagesOf(db.messages, matchId))
    ensures GetLastMessage(db, matchId).None? <==>
      forall i :: 0 <= i < |db.messages| ==> db.messages[i].matchId != matchId
    ensures GetLastMessage(db, matchId).Some? ==>
      var l := GetLastMessage(db, matchId).value;
      && (exists m :: m in db.messages && m.matchId == matchId && l == LastMessage(m.content, m.senderPet, m.createdAt, m.isRead))
      && (forall i :: 0 <= i < |db.messages| && db.messages[i].matchId == matchId ==> db.messages[i].createdAt <= l.createdAt)
  {
    var ms := MessagesOf(db.messages, matchId);
    if ms == [] {
      forall i | 0 <= i < |db.messages| ensures db.messages[i].matchId != matchId {
        assert db.messages[i] in db.messages;
      }
    } else {
      var m := ms[|ms| - 1];
      assert m in ms;
      forall i | 0 <= i < |db.messages| && db.messages[i].matchId == matchId
        ensures db.messages[i].createdAt <= m.createdAt
      {
        assert db.messages[i] in ms;
        var k :| 0 <= k < |ms| && ms[k] == db.messages[i];
      }
      var k :| 0 <= k < |db.messages| && db.messages[k] == m;
      assert db.messages[k].matchId == matchId;
    }
  }
}
