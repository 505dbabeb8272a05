/**
  The discover page's deck: the active pet the page swipes for, the list of
  candidate pets, and a cursor into that list that each successful like or
  pass moves on by one.  Replies of the network calls are parameters.
*/
module DiscoverPage {
  import opened Base
  import Api

  /** The fields of a pet the page's logic reads. */
  datatype Card = Card(id: int, isActive: bool)

  datatype Page = Page(
    activePet: Option<Card>,
    pets: seq<Card>,
    index: nat,
    loading: bool,
    actionLoading: bool,
    matchShown: bool)

  /** The page as it mounts: loading, empty deck, cursor at the start. */
  const Initial := Page(None, [], 0, true, false, false)

  /** The cursor points into the deck or just past its end. */
  predicate CursorInDeck(p: Page) {
    p.index <= |p.pets|
  }

  /** `hasMorePets`. */
  predicate HasMorePets(p: Page) {
    p.index < |p.pets|
  }

  /** The "n pets available" count shown under the card. */
  function Remaining(p: Page): int {
    |p.pets| - p.index
  }

  /**
    The count under the card is the number of pets still to be offered:
    while fewer successful passes than the count have been made a pet is
    still shown, and after exactly that many the deck is done.
  */
  lemma RemainingCount(p: Page, n: nat)
    requires p.activePet.Some? && !p.actionLoading && CursorInDeck(p)
    requires n <= Remaining(p)
    ensures Remaining(PassMany(p, n)) == Remaining(p) - n
    ensures HasMorePets(PassMany(p, n)) <==> n < Remaining(p)
  {
    SwipesWalkTheDeck(p, n);
  }

  // ---------------------------------------------------------------------
  // Active pet and deck loading
  // ---------------------------------------------------------------------

  /** The first pet of the list that is marked active. */
  function FirstActive(pets: seq<Card>): (r: Option<Card>)
    ensures r.None? <==> forall i :: 0 <= i < |pets| ==> !pets[i].isActive
    ensures r.Some? ==>
      exists i :: (&& 0 <= i < |pets| && pets[i] == r.value && r.value.isActive
                   && forall j :: 0 <= j < i ==> !pets[j].isActive)
  {
    if pets == [] then None
    else if pets[0].isActive then Some(pets[0])
    else
      var rest := FirstActive(pets[1..]);
      assert forall i :: 0 < i < |pets| ==> pets[i] == pets[1..][i - 1];
      rest
  }

  /** What loading the active pet did: the new page, the pages navigated
      to, and the pet whose deck was requested. */
  datatype Loaded = Loaded(page: Page, navigation: seq<string>, deckRequestedFor: Option<int>)

  /**
    `fetchActivePet` followed by `fetchDiscoverPets`, as the code is
    written: `userPets` is the reply to the list of the user's pets and
    `deck` the reply to the discover request (`None` for a failed call).
    The new deck replaces the old one, and the cursor is left where it was.
  */
  function FetchActivePetAsWritten(p: Page, userPets: Option<seq<Card>>, deck: Option<seq<Card>>): (r: Loaded)
    ensures userPets.None? ==> r == Loaded(p.(loading := false), [], None)
    ensures userPets.Some? && FirstActive(userPets.value).None? ==>
      r.page == p && r.navigation == [Api.DASHBOARD_PAGE] && r.deckRequestedFor.None?
    ensures r.page.index == p.index
  {
    match userPets
    case None => Loaded(p.(loading := false), [], None)
    case Some(list) =>
      match FirstActive(list)
      case None => Loaded(p, [Api.DASHBOARD_PAGE], None)
      case Some(active) =>
        var chosen := p.(activePet := Some(active));
        match deck
        case None => Loaded(chosen.(loading := false), [], Some(active.id))
        case Some(cards) => Loaded(chosen.(pets := cards, loading := false), [], Some(active.id))
  }

  /**
    The page loads again whenever the signed-in user object changes, which
    the periodic token renewal does.  A user who has already swiped through
    part of the deck then gets a shorter fresh deck with the old cursor:
    here two swipes, then a fresh deck of one pet that is never shown.
  */
  lemma ReloadKeepsStaleCursor()
    ensures var swiped := Page(Some(Card(1, true)), [Card(2, false), Card(3, false)], 2, false, false, false);
      var r := FetchActivePetAsWritten(swiped, Some([Card(1, true)]), Some([Card(4, false)]));
      && |r.page.pets| == 1
      && !HasMorePets(r.page)
      && !CursorInDeck(r.page)
      && Remaining(r.page) == -1
  {
    var swiped := Page(Some(Card(1, true)), [Card(2, false), Card(3, false)], 2, false, false, false);
    assert FirstActive([Card(1, true)]) == Some(Card(1, true));
  }

  /**
    The same loading with the cursor put back at the start of the new deck,
    so that every pet of the fresh deck is shown.
  */
  function FetchActivePet(p: Page, userPets: Option<seq<Card>>, deck: Option<seq<Card>>): (r: Loaded)
    ensures userPets.None? ==> r.page == p.(loading := false) && r.deckRequestedFor.None? && r.navigation == []
    ensures userPets.Some? && FirstActive(userPets.value).None? ==>
      r.page == p && r.navigation == [Api.DASHBOARD_PAGE] && r.deckRequestedFor.None?
    ensures userPets.Some? && FirstActive(userPets.value).Some? ==>
      && r.page.activePet == FirstActive(userPets.value)
      && r.deckRequestedFor == Some(FirstActive(userPets.value).value.id)
      && !r.page.loading && r.navigation == []
    ensures r.page.activePet.Some? ==> r.page.activePet.value.isActive || r.page.activePet == p.activePet
    ensures CursorInDeck(p) ==> CursorInDeck(r.page)
    ensures deck.Some? && r.deckRequestedFor.Some? ==>
      && r.page.pets == deck.value && (HasMorePets(r.page) <==> deck.value != [])
      && r.page.index == 0 && Remaining(r.page) == |deck.value|
  {
    var r := FetchActivePetAsWritten(p, userPets, deck);
    if r.deckRequestedFor.Some? && deck.Some? then r.(page := r.page.(index := 0)) else r
  }

  // ---------------------------------------------------------------------
  // Like and pass
  // ---------------------------------------------------------------------

  /** The guard both buttons share. */
  predicate CanSwipe(p: Page) {
    p.activePet.Some? && !p.actionLoading && p.index < |p.pets|
  }

  /** The reply to a like: failed, or created, with or without a match. */
  datatype LikeReply = LikeFailed | Liked(matched: bool)

  /** The ids a like or pass posts: the active pet and the pet under the
      cursor. */
  datatype Swipe = Swipe(fromPet: int, toPet: int)

  datatype Acted = Acted(page: Page, posted: Option<Swipe>)

  /**
    `handleLike`: nothing happens without an active pet, while an action is
    in flight, or at the end of the deck.  Otherwise the like is posted for
    the pet under the cursor; a success moves the cursor on by one and opens
    the match dialog when the reply carries a match, a failure leaves the
    cursor where it was, and the action is over either way.
  */
  function HandleLike(p: Page, reply: LikeReply): (r: Acted)
    ensures !CanSwipe(p) ==> r == Acted(p, None)
    ensures CanSwipe(p) ==>
      && r.posted == Some(Swipe(p.activePet.value.id, p.pets[p.index].id))
      && !r.page.actionLoading
      && r.page.pets == p.pets && r.page.activePet == p.activePet
      && r.page.index == (if reply.Liked? then p.index + 1 else p.index)
    ensures r.page.matchShown != p.matchShown ==> reply == Liked(true) && CanSwipe(p)
    ensures CanSwipe(p) && reply == Liked(true) ==> r.page.matchShown
  {
    if !CanSwipe(p) then Acted(p, None)
    else
      var posted := Swipe(p.activePet.value.id, p.pets[p.index].id);
      match reply
      case LikeFailed => Acted(p.(actionLoading := false), Some(posted))
      case Liked(matched) =>
        var shown := if matched then true else p.matchShown;
        Acted(p.(index := p.index + 1, matchShown := shown, actionLoading := false), Some(posted))
  }

  /** `handlePass`: the same guard and cursor rule as a like, without the
      match dialog; `succeeded` is whether the pass post resolved. */
  function HandlePass(p: Page, succeeded: bool): (r: Acted)
    ensures !CanSwipe(p) ==> r == Acted(p, None)
    ensures CanSwipe(p) ==>
      && r.posted == Some(Swipe(p.activePet.value.id, p.pets[p.index].id))
      && !r.page.actionLoading
      && r.page.pets == p.pets && r.page.activePet == p.activePet
      && r.page.index == (if succeeded then p.index + 1 else p.index)
    ensures r.page.matchShown == p.matchShown
  {
    if !CanSwipe(p) then Acted(p, None)
    else
      var posted := Swipe(p.activePet.value.id, p.pets[p.index].id);
      var moved := if succeeded then p.index + 1 else p.index;
      Acted(p.(index := moved, actionLoading := false), Some(posted))
  }

  /**
    Swiping keeps the cursor within the deck, and each successful swipe
    shows one pet fewer as remaining.
  */
  lemma SwipesKeepCursorInDeck(p: Page, reply: LikeReply, succeeded: bool)
    requires CursorInDeck(p)
    ensures CursorInDeck(HandleLike(p, reply).page) && CursorInDeck(HandlePass(p, succeeded).page)
    ensures CanSwipe(p) && reply.Liked? ==> Remaining(HandleLike(p, reply).page) == Remaining(p) - 1
    ensures CanSwipe(p) && succeeded ==> Remaining(HandlePass(p, succeeded).page) == Remaining(p) - 1
    ensures !HasMorePets(p) ==> HandleLike(p, reply).page == p && HandlePass(p, succeeded).page == p
  {
  }

  /** Every pet of the deck is offered in turn: n successful swipes move
      the cursor n pets on, so from a fresh load the n-th pet is shown. */
  lemma {:induction false} SwipesWalkTheDeck(p: Page, n: nat)
    requires p.activePet.Some? && !p.actionLoading
    requires p.index + n <= |p.pets|
    ensures var q := PassMany(p, n);
      q.index == p.index + n && q.pets == p.pets && !q.actionLoading && q.activePet == p.activePet
    decreases n
  {
    if n > 0 {
      SwipesWalkTheDeck(p, n - 1);
    }
  }

  /** n successful passes in a row. */
  function PassMany(p: Page, n: nat): Page
    decreases n
  {
    if n == 0 then p else HandlePass(PassMany(p, n - 1), true).page
  }
}
