/** The favourites store (src/hooks/useFavorites.tsx): a set of product ids shared by
    every view, loaded once from local storage and written back after every change
    once loading has finished. The store is a state record and each user action a
    transition; local storage is a value threaded through the transitions. */
module Favorites {
  import opened Seqs
  import opened JsSets

  /** What reading the key `product-explorer-favorites` yields: nothing (key absent or empty string), a
      value whose load throws (not JSON, or not iterable), or a stored array of ids. */
  datatype Stored = Missing | Unreadable | Ids(ids: seq<int>)

  /** The provider's state: the favourite ids (a JavaScript `Set`, so insertion
      ordered and duplicate-free) and whether storage has been read yet. */
  datatype Provider = Provider(favorites: seq<int>, isLoaded: bool)

  predicate Valid(p: Provider) {
    NoDuplicates(p.favorites)
  }

  /** The state before the storage has been read. */
  function Init(): (p: Provider)
    ensures Valid(p) && !p.isLoaded && Count(p) == 0
  {
    Provider([], false)
  }

  /** `isFavorite`: the id is one of the set's values. */
  predicate IsFavorite(p: Provider, id: int)
    ensures IsFavorite(p, id) <==> id in Elements(p.favorites)
  {
    id in p.favorites
  }

  /** `favoritesCount`: the set's size, which is its number of distinct ids. */
  function Count(p: Provider): (n: nat)
    requires Valid(p)
    ensures n == |Elements(p.favorites)|
  {
    SizeIsCardinality(p.favorites);
    |p.favorites|
  }

  /** `toggleFavorite`: adds an absent id, removes a present one, and changes the
      membership of no other id. */
  function Toggle(p: Provider, id: int): (r: Provider)
    requires Valid(p)
    ensures Valid(r) && r.isLoaded == p.isLoaded
    ensures IsFavorite(r, id) <==> !IsFavorite(p, id)
    ensures forall x :: x != id ==> (IsFavorite(r, x) <==> IsFavorite(p, x))
  {
    if id in p.favorites then p.(favorites := Delete(p.favorites, id))
    else p.(favorites := Add(p.favorites, id))
  }

  /** `clearFavorites`: no id is a favourite afterwards. */
  function Clear(p: Provider): (r: Provider)
    ensures Valid(r) && r.isLoaded == p.isLoaded
    ensures forall x :: !IsFavorite(r, x)
    ensures Count(r) == 0
  {
    p.(favorites := [])
  }

  /** The mount effect: stored ids replace the set (duplicates collapse); a missing
      or unreadable value leaves the set as it was. Either way loading is over. */
  function Hydrate(p: Provider, read: Stored): (r: Provider)
    requires Valid(p)
    ensures Valid(r) && r.isLoaded
    ensures read.Ids? ==> forall x :: IsFavorite(r, x) <==> x in read.ids
    ensures !read.Ids? ==> r.favorites == p.favorites
  {
    match read
    case Ids(ids) => Provider(FromArray(ids), true)
    case _ => p.(isLoaded := true)
  }

  /** The persistence effect: once loaded, the set is written as an array that
      reads back as the same set; before that, storage is left alone. */
  function Persist(p: Provider, storage: Stored): (r: Stored)
    requires Valid(p)
    ensures !p.isLoaded ==> r == storage
    ensures p.isLoaded ==> r.Ids? && FromArray(r.ids) == p.favorites
  {
    if p.isLoaded then
      Ids(ToArray(p.favorites))
    else storage
  }

  /** The things that happen to the store. */
  datatype Event = Mount | ToggleFavorite(id: int) | ClearFavorites

  /** The store together with what local storage holds. */
  datatype Session = Session(provider: Provider, storage: Stored)

  /** One event, followed by the persistence effect it triggers. Only the mount
      effect ends loading; until then storage is left alone, and from then on it
      holds the current set. */
  function Step(s: Session, e: Event): (r: Session)
    requires Valid(s.provider)
    ensures Valid(r.provider)
    ensures r.provider.isLoaded <==> s.provider.isLoaded || e == Mount
    ensures !r.provider.isLoaded ==> r.storage == s.storage
    ensures r.provider.isLoaded ==> Mirrors(r)
  {
    var p := match e
      case Mount => Hydrate(s.provider, s.storage)
      case ToggleFavorite(id) => Toggle(s.provider, id)
      case ClearFavorites => Clear(s.provider);
    Session(p, Persist(p, s.storage))
  }

  /** A sequence of events, in order. Loading is over exactly when it was over
      already or a mount event came; storage is untouched until then. */
  function Run(s: Session, events: seq<Event>): (r: Session)
    requires Valid(s.provider)
    ensures Valid(r.provider)
    ensures r.provider.isLoaded <==> s.provider.isLoaded || Mount in events
    ensures !r.provider.isLoaded ==> r.storage == s.storage
    decreases |events|
  {
    if events == [] then s else Run(Step(s, events[0]), events[1..])
  }

  /** Storage holds exactly the current set. */
  predicate Mirrors(s: Session)
    requires Valid(s.provider)
  {
    s.storage.Ids? && FromArray(s.storage.ids) == s.provider.favorites
  }

  /** Toggling changes the count by one: down when the id was a favourite, up
      when it was not. */
  lemma ToggleCount(p: Provider, id: int)
    requires Valid(p)
    ensures IsFavorite(p, id) ==> Count(Toggle(p, id)) == Count(p) - 1
    ensures !IsFavorite(p, id) ==> Count(Toggle(p, id)) == Count(p) + 1
  {
  }

  /** Toggling an id twice gives back the same set of favourites; if the id was not
      a favourite, even the insertion order is restored. */
  lemma ToggleTwice(p: Provider, id: int)
    requires Valid(p)
    ensures Elements(Toggle(Toggle(p, id), id).favorites) == Elements(p.favorites)
    ensures !IsFavorite(p, id) ==> Toggle(Toggle(p, id), id) == p
  {
    if !IsFavorite(p, id) {
      DeleteAfterAdd(p.favorites, id);
    }
  }

  /** Until the mount effect has run, nothing is written, whatever the user does. */
  lemma {:induction false} NothingWrittenBeforeLoad(s: Session, events: seq<Event>)
    requires Valid(s.provider) && !s.provider.isLoaded
    requires forall i :: 0 <= i < |events| ==> !events[i].Mount?
    ensures Run(s, events).storage == s.storage
    ensures !Run(s, events).provider.isLoaded
    decreases |events|
  {
    if events != [] {
      NothingWrittenBeforeLoad(Step(s, events[0]), events[1..]);
    }
  }

  /** From the mount effect on, storage always holds exactly the current set. */
  lemma {:induction false} StorageMirrorsAfterMount(s: Session, events: seq<Event>)
    requires Valid(s.provider)
    ensures Mirrors(Run(Step(s, Mount), events))
    decreases |events|
  {
    StaysMirrored(Step(s, Mount), events);
  }

  /** Once loaded and in step with storage, every event keeps storage in step. */
  lemma {:induction false} StaysMirrored(s: Session, events: seq<Event>)
    requires Valid(s.provider) && s.provider.isLoaded && Mirrors(s)
    ensures Run(s, events).provider.isLoaded && Mirrors(Run(s, events))
    decreases |events|
  {
    if events != [] {
      var next := Step(s, events[0]);
      assert next.provider.isLoaded;
      StaysMirrored(next, events[1..]);
    }
  }

  /** Persistence round trip across sessions: a new session that mounts over the
      storage an earlier session left behind starts with that session's favourites. */
  lemma NextSessionRestores(earlier: Session)
    requires Valid(earlier.provider) && Mirrors(earlier)
    ensures Step(Session(Init(), earlier.storage), Mount).provider.favorites == earlier.provider.favorites
  {
  }

  /** With nothing usable in storage, a new session starts loaded with no favourites. */
  lemma FreshStartIsEmpty(storage: Stored)
    requires !storage.Ids?
    ensures Step(Session(Init(), storage), Mount).provider == Provider([], true)
  {
  }

  /** The mount effect overwrites the set when storage holds ids, so a toggle made
      before it is lost. */
  lemma ToggleBeforeMountIsLost(ids: seq<int>, id: int)
    ensures Run(Session(Init(), Ids(ids)), [ToggleFavorite(id), Mount]).provider.favorites == FromArray(ids)
  {
    var s0 := Session(Init(), Ids(ids));
    var toggled := Toggle(s0.provider, id);
    assert !toggled.isLoaded;
    var s1 := Session(toggled, Persist(toggled, s0.storage));
    assert s1 == Step(s0, ToggleFavorite(id));
    assert s1.storage == Ids(ids);
    var s2 := Step(s1, Mount);
    assert s2.provider == Hydrate(toggled, Ids(ids));
    assert [ToggleFavorite(id), Mount][1..] == [Mount];
    assert Run(s0, [ToggleFavorite(id), Mount]) == Run(s1, [Mount]);
    assert Run(s1, [Mount]) == Run(s2, []);
  }
}
