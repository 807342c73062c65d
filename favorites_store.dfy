/**
 * The pinned favourites: a most-recent-first list of at most 20 conversions in which no
 * conversion appears twice. Each favourite carries an identifier; the store hands out
 * identifiers from a counter where the app draws a fresh UUID.
 */
module FavoritesStore {
  import opened Wrappers

  /** The four strings a conversion is shown with: "8:30" "/mi" = "7.06" "MPH". */
  datatype Conversion = Conversion(input: string, inputSuffix: string, result: string, resultSuffix: string)

  /** `FavoriteConversion`: a pinned conversion and its identifier. */
  datatype Favorite = Favorite(id: nat, input: string, inputSuffix: string, result: string, resultSuffix: string) {
    function Shows(): Conversion {
      Conversion(input, inputSuffix, result, resultSuffix)
    }
  }

  /** `maxFavorites`. */
  const MaxFavorites: nat := 20

  /** Some entry of `list` shows `c` (the `contains(where:)` test on all four strings). */
  function Contains(list: seq<Favorite>, c: Conversion): (b: bool)
    ensures b <==> exists f :: f in list && f.Shows() == c
  {
    exists i :: 0 <= i < |list| && list[i].Shows() == c
  }

  /** The position of the first entry that shows `c` (`first(where:)`), if any. */
  function FirstMatch(list: seq<Favorite>, c: Conversion): (r: Option<nat>)
    ensures r.None? <==> !Contains(list, c)
    ensures r.Some? ==> r.value < |list| && list[r.value].Shows() == c
    ensures r.Some? ==> forall j :: 0 <= j < r.value ==> list[j].Shows() != c
  {
    if list == [] then None
    else if list[0].Shows() == c then Some(0)
    else
      match FirstMatch(list[1..], c)
      case None =>
        assert forall i :: 1 <= i < |list| ==> list[i] == list[1..][i - 1];
        None
      case Some(k) =>
        assert list[k + 1] == list[1..][k];
        assert forall j :: 1 <= j < k + 1 ==> list[j] == list[1..][j - 1];
        Some(k + 1)
  }

  /** No conversion is shown by two entries. */
  predicate NoDuplicates(list: seq<Favorite>) {
    forall i, j :: 0 <= i < |list| && 0 <= j < |list| && i != j ==> list[i].Shows() != list[j].Shows()
  }

  /** No identifier is carried by two entries. */
  predicate DistinctIds(list: seq<Favorite>) {
    forall i, j :: 0 <= i < |list| && 0 <= j < |list| && i != j ==> list[i].id != list[j].id
  }

  /** Every identifier in the list was handed out before `nextId`. */
  predicate IdsBelow(list: seq<Favorite>, nextId: nat) {
    forall i :: 0 <= i < |list| ==> list[i].id < nextId
  }

  /** `Array(list.prefix(n))`: the first `n` entries, or all of them when there are fewer. */
  function Prefix(list: seq<Favorite>, n: nat): (r: seq<Favorite>)
    ensures |r| == if |list| < n then |list| else n
    ensures r == list[..|r|]
  {
    if |list| <= n then list else list[..n]
  }

  /**
   * The list after `add` accepts a new favourite: it goes in front, followed by the old
   * entries in their order, and there are never more than 20.
   */
  function Added(list: seq<Favorite>, fav: Favorite): (r: seq<Favorite>)
    ensures 1 <= |r| <= MaxFavorites && |r| <= |list| + 1 && r[0] == fav
    ensures forall i :: 1 <= i < |r| ==> r[i] == list[i - 1]
  {
    var l := [fav] + list;
    assert forall i :: 1 <= i < |l| ==> l[i] == list[i - 1];
    Prefix(l, MaxFavorites)
  }

  /**
   * The list after `add`: unchanged for a conversion already pinned; otherwise the conversion
   * comes first under the identifier `id`. Either way the conversion is pinned afterwards.
   */
  function AddFavorite(list: seq<Favorite>, id: nat, c: Conversion): (r: seq<Favorite>)
    ensures Contains(r, c)
    ensures Contains(list, c) ==> r == list
    ensures !Contains(list, c) ==> r[0] == Favorite(id, c.input, c.inputSuffix, c.result, c.resultSuffix)
  {
    if Contains(list, c) then list
    else
      var r := Added(list, Favorite(id, c.input, c.inputSuffix, c.result, c.resultSuffix));
      assert r[0].Shows() == c;
      r
  }

  /** `removeAll { $0.id == id }`: the entries with another identifier, in their order. */
  function Removed(list: seq<Favorite>, id: nat): (r: seq<Favorite>)
    ensures |r| <= |list|
  {
    if list == [] then []
    else Removed(list[..|list| - 1], id) + (if list[|list| - 1].id == id then [] else [list[|list| - 1]])
  }

  /**
   * The list after `toggle`: a pinned conversion is removed by its identifier, so the list
   * shrinks; any other one is added in front under the identifier `id`.
   */
  function Toggled(list: seq<Favorite>, id: nat, c: Conversion): (r: seq<Favorite>)
    ensures Contains(list, c) ==> |r| < |list|
    ensures !Contains(list, c) ==> |r| >= 1 && r[0] == Favorite(id, c.input, c.inputSuffix, c.result, c.resultSuffix)
  {
    match FirstMatch(list, c)
    case Some(k) =>
      RemovedShorter(list, list[k].id, k);
      Removed(list, list[k].id)
    case None => Added(list, Favorite(id, c.input, c.inputSuffix, c.result, c.resultSuffix))
  }

  /** Removing an identifier some entry carries makes the list shorter. */
  lemma {:induction false} RemovedShorter(list: seq<Favorite>, id: nat, k: nat)
    requires k < |list| && list[k].id == id
    ensures |Removed(list, id)| < |list|
  {
    var init := list[..|list| - 1];
    if k < |list| - 1 {
      assert init[k] == list[k];
      RemovedShorter(init, id, k);
    }
  }

  class FavoritesStore {
    var favorites: seq<Favorite>
    /** Where the next identifier comes from. */
    var nextId: nat

    ghost predicate Valid()
      reads this
    {
      |favorites| <= MaxFavorites && NoDuplicates(favorites) && DistinctIds(favorites) && IdsBelow(favorites, nextId)
    }

    /** A store that starts empty (what it would load from storage is not modelled). */
    constructor()
      ensures Valid() && favorites == []
    {
      favorites := [];
      nextId := 0;
    }

    /** `isFavorited`: some entry shows exactly these four strings. */
    function IsFavorited(input: string, inputSuffix: string, result: string, resultSuffix: string): (r: bool)
      reads this
      ensures r <==> exists i :: 0 <= i < |favorites| && favorites[i].input == input
                       && favorites[i].inputSuffix == inputSuffix && favorites[i].result == result
                       && favorites[i].resultSuffix == resultSuffix
    {
      Contains(favorites, Conversion(input, inputSuffix, result, resultSuffix))
    }

    /** `add`: nothing for a conversion already pinned; otherwise it goes in front and the list is cut to 20. */
    method Add(input: string, inputSuffix: string, result: string, resultSuffix: string)
      requires Valid()
      modifies this
      ensures Valid()
      ensures var c := Conversion(input, inputSuffix, result, resultSuffix);
              favorites == AddFavorite(old(favorites), old(nextId), c)
      ensures old(IsFavorited(input, inputSuffix, result, resultSuffix)) ==> favorites == old(favorites)
      ensures IsFavorited(input, inputSuffix, result, resultSuffix)
      ensures nextId == if old(IsFavorited(input, inputSuffix, result, resultSuffix)) then old(nextId) else old(nextId) + 1
    {
      var c := Conversion(input, inputSuffix, result, resultSuffix);
      if IsFavorited(input, inputSuffix, result, resultSuffix) {
        return;
      }
      var fav := Favorite(nextId, input, inputSuffix, result, resultSuffix);
      AddedValid(favorites, nextId, c);
      favorites := [fav] + favorites;
      if |favorites| > MaxFavorites {
        favorites := favorites[..MaxFavorites];
      }
      nextId := nextId + 1;
      assert favorites[0] == fav;
    }

    /** `remove(id:)`: every entry with that identifier goes, and the others keep their order. */
    method Remove(id: nat)
      requires Valid()
      modifies this
      ensures Valid() && nextId == old(nextId)
      ensures favorites == Removed(old(favorites), id)
    {
      var kept: seq<Favorite> := [];
      var i := 0;
      while i < |favorites|
        invariant 0 <= i <= |favorites|
        invariant kept == Removed(favorites[..i], id)
      {
        assert favorites[..i + 1][..i] == favorites[..i];
        if favorites[i].id != id {
          kept := kept + [favorites[i]];
        }
        i := i + 1;
      }
      assert favorites[..i] == favorites;
      RemovedValid(favorites, id, nextId);
      favorites := kept;
    }

    /** `toggle`: removes the first entry showing the conversion, by its identifier, or adds the conversion. */
    method Toggle(input: string, inputSuffix: string, result: string, resultSuffix: string)
      requires Valid()
      modifies this
      ensures Valid()
      ensures favorites == Toggled(old(favorites), old(nextId), Conversion(input, inputSuffix, result, resultSuffix))
      ensures nextId == if old(IsFavorited(input, inputSuffix, result, resultSuffix)) then old(nextId) else old(nextId) + 1
    {
      var c := Conversion(input, inputSuffix, result, resultSuffix);
      match FirstMatch(favorites, c)
      case Some(k) =>
        Remove(favorites[k].id);
      case None =>
        Add(input, inputSuffix, result, resultSuffix);
    }

    /** `clear`: no favourites left. */
    method Clear()
      requires Valid()
      modifies this
      ensures Valid() && favorites == [] && nextId == old(nextId)
    {
      favorites := [];
    }
  }

  // ---------------------------------------------------------------------------
  // What the list operations promise

  /** The entries of a prefix are entries of the list. */
  lemma PrefixKeeps(list: seq<Favorite>, n: nat)
    ensures forall i :: 0 <= i < |Prefix(list, n)| ==> Prefix(list, n)[i] == list[i]
  {
  }

  /**
   * Adding a new favourite puts it in front of the old entries, and keeps all of them unless
   * there were already 20, when the oldest (last) one is dropped.
   */
  lemma AddedShape(list: seq<Favorite>, fav: Favorite)
    ensures |Added(list, fav)| == if |list| < MaxFavorites then |list| + 1 else MaxFavorites
    ensures Added(list, fav)[0] == fav
    ensures |list| < MaxFavorites ==> Added(list, fav)[1..] == list
    ensures |list| >= MaxFavorites ==> Added(list, fav)[1..] == list[..MaxFavorites - 1]
  {
    var l := [fav] + list;
    assert l[1..] == list;
    if |list| >= MaxFavorites {
      assert Added(list, fav)[1..] == l[1..MaxFavorites];
    }
  }

  /** A list that is valid before a new conversion is added is valid after, with the counter moved on. */
  lemma AddedValid(list: seq<Favorite>, nextId: nat, c: Conversion)
    requires |list| <= MaxFavorites && NoDuplicates(list) && DistinctIds(list) && IdsBelow(list, nextId)
    requires !Contains(list, c)
    ensures var r := AddFavorite(list, nextId, c);
            |r| <= MaxFavorites && NoDuplicates(r) && DistinctIds(r) && IdsBelow(r, nextId + 1)
            && Contains(r, c)
  {
    var fav := Favorite(nextId, c.input, c.inputSuffix, c.result, c.resultSuffix);
    var l := [fav] + list;
    assert forall i :: 1 <= i < |l| ==> l[i] == list[i - 1];
    assert NoDuplicates(l);
    assert DistinctIds(l);
    var r := Prefix(l, MaxFavorites);
    assert r[0] == fav;
  }

  /** An entry survives `Removed` exactly when it was in the list with another identifier. */
  lemma {:induction false} RemovedMembers(list: seq<Favorite>, id: nat, f: Favorite)
    ensures f in Removed(list, id) <==> f in list && f.id != id
  {
    if list != [] {
      var init := list[..|list| - 1];
      RemovedMembers(init, id, f);
      assert list == init + [list[|list| - 1]];
    }
  }

  /** `Removed` keeps the order: removing from a concatenation removes from each part. */
  lemma {:induction false} RemovedConcat(a: seq<Favorite>, b: seq<Favorite>, id: nat)
    ensures Removed(a + b, id) == Removed(a, id) + Removed(b, id)
  {
    if b != [] {
      var b' := b[..|b| - 1];
      assert (a + b)[..|a + b| - 1] == a + b';
      RemovedConcat(a, b', id);
    } else {
      assert a + b == a;
    }
  }

  /** Removing an identifier nobody carries changes nothing. */
  lemma {:induction false} RemovedAbsent(list: seq<Favorite>, id: nat)
    requires forall i :: 0 <= i < |list| ==> list[i].id != id
    ensures Removed(list, id) == list
  {
    if list != [] {
      RemovedAbsent(list[..|list| - 1], id);
    }
  }

  /** Removing keeps the list valid: it only drops entries. */
  lemma {:induction false} RemovedValid(list: seq<Favorite>, id: nat, nextId: nat)
    requires NoDuplicates(list) && DistinctIds(list) && IdsBelow(list, nextId)
    ensures var r := Removed(list, id);
            NoDuplicates(r) && DistinctIds(r) && IdsBelow(r, nextId)
  {
    if list != [] {
      var init, last := list[..|list| - 1], list[|list| - 1];
      RemovedValid(init, id, nextId);
      var r0 := Removed(init, id);
      forall f | f in r0
        ensures f.Shows() != last.Shows() && f.id != last.id && f.id < nextId
      {
        RemovedMembers(init, id, f);
        var k :| 0 <= k < |init| && init[k] == f;
        assert list[k] == f;
      }
      if last.id != id {
        AppendValid(r0, last, nextId);
      }
    }
  }

  /** An entry that differs from all others in conversion and identifier can join a valid list. */
  lemma AppendValid(list: seq<Favorite>, x: Favorite, nextId: nat)
    requires NoDuplicates(list) && DistinctIds(list) && IdsBelow(list, nextId) && x.id < nextId
    requires forall f :: f in list ==> f.Shows() != x.Shows() && f.id != x.id
    ensures var r := list + [x];
            NoDuplicates(r) && DistinctIds(r) && IdsBelow(r, nextId)
  {
    var r := list + [x];
    assert forall i :: 0 <= i < |list| ==> r[i] == list[i] && list[i] in list;
  }

  /** Toggling a conversion that is not pinned pins it; toggling a pinned one unpins it. */
  lemma ToggledFlips(list: seq<Favorite>, nextId: nat, c: Conversion)
    requires |list| <= MaxFavorites && NoDuplicates(list) && DistinctIds(list) && IdsBelow(list, nextId)
    ensures Contains(Toggled(list, nextId, c), c) <==> !Contains(list, c)
  {
    match FirstMatch(list, c)
    case None =>
      AddedValid(list, nextId, c);
    case Some(k) =>
      var r := Removed(list, list[k].id);
      forall j | 0 <= j < |r|
        ensures r[j].Shows() != c
      {
        RemovedMembers(list, list[k].id, r[j]);
        var m :| 0 <= m < |list| && list[m] == r[j];
        assert m != k;
      }
  }

  /**
   * Toggling a conversion that is not pinned twice unpins it again. The other entries come
   * back as they were, except that on a full list the oldest one was pushed out by the
   * first toggle.
   */
  lemma ToggleTwice(list: seq<Favorite>, nextId: nat, c: Conversion)
    requires |list| <= MaxFavorites && NoDuplicates(list) && DistinctIds(list) && IdsBelow(list, nextId)
    requires !Contains(list, c)
    ensures var twice := Toggled(Toggled(list, nextId, c), nextId + 1, c);
            !Contains(twice, c)
            && twice == if |list| < MaxFavorites then list else list[..MaxFavorites - 1]
  {
    var fav := Favorite(nextId, c.input, c.inputSuffix, c.result, c.resultSuffix);
    var once := Toggled(list, nextId, c);
    assert once == Added(list, fav);
    AddedShape(list, fav);
    assert FirstMatch(once, c) == Some(0);
    var rest := once[1..];
    assert once == [fav] + rest;
    RemovedConcat([fav], rest, nextId);
    assert Removed([fav], nextId) == [] by {
      assert [fav][..0] == [];
    }
    assert forall i :: 0 <= i < |rest| ==> rest[i] == list[i];
    RemovedAbsent(rest, nextId);
    assert !Contains(rest, c);
  }

  /** The list never holds more than 20 favourites, whatever is added. */
  lemma AddFavoriteBounded(list: seq<Favorite>, id: nat, c: Conversion)
    requires |list| <= MaxFavorites
    ensures |AddFavorite(list, id, c)| <= MaxFavorites
    ensures Contains(AddFavorite(list, id, c), c)
  {
    if !Contains(list, c) {
      var fav := Favorite(id, c.input, c.inputSuffix, c.result, c.resultSuffix);
      AddedShape(list, fav);
      assert AddFavorite(list, id, c)[0].Shows() == c;
    }
  }

  /** Adding conversions one after the other, from identifier `id` on. */
  function AddAll(list: seq<Favorite>, id: nat, cs: seq<Conversion>): seq<Favorite>
    decreases |cs|
  {
    if cs == [] then list else AddAll(AddFavorite(list, id, cs[0]), id + 1, cs[1..])
  }

  /** Every conversion in `cs` differs from the others and from those in `list`. */
  predicate AllNew(list: seq<Favorite>, cs: seq<Conversion>) {
    && (forall i, j :: 0 <= i < j < |cs| ==> cs[i] != cs[j])
    && (forall i :: 0 <= i < |cs| ==> !Contains(list, cs[i]))
  }

  /** Adding distinct new conversions grows the list one by one until it holds 20. */
  lemma {:induction false} AddAllLength(list: seq<Favorite>, id: nat, cs: seq<Conversion>)
    requires |list| <= MaxFavorites && AllNew(list, cs)
    ensures |AddAll(list, id, cs)| == if |list| + |cs| < MaxFavorites then |list| + |cs| else MaxFavorites
    decreases |cs|
  {
    if cs != [] {
      var c := cs[0];
      var fav := Favorite(id, c.input, c.inputSuffix, c.result, c.resultSuffix);
      var next := AddFavorite(list, id, c);
      assert next == Added(list, fav);
      AddedShape(list, fav);
      forall i | 0 <= i < |cs[1..]|
        ensures !Contains(next, cs[1..][i])
      {
        var d := cs[1..][i];
        assert d == cs[i + 1] && d != c;
        forall k | 0 <= k < |next|
          ensures next[k].Shows() != d
        {
          if k > 0 {
            assert next[k] == list[k - 1];
          }
        }
      }
      AddAllLength(next, id + 1, cs[1..]);
    }
  }

  /** Twenty-five distinct conversions added to an empty store leave twenty. */
  lemma TwentyFiveAddsLeaveTwenty(cs: seq<Conversion>)
    requires |cs| == 25 && forall i, j :: 0 <= i < j < |cs| ==> cs[i] != cs[j]
    ensures |AddAll([], 0, cs)| == 20
  {
    AddAllLength([], 0, cs);
  }
}
