/** Station ratings and the choice of stations that follows from them (src/tuner.c:88-153 and 297-475). */
module Tuner {
  import opened Basics
  import opened CStrings
  import opened Output

  // ---------------------------------------------------------------- a user's ratings

  datatype Rating = Neutral | Good | Bad

  /** RATING_RECORD */
  datatype Record = Record(station: string, rating: Rating)

  function Stations(records: seq<Record>): (r: seq<string>)
    ensures |r| == |records|
  {
    seq(|records|, i requires 0 <= i < |records| => records[i].station)
  }

  /** In the order the ratings are kept: that of their stations, each once. */
  ghost predicate Sorted(records: seq<Record>) {
    Ascending(Stations(records))
  }

  /** find_station_rating */
  function FindRating(records: seq<Record>, station: string): Option<nat> {
    BSearch(Stations(records), station, 0, |records|)
  }

  /** get_station_rating */
  function GetRating(records: seq<Record>, station: string): Rating {
    var found := FindRating(records, station);
    if found.Some? && found.value < |records| then records[found.value].rating else Neutral
  }

  function Rated(ratings: map<string, Rating>, station: string): Rating {
    if station in ratings then ratings[station] else Neutral
  }

  /** A rating is changed; one that was never given stays unrecorded if it is to be neutral. */
  function Revised(ratings: map<string, Rating>, station: string, rating: Rating): map<string, Rating> {
    if station !in ratings && rating == Neutral then ratings else ratings[station := rating]
  }

  lemma RevisedRates(ratings: map<string, Rating>, station: string, rating: Rating, s: string)
    ensures Rated(Revised(ratings, station, rating), s) == if s == station then rating else Rated(ratings, s)
  {
  }

  /** The sorted records hold this finite map. */
  ghost predicate Keeps(records: seq<Record>, ratings: map<string, Rating>) {
    && Sorted(records)
    && (forall i :: 0 <= i < |records| ==> records[i].station in ratings && ratings[records[i].station] == records[i].rating)
    && (forall s :: s in ratings ==> s in Stations(records))
  }

  /** Two places never hold the same station. */
  lemma OnePlace(records: seq<Record>, i: nat, j: nat)
    requires Sorted(records) && i < |records| && j < |records| && i != j
    ensures records[i].station != records[j].station
  {
    var keys := Stations(records);
    assert i < j ==> Compare(keys[i], keys[j]) < 0;
    assert j < i ==> Compare(keys[j], keys[i]) < 0;
    CompareEqual(keys[i], keys[j]);
    CompareFlip(keys[i], keys[j]);
  }

  lemma FoundAt(records: seq<Record>, station: string)
    requires Sorted(records)
    ensures var found := FindRating(records, station);
            if found.None? then station !in Stations(records)
            else found.value < |records| && records[found.value].station == station
  {
    var keys := Stations(records);
    BSearchComplete(keys, station, 0, |keys|);
    assert keys[0..|keys|] == keys;
    var found := FindRating(records, station);
    if found.Some? {
      CompareEqual(station, keys[found.value]);
    }
  }

  /** What is read from the sorted records is what the map says, and neutral for everything else. */
  lemma RatingsAgree(records: seq<Record>, ratings: map<string, Rating>, station: string)
    requires Keeps(records, ratings)
    ensures GetRating(records, station) == Rated(ratings, station)
    ensures FindRating(records, station).Some? <==> station in ratings
  {
    FoundAt(records, station);
  }

  /** The map that records hold; a later record of a station would count. */
  function Opinion(records: seq<Record>): map<string, Rating> {
    if records == [] then map[]
    else
      var last := records[|records| - 1];
      Opinion(records[..|records| - 1])[last.station := last.rating]
  }

  lemma LastApart(records: seq<Record>)
    requires Sorted(records) && records != []
    ensures var n := |records| - 1; Sorted(records[..n]) && records[n].station !in Stations(records[..n])
  {
    var n := |records| - 1;
    assert Stations(records[..n]) == Stations(records)[..n];
    forall i | 0 <= i < n ensures Stations(records[..n])[i] != records[n].station {
      OnePlace(records, i, n);
    }
  }

  lemma {:induction false} OpinionKept(records: seq<Record>)
    requires Sorted(records)
    ensures Keeps(records, Opinion(records))
  {
    if records != [] {
      var n := |records| - 1;
      var front, last := records[..n], records[n];
      LastApart(records);
      OpinionKept(front);
      hide Sorted;
      assert front[..n] + [last] + front[n..] == records;
      InsertKeeps(front, Opinion(front), n, last);
    }
  }

  /** Sorted records hold one map only. */
  lemma KeepsOpinion(records: seq<Record>, ratings: map<string, Rating>)
    requires Keeps(records, ratings)
    ensures ratings == Opinion(records)
  {
    OpinionKept(records);
    hide Opinion;
    assert forall s :: s in ratings <==> s in Stations(records);
    assert forall s :: s in Opinion(records) <==> s in Stations(records);
    forall s | s in ratings ensures ratings[s] == Opinion(records)[s] {
      var i :| 0 <= i < |records| && Stations(records)[i] == s;
      assert records[i].station == s;
    }
  }

  lemma InsertSorted(records: seq<Record>, k: nat, r: Record)
    requires Sorted(records) && k <= |records|
    requires forall i :: 0 <= i < k ==> Compare(records[i].station, r.station) < 0
    requires forall i :: k <= i < |records| ==> Compare(r.station, records[i].station) < 0
    ensures Sorted(records[..k] + [r] + records[k..])
  {
    var more := records[..k] + [r] + records[k..];
    var keys, keys' := Stations(records), Stations(more);
    forall i, j | 0 <= i < j < |keys'| ensures Compare(keys'[i], keys'[j]) < 0 {
      if i != k && j != k {
        var i', j' := if i < k then i else i - 1, if j < k then j else j - 1;
        assert keys'[i] == keys[i'] && keys'[j] == keys[j'] && Compare(keys[i'], keys[j']) < 0;
      }
    }
  }

  lemma InsertKeeps(records: seq<Record>, ratings: map<string, Rating>, k: nat, r: Record)
    requires Keeps(records, ratings) && k <= |records| && r.station !in ratings
    requires Sorted(records[..k] + [r] + records[k..])
    ensures Keeps(records[..k] + [r] + records[k..], ratings[r.station := r.rating])
  {
    hide Sorted;
    var more, ratings' := records[..k] + [r] + records[k..], ratings[r.station := r.rating];
    forall i | 0 <= i < |more| ensures more[i].station in ratings' && ratings'[more[i].station] == more[i].rating {
      assert i == k || more[i] == records[if i < k then i else i - 1];
    }
    forall s | s in ratings' ensures s in Stations(more) {
      if s == r.station {
        assert Stations(more)[k] == s;
      } else {
        var i :| 0 <= i < |records| && Stations(records)[i] == s;
        assert Stations(more)[if i < k then i else i + 1] == s;
      }
    }
  }

  lemma UpdateKeeps(records: seq<Record>, ratings: map<string, Rating>, k: nat, rating: Rating)
    requires Keeps(records, ratings) && k < |records|
    ensures Keeps(records[k := Record(records[k].station, rating)], ratings[records[k].station := rating])
  {
    var more, ratings' := records[k := Record(records[k].station, rating)], ratings[records[k].station := rating];
    assert Stations(more) == Stations(records);
    assert Stations(records)[k] in Stations(records);
    forall i | 0 <= i < |more| ensures more[i].station in ratings' && ratings'[more[i].station] == more[i].rating {
      if i != k {
        OnePlace(records, i, k);
      }
    }
  }

  /** STATION_PREF. A user without one is as one with no records. */
  class Preferences {
    var records: array<Record>
    var count: nat
    /** What the user thinks of stations. */
    ghost var ratings: map<string, Rating>

    ghost predicate Valid()
      reads this, records
    {
      count <= records.Length && Keeps(records[..count], ratings)
    }

    constructor ()
      ensures Valid() && fresh(records) && ratings == map[]
    {
      records := new Record[0];
      count, ratings := 0, map[];
    }

    /** fb_expandcalloc: room for one more, and then for many. */
    method MakeRoom()
      requires Valid()
      modifies this`records
      ensures Valid() && count < records.Length && records[..count] == old(records[..count])
      ensures records == old(records) || fresh(records)
    {
      if count == records.Length {
        var roomier := new Record[records.Length * 2 + 25](_ => Record("", Neutral));
        forall i | 0 <= i < count {
          roomier[i] := records[i];
        }
        records := roomier;
        assert records[..count] == old(records[..count]);
      }
    }

    /** The loop that makes a gap where a record belongs, moving those after it one up. */
    method MakeGap(station: string) returns (k: nat)
      requires Valid() && count < records.Length
      modifies records
      ensures k <= count && forall i :: 0 <= i < k ==> records[i] == old(records[i])
      ensures forall i :: k < i <= count ==> records[i] == old(records[i - 1])
      ensures k > 0 ==> Compare(station, old(records[k - 1].station)) > 0
      ensures forall i :: k <= i < count ==> Compare(station, old(records[i].station)) <= 0
    {
      hide *;
      ghost var was := records[..count];
      var i: int := count - 1;
      while i >= 0 && Compare(station, records[i].station) <= 0
        invariant -1 <= i < count
        invariant forall k :: 0 <= k <= i ==> records[k] == was[k]
        invariant forall k :: i + 1 < k <= count ==> records[k] == was[k - 1]
        invariant forall k :: i < k < count ==> Compare(station, was[k].station) <= 0
        modifies records
      {
        records[i + 1] := records[i];
        i := i - 1;
      }
      k := i + 1;
    }

    /** The end of set_station_rating: the record goes where it belongs. */
    method Insert(r: Record)
      requires Valid() && count < records.Length && r.station !in ratings
      modifies this`count, this`ratings, records
      ensures Valid() && ratings == old(ratings)[r.station := r.rating] && count == old(count) + 1
    {
      hide Keeps, Compare, Sorted;
      ghost var was := records[..count];
      var k := MakeGap(r.station);
      PlaceFound(was, ratings, r, k);
      records[k] := r;
      count := count + 1;
      ratings := ratings[r.station := r.rating];
      AroundGap(was, records[..count], r, k);
    }

    /** The existing record takes on the new rating. */
    method Update(k: nat, rating: Rating)
      requires Valid() && k < count
      modifies this`ratings, records
      ensures Valid() && ratings == old(ratings)[old(records[k].station) := rating]
    {
      ghost var was := records[..count];
      UpdateKeeps(was, ratings, k, rating);
      hide Keeps;
      ratings := ratings[records[k].station := rating];
      if records[k].rating != rating {
        records[k] := Record(records[k].station, rating);
      }
      assert records[..count] == was[k := Record(was[k].station, rating)];
    }

    /** set_station_rating */
    method SetStationRating(station: string, rating: Rating)
      requires Valid()
      modifies this, records
      ensures Valid() && (records == old(records) || fresh(records))
      ensures ratings == Revised(old(ratings), station, rating)
    {
      RatingsAgree(records[..count], ratings, station);
      FoundAt(records[..count], station);
      hide Keeps, Sorted, FindRating, GetRating;
      var found := FindRating(records[..count], station);
      if found.Some? {
        Update(found.value, rating);
      } else if rating != Neutral {
        MakeRoom();
        Insert(Record(station, rating));
      }
    }
  }

  lemma AroundGap(was: seq<Record>, now: seq<Record>, r: Record, k: nat)
    requires k <= |was| && |now| == |was| + 1 && now[k] == r
    requires forall i :: 0 <= i < k ==> now[i] == was[i]
    requires forall i :: k < i < |now| ==> now[i] == was[i - 1]
    ensures now == was[..k] + [r] + was[k..]
  {
    assert now[..k] == was[..k] && now[k + 1..] == was[k..];
    assert now == now[..k] + [now[k]] + now[k + 1..];
  }

  lemma PlaceFound(records: seq<Record>, ratings: map<string, Rating>, r: Record, k: nat)
    requires Keeps(records, ratings) && k <= |records| && r.station !in ratings
    requires k > 0 ==> Compare(r.station, records[k - 1].station) > 0
    requires forall i :: k <= i < |records| ==> Compare(r.station, records[i].station) <= 0
    ensures Keeps(records[..k] + [r] + records[k..], ratings[r.station := r.rating])
  {
    forall i | 0 <= i < |records|
      ensures if i < k then Compare(records[i].station, r.station) < 0 else Compare(r.station, records[i].station) < 0
    {
      CompareEqual(r.station, records[i].station);
      if i < k {
        CompareFlip(r.station, records[k - 1].station);
        if i < k - 1 {
          assert Compare(Stations(records)[i], Stations(records)[k - 1]) < 0;
          CompareTransitive(records[i].station, records[k - 1].station, r.station);
        }
      }
    }
    InsertSorted(records, k, r);
    InsertKeeps(records, ratings, k, r);
  }

  // ---------------------------------------------------------------- who has a say, and what suits them

  /** What of a user matters here: the influence privilege, being marked as present, and ratings. */
  datatype User = User(influence: bool, present: bool, records: seq<Record>)

  /** A connection, and the user logged in on it. */
  datatype Session = Session(state: State, user: Option<User>)

  /** PianoStation_t */
  datatype Station = Station(id: string, useQuickMix: bool)

  /** What a user thinks of a station, by the map that the records hold. */
  function Rates(user: User, station: string): Rating {
    Rated(Opinion(user.records), station)
  }

  /** Looking a station up in the records finds that. */
  lemma RatesRead(user: User, station: string)
    requires Sorted(user.records)
    ensures GetRating(user.records, station) == Rates(user, station)
  {
    OpinionKept(user.records);
    RatingsAgree(user.records, Opinion(user.records), station);
  }

  /** Records are kept in order, as set_station_rating leaves them. */
  ghost predicate InOrder(users: seq<User>) {
    forall u :: u in users ==> Sorted(u.records)
  }

  ghost predicate SessionsInOrder(sessions: seq<Session>) {
    forall s :: s in sessions && s.user.Some? ==> Sorted(s.user.value.records)
  }

  ghost function LoggedIn(sessions: seq<Session>): set<User> {
    set s | s in sessions && s.state == Open && s.user.Some? && s.user.value.influence :: s.user.value
  }

  ghost function Present(users: seq<User>): set<User> {
    set u | u in users && u.present && u.influence
  }

  predicate SomeOpen(sessions: seq<Session>) {
    exists s :: s in sessions && s.state == Open
  }

  predicate SomePresent(users: seq<User>) {
    exists u :: u in users && u.present
  }

  ghost predicate AllLike(users: set<User>, station: string) {
    forall u :: u in users ==> Rates(u, station) == Good
  }

  ghost predicate SomeLike(users: set<User>, station: string) {
    exists u :: u in users && Rates(u, station) == Good
  }

  ghost predicate SomeHate(users: set<User>, station: string) {
    exists u :: u in users && Rates(u, station) == Bad
  }

  /** What the three algorithms are after: stations everyone likes, stations somebody likes and nobody
      hates, stations nobody hates. */
  ghost predicate Suits(users: set<User>, station: string, algorithm: nat) {
    if algorithm == 1 then AllLike(users, station)
    else if algorithm == 2 then SomeLike(users, station) && !SomeHate(users, station)
    else !SomeHate(users, station)
  }

  ghost predicate SomeSuit(users: set<User>, stations: seq<string>, algorithm: nat) {
    exists s :: s in stations && Suits(users, s, algorithm)
  }

  /** The first algorithm that finds something, 4 if none does. */
  ghost function Choice(users: set<User>, stations: seq<string>): nat {
    if SomeSuit(users, stations, 1) then 1
    else if SomeSuit(users, stations, 2) then 2
    else if SomeSuit(users, stations, 3) then 3
    else 4
  }

  /** A station that anyone with a say rates bad suits nobody. */
  lemma HatedNeverSuits(users: set<User>, station: string, algorithm: nat, u: User)
    requires u in users && Rates(u, station) == Bad
    ensures !Suits(users, station, algorithm)
  {
  }

  /** Each algorithm asks for less than the one before, if anyone has a say; and if nobody has, every
      station will do. */
  lemma SuitsLessAndLess(users: set<User>, station: string)
    ensures users != {} && Suits(users, station, 1) ==> Suits(users, station, 2)
    ensures Suits(users, station, 2) ==> Suits(users, station, 3)
    ensures users == {} ==> Suits(users, station, 1)
  {
    if users != {} && Suits(users, station, 1) {
      var u :| u in users;
      assert Rates(u, station) == Good;
    }
  }

  // ---------------------------------------------------------------- working it out

  /** STATION_SELECTOR */
  datatype Selector = Selector(station: string, pureGood: bool, partialGood: bool, bad: bool, included: bool)

  /** The flags tell what these users think. */
  ghost predicate Flags(selector: Selector, users: set<User>) {
    && (selector.pureGood <==> AllLike(users, selector.station))
    && (selector.partialGood <==> SomeLike(users, selector.station))
    && (selector.bad <==> SomeHate(users, selector.station))
  }

  ghost predicate AllFlags(selectors: seq<Selector>, stations: seq<string>, users: set<User>) {
    && |selectors| == |stations|
    && forall i :: 0 <= i < |selectors| ==> selectors[i].station == stations[i] && Flags(selectors[i], users)
  }

  /** The flags of one station after one more rating. */
  function Marked(selector: Selector, rating: Rating): Selector {
    match rating
    case Good => selector.(partialGood := true)
    case Bad => selector.(bad := true, pureGood := false)
    case Neutral => selector.(pureGood := false)
  }

  lemma MarkedFlags(selector: Selector, users: set<User>, user: User)
    requires Flags(selector, users)
    ensures Flags(Marked(selector, Rates(user, selector.station)), users + {user})
    ensures Marked(selector, Rates(user, selector.station)).station == selector.station
  {
    hide Rates;
    var s := selector.station;
    assert user in users + {user};
    assert SomeLike(users + {user}, s) <==> SomeLike(users, s) || Rates(user, s) == Good;
    assert SomeHate(users + {user}, s) <==> SomeHate(users, s) || Rates(user, s) == Bad;
    assert AllLike(users + {user}, s) <==> AllLike(users, s) && Rates(user, s) == Good;
  }

  /** apply_station_ratings */
  method ApplyStationRatings(user: User, selectors: array<Selector>, ghost stations: seq<string>, ghost users: set<User>)
    requires Sorted(user.records) && AllFlags(selectors[..], stations, users)
    modifies selectors
    ensures AllFlags(selectors[..], stations, if user.influence then users + {user} else users)
  {
    if !user.influence {
      return;
    }
    FlagsAt(selectors, stations, users);
    hide *;
    var i := 0;
    while i < selectors.Length
      invariant i <= selectors.Length
      invariant forall k :: 0 <= k < selectors.Length ==> selectors[k].station == stations[k]
      invariant forall k :: 0 <= k < i ==> Flags(selectors[k], users + {user})
      invariant forall k :: i <= k < selectors.Length ==> Flags(selectors[k], users)
    {
      MarkedFlags(selectors[i], users, user);
      RatesRead(user, selectors[i].station);
      selectors[i] := Marked(selectors[i], GetRating(user.records, selectors[i].station));
      i := i + 1;
    }
    AllFlagsAre(selectors, stations, users + {user});
  }

  lemma FlagsAt(selectors: array<Selector>, stations: seq<string>, users: set<User>)
    requires AllFlags(selectors[..], stations, users)
    ensures |stations| == selectors.Length
    ensures forall k :: 0 <= k < selectors.Length ==> selectors[k].station == stations[k] && Flags(selectors[k], users)
  {
    hide Flags;
    assert forall k :: 0 <= k < selectors.Length ==> selectors[..][k] == selectors[k];
  }

  lemma AllFlagsAre(selectors: array<Selector>, stations: seq<string>, users: set<User>)
    requires |stations| == selectors.Length
    requires forall k :: 0 <= k < selectors.Length ==> selectors[k].station == stations[k] && Flags(selectors[k], users)
    ensures AllFlags(selectors[..], stations, users)
  {
    hide Flags;
  }

  /** tune_based_on_logins. The iterator starts with the last connection and leaves out those that are
      not yet open; those that are closing do not count. */
  method TuneBasedOnLogins(sessions: seq<Session>, selectors: array<Selector>, ghost stations: seq<string>, ghost users: set<User>)
    returns (anyoneListening: bool)
    requires SessionsInOrder(sessions) && AllFlags(selectors[..], stations, users)
    modifies selectors
    ensures AllFlags(selectors[..], stations, users + LoggedIn(sessions))
    ensures anyoneListening <==> SomeOpen(sessions)
  {
    hide AllFlags;
    anyoneListening := false;
    var iteration := |sessions|;
    assert sessions[iteration..] == [] && users + LoggedIn([]) == users;
    while iteration > 0
      invariant iteration <= |sessions|
      invariant AllFlags(selectors[..], stations, users + LoggedIn(sessions[iteration..]))
      invariant anyoneListening <==> SomeOpen(sessions[iteration..])
    {
      iteration := iteration - 1;
      var session := sessions[iteration];
      OneMoreSession(session, sessions[iteration + 1..]);
      assert sessions[iteration..] == [session] + sessions[iteration + 1..];
      if session.state == Open {
        anyoneListening := true;
        if session.user.Some? {
          ghost var before := users + LoggedIn(sessions[iteration + 1..]);
          ApplyStationRatings(session.user.value, selectors, stations, before);
          assert users + LoggedIn(sessions[iteration..])
              == if session.user.value.influence then before + {session.user.value} else before;
        }
      }
    }
    assert sessions[iteration..] == sessions;
  }

  lemma OneMoreSession(session: Session, rest: seq<Session>)
    ensures SomeOpen([session] + rest) <==> session.state == Open || SomeOpen(rest)
    ensures LoggedIn([session] + rest)
         == if session.state == Open && session.user.Some? && session.user.value.influence
            then LoggedIn(rest) + {session.user.value} else LoggedIn(rest)
  {
    assert forall s :: s in [session] + rest <==> s == session || s in rest;
  }

  /** tune_based_on_attribute */
  method TuneBasedOnAttribute(everyone: seq<User>, selectors: array<Selector>, ghost stations: seq<string>, ghost users: set<User>)
    returns (anyoneListening: bool)
    requires InOrder(everyone) && AllFlags(selectors[..], stations, users)
    modifies selectors
    ensures AllFlags(selectors[..], stations, users + Present(everyone))
    ensures anyoneListening <==> SomePresent(everyone)
  {
    hide AllFlags;
    anyoneListening := false;
    var i := 0;
    assert users + Present([]) == users;
    while i < |everyone|
      invariant i <= |everyone|
      invariant AllFlags(selectors[..], stations, users + Present(everyone[..i]))
      invariant anyoneListening <==> SomePresent(everyone[..i])
    {
      OneMoreUser(everyone[..i], everyone[i]);
      assert everyone[..i + 1] == everyone[..i] + [everyone[i]];
      if everyone[i].present {
        anyoneListening := true;
        ghost var before := users + Present(everyone[..i]);
        ApplyStationRatings(everyone[i], selectors, stations, before);
        assert users + Present(everyone[..i + 1]) == if everyone[i].influence then before + {everyone[i]} else before;
      }
      i := i + 1;
    }
    assert everyone[..i] == everyone;
  }

  lemma OneMoreUser(some: seq<User>, user: User)
    ensures SomePresent(some + [user]) <==> user.present || SomePresent(some)
    ensures Present(some + [user]) == if user.present && user.influence then Present(some) + {user} else Present(some)
  {
    assert forall u :: u in some + [user] <==> u == user || u in some;
  }

  /** Whether a station is in, going by its flags. */
  function Included(selector: Selector, algorithm: nat): bool {
    if algorithm == 1 then selector.pureGood
    else if algorithm == 2 then selector.partialGood && !selector.bad
    else !selector.bad
  }

  lemma IncludedSuits(selector: Selector, users: set<User>, algorithm: nat)
    requires Flags(selector, users)
    ensures Included(selector, algorithm) <==> Suits(users, selector.station, algorithm)
    ensures Flags(selector.(included := Included(selector, algorithm)), users)
  {
  }

  /** The inner loop over the algorithms in recompute_stations. */
  method TryAlgorithm(algorithm: nat, selectors: array<Selector>, ghost stations: seq<string>, ghost users: set<User>)
    returns (found: bool)
    requires AllFlags(selectors[..], stations, users)
    modifies selectors
    ensures AllFlags(selectors[..], stations, users)
    ensures forall i :: 0 <= i < |stations| ==> (selectors[i].included <==> Suits(users, stations[i], algorithm))
    ensures found <==> SomeSuit(users, stations, algorithm)
  {
    hide Flags, Suits;
    found := false;
    var i := 0;
    while i < selectors.Length
      invariant i <= selectors.Length
      invariant forall k :: 0 <= k < selectors.Length ==> selectors[k].station == stations[k] && Flags(selectors[k], users)
      invariant forall k :: 0 <= k < i ==> (selectors[k].included <==> Suits(users, stations[k], algorithm))
      invariant found <==> exists k :: 0 <= k < i && selectors[k].included
    {
      IncludedSuits(selectors[i], users, algorithm);
      selectors[i] := selectors[i].(included := Included(selectors[i], algorithm));
      if selectors[i].included {
        found := true;
      }
      i := i + 1;
    }
    if found {
      var k :| 0 <= k < i && selectors[k].included;
      assert stations[k] in stations;
    }
  }

  /** The loop over the algorithms: it ends at the first that finds something, or after one turn when
      there are results already. */
  method Choose(hadResults: bool, selectors: array<Selector>, ghost stations: seq<string>, ghost users: set<User>)
    returns (algorithm: nat, found: bool)
    requires AllFlags(selectors[..], stations, users)
    modifies selectors
    ensures AllFlags(selectors[..], stations, users)
    ensures 1 <= algorithm <= 4 && (found <==> hadResults || algorithm <= 3)
    ensures !hadResults ==> algorithm == Choice(users, stations)
    ensures !hadResults && found ==>
              forall i :: 0 <= i < |stations| ==> (selectors[i].included <==> Suits(users, stations[i], algorithm))
  {
    hide AllFlags, Suits, SomeSuit;
    found := hadResults;
    algorithm := 1;
    while algorithm <= 3
      invariant 1 <= algorithm <= 4 && (found <==> hadResults) && (hadResults ==> algorithm == 1)
      invariant forall a :: 1 <= a < algorithm ==> !SomeSuit(users, stations, a)
      invariant AllFlags(selectors[..], stations, users)
    {
      var some := TryAlgorithm(algorithm, selectors, stations, users);
      found := found || some;
      if found {
        break;
      }
      algorithm := algorithm + 1;
    }
    ChoiceIsFirst(users, stations, algorithm);
  }

  lemma ChoiceIsFirst(users: set<User>, stations: seq<string>, algorithm: nat)
    requires 1 <= algorithm <= 4
    requires forall a :: 1 <= a < algorithm ==> !SomeSuit(users, stations, a)
    ensures algorithm == 4 || SomeSuit(users, stations, algorithm) ==> algorithm == Choice(users, stations)
  {
    hide SomeSuit;
    assert algorithm > 1 ==> !SomeSuit(users, stations, 1);
    assert algorithm > 2 ==> !SomeSuit(users, stations, 2);
    assert algorithm > 3 ==> !SomeSuit(users, stations, 3);
  }

  // ---------------------------------------------------------------- the autotuner

  /** Settings: which of TUNE_ON_LOGINS and TUNE_ON_ATTRIBUTE are on. */
  datatype Mode = Mode(onLogins: bool, onAttribute: bool)

  ghost function Influencing(mode: Mode, sessions: seq<Session>, everyone: seq<User>): set<User> {
    (if mode.onLogins then LoggedIn(sessions) else {}) + (if mode.onAttribute then Present(everyone) else {})
  }

  predicate Listening(mode: Mode, sessions: seq<Session>, everyone: seq<User>) {
    (mode.onLogins && SomeOpen(sessions)) || (mode.onAttribute && SomePresent(everyone))
  }

  function Ids(stations: seq<Station>): (r: seq<string>)
    ensures |r| == |stations|
  {
    seq(|stations|, i requires 0 <= i < |stations| => stations[i].id)
  }

  /** The same stations, with exactly those in the mix that suit. */
  ghost predicate Tuned(was: seq<Station>, now: seq<Station>, users: set<User>, algorithm: nat) {
    && |now| == |was|
    && forall i :: 0 <= i < |was| ==> now[i].id == was[i].id && (now[i].useQuickMix <==> Suits(users, was[i].id, algorithm))
  }

  class Autotuner {
    var automatic: bool
    var mode: Mode
    /** station_computation_had_results and station_computation_has_listeners */
    var hadResults: bool
    var hasListeners: bool

    constructor (automatic: bool, mode: Mode)
      ensures this.automatic == automatic && this.mode == mode && !hadResults && !hasListeners
    {
      this.automatic, this.mode, hadResults, hasListeners := automatic, mode, false, false;
    }

    /** The flags of all stations after both ways of tuning. */
    method CollectRatings(sessions: seq<Session>, everyone: seq<User>, selectors: array<Selector>, ghost stations: seq<string>)
      requires SessionsInOrder(sessions) && InOrder(everyone) && AllFlags(selectors[..], stations, {})
      modifies this`hasListeners, selectors
      ensures AllFlags(selectors[..], stations, Influencing(mode, sessions, everyone))
      ensures hasListeners <==> Listening(mode, sessions, everyone)
    {
      hide AllFlags, SomeOpen, SomePresent, LoggedIn, Present;
      hasListeners := false;
      ghost var users: set<User> := {};
      if mode.onLogins {
        var anyone := TuneBasedOnLogins(sessions, selectors, stations, users);
        hasListeners := anyone || hasListeners;
        users := users + LoggedIn(sessions);
      }
      if mode.onAttribute {
        var anyone := TuneBasedOnAttribute(everyone, selectors, stations, users);
        hasListeners := anyone || hasListeners;
        users := users + Present(everyone);
      }
      assert users == Influencing(mode, sessions, everyone);
    }

    /** Copies the outcome into the stations. */
    method CopyMix(stations: array<Station>, selectors: array<Selector>) returns (changed: bool)
      requires stations.Length == selectors.Length
      modifies stations
      ensures forall i :: 0 <= i < stations.Length ==> stations[i] == Station(old(stations[i].id), selectors[i].included)
      ensures changed <==> stations[..] != old(stations[..])
    {
      changed := false;
      var i := 0;
      while i < stations.Length
        invariant i <= stations.Length
        invariant forall k :: 0 <= k < i ==> stations[k] == Station(old(stations[k].id), selectors[k].included)
        invariant forall k :: i <= k < stations.Length ==> stations[k] == old(stations[k])
        invariant changed <==> exists k :: 0 <= k < i && stations[k] != old(stations[k])
        modifies stations
      {
        if stations[i].useQuickMix != selectors[i].included {
          changed := true;
          stations[i] := Station(stations[i].id, selectors[i].included);
        }
        i := i + 1;
      }
      if changed {
        ghost var k :| 0 <= k < i && stations[k] != old(stations[k]);
        assert stations[..][k] != old(stations[..])[k];
      }
    }

    /** recompute_stations */
    method RecomputeStations(sessions: seq<Session>, everyone: seq<User>, stations: array<Station>)
      returns (changed: bool, algorithm: nat)
      requires SessionsInOrder(sessions) && InOrder(everyone)
      modifies this`hadResults, this`hasListeners, stations
      ensures !automatic || stations.Length == 0 ==>
                unchanged(this) && stations[..] == old(stations[..]) && !changed
      ensures automatic && stations.Length > 0 ==>
                && (hasListeners <==> Listening(mode, sessions, everyone))
                && var users, ids := Influencing(mode, sessions, everyone), Ids(old(stations[..]));
                   if !hasListeners then hadResults && stations[..] == old(stations[..])
                   else if Choice(users, ids) == 4 then !hadResults && stations[..] == old(stations[..])
                   else hadResults && Tuned(old(stations[..]), stations[..], users, Choice(users, ids))
      ensures changed <==> stations[..] != old(stations[..])
    {
      changed, algorithm := false, 0;
      if !automatic || stations.Length == 0 {
        return;
      }
      ghost var ids := Ids(stations[..]);
      var selectors := new Selector[stations.Length](i requires 0 <= i < stations.Length reads stations =>
                                                       Selector(stations[i].id, true, false, false, false));
      assert AllFlags(selectors[..], ids, {});
      hide AllFlags, Choice, Suits, Influencing, Listening;
      CollectRatings(sessions, everyone, selectors, ids);
      hadResults := !hasListeners;
      algorithm, hadResults := Choose(hadResults, selectors, ids, Influencing(mode, sessions, everyone));
      if hadResults && hasListeners {
        changed := CopyMix(stations, selectors);
      }
    }

    /** computed_stations_is_empty_set */
    predicate ComputedStationsIsEmptySet()
      reads this
    {
      !hadResults || !hasListeners
    }
  }
}
