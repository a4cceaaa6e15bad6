/**
  The `rides` collection behind the `ride-matching` edge function, held in
  memory, and the four actions that use it: CREATE_RIDE inserts an active
  ride, DELETE_RIDE soft-deletes one by setting its status, GET_USER_RIDES
  lists a user's active rides newest first, and GET_MATCHED_RIDES runs the
  matching pipeline over the active rides.
*/
module RideStore {
  import opened Wrappers
  import opened RideMatching
  import StableSort

  /** The owner recorded when CREATE_RIDE is called without a user. */
  const AnonymousUser: string := "anonymous"

  /** The `ride` body of a CREATE_RIDE request. */
  datatype RideRequest = RideRequest(
    pickup: Option<string>,
    dropoff: Option<string>,
    location: Option<string>,
    details: map<string, string>)

  /**
    The document CREATE_RIDE inserts: the request's fields, the caller as owner
    (or "anonymous" when there is none), the creation time, status "active",
    and the `_id` the insert assigns.
  */
  function NewRideDoc(request: RideRequest, userId: string, now: int, oid: ObjectId): (r: Ride)
    ensures r.status == Active
    ensures r.userId == if userId == "" then AnonymousUser else userId
    ensures r.userId != ""
    ensures r.oid == oid && r.createdAt == now
    ensures r.pickup == request.pickup && r.dropoff == request.dropoff
    ensures r.location == request.location && r.details == request.details
  {
    Ride(oid, if userId == "" then AnonymousUser else userId,
         request.pickup, request.dropoff, request.location, Active, now, request.details)
  }

  /** No two rides share an `_id`. */
  ghost predicate UniqueIds(rides: seq<Ride>) {
    forall i, j :: 0 <= i < j < |rides| ==> rides[i].oid != rides[j].oid
  }

  /**
    `updateOne({ _id: rideId }, { $set: { status: 'deleted' } })`: the first
    ride with that `_id` gets status "deleted"; nothing happens when there is none.
  */
  function MarkDeleted(rides: seq<Ride>, rideId: ObjectId): (r: seq<Ride>)
    ensures |r| == |rides|
    ensures forall i :: 0 <= i < |rides| ==>
              r[i] == rides[i] || (rides[i].oid == rideId && r[i] == rides[i].(status := Deleted))
  {
    if rides == [] then []
    else if rides[0].oid == rideId then [rides[0].(status := Deleted)] + rides[1..]
    else [rides[0]] + MarkDeleted(rides[1..], rideId)
  }

  /**
    DELETE_RIDE changes nothing but the status of rides with the given `_id`:
    the collection keeps its length and order, other rides are untouched, and
    when ids are unique the ride with that id is the one marked deleted.
  */
  lemma {:induction false} MarkDeletedSpec(rides: seq<Ride>, rideId: ObjectId)
    ensures forall i :: 0 <= i < |rides| && rides[i].oid != rideId ==> MarkDeleted(rides, rideId)[i] == rides[i]
    ensures UniqueIds(rides) ==>
              forall i :: 0 <= i < |rides| && rides[i].oid == rideId ==>
                MarkDeleted(rides, rideId)[i] == rides[i].(status := Deleted)
  {
    if rides != [] {
      var r := MarkDeleted(rides, rideId);
      if rides[0].oid == rideId {
        assert r == [rides[0].(status := Deleted)] + rides[1..];
        assert r[0] == rides[0].(status := Deleted);
        assert forall i :: 0 < i < |rides| ==> r[i] == rides[i];
      } else {
        MarkDeletedSpec(rides[1..], rideId);
        assert r == [rides[0]] + MarkDeleted(rides[1..], rideId);
        assert r[0] == rides[0];
        assert forall i :: 0 < i < |rides| ==> r[i] == MarkDeleted(rides[1..], rideId)[i - 1];
      }
    }
  }

  /** When ids are unique, no ride with a deleted id is left active. */
  lemma DeletedRideIsInactive(rides: seq<Ride>, rideId: ObjectId)
    requires UniqueIds(rides)
    ensures forall r :: r in MarkDeleted(rides, rideId) && r.oid == rideId ==> r.status != Active
  {
    MarkDeletedSpec(rides, rideId);
    var after := MarkDeleted(rides, rideId);
    forall r | r in after && r.oid == rideId ensures r.status != Active {
      var i :| 0 <= i < |after| && after[i] == r;
      assert rides[i].oid == rideId;
    }
  }

  /** The ride just deleted does not appear in GET_MATCHED_RIDES on the collection after the delete. */
  lemma DeletedRideIsNotMatched(rides: seq<Ride>, rideId: ObjectId, query: RideQuery,
                                  lower: string -> string, haversine: (LatLng, LatLng) -> real)
    requires UniqueIds(rides)
    ensures forall s :: s in MatchedRides(query, MarkDeleted(rides, rideId), lower, haversine) ==>
                        s.Id() != rideId
  {
    DeletedRideIsInactive(rides, rideId);
    MatchedRidesSpec(query, MarkDeleted(rides, rideId), lower, haversine);
  }

  /** The sort key of GET_USER_RIDES: `sort({ createdAt: -1 })`. */
  function CreatedAtOf(r: Ride): real {
    r.createdAt as real
  }

  /** `find({ userId, status: 'active' })`: the user's active rides, in store order. */
  function ActiveRidesOf(rides: seq<Ride>, userId: string): (listed: seq<Ride>)
    ensures |listed| <= |rides|
    ensures forall i :: 0 <= i < |listed| ==> listed[i].userId == userId && listed[i].status == Active
  {
    if rides == [] then []
    else (if rides[0].userId == userId && rides[0].status == Active then [rides[0]] else [])
         + ActiveRidesOf(rides[1..], userId)
  }

  /** GET_USER_RIDES: the user's active rides, newest first. */
  function UserRides(rides: seq<Ride>, userId: string): (listed: seq<Ride>)
    ensures |listed| == |ActiveRidesOf(rides, userId)|
  {
    StableSort.SortDesc(ActiveRidesOf(rides, userId), CreatedAtOf)
  }

  lemma {:induction false} ActiveRidesOfSpec(rides: seq<Ride>, userId: string)
    ensures forall r :: r in ActiveRidesOf(rides, userId) <==>
                        r in rides && r.userId == userId && r.status == Active
  {
    if rides != [] {
      ActiveRidesOfSpec(rides[1..], userId);
      assert rides == [rides[0]] + rides[1..];
    }
  }

  /**
    GET_USER_RIDES returns exactly the user's active rides, each once per
    stored copy, with no ride created earlier listed before a later one.
  */
  lemma UserRidesSpec(rides: seq<Ride>, userId: string)
    ensures forall r :: r in UserRides(rides, userId) <==> r in rides && r.userId == userId && r.status == Active
    ensures multiset(UserRides(rides, userId)) == multiset(ActiveRidesOf(rides, userId))
    ensures forall i, j :: 0 <= i < j < |UserRides(rides, userId)| ==>
              UserRides(rides, userId)[i].createdAt >= UserRides(rides, userId)[j].createdAt
  {
    var listed := ActiveRidesOf(rides, userId);
    ActiveRidesOfSpec(rides, userId);
    StableSort.SortDescSpec(listed, CreatedAtOf);
    var out := UserRides(rides, userId);
    forall r ensures r in out <==> r in listed {
      assert r in out <==> r in multiset(out);
      assert r in listed <==> r in multiset(listed);
    }
    forall i, j | 0 <= i < j < |out| ensures out[i].createdAt >= out[j].createdAt {
      assert CreatedAtOf(out[i]) >= CreatedAtOf(out[j]);
    }
  }

  /** The ride just deleted does not appear in GET_USER_RIDES on the collection after the delete. */
  lemma DeletedRideIsNotListed(rides: seq<Ride>, rideId: ObjectId, userId: string)
    requires UniqueIds(rides)
    ensures forall r :: r in UserRides(MarkDeleted(rides, rideId), userId) ==> r.oid != rideId
  {
    DeletedRideIsInactive(rides, rideId);
    UserRidesSpec(MarkDeleted(rides, rideId), userId);
  }

  /** A ride just created is listed for its owner and open for matching. */
  lemma CreatedRideIsListed(rides: seq<Ride>, request: RideRequest, userId: string, now: int, oid: ObjectId)
    ensures NewRideDoc(request, userId, now, oid) in UserRides(rides + [NewRideDoc(request, userId, now, oid)],
                                                              NewRideDoc(request, userId, now, oid).userId)
    ensures NewRideDoc(request, userId, now, oid) in ActiveRides(rides + [NewRideDoc(request, userId, now, oid)])
  {
    var doc := NewRideDoc(request, userId, now, oid);
    UserRidesSpec(rides + [doc], doc.userId);
    ActiveRidesSpec(rides + [doc]);
  }

  /**
    The collection invariant: every `_id` is below the next one to assign, no
    two rides share one, and every ride whose id was deleted still carries
    status "deleted".
  */
  ghost predicate Consistent(rides: seq<Ride>, nextOid: ObjectId, deleted: set<ObjectId>) {
    && UniqueIds(rides)
    && (forall i :: 0 <= i < |rides| ==> rides[i].oid < nextOid)
    && (forall d :: d in deleted ==> d < nextOid)
    && (forall i :: 0 <= i < |rides| && rides[i].oid in deleted ==> rides[i].status == Deleted)
  }

  /** DELETE_RIDE keeps the invariant once an assigned id joins the deleted ones. */
  lemma DeleteKeepsConsistent(rides: seq<Ride>, nextOid: ObjectId, deleted: set<ObjectId>, rideId: ObjectId)
    requires Consistent(rides, nextOid, deleted)
    ensures Consistent(MarkDeleted(rides, rideId), nextOid, if rideId < nextOid then deleted + {rideId} else deleted)
  {
    MarkDeletedSpec(rides, rideId);
  }

  /**
    The ride collection, with the next `_id` the store will assign and, as
    ghost state, the ids DELETE_RIDE has been called on for existing rides.
  */
  class RideCollection {
    var rides: seq<Ride>
    var nextOid: ObjectId
    ghost var deleted: set<ObjectId>

    /**
      Every `_id` is below the next one to assign, no two rides share one, and
      every ride whose id was deleted still carries status "deleted".
    */
    ghost predicate Valid()
      reads this
    {
      Consistent(rides, nextOid, deleted)
    }

    constructor ()
      ensures Valid() && rides == [] && deleted == {}
    {
      rides := [];
      nextOid := 0;
      deleted := {};
    }

    /** CREATE_RIDE: inserts the new active ride and returns its `_id`. */
    method CreateRide(request: RideRequest, userId: string, now: int) returns (id: ObjectId)
      requires Valid()
      modifies this
      ensures Valid()
      ensures id == old(nextOid) && nextOid > id && id !in deleted
      ensures rides == old(rides) + [NewRideDoc(request, userId, now, id)]
      ensures deleted == old(deleted)
    {
      id := nextOid;
      rides := rides + [NewRideDoc(request, userId, now, id)];
      nextOid := nextOid + 1;
    }

    /**
      DELETE_RIDE: marks the ride with the given `_id` deleted; the id joins
      the deleted ones when a ride was ever created under it.
    */
    method DeleteRide(rideId: ObjectId)
      requires Valid()
      modifies this
      ensures Valid()
      ensures rides == MarkDeleted(old(rides), rideId) && nextOid == old(nextOid)
      ensures deleted == if rideId < nextOid then old(deleted) + {rideId} else old(deleted)
    {
      DeleteKeepsConsistent(rides, nextOid, deleted, rideId);
      rides := MarkDeleted(rides, rideId);
      if rideId < nextOid {
        deleted := deleted + {rideId};
      }
    }

    /**
      GET_USER_RIDES: exactly the user's active rides, newest first, each
      stored ride once, and none whose id was ever deleted.
    */
    method GetUserRides(userId: string) returns (result: seq<Ride>)
      requires Valid()
      ensures forall r :: r in result <==> r in rides && r.userId == userId && r.status == Active
      ensures multiset(result) == multiset(ActiveRidesOf(rides, userId))
      ensures forall i, j :: 0 <= i < j < |result| ==> result[i].createdAt >= result[j].createdAt
      ensures forall r :: r in result ==> r.oid !in deleted
    {
      result := UserRides(rides, userId);
      UserRidesSpec(rides, userId);
      forall r | r in result ensures r.oid !in deleted {
        var i :| 0 <= i < |rides| && rides[i] == r;
      }
    }

    /**
      GET_MATCHED_RIDES: exactly the active rides scoring above 30, best first,
      equal scores in store order, and none whose id was ever deleted.
    */
    method GetMatchedRides(query: RideQuery, lower: string -> string, haversine: (LatLng, LatLng) -> real)
      returns (result: seq<ScoredRide>)
      requires Valid()
      ensures forall s :: s in result <==>
                && s.ride in rides
                && s.ride.status == Active
                && s.matchScore == RideScore(query, s.ride, lower, haversine)
                && s.matchScore > MatchThreshold
      ensures forall s :: s in result ==> MatchThreshold < s.matchScore <= 100.0
      ensures StableSort.SortedDesc(result, MatchScoreOf)
      ensures forall k :: k > MatchThreshold ==>
                StableSort.WithKey(result, MatchScoreOf, k)
                == StableSort.WithKey(ScoreAll(query, ActiveRides(rides), lower, haversine), MatchScoreOf, k)
      ensures forall s :: s in result ==> s.Id() !in deleted
    {
      result := MatchedRides(query, rides, lower, haversine);
      MatchedRidesSpec(query, rides, lower, haversine);
      forall s | s in result ensures s.Id() !in deleted {
        var i :| 0 <= i < |rides| && rides[i] == s.ride;
      }
    }
  }
}
