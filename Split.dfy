/**
  The ride-cost split form: the total amount and the list of participants the
  component holds as state, the handlers that add, remove and edit
  participants, and the guard before payment requests are sent.
*/
module Split {

  /** One participant row. */
  datatype Participant = Participant(id: int, name: string, email: string, share: real)

  /** The row `addParticipant` appends, keyed by the current time `now`. */
  function BlankParticipant(now: int): Participant {
    Participant(now, "", "", 0.0)
  }

  /** `[...participants, { id: now, name: "", email: "", share: 0 }]`. */
  function WithBlank(participants: seq<Participant>, now: int): (r: seq<Participant>)
    ensures |r| == |participants| + 1
    ensures r[..|participants|] == participants
    ensures r[|participants|].name == "" && r[|participants|].email == ""
    ensures r[|participants|].share == 0.0 && r[|participants|].id == now
  {
    participants + [BlankParticipant(now)]
  }

  /** `participants.filter(p => p.id !== id)`. */
  function WithoutId(participants: seq<Participant>, id: int): (r: seq<Participant>)
    ensures |r| <= |participants|
  {
    if participants == [] then []
    else (if participants[0].id != id then [participants[0]] else []) + WithoutId(participants[1..], id)
  }

  /** `removeParticipant(id)`: the filtered list, but only when there is more than one entry. */
  function AfterRemove(participants: seq<Participant>, id: int): (r: seq<Participant>)
    ensures |r| <= |participants|
    ensures forall p :: p in r ==> p in participants
    ensures |participants| > 1 ==> forall i :: 0 <= i < |r| ==> r[i].id != id
  {
    WithoutIdSpec(participants, id);
    if |participants| > 1 then WithoutId(participants, id) else participants
  }

  /** Removing by id keeps exactly the entries with a different id. */
  lemma {:induction false} WithoutIdSpec(participants: seq<Participant>, id: int)
    ensures forall p :: p in WithoutId(participants, id) <==> p in participants && p.id != id
  {
    if participants != [] {
      WithoutIdSpec(participants[1..], id);
      assert participants == [participants[0]] + participants[1..];
    }
  }

  /**
    Filtering a list made of two parts filters each part and keeps them in
    that order, so the entries that survive keep their original order.
  */
  lemma {:induction false} WithoutIdAppend(xs: seq<Participant>, ys: seq<Participant>, id: int)
    ensures WithoutId(xs + ys, id) == WithoutId(xs, id) + WithoutId(ys, id)
  {
    if xs == [] {
      assert xs + ys == ys;
    } else {
      var head := if xs[0].id != id then [xs[0]] else [];
      assert (xs + ys)[0] == xs[0];
      assert (xs + ys)[1..] == xs[1..] + ys;
      assert WithoutId(xs + ys, id) == head + WithoutId(xs[1..] + ys, id);
      WithoutIdAppend(xs[1..], ys, id);
      assert WithoutId(xs, id) == head + WithoutId(xs[1..], id);
      assert head + (WithoutId(xs[1..], id) + WithoutId(ys, id))
          == (head + WithoutId(xs[1..], id)) + WithoutId(ys, id);
    }
  }

  /** No two participants share an id. */
  ghost predicate UniqueIds(participants: seq<Participant>) {
    forall i, j :: 0 <= i < j < |participants| ==> participants[i].id != participants[j].id
  }

  /** With unique ids, removing by id drops at most one entry. */
  lemma {:induction false} WithoutUniqueIdDropsAtMostOne(participants: seq<Participant>, id: int)
    requires UniqueIds(participants)
    ensures |WithoutId(participants, id)| >= |participants| - 1
  {
    if participants != [] {
      if participants[0].id == id {
        WithoutIdKeepsOthers(participants[1..], id);
      } else {
        WithoutUniqueIdDropsAtMostOne(participants[1..], id);
      }
    }
  }

  /** Removing an id that no entry has changes nothing. */
  lemma {:induction false} WithoutIdKeepsOthers(participants: seq<Participant>, id: int)
    requires forall i :: 0 <= i < |participants| ==> participants[i].id != id
    ensures WithoutId(participants, id) == participants
  {
    if participants != [] {
      WithoutIdKeepsOthers(participants[1..], id);
    }
  }

  /**
    `removeParticipant` leaves a list of at most one entry alone, and otherwise
    drops the entries with the given id. With unique ids it never empties the
    list.
  */
  lemma AfterRemoveSpec(participants: seq<Participant>, id: int)
    ensures |participants| <= 1 ==> AfterRemove(participants, id) == participants
    ensures |participants| > 1 ==>
              forall p :: p in AfterRemove(participants, id) <==> p in participants && p.id != id
    ensures UniqueIds(participants) && |participants| >= 1 ==> |AfterRemove(participants, id)| >= 1
  {
    WithoutIdSpec(participants, id);
    if UniqueIds(participants) {
      WithoutUniqueIdDropsAtMostOne(participants, id);
    }
  }

  /**
    Ids come from the clock, so two rows added within the same millisecond
    share one; removing that id then empties the list.
  */
  lemma DuplicateIdsCanEmptyTheList()
    ensures AfterRemove([BlankParticipant(7), BlankParticipant(7)], 7) == []
  {
  }

  /** Filtering keeps ids unique. */
  lemma {:induction false} WithoutIdKeepsUniqueIds(participants: seq<Participant>, id: int)
    requires UniqueIds(participants)
    ensures UniqueIds(WithoutId(participants, id))
  {
    if participants != [] {
      var tail := WithoutId(participants[1..], id);
      WithoutIdKeepsUniqueIds(participants[1..], id);
      WithoutIdSpec(participants[1..], id);
      if participants[0].id != id {
        var r := [participants[0]] + tail;
        forall i, j | 0 <= i < j < |r| ensures r[i].id != r[j].id {
          assert r[j] == tail[j - 1] && r[j] in participants[1..];
          if i > 0 {
            assert r[i] == tail[i - 1];
          }
        }
      }
    }
  }

  /** Appending a row whose id is new keeps ids unique. */
  lemma WithBlankKeepsUniqueIds(participants: seq<Participant>, now: int)
    requires UniqueIds(participants)
    requires forall i :: 0 <= i < |participants| ==> participants[i].id != now
    ensures UniqueIds(WithBlank(participants, now))
  {
  }

  /**
    Removing a row just added under an id nobody else has gives back the list
    as it was before the add (the only row is never removed, so the list must
    not have been empty).
  */
  lemma RemoveUndoesAdd(participants: seq<Participant>, now: int)
    requires |participants| >= 1
    requires forall i :: 0 <= i < |participants| ==> participants[i].id != now
    ensures AfterRemove(WithBlank(participants, now), now) == participants
  {
    WithoutIdAppend(participants, [BlankParticipant(now)], now);
    WithoutIdKeepsOthers(participants, now);
    assert WithoutId([BlankParticipant(now)], now) == [];
  }

  /** Sets the `name` of the entry at `index`. */
  function SetNameAt(participants: seq<Participant>, index: nat, name: string): (r: seq<Participant>)
    requires index < |participants|
    ensures |r| == |participants|
    ensures forall j :: 0 <= j < |r| && j != index ==> r[j] == participants[j]
    ensures r[index].name == name
    ensures r[index].id == participants[index].id && r[index].email == participants[index].email
    ensures r[index].share == participants[index].share
  {
    participants[index := participants[index].(name := name)]
  }

  /** Sets the `email` of the entry at `index`. */
  function SetEmailAt(participants: seq<Participant>, index: nat, email: string): (r: seq<Participant>)
    requires index < |participants|
    ensures |r| == |participants|
    ensures forall j :: 0 <= j < |r| && j != index ==> r[j] == participants[j]
    ensures r[index].email == email
    ensures r[index].id == participants[index].id && r[index].name == participants[index].name
    ensures r[index].share == participants[index].share
  {
    participants[index := participants[index].(email := email)]
  }

  /** Editing a row's name or email keeps every id where it was. */
  lemma EditsKeepUniqueIds(participants: seq<Participant>, index: nat, text: string)
    requires index < |participants| && UniqueIds(participants)
    ensures UniqueIds(SetNameAt(participants, index, text))
    ensures UniqueIds(SetEmailAt(participants, index, text))
  {
  }

  /** `participants.some((p) => !p.email)`, scanning from the front. */
  predicate SomeMissingEmail(participants: seq<Participant>)
    ensures SomeMissingEmail(participants) <==> exists i :: 0 <= i < |participants| && participants[i].email == ""
  {
    participants != [] && (participants[0].email == "" || SomeMissingEmail(participants[1..]))
  }

  /**
    The guard of `handleSendRequest`, `!(!totalAmount || participants.some((p) => !p.email))`:
    a non-empty total and an email for every participant.
  */
  predicate ReadyToSend(totalAmount: string, participants: seq<Participant>)
    ensures ReadyToSend(totalAmount, participants) <==>
            totalAmount != "" && forall i :: 0 <= i < |participants| ==> participants[i].email != ""
  {
    totalAmount != "" && !SomeMissingEmail(participants)
  }

  /**
    A row just added has no email, so requests cannot be sent until it is
    filled in; filling in a non-empty email for each blank row lets them go out.
  */
  lemma BlankRowBlocksSending(totalAmount: string, participants: seq<Participant>, now: int)
    ensures !ReadyToSend(totalAmount, WithBlank(participants, now))
    ensures ReadyToSend(totalAmount, participants) ==>
              forall email :: email != "" ==>
                ReadyToSend(totalAmount, SetEmailAt(WithBlank(participants, now), |participants|, email))
  {
    var added := WithBlank(participants, now);
    assert added[|participants|].email == "";
  }

  /** The split form's state. */
  class SplitForm {
    var totalAmount: string
    var participants: seq<Participant>

    /**
      The form invariant: there is always at least one row, and no two rows
      share an id.
    */
    ghost predicate Valid()
      reads this
    {
      |participants| >= 1 && UniqueIds(participants)
    }

    /** The initial state: a total of "50.00" and the current user alone. */
    constructor ()
      ensures Valid()
      ensures totalAmount == "50.00"
      ensures participants == [Participant(1, "You", "you@example.com", 0.0)]
    {
      totalAmount := "50.00";
      participants := [Participant(1, "You", "you@example.com", 0.0)];
    }

    /** The total-amount field's change handler. */
    method SetTotalAmount(value: string)
      modifies this
      ensures old(Valid()) ==> Valid()
      ensures totalAmount == value && participants == old(participants)
    {
      totalAmount := value;
    }

    /**
      `addParticipant`, with `Date.now()` passed in as `now`. The invariant is
      kept when the clock has moved on since every earlier row was added.
    */
    method AddParticipant(now: int)
      modifies this
      ensures old(Valid()) && (forall i :: 0 <= i < |old(participants)| ==> old(participants)[i].id != now) ==> Valid()
      ensures participants == WithBlank(old(participants), now)
      ensures totalAmount == old(totalAmount)
    {
      if Valid() && forall i :: 0 <= i < |participants| ==> participants[i].id != now {
        WithBlankKeepsUniqueIds(participants, now);
      }
      participants := WithBlank(participants, now);
    }

    /** `removeParticipant(id)`. */
    method RemoveParticipant(id: int)
      modifies this
      ensures old(Valid()) ==> Valid()
      ensures participants == AfterRemove(old(participants), id)
      ensures totalAmount == old(totalAmount)
    {
      if Valid() {
        AfterRemoveSpec(participants, id);
        WithoutIdKeepsUniqueIds(participants, id);
      }
      if |participants| > 1 {
        participants := WithoutId(participants, id);
      }
    }

    /** The name field's change handler for the row at `index`; the first row's field is disabled. */
    method EditName(index: nat, name: string)
      requires 0 < index < |participants|
      modifies this
      ensures old(Valid()) ==> Valid()
      ensures participants == SetNameAt(old(participants), index, name)
      ensures totalAmount == old(totalAmount)
    {
      if Valid() {
        EditsKeepUniqueIds(participants, index, name);
      }
      var updated := participants;
      updated := updated[index := updated[index].(name := name)];
      participants := updated;
    }

    /** The email field's change handler for the row at `index`; the first row's field is disabled. */
    method EditEmail(index: nat, email: string)
      requires 0 < index < |participants|
      modifies this
      ensures old(Valid()) ==> Valid()
      ensures participants == SetEmailAt(old(participants), index, email)
      ensures totalAmount == old(totalAmount)
    {
      if Valid() {
        EditsKeepUniqueIds(participants, index, email);
      }
      var updated := participants;
      updated := updated[index := updated[index].(email := email)];
      participants := updated;
    }

    /**
      `handleSendRequest`: the requests go out unless the total is empty or some
      participant has no email.
    */
    method HandleSendRequest() returns (sent: bool)
      ensures sent == ReadyToSend(totalAmount, participants)
    {
      if totalAmount == "" {
        return false;
      }
      var i := 0;
      while i < |participants|
        invariant 0 <= i <= |participants|
        invariant forall j :: 0 <= j < i ==> participants[j].email != ""
      {
        if participants[i].email == "" {
          return false;
        }
        i := i + 1;
      }
      return true;
    }
  }
}
