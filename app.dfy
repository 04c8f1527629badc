/** The picked-places workflow of the `App` component: the state it keeps and
    the handlers that change it. Each handler is one atomic step. The select and
    remove handlers take the result of the remote call `updateUserPlaces` as a
    parameter (`Outcome`) and return the payload they send, if any. */
module Workflow {
  import opened Places
  import opened PickedPlaces

  class App {
    /** `userPlaces`: the picked list; None until the list has been loaded. */
    var userPlaces: Option<seq<Place>>
    /** `modalIsOpen`: whether the delete confirmation is showing. */
    var modalIsOpen: bool
    /** `selectedPlace.current`: the place targeted for removal. */
    var selectedPlace: Option<Place>
    /** `errorUpdatingPlaces`: the last update error, None once dismissed. */
    var errorUpdatingPlaces: Option<UpdateError>

    /** The picked list, where defined, has pairwise distinct ids. */
    predicate IdsUnique()
      reads this
    {
      userPlaces.Some? ==> UniqueIds(userPlaces.value)
    }

    /** The state on first render, with `initial` the list the fetch produced
        (None while it is still loading). */
    constructor (initial: Option<seq<Place>>)
      ensures userPlaces == initial
      ensures !modalIsOpen && selectedPlace == None && errorUpdatingPlaces == None
    {
      userPlaces := initial;
      modalIsOpen := false;
      selectedPlace := None;
      errorUpdatingPlaces := None;
    }

    /** `handleStartRemovePlace`: open the confirmation and remember the target. */
    method StartRemovePlace(place: Place)
      modifies this`modalIsOpen, this`selectedPlace
      ensures modalIsOpen && selectedPlace == Some(place)
    {
      modalIsOpen := true;
      selectedPlace := Some(place);
    }

    /** `handleStopRemovePlace`: close the confirmation; the target stays. */
    method StopRemovePlace()
      modifies this`modalIsOpen
      ensures !modalIsOpen
    {
      modalIsOpen := false;
    }

    /** `handleError`: dismiss the last update error. */
    method DismissError()
      modifies this`errorUpdatingPlaces
      ensures errorUpdatingPlaces == None
    {
      errorUpdatingPlaces := None;
    }

    /** `handleSelectPlace`: optimistically add `candidate`, send the candidate in
        front of the pre-call snapshot, and on failure restore the snapshot and
        record the error. An undefined snapshot cannot be spread into the
        payload, so nothing is sent and the step fails with a TypeError whose
        message, `typeErrorMessage`, depends on the JavaScript engine but is never
        empty, so the fallback message is not used for it. */
    method SelectPlace(candidate: Place, outcome: Outcome, typeErrorMessage: string)
      returns (sent: Option<seq<Place>>)
      requires typeErrorMessage != ""
      modifies this`userPlaces, this`errorUpdatingPlaces
      ensures sent == if old(userPlaces).None? then None
                      else Some(SelectPayload(old(userPlaces).value, candidate))
      ensures sent.Some? && outcome.Ok? ==>
                userPlaces == Some(SelectUpdater(old(userPlaces), candidate))
                && errorUpdatingPlaces == old(errorUpdatingPlaces)
      ensures sent.Some? && outcome.Fail? ==>
                userPlaces == old(userPlaces)
                && errorUpdatingPlaces == Some(UpdateError(ReportedMessage(outcome.message, SelectFallback)))
      ensures sent.None? ==>
                userPlaces == old(userPlaces)
                && errorUpdatingPlaces == Some(UpdateError(typeErrorMessage))
      ensures old(IdsUnique()) ==> IdsUnique()
    {
      var snapshot := userPlaces;
      if IdsUnique() {
        SelectKeepsIdsUnique(userPlaces, candidate);
      }
      userPlaces := Some(SelectUpdater(userPlaces, candidate));
      var failure: Option<string> := None;
      if snapshot.None? {
        sent := None;
        failure := Some(typeErrorMessage);
      } else {
        sent := Some(SelectPayload(snapshot.value, candidate));
        if outcome.Fail? {
          failure := Some(ReportedMessage(outcome.message, SelectFallback));
        }
      }
      if failure.Some? {
        userPlaces := snapshot;
        errorUpdatingPlaces := Some(UpdateError(failure.value));
      }
    }

    /** `handleRemovePlace`: optimistically filter the target's id out, send the
        same filter of the pre-call snapshot, on failure restore the snapshot and
        record the error, and close the confirmation either way. The handler is
        reached only from the confirmation opened on a place of the shown list,
        so both the target and the list are defined. */
    method RemovePlace(outcome: Outcome) returns (sent: seq<Place>)
      requires selectedPlace.Some? && userPlaces.Some?
      modifies this`userPlaces, this`errorUpdatingPlaces, this`modalIsOpen
      ensures sent == Without(old(userPlaces).value, selectedPlace.value.id)
      ensures outcome.Ok? ==>
                userPlaces == Some(sent) && errorUpdatingPlaces == old(errorUpdatingPlaces)
      ensures outcome.Fail? ==>
                userPlaces == old(userPlaces)
                && errorUpdatingPlaces == Some(UpdateError(ReportedMessage(outcome.message, DeleteFallback)))
      ensures !modalIsOpen
      ensures old(IdsUnique()) ==> IdsUnique()
    {
      var snapshot := userPlaces.value;
      var id := selectedPlace.value.id;
      if UniqueIds(snapshot) {
        RemoveKeepsIdsUnique(snapshot, id);
      }
      userPlaces := Some(Without(userPlaces.value, id));
      sent := Without(snapshot, id);
      if outcome.Fail? {
        userPlaces := Some(snapshot);
        errorUpdatingPlaces := Some(UpdateError(ReportedMessage(outcome.message, DeleteFallback)));
      }
      modalIsOpen := false;
    }
  }

  /** Picking a place twice sends a duplicate but leaves one copy on screen, and
      a reload of what was stored then holds the id twice; a rejected removal
      rolls the list back and shows the message. */
  method Scenario(x: Place, y: Place)
    requires x.id != y.id
  {
    var app := new App(Some([x]));
    var sent := app.SelectPlace(x, Ok, "userPlaces is not iterable");
    assert HasId([x], x.id);
    assert app.userPlaces == Some([x]);
    assert SelectPayload([x], x) == [x, x];
    assert sent == Some([x, x]);
    var reloaded := new App(sent);
    assert reloaded.userPlaces.value[0].id == reloaded.userPlaces.value[1].id;
    assert !reloaded.IdsUnique();

    app := new App(Some([y, x]));
    app.StartRemovePlace(y);
    var removed := app.RemovePlace(Fail(""));
    assert removed == [x];
    assert app.userPlaces == Some([y, x]);
    assert app.errorUpdatingPlaces == Some(UpdateError("Failed to delete place."));
    assert !app.modalIsOpen;
    app.DismissError();
    assert app.errorUpdatingPlaces == None;
  }
}
