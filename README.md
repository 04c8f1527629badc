# Place Picker: the picked-places workflow

This project models the workflow that maintains the user's list of picked places in the
Place Picker single-page application, and proves properties of it. The workflow lives in the
`App` component. The user picks places from a catalog. Each pick is added optimistically to
the local list and the whole new list is sent to the remote service. A place in the list can be
removed after a confirmation dialog. When the remote call fails, the list rolls back to the
snapshot taken when the handler started, and a dismissible error is stored.

The model is in three modules:

- `Places` (`places.dfy`) holds the entities. `Place` carries an id, title, image, description
  and coordinates. `Option` stands for a value that may be undefined. `Outcome` is the result
  of `updateUserPlaces`: `Ok`, or `Fail(message)` with a message that may be empty.
  `UpdateError` is the `{ message }` record in the error slot. `HasId` is the `some` membership
  test, and `UniqueIds` says that no two entries share an id.
- `PickedPlaces` (`picked_places.dfy`) holds the pure logic as functions, with the lemmas
  about them.
  - The two updaters handed to `setUserPlaces`:
    - `SelectUpdater`: add if absent, newest first, with an undefined list counted as empty.
    - `Without`: the remove filter, which also builds the remove payload.
  - The payload and message helpers:
    - `SelectPayload`: the list passed to `updateUserPlaces` on select.
    - `ReportedMessage`: `error.message || fallback`.
- `Workflow` (`app.dfy`) holds the class `App`. Its four fields are `userPlaces`,
  `modalIsOpen`, `selectedPlace` (the `selectedPlace.current` ref) and `errorUpdatingPlaces`.
  Each handler is a method that runs as one atomic step. The select and remove handlers take
  the remote outcome as a parameter and return the payload they send. Each handler's `ensures`
  ties the new state to the pure functions. The select and remove handlers also keep the
  `IdsUnique` invariant.

Two behaviours of the code are modelled as written:

- On select, the payload is not de-duplicated. The local update is de-duplicated at
  `src/App.jsx:48-49`, but the payload at `src/App.jsx:56` always puts the candidate in front
  of the pre-call snapshot. So for an id that is already present, the payload contains that id
  twice and differs from the list on screen (`SelectPayloadDuplicates`).
  - When that call succeeds, the remote service stores the list with the duplicate. The next
    time the list is fetched, two of its entries share an id.
  - So distinct ids are not an invariant of the program as a whole. `IdsUnique` is therefore
    not a class invariant. Select and remove only preserve it: they keep it when it held
    before the call.
  - The constructor accepts any fetched list, duplicates included. Removing that id later
    drops every copy of it (`WithoutCounts`).
- The local select updater treats an undefined list as empty. But the payload
  `[selectedPlace, ...userPlaces]` cannot spread an undefined list. It throws a `TypeError`
  inside the `try`, so nothing is sent. The catch restores the undefined list and stores the
  TypeError's message. That message is not empty, but its wording depends on the JavaScript
  engine, so the model passes it to `SelectPlace` as a non-empty parameter.

## Model

| member | source | states |
|---|---|---|
| `PickedPlaces.ReportedMessage` | src/App.jsx:60 | the stored message is the failure's own message when non-empty, the fallback otherwise, and never empty when the fallback is not |
| `PickedPlaces.SelectUpdater` | src/App.jsx:44-52 | the new local list contains the candidate's id, keeps every previous entry, and grows by at most one |
| `PickedPlaces.SelectPayload` | src/App.jsx:56 | the select payload has the candidate at its head and the pre-call snapshot, unchanged, as its tail |
| `PickedPlaces.Without` | src/App.jsx:68-72 | the remove filter never grows the list and leaves no entry with the target id |
| `PickedPlaces.WithoutCounts` | src/App.jsx:68-72 | an entry is in the filtered list iff it was in the list and its id differs from the target's; each such entry keeps its number of occurrences, and the others keep none |
| `PickedPlaces.SelectAlreadyPresent` | src/App.jsx:48-49 | if the candidate's id is already in the list, the local list is returned unchanged |
| `PickedPlaces.SelectNew` | src/App.jsx:51 | otherwise the new local list is the candidate followed by the previous list in its previous order |
| `PickedPlaces.SelectNoList` | src/App.jsx:45-47 | with no list yet, selecting gives exactly the one-element list |
| `PickedPlaces.SelectKeepsIdsUnique` | src/App.jsx:48-51 | if the ids were pairwise distinct before a select, they still are afterwards |
| `PickedPlaces.SelectIdempotent` | src/App.jsx:48-51 | selecting the same place a second time leaves the list as the first select made it |
| `PickedPlaces.SelectPayloadMatchesLocal` | src/App.jsx:44-56 | for a new id, the payload sent equals the new local list |
| `PickedPlaces.SelectPayloadDuplicates` | src/App.jsx:48-56 | for an id already picked, the payload differs from the local list and carries that id twice |
| `PickedPlaces.WithoutConcat` | src/App.jsx:68-72 | filtering a concatenation is the concatenation of the filtered parts, so the relative order of the kept entries is the original one |
| `PickedPlaces.WithoutAbsent` | src/App.jsx:68-72 | filtering out an id that no entry has returns the list unchanged |
| `PickedPlaces.RemovesExactlyOne` | src/App.jsx:68-78 | with distinct ids, removing the place at index k drops exactly that entry and keeps all others in order |
| `PickedPlaces.RemoveKeepsIdsUnique` | src/App.jsx:68-72 | removing keeps ids pairwise distinct |
| `PickedPlaces.SelectThenRemove` | src/App.jsx:44-72 | removing a place just selected with a new id restores the previous list (remove undoes select) |
| `PickedPlaces.RemoveThenSelect` | src/App.jsx:44-72 | with distinct ids, selecting a place just removed moves it to the front of the list |
| `Workflow.App.constructor` | src/App.jsx:14-28 | initially the modal is closed, no place is targeted, the error slot is empty and the list is what the fetch produced |
| `Workflow.App.StartRemovePlace` | src/App.jsx:31-34 | sets the modal flag and stores the target, and changes neither the list nor the error slot |
| `Workflow.App.StopRemovePlace` | src/App.jsx:37-39 | clears only the modal flag; the target, list and error slot are unchanged |
| `Workflow.App.DismissError` | src/App.jsx:92-94 | clears the error slot and changes nothing else |
| `Workflow.App.SelectPlace` | src/App.jsx:42-63 | sends the candidate in front of the snapshot. On success the list is the select updater's result. On failure the list is restored to the snapshot and the error slot holds the message or "Failed to update places.". With an undefined snapshot nothing is sent, and the error slot holds the TypeError's message, which is given and not empty. The modal flag and target are untouched, and distinct ids stay distinct |
| `Workflow.App.RemovePlace` | src/App.jsx:66-89 | sends the snapshot without the target's id. On success the list is that filtered list. On failure the list is restored to the snapshot and the error slot holds the message or "Failed to delete place.". The modal flag is false afterwards either way, the target is untouched, and distinct ids stay distinct |

## Left out

- The network calls in `src/http.js` are not modelled. `updateUserPlaces` appears only as the
  `Outcome` parameter of the select and remove handlers. The GET and PUT requests, JSON decoding and the
  `response.ok` check are left out.
- The `useFetch` hook (`src/hooks/useFetch.js`) is not part of this model. Its loading and
  error flags and its fetch lifecycle are left out. The list it delivers is the constructor's
  `initial` argument, and `setUserPlaces` is a plain assignment to the `userPlaces` field.
- The catalog side (`src/components/AvailablePlaces.jsx`) is not modelled. This covers the
  geolocation callback and the distance sort. That sort lives in `loc.js`, which is not part of
  this model, and computes floating-point distances. Coordinates are carried as reals but never
  computed on.
- Asynchrony is not modelled. Each handler is one atomic step, so the model does not capture
  overlapping add and remove calls, React's lazy updater calls, stale closures, or the
  optimistic list being visible while the call is pending.
- Rendering is left out: the JSX, the `Modal`, `Error` and `DeleteConfirmation` components, and
  the logo.
- The path that confirms a removal with no target or with an undefined list is not modelled.
  `Workflow.App.RemovePlace` requires both to be defined. The confirmation can only be opened
  on a place of the displayed list, and the code itself does not handle the other case.
