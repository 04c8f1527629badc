/** Entities of the place picker: a place as the remote service serialises it,
    an optional value for state that may still be undefined, and the outcome
    of the one remote call the picked-places workflow makes. */
module Places {

  /** The image reference of a place: `{ src, alt }`. */
  datatype Image = Image(src: string, alt: string)

  /** A place of the catalog or of the user's picked list. Only `id` takes part
      in the workflow; the coordinates are carried as reals and never computed on. */
  datatype Place = Place(
    id: string,
    title: string,
    image: Image,
    description: string,
    lat: real,
    lon: real)

  /** A value that may be undefined (JavaScript's `undefined`/`null`). */
  datatype Option<+T> = None | Some(value: T)

  /** How the call `updateUserPlaces(payload)` ended: it resolved, or it
      rejected with an error whose `message` may be empty or missing (written ""). */
  datatype Outcome = Ok | Fail(message: string)

  /** The value stored in the "last update error" slot: `{ message }`. */
  datatype UpdateError = UpdateError(message: string)

  /** True when some place of `places` has identifier `id`
      (`places.some((place) => place.id === id)`). */
  predicate HasId(places: seq<Place>, id: string)
  {
    exists k :: 0 <= k < |places| && places[k].id == id
  }

  /** No two entries of `places` share an identifier. */
  predicate UniqueIds(places: seq<Place>)
  {
    forall i, j :: 0 <= i < j < |places| ==> places[i].id != places[j].id
  }
}
