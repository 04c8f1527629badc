/** The pure list updaters of the picked-places workflow: the function handed to
    `setUserPlaces` on select (add if absent, newest first), the filter handed to
    it on remove, the payloads sent to the remote service, and the choice of the
    error message shown after a failed update. */
module PickedPlaces {
  import opened Places

  /** Fallback message when a failed select carries no message of its own. */
  const SelectFallback: string := "Failed to update places."
  /** Fallback message when a failed remove carries no message of its own. */
  const DeleteFallback: string := "Failed to delete place."

  /** The list an updater starts from: an undefined list counts as empty. */
  function Known(prev: Option<seq<Place>>): seq<Place>
  {
    if prev.None? then [] else prev.value
  }

  /** `error.message || fallback`: the message of the failure, or the fallback
      when that message is empty. */
  function ReportedMessage(message: string, fallback: string): (r: string)
    ensures message != "" ==> r == message
    ensures message == "" ==> r == fallback
    ensures fallback != "" ==> r != ""
  {
    if message != "" then message else fallback
  }

  /** The updater of `handleSelectPlace`: keep the list when the candidate's id
      is already there, otherwise put the candidate in front. */
  function SelectUpdater(prev: Option<seq<Place>>, candidate: Place): (r: seq<Place>)
    ensures HasId(r, candidate.id)
    ensures forall p :: p in Known(prev) ==> p in r
    ensures |Known(prev)| <= |r| <= |Known(prev)| + 1
  {
    var base := Known(prev);
    if HasId(base, candidate.id) then base
    else
      assert ([candidate] + base)[0] == candidate;
      [candidate] + base
  }

  /** The payload `handleSelectPlace` sends: the candidate in front of the
      pre-call snapshot, whether or not its id is already in the snapshot. */
  function SelectPayload(snapshot: seq<Place>, candidate: Place): (r: seq<Place>)
    ensures |r| == |snapshot| + 1 && r[0] == candidate && r[1..] == snapshot
  {
    [candidate] + snapshot
  }

  /** The filter of `handleRemovePlace`: the entries whose id differs from `id`,
      in their original order. It is both the local updater and the payload. */
  function Without(places: seq<Place>, id: string): (r: seq<Place>)
    ensures |r| <= |places|
    ensures forall k :: 0 <= k < |r| ==> r[k].id != id
  {
    if places == [] then []
    else if places[0].id != id then [places[0]] + Without(places[1..], id)
      else Without(places[1..], id)
  }

  /** The filter keeps every occurrence of an entry whose id differs from `id`
      and no occurrence of one whose id equals it. */
  lemma {:induction false} WithoutCounts(places: seq<Place>, id: string)
    ensures forall p :: p in Without(places, id) <==> p in places && p.id != id
    ensures forall p :: multiset(Without(places, id))[p]
                     == if p.id != id then multiset(places)[p] else 0
  {
    if places != [] {
      WithoutCounts(places[1..], id);
      assert places == [places[0]] + places[1..];
    }
  }

  // ---------------------------------------------------------------------------
  // Select

  /** A candidate whose id is already picked leaves the list as it was. */
  lemma SelectAlreadyPresent(prev: Option<seq<Place>>, candidate: Place)
    requires HasId(Known(prev), candidate.id)
    ensures SelectUpdater(prev, candidate) == Known(prev)
  {
  }

  /** A candidate with a new id comes first, followed by the previous list in
      its previous order. */
  lemma SelectNew(prev: Option<seq<Place>>, candidate: Place)
    requires !HasId(Known(prev), candidate.id)
    ensures var r := SelectUpdater(prev, candidate);
      |r| == |Known(prev)| + 1 && r[0] == candidate && r[1..] == Known(prev)
  {
  }

  /** Before the list is loaded, selecting gives exactly the one-element list. */
  lemma SelectNoList(candidate: Place)
    ensures SelectUpdater(None, candidate) == [candidate]
  {
  }

  /** Selecting keeps identifiers pairwise distinct. */
  lemma SelectKeepsIdsUnique(prev: Option<seq<Place>>, candidate: Place)
    requires UniqueIds(Known(prev))
    ensures UniqueIds(SelectUpdater(prev, candidate))
  {
    var base := Known(prev);
    if !HasId(base, candidate.id) {
      var r := SelectUpdater(prev, candidate);
      forall i, j | 0 <= i < j < |r| ensures r[i].id != r[j].id {
        assert r[j] == base[j - 1];
        if i > 0 {
          assert r[i] == base[i - 1];
        }
      }
    }
  }

  /** Selecting the same place twice is the same as selecting it once. */
  lemma SelectIdempotent(prev: Option<seq<Place>>, candidate: Place)
    ensures var once := SelectUpdater(prev, candidate);
      SelectUpdater(Some(once), candidate) == once
  {
  }

  /** For a new id the payload sent is exactly the new local list. */
  lemma SelectPayloadMatchesLocal(snapshot: seq<Place>, candidate: Place)
    requires !HasId(snapshot, candidate.id)
    ensures SelectPayload(snapshot, candidate) == SelectUpdater(Some(snapshot), candidate)
  {
  }

  /** For an id already picked, the payload still prepends the candidate: it
      differs from the local list and carries the id twice. */
  lemma SelectPayloadDuplicates(snapshot: seq<Place>, candidate: Place)
    requires HasId(snapshot, candidate.id)
    ensures SelectPayload(snapshot, candidate) != SelectUpdater(Some(snapshot), candidate)
    ensures !UniqueIds(SelectPayload(snapshot, candidate))
  {
    var k :| 0 <= k < |snapshot| && snapshot[k].id == candidate.id;
    var payload := SelectPayload(snapshot, candidate);
    assert payload[k + 1] == snapshot[k];
    assert |payload| != |SelectUpdater(Some(snapshot), candidate)|;
  }

  // ---------------------------------------------------------------------------
  // Remove

  /** The filter commutes with concatenation: filtering a list is filtering
      each part and joining the results, so the original order is kept. */
  lemma {:induction false} WithoutConcat(a: seq<Place>, b: seq<Place>, id: string)
    ensures Without(a + b, id) == Without(a, id) + Without(b, id)
  {
    if a == [] {
      assert a + b == b;
    } else {
      assert (a + b)[1..] == a[1..] + b;
      assert (a + b)[0] == a[0];
      WithoutConcat(a[1..], b, id);
    }
  }

  /** Filtering out an id that is not in the list changes nothing. */
  lemma {:induction false} WithoutAbsent(places: seq<Place>, id: string)
    requires !HasId(places, id)
    ensures Without(places, id) == places
  {
    if places != [] {
      var tail := places[1..];
      assert !HasId(tail, id) by {
        forall k | 0 <= k < |tail| ensures tail[k].id != id {
          assert tail[k] == places[k + 1];
        }
      }
      WithoutAbsent(tail, id);
      assert places == [places[0]] + tail;
    }
  }

  /** With distinct ids, the ids of the places before and after index `k`
      differ from the id at `k`. */
  lemma IdOnlyAt(places: seq<Place>, k: nat)
    requires UniqueIds(places) && k < |places|
    ensures !HasId(places[..k], places[k].id) && !HasId(places[k + 1..], places[k].id)
  {
    var pre, post := places[..k], places[k + 1..];
    forall i | 0 <= i < |pre| ensures pre[i].id != places[k].id {
      assert pre[i] == places[i];
    }
    forall i | 0 <= i < |post| ensures post[i].id != places[k].id {
      assert post[i] == places[k + 1 + i];
    }
  }

  /** With distinct ids, removing the place at index `k` drops exactly that one
      entry and keeps all others in order. */
  lemma RemovesExactlyOne(places: seq<Place>, k: nat)
    requires UniqueIds(places) && k < |places|
    ensures Without(places, places[k].id) == places[..k] + places[k + 1..]
  {
    var id := places[k].id;
    var pre, post := places[..k], places[k + 1..];
    assert places == pre + ([places[k]] + post);
    IdOnlyAt(places, k);
    WithoutConcat(pre, [places[k]] + post, id);
    assert ([places[k]] + post)[1..] == post;
    WithoutAbsent(pre, id);
    WithoutAbsent(post, id);
  }

  /** Removing keeps identifiers pairwise distinct. */
  lemma {:induction false} RemoveKeepsIdsUnique(places: seq<Place>, id: string)
    requires UniqueIds(places)
    ensures UniqueIds(Without(places, id))
  {
    if places != [] {
      var tail := places[1..];
      assert UniqueIds(tail) by {
        forall i, j | 0 <= i < j < |tail| ensures tail[i].id != tail[j].id {
          assert tail[i] == places[i + 1] && tail[j] == places[j + 1];
        }
      }
      RemoveKeepsIdsUnique(tail, id);
      if places[0].id != id {
        IdOnlyAt(places, 0);
        assert places[1..] == tail;
        var rest := Without(tail, id);
        WithoutCounts(tail, id);
        assert !HasId(rest, places[0].id) by {
          forall m | 0 <= m < |rest| ensures rest[m].id != places[0].id {
            assert rest[m] in tail;
          }
        }
        var r := [places[0]] + rest;
        forall i, j | 0 <= i < j < |r| ensures r[i].id != r[j].id {
          assert r[j] == rest[j - 1];
          if i > 0 {
            assert r[i] == rest[i - 1];
          }
        }
      }
    }
  }

  /** Removing a place that was just selected (with a new id) gives back the
      list from before the select. */
  lemma SelectThenRemove(snapshot: seq<Place>, candidate: Place)
    requires !HasId(snapshot, candidate.id)
    ensures Without(SelectUpdater(Some(snapshot), candidate), candidate.id) == snapshot
  {
    WithoutConcat([candidate], snapshot, candidate.id);
    WithoutAbsent(snapshot, candidate.id);
  }

  /** Selecting a place that was just removed moves it to the front. */
  lemma RemoveThenSelect(places: seq<Place>, k: nat)
    requires UniqueIds(places) && k < |places|
    ensures SelectUpdater(Some(Without(places, places[k].id)), places[k])
         == [places[k]] + places[..k] + places[k + 1..]
  {
    RemovesExactlyOne(places, k);
  }
}
