/**
 * The database the resource methods work on, as an object whose two tables the
 * methods update in place. The clock (`Date.now()`) and the random draws of
 * `generateResourceID` are parameters.
 */
module Store {
  import opened Options
  import opened JsMaps
  import opened Resources

  class ResourceStore {
    /** `resources`, keyed by id, in row order. */
    var resources: JsMap<Resource>
    /** `reviews`, in row order. */
    var reviews: seq<Review>

    /**
     * Rows are stored under their ids; every review is of an existing resource (rows are
     * never removed, only marked deleted) and carries a clamped rating.
     */
    ghost predicate Valid()
      reads this
    {
      && TableOk(resources)
      && (forall i :: 0 <= i < |reviews| ==> resources.Has(reviews[i].resourceId))
      && (forall i :: 0 <= i < |reviews| ==> 1 <= reviews[i].rating <= 5)
    }

    constructor ()
      ensures Valid() && resources.keys == [] && reviews == []
    {
      resources := Empty();
      reviews := [];
    }

    /**
     * `rateResource`: `false` when the resource does not exist; otherwise one review row
     * with the clamped rating and the current time is appended, whatever the resource's
     * status and however often the reviewer has rated it already.
     */
    method RateResource(resourceId: string, reviewer: string, rating: int, comment: string, nowMs: nat)
      returns (ok: bool)
      requires Valid()
      modifies this
      ensures Valid()
      ensures ok <==> old(resources.Has(resourceId))
      ensures resources == old(resources)
      ensures ok ==> reviews == old(reviews) + [Review(resourceId, reviewer, ClampRating(rating), comment, Seconds(nowMs))]
      ensures !ok ==> reviews == old(reviews)
    {
      if GetResource(resources, resourceId).None? {
        return false;
      }
      var capped := ClampRating(rating);
      var createdAt := Seconds(nowMs);
      reviews := reviews + [Review(resourceId, reviewer, capped, comment, createdAt)];
      ok := true;
    }

    /** The shared shape of the staff `UPDATE`s: `false` and no change when the id is unknown. */
    method StaffAction(resourceId: string, change: Change, staff: string, nowMs: nat) returns (ok: bool)
      requires Valid()
      modifies this
      ensures Valid()
      ensures ok <==> old(resources.Has(resourceId))
      ensures ok ==> resources == old(resources).Set(resourceId, StaffUpdate(old(resources.entries[resourceId]), change, staff, Seconds(nowMs)))
      ensures !ok ==> resources == old(resources)
      ensures reviews == old(reviews)
    {
      var row := GetResource(resources, resourceId);
      if row.None? {
        return false;
      }
      resources := resources.Set(resourceId, StaffUpdate(row.value, change, staff, Seconds(nowMs)));
      ok := true;
    }

    /** `deleteResource`: the row is kept and marked deleted. */
    method DeleteResource(resourceId: string, staff: string, nowMs: nat) returns (ok: bool)
      requires Valid()
      modifies this
      ensures Valid()
      ensures ok <==> old(resources.Has(resourceId))
      ensures ok ==> resources == old(resources).Set(resourceId, StaffUpdate(old(resources.entries[resourceId]), SetStatus(Deleted), staff, Seconds(nowMs)))
      ensures !ok ==> resources == old(resources)
      ensures reviews == old(reviews)
    {
      ok := StaffAction(resourceId, SetStatus(Deleted), staff, nowMs);
    }

    /** `approveTemporaryResource`: the row becomes active, whatever its status was. */
    method ApproveTemporaryResource(resourceId: string, staff: string, nowMs: nat) returns (ok: bool)
      requires Valid()
      modifies this
      ensures Valid()
      ensures ok <==> old(resources.Has(resourceId))
      ensures ok ==> resources == old(resources).Set(resourceId, StaffUpdate(old(resources.entries[resourceId]), SetStatus(Active), staff, Seconds(nowMs)))
      ensures !ok ==> resources == old(resources)
      ensures reviews == old(reviews)
    {
      ok := StaffAction(resourceId, SetStatus(Active), staff, nowMs);
    }

    /** `declineTemporaryResource`: the row is marked deleted, as by `deleteResource`. */
    method DeclineTemporaryResource(resourceId: string, staff: string, nowMs: nat) returns (ok: bool)
      requires Valid()
      modifies this
      ensures Valid()
      ensures ok <==> old(resources.Has(resourceId))
      ensures ok ==> resources == old(resources).Set(resourceId, StaffUpdate(old(resources.entries[resourceId]), SetStatus(Deleted), staff, Seconds(nowMs)))
      ensures !ok ==> resources == old(resources)
      ensures reviews == old(reviews)
    {
      ok := StaffAction(resourceId, SetStatus(Deleted), staff, nowMs);
    }

    method EditTitle(resourceId: string, newTitle: string, staff: string, nowMs: nat) returns (ok: bool)
      requires Valid()
      modifies this
      ensures Valid()
      ensures ok <==> old(resources.Has(resourceId))
      ensures ok ==> resources == old(resources).Set(resourceId, StaffUpdate(old(resources.entries[resourceId]), SetTitle(newTitle), staff, Seconds(nowMs)))
      ensures !ok ==> resources == old(resources)
      ensures reviews == old(reviews)
    {
      ok := StaffAction(resourceId, SetTitle(newTitle), staff, nowMs);
    }

    method EditTag(resourceId: string, newTag: string, staff: string, nowMs: nat) returns (ok: bool)
      requires Valid()
      modifies this
      ensures Valid()
      ensures ok <==> old(resources.Has(resourceId))
      ensures ok ==> resources == old(resources).Set(resourceId, StaffUpdate(old(resources.entries[resourceId]), SetTag(newTag), staff, Seconds(nowMs)))
      ensures !ok ==> resources == old(resources)
      ensures reviews == old(reviews)
    {
      ok := StaffAction(resourceId, SetTag(newTag), staff, nowMs);
    }

    /** `editDescription`: any casing of `none` clears the description. */
    method EditDescription(resourceId: string, newDescription: string, staff: string, nowMs: nat) returns (ok: bool)
      requires Valid()
      modifies this
      ensures Valid()
      ensures ok <==> old(resources.Has(resourceId))
      ensures ok ==> resources == old(resources).Set(resourceId,
        StaffUpdate(old(resources.entries[resourceId]), SetDescription(NormalizeDescription(newDescription)), staff, Seconds(nowMs)))
      ensures !ok ==> resources == old(resources)
      ensures reviews == old(reviews)
    {
      ok := StaffAction(resourceId, SetDescription(NormalizeDescription(newDescription)), staff, nowMs);
    }

    method EditUrl(resourceId: string, newUrl: string, staff: string, nowMs: nat) returns (ok: bool)
      requires Valid()
      modifies this
      ensures Valid()
      ensures ok <==> old(resources.Has(resourceId))
      ensures ok ==> resources == old(resources).Set(resourceId, StaffUpdate(old(resources.entries[resourceId]), SetUrl(newUrl), staff, Seconds(nowMs)))
      ensures !ok ==> resources == old(resources)
      ensures reviews == old(reviews)
    {
      ok := StaffAction(resourceId, SetUrl(newUrl), staff, nowMs);
    }

    method EditAuthor(resourceId: string, newAuthor: string, staff: string, nowMs: nat) returns (ok: bool)
      requires Valid()
      modifies this
      ensures Valid()
      ensures ok <==> old(resources.Has(resourceId))
      ensures ok ==> resources == old(resources).Set(resourceId, StaffUpdate(old(resources.entries[resourceId]), SetAuthor(newAuthor), staff, Seconds(nowMs)))
      ensures !ok ==> resources == old(resources)
      ensures reviews == old(reviews)
    {
      ok := StaffAction(resourceId, SetAuthor(newAuthor), staff, nowMs);
    }

    /**
     * `generateResourceID`: draws identifiers until one is not among the existing ids.
     * The draws are supplied; some draw must be fresh for the loop to stop.
     */
    method GenerateResourceId(draws: seq<Draw>) returns (id: string)
      requires Valid()
      requires forall j :: 0 <= j < |draws| ==> ValidDraw(draws[j])
      requires exists j :: 0 <= j < |draws| && FormatId(draws[j]) !in resources.keys
      ensures id == FormatId(draws[FirstFresh(draws, resources.keys)])
      ensures IsResourceId(id) && !resources.Has(id)
    {
      var existing := resources.keys;
      ghost var first := FirstFresh(draws, existing);
      id := "";
      var i := 0;
      ghost var last := 0;
      while id == "" || id in existing
        invariant 0 <= i <= first + 1
        invariant i == 0 ==> id == ""
        invariant i > 0 ==> last == i - 1 && id == FormatId(draws[last])
        invariant i == first + 1 ==> id != "" && id !in existing
        decreases first + 1 - i
      {
        last := i;
        id := FormatId(draws[i]);
        i := i + 1;
      }
      assert FormatId(draws[last]) !in existing;
      assert last == first;
    }

    /**
     * `addTemporaryResource`: a fresh id, and a pending row with no staff action and a
     * `null` description for `""`, appended to the table.
     */
    method AddTemporaryResource(title: string, tag: string, url: string, description: string, author: string,
                                nowMs: nat, draws: seq<Draw>) returns (id: string)
      requires Valid()
      requires forall j :: 0 <= j < |draws| ==> ValidDraw(draws[j])
      requires exists j :: 0 <= j < |draws| && FormatId(draws[j]) !in resources.keys
      modifies this
      ensures Valid()
      ensures IsResourceId(id) && !old(resources.Has(id))
      ensures id == FormatId(draws[FirstFresh(draws, old(resources.keys))])
      ensures resources == old(resources).Set(id, NewResource(id, title, tag, url, description, author, Seconds(nowMs)))
      ensures resources.keys == old(resources.keys) + [id]
      ensures reviews == old(reviews)
    {
      id := GenerateResourceId(draws);
      var createdAt := Seconds(nowMs);
      resources := resources.Set(id, NewResource(id, title, tag, url, description, author, createdAt));
    }

    /**
     * `serveResources`: the listed rows as choices; with a search text, an id match is
     * pushed first and removed from the candidates before the fuzzy filter runs; the
     * result is cut to 25.
     */
    method ServeResources(tag: string, search: string, fuzzy: (seq<Choice>, string) -> seq<Choice>)
      returns (result: seq<Choice>)
      requires Valid()
      ensures result == ServedChoices(resources.Values(), tag, search, fuzzy)
    {
      var candidates := ListedChoices(resources.Values(), tag);
      ghost var listed := candidates;
      result := [];
      if search != "" {
        var found := FindIdMatch(candidates, search);
        if found.Some? {
          var idMatch := candidates[found.value];
          result := result + [idMatch];
          candidates := WithoutId(candidates, idMatch.value);
          assert result == [listed[found.value]];
        }
        var filtered := fuzzy(candidates, search);
        result := result + filtered;
        assert found.None? ==> result == fuzzy(listed, search);
      } else {
        result := candidates;
      }
      result := Take25(result);
    }
  }
}
