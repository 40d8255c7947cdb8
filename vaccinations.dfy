/**
 * The vaccination list held by the vaccination context provider, and the
 * three updaters it hands to screens. Each updater is a pure function from
 * the previous list to the next one; the provider's state cell simply takes
 * the new list. Ids are supplied by the caller and never checked for
 * uniqueness, so a list may hold several records with the same id; delete
 * and status update then act on every one of them.
 */
module Vaccinations {
  import opened JsArray

  datatype Status = Pending | Completed

  datatype Vaccination = Vaccination(
    id: string,
    name: string,
    lastDate: string,
    dueDate: string,
    status: Status)

  /** `addVaccination`: the new record goes at the end, behind every earlier one. */
  function AddVaccination(prev: seq<Vaccination>, vaccination: Vaccination): (r: seq<Vaccination>)
    ensures |r| == |prev| + 1
    ensures r[|prev|] == vaccination
    ensures r[..|prev|] == prev
  {
    prev + [vaccination]
  }

  /** `deleteVaccination`: drops every record carrying `id` and keeps all the others. */
  function DeleteVaccination(prev: seq<Vaccination>, id: string): (r: seq<Vaccination>)
    ensures forall v :: v in r ==> v.id != id
    ensures forall v :: v in prev && v.id != id ==> v in r
    ensures forall v :: v in r ==> v in prev
    ensures IsSubsequence(r, prev)
  {
    var keep := (v: Vaccination) => v.id != id;
    FilterIsSubsequence(prev, keep);
    Filter(prev, keep)
  }

  /** `updateStatus`: every record carrying `id` gets `status`; nothing else changes. */
  function UpdateStatus(prev: seq<Vaccination>, id: string, status: Status): (r: seq<Vaccination>)
    ensures |r| == |prev|
    ensures forall i :: 0 <= i < |prev| ==>
      && r[i].id == prev[i].id
      && r[i].name == prev[i].name
      && r[i].lastDate == prev[i].lastDate
      && r[i].dueDate == prev[i].dueDate
    ensures forall i :: 0 <= i < |prev| ==>
      r[i].status == if prev[i].id == id then status else prev[i].status
  {
    Map(prev, (v: Vaccination) => if v.id == id then v.(status := status) else v)
  }

  /** Deleting keeps each surviving record exactly as often as it occurred. */
  lemma DeleteVaccinationMultiplicity(prev: seq<Vaccination>, id: string, v: Vaccination)
    ensures multiset(DeleteVaccination(prev, id))[v] == if v.id == id then 0 else multiset(prev)[v]
  {
    FilterMultiplicity(prev, (x: Vaccination) => x.id != id, v);
  }

  /** Deleting an id that no record carries returns the list unchanged. */
  lemma DeleteVaccinationAbsent(prev: seq<Vaccination>, id: string)
    requires forall v :: v in prev ==> v.id != id
    ensures DeleteVaccination(prev, id) == prev
  {
    FilterKeepsAll(prev, (v: Vaccination) => v.id != id);
  }

  /** Deleting an id that some record carries makes the list strictly shorter. */
  lemma DeleteVaccinationPresent(prev: seq<Vaccination>, id: string, v: Vaccination)
    requires v in prev && v.id == id
    ensures |DeleteVaccination(prev, id)| < |prev|
  {
    FilterDropsOne(prev, (x: Vaccination) => x.id != id, v);
  }

  /** Deleting the same id twice is deleting it once. */
  lemma DeleteVaccinationIdempotent(prev: seq<Vaccination>, id: string)
    ensures DeleteVaccination(DeleteVaccination(prev, id), id) == DeleteVaccination(prev, id)
  {
    FilterIdempotent(prev, (x: Vaccination) => x.id != id);
  }

  /** Updating an id that no record carries returns the list unchanged. */
  lemma UpdateStatusAbsent(prev: seq<Vaccination>, id: string, status: Status)
    requires forall v :: v in prev ==> v.id != id
    ensures UpdateStatus(prev, id, status) == prev
  {
  }

  /** A second update of the same id overrides the first: the last status set wins. */
  lemma UpdateStatusLastWins(prev: seq<Vaccination>, id: string, first: Status, second: Status)
    ensures UpdateStatus(UpdateStatus(prev, id, first), id, second) == UpdateStatus(prev, id, second)
  {
  }

  /** Setting the same status twice is setting it once (Completed stays Completed). */
  lemma UpdateStatusIdempotent(prev: seq<Vaccination>, id: string, status: Status)
    ensures UpdateStatus(UpdateStatus(prev, id, status), id, status) == UpdateStatus(prev, id, status)
  {
  }

  /** Updating and then deleting the same id leaves no trace of the update. */
  lemma {:induction false} DeleteAfterUpdateStatus(prev: seq<Vaccination>, id: string, status: Status)
    ensures DeleteVaccination(UpdateStatus(prev, id, status), id) == DeleteVaccination(prev, id)
  {
    if prev != [] {
      var keep := (v: Vaccination) => v.id != id;
      var u := UpdateStatus(prev, id, status);
      assert u[1..] == UpdateStatus(prev[1..], id, status);
      assert u == [u[0]] + u[1..];
      assert prev == [prev[0]] + prev[1..];
      DeleteAfterUpdateStatus(prev[1..], id, status);
      FilterConcat([u[0]], u[1..], keep);
      FilterConcat([prev[0]], prev[1..], keep);
    } else {
      assert UpdateStatus(prev, id, status) == [];
    }
  }

  /** Adding a record then updating its id updates the earlier records and the new one alike. */
  lemma UpdateStatusAfterAdd(prev: seq<Vaccination>, vaccination: Vaccination, id: string, status: Status)
    ensures UpdateStatus(AddVaccination(prev, vaccination), id, status)
      == AddVaccination(UpdateStatus(prev, id, status),
                        if vaccination.id == id then vaccination.(status := status) else vaccination)
  {
  }

  /** The list after adding `added` one at a time, in order, to `prev`. */
  function AddAllVaccinations(prev: seq<Vaccination>, added: seq<Vaccination>): seq<Vaccination>
    decreases added
  {
    if added == [] then prev
    else AddAllVaccinations(AddVaccination(prev, added[0]), added[1..])
  }

  /** A run of adds leaves the records in insertion order, one entry per add. */
  lemma {:induction false} AddAllVaccinationsInOrder(prev: seq<Vaccination>, added: seq<Vaccination>)
    ensures AddAllVaccinations(prev, added) == prev + added
    decreases added
  {
    if added != [] {
      AddAllVaccinationsInOrder(prev + [added[0]], added[1..]);
      assert prev + [added[0]] + added[1..] == prev + added;
    }
  }

  /** Deleting the id of a record just added, when no earlier record carried it, restores the list. */
  lemma DeleteAfterAddVaccination(prev: seq<Vaccination>, vaccination: Vaccination)
    requires forall v :: v in prev ==> v.id != vaccination.id
    ensures DeleteVaccination(AddVaccination(prev, vaccination), vaccination.id) == prev
  {
    var keep := (v: Vaccination) => v.id != vaccination.id;
    FilterConcat(prev, [vaccination], keep);
    FilterKeepsAll(prev, keep);
    assert Filter([vaccination], keep) == [];
  }
}
