/**
 * The milestone list held by the milestone context provider and its two
 * updaters, append and delete-by-id, each a pure function from the previous
 * list to the next one. There is no update operation. Ids are not checked
 * for uniqueness: an add with an id already present creates a second entry,
 * and a delete removes all entries with that id.
 */
module Milestones {
  import opened JsArray

  datatype Milestone = Milestone(
    id: string,
    name: string,
    description: string,
    isOngoing: bool,
    achievedDate: string)

  /** `addMilestone`: the new record goes at the end, behind every earlier one. */
  function AddMilestone(prev: seq<Milestone>, milestone: Milestone): (r: seq<Milestone>)
    ensures |r| == |prev| + 1
    ensures r[|prev|] == milestone
    ensures r[..|prev|] == prev
  {
    prev + [milestone]
  }

  /** `deleteMilestone`: drops every record carrying `id` and keeps all the others. */
  function DeleteMilestone(prev: seq<Milestone>, id: string): (r: seq<Milestone>)
    ensures forall m :: m in r ==> m.id != id
    ensures forall m :: m in prev && m.id != id ==> m in r
    ensures forall m :: m in r ==> m in prev
    ensures IsSubsequence(r, prev)
  {
    var keep := (m: Milestone) => m.id != id;
    FilterIsSubsequence(prev, keep);
    Filter(prev, keep)
  }

  /** How many entries of `s` carry `id`. */
  function CountWithId(s: seq<Milestone>, id: string): nat
  {
    |Filter(s, (m: Milestone) => m.id == id)|
  }

  /** Deleting removes exactly the entries carrying `id`, duplicates included. */
  lemma DeleteMilestoneLength(prev: seq<Milestone>, id: string)
    ensures |DeleteMilestone(prev, id)| == |prev| - CountWithId(prev, id)
  {
    FilterSplitsLength(prev, (m: Milestone) => m.id != id, (m: Milestone) => m.id == id);
  }

  /** Deleting keeps each surviving record exactly as often as it occurred. */
  lemma DeleteMilestoneMultiplicity(prev: seq<Milestone>, id: string, m: Milestone)
    ensures multiset(DeleteMilestone(prev, id))[m] == if m.id == id then 0 else multiset(prev)[m]
  {
    FilterMultiplicity(prev, (x: Milestone) => x.id != id, m);
  }

  /** Adding never checks the id: the new entry joins any entries already carrying it. */
  lemma AddMilestoneDuplicateId(prev: seq<Milestone>, milestone: Milestone)
    ensures CountWithId(AddMilestone(prev, milestone), milestone.id) == CountWithId(prev, milestone.id) + 1
  {
    var same := (m: Milestone) => m.id == milestone.id;
    FilterConcat(prev, [milestone], same);
    assert Filter([milestone], same) == [milestone];
  }

  /** Deleting an id that no record carries returns the list unchanged. */
  lemma DeleteMilestoneAbsent(prev: seq<Milestone>, id: string)
    requires forall m :: m in prev ==> m.id != id
    ensures DeleteMilestone(prev, id) == prev
  {
    FilterKeepsAll(prev, (m: Milestone) => m.id != id);
  }

  /** Deleting the same id twice is deleting it once. */
  lemma DeleteMilestoneIdempotent(prev: seq<Milestone>, id: string)
    ensures DeleteMilestone(DeleteMilestone(prev, id), id) == DeleteMilestone(prev, id)
  {
    FilterIdempotent(prev, (x: Milestone) => x.id != id);
  }

  /** Deleting the id of a record just added removes it together with every earlier entry carrying that id. */
  lemma DeleteAfterAddMilestone(prev: seq<Milestone>, milestone: Milestone)
    ensures DeleteMilestone(AddMilestone(prev, milestone), milestone.id) == DeleteMilestone(prev, milestone.id)
  {
    var keep := (m: Milestone) => m.id != milestone.id;
    FilterConcat(prev, [milestone], keep);
    assert Filter([milestone], keep) == [];
  }

  /** When no earlier record carried the new id, deleting it right after the add restores the list. */
  lemma DeleteAfterAddMilestoneRestores(prev: seq<Milestone>, milestone: Milestone)
    requires forall m :: m in prev ==> m.id != milestone.id
    ensures DeleteMilestone(AddMilestone(prev, milestone), milestone.id) == prev
  {
    DeleteAfterAddMilestone(prev, milestone);
    DeleteMilestoneAbsent(prev, milestone.id);
  }

  /** The list after adding `added` one at a time, in order, to `prev`. */
  function AddAllMilestones(prev: seq<Milestone>, added: seq<Milestone>): seq<Milestone>
    decreases added
  {
    if added == [] then prev
    else AddAllMilestones(AddMilestone(prev, added[0]), added[1..])
  }

  /** A run of adds leaves the records in insertion order, one entry per add. */
  lemma {:induction false} AddAllMilestonesInOrder(prev: seq<Milestone>, added: seq<Milestone>)
    ensures AddAllMilestones(prev, added) == prev + added
    decreases added
  {
    if added != [] {
      AddAllMilestonesInOrder(prev + [added[0]], added[1..]);
      assert prev + [added[0]] + added[1..] == prev + added;
    }
  }
}
