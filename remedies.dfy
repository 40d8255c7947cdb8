/**
 * The remedy list held by the remedy context provider. Its one updater puts
 * the new record in front, so the list is kept newest first, unlike the
 * vaccination and milestone lists, which append. There is no update or
 * delete, and no id check.
 */
module Remedies {

  /** A value that may be `null`, as the profile image is. */
  datatype Option<T> = None | Some(value: T)

  datatype Remedy = Remedy(
    id: string,
    profileImage: Option<string>,
    userName: string,
    remedyImage: string,
    remedyText: string)

  /** `addRemedy`: the new record becomes the head and the previous list its tail. */
  function AddRemedy(prev: seq<Remedy>, remedy: Remedy): (r: seq<Remedy>)
    ensures |r| == |prev| + 1
    ensures r[0] == remedy
    ensures r[1..] == prev
  {
    [remedy] + prev
  }

  /** Two adds leave the later record in front of the earlier one. */
  lemma AddTwoRemediesNewestFirst(prev: seq<Remedy>, first: Remedy, second: Remedy)
    ensures AddRemedy(AddRemedy(prev, first), second) == [second, first] + prev
  {
  }

  /** `s` in reverse order. */
  function Reversed(s: seq<Remedy>): (r: seq<Remedy>)
    ensures |r| == |s|
    ensures forall k :: 0 <= k < |s| ==> r[k] == s[|s| - 1 - k]
  {
    if s == [] then [] else Reversed(s[1..]) + [s[0]]
  }

  /** The list after adding `added` one at a time, in order, to `prev`. */
  function AddAllRemedies(prev: seq<Remedy>, added: seq<Remedy>): seq<Remedy>
    decreases added
  {
    if added == [] then prev
    else AddAllRemedies(AddRemedy(prev, added[0]), added[1..])
  }

  /** A run of adds puts the records in reverse insertion order, newest first, ahead of the old list. */
  lemma {:induction false} AddAllRemediesNewestFirst(prev: seq<Remedy>, added: seq<Remedy>)
    ensures AddAllRemedies(prev, added) == Reversed(added) + prev
    decreases added
  {
    if added != [] {
      AddAllRemediesNewestFirst([added[0]] + prev, added[1..]);
      assert Reversed(added) == Reversed(added[1..]) + [added[0]];
      assert Reversed(added[1..]) + ([added[0]] + prev) == Reversed(added) + prev;
    }
  }

  /** After a run of adds, the record at position `k` is the `k`-th most recent one. */
  lemma AddAllRemediesAt(prev: seq<Remedy>, added: seq<Remedy>, k: nat)
    requires k < |added| + |prev|
    ensures |AddAllRemedies(prev, added)| == |added| + |prev|
    ensures AddAllRemedies(prev, added)[k] ==
      if k < |added| then added[|added| - 1 - k] else prev[k - |added|]
  {
    AddAllRemediesNewestFirst(prev, added);
  }
}
