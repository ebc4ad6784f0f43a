/**
  `process_selector_reference`: a code reference to a selector string that
  lies in `__objc_stubs` names the trampoline it belongs to. Three candidate
  starts are tried in a fixed order; the first whose five words have the
  trampoline shape and for which the binder yields a function is renamed.
*/
module Locator {

  import opened Wrappers
  import opened Host
  import opened Trampolines
  import opened SelectorNames

  /** `potential_starts`: 20, 16 and 24 bytes before the reference, in that order. */
  function Candidates(ref: int): seq<int>
  {
    [ref - 20, ref - 16, ref - 24]
  }

  /** The candidate has the trampoline shape and the binder yields a function there. */
  predicate Accepts(bv: BinaryView, start: int)
  {
    IsTrampoline(bv.image, start) && start in bv.bindable
  }

  /** The index of the first accepted candidate, or `|cs|` when there is none. */
  function FirstAccepted(bv: BinaryView, cs: seq<int>): (i: nat)
    ensures i <= |cs|
    ensures i < |cs| ==> Accepts(bv, cs[i])
    ensures forall k :: 0 <= k < i ==> !Accepts(bv, cs[k])
  {
    if cs == [] then 0
    else if Accepts(bv, cs[0]) then 0
    else 1 + FirstAccepted(bv, cs[1..])
  }

  /** The first accepted index is the one before which nothing is accepted. */
  lemma FirstAcceptedAt(bv: BinaryView, cs: seq<int>, n: nat)
    requires n <= |cs|
    requires forall k :: 0 <= k < n ==> !Accepts(bv, cs[k])
    requires n < |cs| ==> Accepts(bv, cs[n])
    ensures FirstAccepted(bv, cs) == n
  {
  }

  /** The rename one reference leads to, if any. */
  function ReferenceOutcome(bv: BinaryView, selectorName: string, ref: int, stubs: Section): Option<Rename>
  {
    if !InSection(stubs, ref) then None
    else
      var cs := Candidates(ref);
      var i := FirstAccepted(bv, cs);
      if i < |cs| then Some(Rename(cs[i], TrampolineName(selectorName))) else None
  }

  /** The candidates whose shape is examined, in order: none outside the stubs, and none after the first accepted. */
  function Examined(bv: BinaryView, ref: int, stubs: Section): seq<int>
  {
    if !InSection(stubs, ref) then []
    else
      var cs := Candidates(ref);
      var i := FirstAccepted(bv, cs);
      if i < |cs| then cs[..i + 1] else cs
  }

  /**
    The first-fit loop. `tried` records the candidates whose words were read.
    The binder step is the membership test on `bv.bindable`; when it fails the
    loop moves on to the next candidate.
  */
  method ProcessSelectorReference(bv: BinaryView, selectorName: string, ref: int, stubs: Section)
    returns (renamed: Option<Rename>, ghost tried: seq<int>)
    ensures renamed == ReferenceOutcome(bv, selectorName, ref, stubs)
    ensures tried == Examined(bv, ref, stubs)
  {
    if !(stubs.start <= ref < stubs.end) {
      return None, [];
    }
    var starts := Candidates(ref);
    var n := 0;
    tried := [];
    while n < |starts|
      invariant 0 <= n <= |starts|
      invariant tried == starts[..n]
      invariant forall k :: 0 <= k < n ==> !Accepts(bv, starts[k])
    {
      var start := starts[n];
      tried := tried + [start];
      var valid := IsValidObjcTrampoline(bv.image, start);
      if valid {
        var fullName := TrampolineName(selectorName);
        if start in bv.bindable {
          FirstAcceptedAt(bv, starts, n);
          return Some(Rename(start, fullName)), tried;
        }
      }
      assert !Accepts(bv, starts[n]);
      n := n + 1;
    }
    FirstAcceptedAt(bv, starts, |starts|);
    return None, tried;
  }

  /** No two of the candidates can both have the trampoline shape: they lie 4 or 8 bytes apart. */
  lemma AtMostOneShape(image: map<int, Byte>, ref: int, i: nat, j: nat)
    requires i < 3 && j < 3
    requires IsTrampoline(image, Candidates(ref)[i]) && IsTrampoline(image, Candidates(ref)[j])
    ensures i == j
  {
    ShiftedTrampolineClash(image, ref - 24, 4);
    ShiftedTrampolineClash(image, ref - 24, 8);
    ShiftedTrampolineClash(image, ref - 20, 4);
  }

  /**
    A reference yields a rename exactly when it lies in the stubs and some
    candidate is accepted; the renamed start is then the only candidate with
    the trampoline shape, and it receives the selector's trampoline name.
  */
  lemma ReferenceOutcomeMeaning(bv: BinaryView, selectorName: string, ref: int, stubs: Section)
    ensures ReferenceOutcome(bv, selectorName, ref, stubs).Some? <==>
              InSection(stubs, ref) && exists k :: 0 <= k < 3 && Accepts(bv, Candidates(ref)[k])
    ensures ReferenceOutcome(bv, selectorName, ref, stubs).Some? ==>
              var r := ReferenceOutcome(bv, selectorName, ref, stubs).value;
              && r.name == TrampolineName(selectorName)
              && ref - 24 <= r.address <= ref - 16
              && IsTrampoline(bv.image, r.address) && r.address in bv.bindable
              && forall k :: 0 <= k < 3 && IsTrampoline(bv.image, Candidates(ref)[k]) ==> Candidates(ref)[k] == r.address
  {
    var cs := Candidates(ref);
    var i := FirstAccepted(bv, cs);
    if InSection(stubs, ref) && i < |cs| {
      forall k | 0 <= k < 3 && IsTrampoline(bv.image, cs[k]) ensures cs[k] == cs[i] {
        AtMostOneShape(bv.image, ref, k, i);
      }
    }
  }

  /**
    Falling through after a failed binder step never renames: when a
    candidate has the shape but the binder yields no function there, no other
    candidate has the shape, so the reference yields no rename.
  */
  lemma BinderFailureIsFinal(bv: BinaryView, selectorName: string, ref: int, stubs: Section, k: nat)
    requires k < 3
    requires IsTrampoline(bv.image, Candidates(ref)[k]) && Candidates(ref)[k] !in bv.bindable
    ensures ReferenceOutcome(bv, selectorName, ref, stubs) == None
  {
    var cs := Candidates(ref);
    var i := FirstAccepted(bv, cs);
    if i < |cs| {
      AtMostOneShape(bv.image, ref, k, i);
    }
  }

  /** When `ref - 20` lacks the shape and `ref - 16` is accepted, `ref - 16` is renamed. */
  lemma SecondCandidateWins(bv: BinaryView, selectorName: string, ref: int, stubs: Section)
    requires InSection(stubs, ref)
    requires !IsTrampoline(bv.image, ref - 20) && Accepts(bv, ref - 16)
    ensures ReferenceOutcome(bv, selectorName, ref, stubs) == Some(Rename(ref - 16, TrampolineName(selectorName)))
    ensures Examined(bv, ref, stubs) == [ref - 20, ref - 16]
  {
    var cs := Candidates(ref);
    assert !Accepts(bv, cs[0]) && Accepts(bv, cs[1]);
  }

  /** Once `ref - 20` or `ref - 16` is accepted, `ref - 24` is never examined. */
  lemma LastCandidateNotExaminedAfterSuccess(bv: BinaryView, ref: int, stubs: Section)
    requires Accepts(bv, ref - 20) || Accepts(bv, ref - 16)
    ensures ref - 24 !in Examined(bv, ref, stubs)
    ensures |Examined(bv, ref, stubs)| <= 2
  {
    var cs := Candidates(ref);
    assert Accepts(bv, cs[0]) || Accepts(bv, cs[1]);
  }

  /** Membership is half-open: a reference at the end of the stubs, or before their start, is skipped unread. */
  lemma OutsideStubsSkipped(bv: BinaryView, selectorName: string, ref: int, stubs: Section)
    requires ref < stubs.start || ref >= stubs.end
    ensures ReferenceOutcome(bv, selectorName, ref, stubs) == None
    ensures Examined(bv, ref, stubs) == []
  {
  }
}
